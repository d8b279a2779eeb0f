/**
 * The unit tests of bitfield-c as verified lemmas and methods. A test that only reads a
 * word is a lemma about concrete values; a test that writes through
 * `set_bit_field` is a method that drives a `WordCell` the way the C test
 * drives its local `uint64_t`, and returns what the C test inspects. A C
 * test that resets its word and writes again becomes one method per write.
 */
module BitfieldTests {
  import opened BitArith
  import opened Bitfield

  /** `bitmask(32)` is the low 32 bits set. */
  lemma TestLargeBitmask()
    ensures Bitmask(32) == 0xffffffff
  {
  }

  /** Bit 0 is not the units bit: the top bit of `0x80` is clear. */
  lemma TestOneBitNotSwapped()
    ensures GetBitField(0x80, 0, 1, false) != 1
  {
  }

  /** Bit 0 is the most significant bit. */
  lemma TestOneBit()
    ensures GetBitField(0x8000000000000000, 0, 1, false) == 0x1
  {
  }

  lemma Test32BitParse()
    ensures GetBitField(0x0402574d555a0401, 16, 32, false) == 0x574d555a
  {
  }

  lemma Test16BitParse()
    ensures GetBitField(0xF34DFCFF00000000, 16, 16, false) == 0xFCFF
  {
  }

  /** Nibbles and the whole top byte of `0xFA00000000000000`. */
  lemma TestOneByte()
    ensures GetBitField(0xFA00000000000000, 0, 4, false) == 0xF
    ensures GetBitField(0xFA00000000000000, 4, 4, false) == 0xA
    ensures GetBitField(0xFA00000000000000, 0, 8, false) == 0xFA
  {
  }

  /** The four top nibbles of `0x12FA000000000000`, across a byte boundary. */
  lemma TestMultiByte()
    ensures GetBitField(0x12FA000000000000, 0, 4, false) == 0x1
    ensures GetBitField(0x12FA000000000000, 4, 4, false) == 0x2
    ensures GetBitField(0x12FA000000000000, 8, 4, false) == 0xF
    ensures GetBitField(0x12FA000000000000, 12, 4, false) == 0xA
  {
  }

  /** A 9-bit field: `0001 0010 1` is `0x25`. */
  lemma TestGetMultiByte()
    ensures GetBitField(0x12FA000000000000, 0, 9, false) == 0x25
  {
  }

  /** An 8-bit field straddling bytes 1 and 2. */
  lemma TestGetOffByteBoundary()
    ensures GetBitField(0x000012FA00000000, 12, 8, false) == 0x01
  {
  }

  /** `set_field`, first step: a one-bit write at bit 0 of a zero word reads back. */
  method TestSetFieldBitZero() returns (result: Word)
    ensures result == 0x1
  {
    var word := new WordCell(0);
    word.SetBitField(1, 0, 1);
    result := GetBitField(word.data, 0, 1, false);
  }

  /** `set_field`, second step: a one-bit write at bit 1 of a zero word reads back. */
  method TestSetFieldBitOne() returns (result: Word)
    ensures result == 0x1
  {
    var word := new WordCell(0);
    word.SetBitField(1, 1, 1);
    result := GetBitField(word.data, 1, 1, false);
  }

  /** `set_field`, third step: a four-bit write at bit 3 of a zero word reads back. */
  method TestSetFieldNibble() returns (result: Word)
    ensures result == 0xf
  {
    var word := new WordCell(0);
    word.SetBitField(0xf, 3, 4);
    result := GetBitField(word.data, 3, 4, false);
  }

  /** `set_doesnt_clobber_existing_data`, first step: a 16-bit write into a full word reads back. */
  method TestSetDoesntClobberField() returns (result: Word)
    ensures result == 0x4fc8
  {
    var word := new WordCell(0xFFFC4DF300000000);
    word.SetBitField(0x4fc8, 16, 16);
    result := GetBitField(word.data, 16, 16, false);
  }

  /** `set_doesnt_clobber_existing_data`, second step: a one-bit write keeps the top bit already set. */
  method TestSetDoesntClobberTopBit() returns (combined: Word)
    ensures combined == 0x8000040000000000
  {
    var word := new WordCell(0x8000000000000000);
    word.SetBitField(1, 21, 1);
    combined := word.data;
  }

  /** After writing `0x12` into bits 12..19, bits 12..23 read `0x12d`: the `D` nibble after the field survives. */
  method TestSetOffByteBoundary() returns (result: Word)
    ensures result == 0x12d
  {
    var word := new WordCell(0xFFFC4DF300000000);
    word.SetBitField(0x12, 12, 8);
    OffByteBoundaryWord();
    result := GetBitField(word.data, 12, 12, false);
  }

  /** The whole word after that write: `0xFFFC4DF3...` becomes `0xFFF12DF3...`. */
  lemma OffByteBoundaryWord()
    ensures SetField(0xFFFC4DF300000000, 0x12, 12, 8) == 0xFFF12DF300000000
  {
  }

  /** `set_odd_number_of_bits`, first step: `0x12` written into the five bits at 11 reads back. */
  method TestSetOddNumberOfBitsHigh() returns (result: Word)
    ensures result == 0x12
  {
    var word := new WordCell(0xFFFC4DF300000000);
    word.SetBitField(0x12, 11, 5);
    result := GetBitField(word.data, 11, 5, false);
  }

  /** `set_odd_number_of_bits`, second step: `0x2` written into the same five bits reads back. */
  method TestSetOddNumberOfBitsLow() returns (result: Word)
    ensures result == 0x2
  {
    var word := new WordCell(0xFFFC4DF300000000);
    word.SetBitField(0x2, 11, 5);
    result := GetBitField(word.data, 11, 5, false);
  }

  /** Bytes are numbered from the most significant byte: the top byte of `0x00000000F34DFCFF` is zero. */
  lemma TestNthByteTop()
    ensures NthByte(0x00000000F34DFCFF, 0) == 0x0
  {
  }

  /** The four low bytes of `0x00000000F34DFCFF`, most significant first. */
  lemma TestNthByteLow()
    ensures NthByte(0x00000000F34DFCFF, 4) == 0xF3
    ensures NthByte(0x00000000F34DFCFF, 5) == 0x4D
    ensures NthByte(0x00000000F34DFCFF, 6) == 0xFC
    ensures NthByte(0x00000000F34DFCFF, 7) == 0xFF
  {
  }
}
