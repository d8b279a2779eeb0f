/**
 * The bit-field primitives of bitfield-c over one 64-bit word: `bitmask`,
 * `get_bit_field` (not swapped), `set_bit_field` and `nth_byte`.
 *
 * Bits of a word are numbered from the most significant end: bit 0 is the
 * top bit and bit 63 the units bit. Bytes are numbered the same way. A field
 * is the run of bits `[startBit, startBit + numBits)`; read out, it is a
 * `numBits`-bit unsigned number whose own bit 0 is its top bit.
 *
 * A word is a natural below 2^64. A right shift by `k` is division by 2^k
 * and a mask of the low `k` bits is the remainder modulo 2^k.
 */
module Bitfield {
  import opened BitArith

  /** `uint64_t` */
  type Word = x: nat | x < 0x1_0000_0000_0000_0000

  /** `uint8_t` */
  type Byte = x: nat | x < 0x100

  lemma WordLimit()
    ensures Pow2(64) == 0x1_0000_0000_0000_0000
    ensures Pow2(8) == 0x100
  {
  }

  /** Bit `k` of `data`, where bit 0 is the most significant bit. */
  function Bit(data: Word, k: nat): nat
    requires k < 64
  {
    LowBit(data, 63 - k)
  }

  /** Bit `i` of a `numBits`-wide field value, where bit 0 is its most significant bit. */
  function FieldBit(field: nat, numBits: nat, i: nat): nat
    requires i < numBits
  {
    LowBit(field, numBits - 1 - i)
  }

  /** `bitmask(numBits)`: the word whose `numBits` low-order bits are set and whose other bits are clear. */
  function Bitmask(numBits: nat): (mask: Word)
    requires numBits <= 64
    ensures forall j: nat :: LowBit(mask, j) == if j < numBits then 1 else 0
  {
    WordLimit();
    Pow2Monotone(numBits, 64);
    AllOnesBits(numBits, Pow2(numBits) - 1);
    Pow2(numBits) - 1
  }

  lemma AllOnesBits(n: nat, ones: nat)
    requires ones == Pow2(n) - 1
    ensures forall j: nat :: LowBit(ones, j) == if j < n then 1 else 0
  {
    forall j: nat
      ensures LowBit(ones, j) == if j < n then 1 else 0
    {
      AllOnesBit(n, j);
    }
  }

  /** Taking the remainder modulo 2^n keeps exactly the bits that `Bitmask(n)` has set: it is `x & bitmask(n)`. */
  lemma MaskIsBitwiseAnd(x: Word, n: nat, j: nat)
    requires n <= 64
    ensures LowBit(x % Pow2(n), j) == if LowBit(Bitmask(n), j) == 1 then LowBit(x, j) else 0
  {
    Split(x, n);
    var mask := Bitmask(n);
    if j < n {
      ConcatBitLow(x / Pow2(n), x % Pow2(n), n, j);
    } else {
      LowBitBeyond(x % Pow2(n), n, j);
    }
  }

  /** The field of `data` at `[startBit, startBit + numBits)` read out as a number. */
  lemma FieldOfWord(data: Word, startBit: nat, numBits: nat, field: nat)
    requires startBit + numBits <= 64
    requires field == (data / Pow2(64 - startBit - numBits)) % Pow2(numBits)
    ensures forall i :: 0 <= i < numBits ==> FieldBit(field, numBits, i) == Bit(data, startBit + i)
  {
    var shift := 64 - startBit - numBits;
    var shifted := data / Pow2(shift);
    Split(data, shift);
    Split(shifted, numBits);
    forall i | 0 <= i < numBits
      ensures FieldBit(field, numBits, i) == Bit(data, startBit + i)
    {
      var j := numBits - 1 - i;
      ConcatBitHigh(shifted, data % Pow2(shift), shift, 63 - (startBit + i), j);
      ConcatBitLow(shifted / Pow2(numBits), field, numBits, j);
    }
  }

  /**
   * `get_bit_field(data, startBit, numBits, false)`: the field right-aligned.
   * The result has no bit set above its width, and its bit `i` is bit
   * `startBit + i` of `data`. Only the unswapped form is modelled.
   */
  function GetBitField(data: Word, startBit: nat, numBits: nat, swapped: bool): (field: Word)
    requires !swapped
    requires 1 <= numBits && startBit + numBits <= 64
    ensures field < Pow2(numBits)
    ensures forall i :: 0 <= i < numBits ==> FieldBit(field, numBits, i) == Bit(data, startBit + i)
  {
    WordLimit();
    Pow2Monotone(numBits, 64);
    FieldOfWord(data, startBit, numBits, (data / Pow2(64 - startBit - numBits)) % Pow2(numBits));
    (data / Pow2(64 - startBit - numBits)) % Pow2(numBits)
  }

  /** The two postconditions of `GetBitField` pin its result down: no other value satisfies them. */
  lemma GetBitFieldUnique(data: Word, startBit: nat, numBits: nat, field: nat)
    requires 1 <= numBits && startBit + numBits <= 64
    requires field < Pow2(numBits)
    requires forall i :: 0 <= i < numBits ==> FieldBit(field, numBits, i) == Bit(data, startBit + i)
    ensures field == GetBitField(data, startBit, numBits, false)
  {
    var got := GetBitField(data, startBit, numBits, false);
    forall j | 0 <= j < numBits
      ensures LowBit(field, j) == LowBit(got, j)
    {
      assert FieldBit(field, numBits, numBits - 1 - j) == FieldBit(got, numBits, numBits - 1 - j);
    }
    BitsDetermine(field, got, numBits);
  }

  /** Bit 0 is the most significant bit: the one-bit field at 0 is 1 exactly when the word is at least 2^63. */
  lemma TopBitIsBitZero(data: Word)
    ensures GetBitField(data, 0, 1, false) == if data >= Pow2(63) then 1 else 0
  {
  }

  /** `nth_byte(data, byteIndex)`: byte `byteIndex`, where byte 0 is the most significant byte. */
  function NthByte(data: Word, byteIndex: nat): (byte: Byte)
    requires byteIndex <= 7
    ensures byte == GetBitField(data, 8 * byteIndex, 8, false)
  {
    WordLimit();
    assert 64 - (byteIndex + 1) * 8 == 64 - 8 * byteIndex - 8;
    (data / Pow2(64 - (byteIndex + 1) * 8)) % 256
  }

  /** The bytes of a word, most significant first. */
  function Bytes(data: Word): (bytes: seq<Byte>)
    ensures |bytes| == 8
  {
    seq(8, i requires 0 <= i < 8 => NthByte(data, i))
  }

  /** The number whose big-endian bytes are `bytes`. */
  function FromBytes(bytes: seq<Byte>): nat {
    if |bytes| == 0 then 0 else FromBytes(bytes[..|bytes| - 1]) * 256 + bytes[|bytes| - 1]
  }

  lemma {:induction false} BytesPrefix(data: Word, k: nat)
    requires k <= 8
    ensures FromBytes(Bytes(data)[..k]) == data / Pow2(64 - 8 * k)
  {
    WordLimit();
    if k == 0 {
      DivModUnique(data, Pow2(64), 0, data);
    } else {
      var bytes := Bytes(data);
      BytesPrefix(data, k - 1);
      assert bytes[..k][..k - 1] == bytes[..k - 1];
      var y := data / Pow2(64 - 8 * k);
      ShiftShift(data, 64 - 8 * k, 8, 64 - 8 * (k - 1));
      assert bytes[k - 1] == y % 256;
      DivMod(y, 256);
    }
  }

  /** The eight bytes `NthByte` reads out rebuild the word: no bit is lost or read twice. */
  lemma BytesRebuildWord(data: Word)
    ensures FromBytes(Bytes(data)) == data
  {
    BytesPrefix(data, 8);
    assert Bytes(data)[..8] == Bytes(data);
  }

  /**
   * The word with `high` in bits `[0, startBit)`, the `numBits`-bit `field`
   * in bits `[startBit, startBit + numBits)` and `low` in the bits after it.
   * Its parts are `int` for the solver-cost reason given at `Concat`.
   */
  function Assemble(high: int, field: int, low: int, startBit: nat, numBits: nat): (w: int)
    requires startBit + numBits <= 64
    ensures high >= 0 && field >= 0 && low >= 0 ==> w >= 0
  {
    Concat(Concat(high, field, numBits), low, 64 - startBit - numBits)
  }

  /** Every word is its bits before the field, the field and its bits after the field. */
  lemma AssembleOfWord(data: Word, startBit: nat, numBits: nat)
    requires 1 <= numBits && startBit + numBits <= 64
    ensures data == Assemble(data / Pow2(64 - startBit), GetBitField(data, startBit, numBits, false),
                             data % Pow2(64 - startBit - numBits), startBit, numBits)
  {
    var shift := 64 - startBit - numBits;
    var shifted := data / Pow2(shift);
    Split(data, shift);
    Split(shifted, numBits);
    ShiftShift(data, shift, numBits, 64 - startBit);
  }

  /** An assembled word fits in 64 bits, and reading its field gives back `field`. */
  lemma AssembleGet(high: nat, field: nat, low: nat, startBit: nat, numBits: nat)
    requires 1 <= numBits && startBit + numBits <= 64
    requires high < Pow2(startBit) && field < Pow2(numBits) && low < Pow2(64 - startBit - numBits)
    ensures Assemble(high, field, low, startBit, numBits) < 0x1_0000_0000_0000_0000
    ensures GetBitField(Assemble(high, field, low, startBit, numBits), startBit, numBits, false) == field
  {
    var shift := 64 - startBit - numBits;
    var upper := Concat(high, field, numBits);
    WordLimit();
    ConcatBound(high, field, numBits, startBit, startBit + numBits);
    ConcatBound(upper, low, shift, startBit + numBits, 64);
    ConcatParts(upper, low, shift);
    ConcatParts(high, field, numBits);
  }

  /** Outside the field, the bits of an assembled word come from `high` and `low` alone. */
  lemma AssembleBitOutside(high: nat, field: nat, low: nat, startBit: nat, numBits: nat, k: nat)
    requires 1 <= numBits && startBit + numBits <= 64
    requires field < Pow2(numBits) && low < Pow2(64 - startBit - numBits)
    requires k < startBit || startBit + numBits <= k < 64
    ensures LowBit(Assemble(high, field, low, startBit, numBits), 63 - k)
         == if k < startBit then LowBit(high, startBit - 1 - k) else LowBit(low, 63 - k)
  {
    var shift := 64 - startBit - numBits;
    var upper := Concat(high, field, numBits);
    if k < startBit {
      ConcatBitHigh(upper, low, shift, 63 - k, numBits + (startBit - 1 - k));
      ConcatBitHigh(high, field, numBits, numBits + (startBit - 1 - k), startBit - 1 - k);
    } else {
      ConcatBitLow(upper, low, shift, 63 - k);
    }
  }

  lemma MulAddDistrib(a: int, b: int, p: int)
    ensures (a + b) * p == a * p + b * p
  {
  }

  /** The part of `data` above the field `[startBit, startBit + numBits)` fits in `startBit` bits. */
  lemma HighBound(data: Word, startBit: nat)
    requires startBit <= 64
    ensures 0 <= data / Pow2(64 - startBit) < Pow2(startBit)
  {
    WordLimit();
    Split(data, 64 - startBit);
    ShiftBound(data, 64 - startBit, startBit, 64);
  }

  /**
   * `data & ~(bitmask(numBits) << (64 - startBit - numBits))`: the word with
   * its field cleared. The field's bits are bits of `data`, so clearing them
   * subtracts the field, shifted into place; the reduction modulo 2^64 is the
   * `uint64_t` arithmetic of C and never changes the result
   * (`ClearFieldAssembled`).
   */
  function ClearField(data: Word, startBit: nat, numBits: nat): (cleared: Word)
    requires 1 <= numBits && startBit + numBits <= 64
  {
    (data - GetBitField(data, startBit, numBits, false) * Pow2(64 - startBit - numBits)) % 0x1_0000_0000_0000_0000
  }

  /** Clearing keeps the bits before and after the field and leaves a zero field. */
  lemma ClearFieldAssembled(data: Word, startBit: nat, numBits: nat)
    requires 1 <= numBits && startBit + numBits <= 64
    ensures ClearField(data, startBit, numBits)
         == Assemble(data / Pow2(64 - startBit), 0, data % Pow2(64 - startBit - numBits), startBit, numBits)
    ensures GetBitField(ClearField(data, startBit, numBits), startBit, numBits, false) == 0
  {
    var shift := 64 - startBit - numBits;
    var field := GetBitField(data, startBit, numBits, false);
    var high := data / Pow2(64 - startBit);
    var raw := data - field * Pow2(shift);
    HighBound(data, startBit);
    Split(data, shift);
    AssembleOfWord(data, startBit, numBits);
    MulAddDistrib(high * Pow2(numBits), field, Pow2(shift));
    AssembleGet(high, 0, data % Pow2(shift), startBit, numBits);
    assert raw == Assemble(high, 0, data % Pow2(shift), startBit, numBits);
    DivModUnique(raw, 0x1_0000_0000_0000_0000, 0, raw);
  }

  /**
   * The word `set_bit_field` leaves behind: `data` with its field cleared and
   * the low `numBits` bits of `value`, shifted into place, or-ed in (the two
   * never share a set bit, so the or is a sum).
   */
  function SetField(data: Word, value: Word, startBit: nat, numBits: nat): (updated: Word)
    requires 1 <= numBits && startBit + numBits <= 64
  {
    (ClearField(data, startBit, numBits) + (value % Pow2(numBits)) * Pow2(64 - startBit - numBits)) % 0x1_0000_0000_0000_0000
  }

  /** `SetField` puts the masked value in the field and keeps the bits around it. */
  lemma SetFieldAssembled(data: Word, value: Word, startBit: nat, numBits: nat)
    requires 1 <= numBits && startBit + numBits <= 64
    ensures SetField(data, value, startBit, numBits)
         == Assemble(data / Pow2(64 - startBit), value % Pow2(numBits), data % Pow2(64 - startBit - numBits), startBit, numBits)
  {
    var shift := 64 - startBit - numBits;
    var high := data / Pow2(64 - startBit);
    var field := value % Pow2(numBits);
    var raw := ClearField(data, startBit, numBits) + field * Pow2(shift);
    HighBound(data, startBit);
    Split(data, shift);
    Split(value, numBits);
    ClearFieldAssembled(data, startBit, numBits);
    MulAddDistrib(high * Pow2(numBits), field, Pow2(shift));
    AssembleGet(high, field, data % Pow2(shift), startBit, numBits);
    assert raw == Assemble(high, field, data % Pow2(shift), startBit, numBits);
    DivModUnique(raw, 0x1_0000_0000_0000_0000, 0, raw);
  }

  /** Round trip: reading back the field just written gives the value written, masked to the field's width. */
  lemma SetThenGet(data: Word, value: Word, startBit: nat, numBits: nat)
    requires 1 <= numBits && startBit + numBits <= 64
    ensures GetBitField(SetField(data, value, startBit, numBits), startBit, numBits, false) == value % Pow2(numBits)
    ensures value < Pow2(numBits) ==> GetBitField(SetField(data, value, startBit, numBits), startBit, numBits, false) == value
  {
    SetFieldAssembled(data, value, startBit, numBits);
    HighBound(data, startBit);
    AssembleGet(data / Pow2(64 - startBit), value % Pow2(numBits), data % Pow2(64 - startBit - numBits), startBit, numBits);
    if value < Pow2(numBits) {
      DivModUnique(value, Pow2(numBits), 0, value);
    }
  }

  /** Frame: every bit outside `[startBit, startBit + numBits)` is the bit `data` had there. */
  lemma SetFieldFrame(data: Word, value: Word, startBit: nat, numBits: nat)
    requires 1 <= numBits && startBit + numBits <= 64
    ensures forall k :: 0 <= k < 64 && !(startBit <= k < startBit + numBits) ==>
      Bit(SetField(data, value, startBit, numBits), k) == Bit(data, k)
  {
    var shift := 64 - startBit - numBits;
    var high, low := data / Pow2(64 - startBit), data % Pow2(shift);
    var field := GetBitField(data, startBit, numBits, false);
    HighBound(data, startBit);
    Split(data, shift);
    Split(value, numBits);
    SetFieldAssembled(data, value, startBit, numBits);
    AssembleOfWord(data, startBit, numBits);
    forall k | 0 <= k < 64 && !(startBit <= k < startBit + numBits)
      ensures Bit(SetField(data, value, startBit, numBits), k) == Bit(data, k)
    {
      AssembleBitOutside(high, value % Pow2(numBits), low, startBit, numBits, k);
      AssembleBitOutside(high, field, low, startBit, numBits, k);
    }
  }

  /**
   * The round trip and the frame describe `SetField` completely: a word
   * is the result of the write exactly when its field holds the masked value
   * and all its other bits are those of `data`.
   */
  lemma SetFieldCharacterized(data: Word, value: Word, startBit: nat, numBits: nat, w: Word)
    requires 1 <= numBits && startBit + numBits <= 64
    ensures w == SetField(data, value, startBit, numBits) <==>
      GetBitField(w, startBit, numBits, false) == value % Pow2(numBits) &&
      forall k :: 0 <= k < 64 && !(startBit <= k < startBit + numBits) ==> Bit(w, k) == Bit(data, k)
  {
    var updated := SetField(data, value, startBit, numBits);
    SetThenGet(data, value, startBit, numBits);
    SetFieldFrame(data, value, startBit, numBits);
    if GetBitField(w, startBit, numBits, false) == value % Pow2(numBits) &&
       forall k :: 0 <= k < 64 && !(startBit <= k < startBit + numBits) ==> Bit(w, k) == Bit(data, k)
    {
      SameBitsSameWord(w, updated, startBit, numBits);
    }
  }

  /** Two words with the same field and the same bits around it are the same word. */
  lemma SameBitsSameWord(v: Word, w: Word, startBit: nat, numBits: nat)
    requires 1 <= numBits && startBit + numBits <= 64
    requires GetBitField(v, startBit, numBits, false) == GetBitField(w, startBit, numBits, false)
    requires forall k :: 0 <= k < 64 && !(startBit <= k < startBit + numBits) ==> Bit(v, k) == Bit(w, k)
    ensures v == w
  {
    forall j | 0 <= j < 64
      ensures LowBit(v, j) == LowBit(w, j)
    {
      var k := 63 - j;
      assert LowBit(v, j) == Bit(v, k) && LowBit(w, j) == Bit(w, k);
      if startBit <= k < startBit + numBits {
        var i := k - startBit;
        assert FieldBit(GetBitField(v, startBit, numBits, false), numBits, i) == Bit(v, k);
        assert FieldBit(GetBitField(w, startBit, numBits, false), numBits, i) == Bit(w, k);
      }
    }
    WordLimit();
    BitsDetermine(v, w, 64);
  }

  /** Writing the same value twice leaves the word as writing it once. */
  lemma SetFieldIdempotent(data: Word, value: Word, startBit: nat, numBits: nat)
    requires 1 <= numBits && startBit + numBits <= 64
    ensures SetField(SetField(data, value, startBit, numBits), value, startBit, numBits)
         == SetField(data, value, startBit, numBits)
  {
    var once := SetField(data, value, startBit, numBits);
    var twice := SetField(once, value, startBit, numBits);
    SetThenGet(data, value, startBit, numBits);
    SetThenGet(once, value, startBit, numBits);
    SetFieldFrame(data, value, startBit, numBits);
    SetFieldFrame(once, value, startBit, numBits);
    SameBitsSameWord(twice, once, startBit, numBits);
  }

  /** Writing back the field a word already holds leaves the word unchanged. */
  lemma SetFieldOwnValue(data: Word, startBit: nat, numBits: nat)
    requires 1 <= numBits && startBit + numBits <= 64
    ensures SetField(data, GetBitField(data, startBit, numBits, false), startBit, numBits) == data
  {
    var field := GetBitField(data, startBit, numBits, false);
    var updated := SetField(data, field, startBit, numBits);
    DivModUnique(field, Pow2(numBits), 0, field);
    SetThenGet(data, field, startBit, numBits);
    SetFieldFrame(data, field, startBit, numBits);
    SameBitsSameWord(updated, data, startBit, numBits);
  }

  /** The caller-owned word that `set_bit_field` receives by pointer and updates in place. */
  class WordCell {
    var data: Word

    constructor (init: Word)
      ensures data == init
    {
      data := init;
    }

    /**
     * `set_bit_field(&data, value, startBit, numBits)`: clears the field,
     * then ors in the low `numBits` bits of `value` shifted into place.
     */
    method SetBitField(value: Word, startBit: nat, numBits: nat)
      requires 1 <= numBits && startBit + numBits <= 64
      modifies this
      ensures data == SetField(old(data), value, startBit, numBits)
      ensures GetBitField(data, startBit, numBits, false) == value % Pow2(numBits)
      ensures forall k :: 0 <= k < 64 && !(startBit <= k < startBit + numBits) ==> Bit(data, k) == Bit(old(data), k)
    {
      var shift := 64 - startBit - numBits;
      SetThenGet(data, value, startBit, numBits);
      SetFieldFrame(data, value, startBit, numBits);
      data := ClearField(data, startBit, numBits);
      data := (data + (value % Pow2(numBits)) * Pow2(shift)) % 0x1_0000_0000_0000_0000;
    }
  }
}
