# bitfield-c: bit fields of a 64-bit word

This project models the bit-field primitives of the bitfield-c library as
its unit tests exercise them. All of them act on one 64-bit word:

- `bitmask(n)` is the word whose `n` low-order bits are set.
- `get_bit_field(data, startBit, numBits, false)` reads the run of bits
  `[startBit, startBit + numBits)` and returns it right-aligned.
- `set_bit_field(&data, value, startBit, numBits)` writes `value` into that
  run of the caller's word and leaves every other bit alone.
- `nth_byte(data, i)` returns byte `i` of the word.

Bit 0 is the most significant bit of the word and byte 0 its most
significant byte.

The project has three files:

- `bit_arith.dfy` (module `BitArith`) holds arithmetic on naturals that
  stands in for C's shifts and masks. `x >> k` is `x / 2^k` and
  `x & ((1 << k) - 1)` is `x % 2^k`. `LowBit(x, j)` is bit `j` counted from
  the units bit. The module proves how a word splits at a bit position
  and how it joins back together.
- `bitfield.dfy` (module `Bitfield`) holds `Word` (a natural below 2^64),
  `Byte` (below 2^8) and the four operations.
  - `Bitmask`, `GetBitField` and `NthByte` are functions.
  - `SetField` is the word that `set_bit_field` leaves behind.
  - `WordCell` is the caller-owned word that `set_bit_field` updates through
    its pointer. Its method `SetBitField` updates that word in place: it
    clears the field and then adds in the shifted value.
  - The lemmas prove:
    - the round trip (set, then get, gives the value back);
    - the frame (set changes no bit outside the field);
    - that round trip and frame together pin `SetField` down;
    - idempotence;
    - that the bytes agree with the bits.
- `bitfield_tests.dfy` (module `BitfieldTests`) turns each concrete case
  of `tests/8byte_tests.c` into a verified lemma or method. A C test that resets its
  word and writes again becomes one method per write.

The implementation files of the library (`bitfield.c`, `bitfield.h`) are not
part of this model. The definitions follow the behaviour the test file pins
down, using the usual shift-then-mask reading of a field. `SetField` keeps
only the low `numBits` bits of `value`. That is a design choice of this
model, not something the tests show (see "## Left out"). `SetThenGet`
states the round trip both for the masked value and, for a value that
fits, exactly.

## Model

| member | source | states |
|---|---|---|
| Bitfield.Bitmask | tests/8byte_tests.c:5-12 | the mask has bit `j` set exactly when `j < numBits`, for every `j`, so its low `numBits` bits are set and all others are clear |
| Bitfield.MaskIsBitwiseAnd | tests/8byte_tests.c:5-12 | reducing a word modulo 2^n keeps bit `j` exactly when `bitmask(n)` has bit `j` set, so it equals the bitwise and with the mask |
| Bitfield.GetBitField | tests/8byte_tests.c:15-104 | the result is below 2^numBits, so all bits above the width are zero; its bit `i`, counted from its top, is bit `startBit + i` of the word, counted from the top |
| Bitfield.GetBitFieldUnique | tests/8byte_tests.c:15-104 | any value below 2^numBits whose bits are the word's bits `[startBit, startBit + numBits)` equals the field that is read, so the contract of `GetBitField` determines it |
| Bitfield.TopBitIsBitZero | tests/8byte_tests.c:15-30 | the one-bit field at bit 0 is 1 exactly when the word is at least 2^63, so bit 0 is the most significant bit |
| Bitfield.NthByte | tests/8byte_tests.c:168-191 | byte `i` is the 8-bit field at bit `8 * i`, so byte 0 is the most significant byte |
| Bitfield.BytesRebuildWord | tests/8byte_tests.c:168-191 | the eight bytes of a word, read most significant first, rebuild the word exactly |
| Bitfield.ClearFieldAssembled | tests/8byte_tests.c:106-166 | clearing the field keeps the bits before and after it and leaves a zero field |
| Bitfield.SetFieldAssembled | tests/8byte_tests.c:106-166 | the written word is the old bits before the field, then the value masked to `numBits` bits, then the old bits after the field |
| Bitfield.SetThenGet | tests/8byte_tests.c:106-131 | reading the field just written gives the value modulo 2^numBits, and gives the value itself when it fits in the field |
| Bitfield.SetFieldFrame | tests/8byte_tests.c:133-148 | every bit outside `[startBit, startBit + numBits)` of the written word is the bit the old word had there |
| Bitfield.SetFieldCharacterized | tests/8byte_tests.c:106-166 | a word is the result of the write if and only if its field holds the masked value and all its other bits are those of the old word |
| Bitfield.SameBitsSameWord | tests/8byte_tests.c:124-148 | two words with the same field and the same bits outside it are equal |
| Bitfield.SetFieldIdempotent | tests/8byte_tests.c:106-166 | writing the same value twice leaves the same word as writing it once |
| Bitfield.SetFieldOwnValue | tests/8byte_tests.c:106-166 | writing back the field a word already holds leaves the word unchanged |
| Bitfield.WordCell.SetBitField | tests/8byte_tests.c:106-166 | the caller's word becomes `SetField` of its old value; reading the field gives the masked value; every bit outside the field keeps its old value |
| BitfieldTests.TestLargeBitmask | tests/8byte_tests.c:5-12 | `bitmask(32)` is `0xffffffff` |
| BitfieldTests.TestOneBitNotSwapped | tests/8byte_tests.c:15-20 | the one-bit field at bit 0 of `0x80` is not 1 |
| BitfieldTests.TestOneBit | tests/8byte_tests.c:23-29 | the one-bit field at bit 0 of `0x8000000000000000` is 1 |
| BitfieldTests.Test32BitParse | tests/8byte_tests.c:32-40 | bits 16..47 of `0x0402574d555a0401` are `0x574d555a` |
| BitfieldTests.Test16BitParse | tests/8byte_tests.c:43-51 | bits 16..31 of `0xF34DFCFF00000000` are `0xFCFF` |
| BitfieldTests.TestOneByte | tests/8byte_tests.c:54-66 | the two top nibbles of `0xFA00000000000000` are `0xF` and `0xA`, and its top byte is `0xFA` |
| BitfieldTests.TestMultiByte | tests/8byte_tests.c:69-88 | the four top nibbles of `0x12FA000000000000` are `0x1`, `0x2`, `0xF` and `0xA` |
| BitfieldTests.TestGetMultiByte | tests/8byte_tests.c:91-96 | the 9-bit field at bit 0 of `0x12FA000000000000` is `0x25` |
| BitfieldTests.TestGetOffByteBoundary | tests/8byte_tests.c:99-104 | the 8-bit field at bit 12 of `0x000012FA00000000` is `0x01` |
| BitfieldTests.TestSetFieldBitZero | tests/8byte_tests.c:108-111 | after writing 1 into bit 0 of a zero word, bit 0 reads 1 |
| BitfieldTests.TestSetFieldBitOne | tests/8byte_tests.c:112-115 | after writing 1 into bit 1 of a zero word, bit 1 reads 1 |
| BitfieldTests.TestSetFieldNibble | tests/8byte_tests.c:117-120 | after writing `0xf` into the 4 bits at bit 3 of a zero word, they read `0xf` |
| BitfieldTests.TestSetDoesntClobberField | tests/8byte_tests.c:126-131 | after writing `0x4fc8` into bits 16..31 of `0xFFFC4DF300000000`, they read `0x4fc8` |
| BitfieldTests.TestSetDoesntClobberTopBit | tests/8byte_tests.c:133-137 | setting bit 21 of `0x8000000000000000` gives exactly `0x8000040000000000` |
| BitfieldTests.OffByteBoundaryWord | tests/8byte_tests.c:141-148 | writing `0x12` into bits 12..19 of `0xFFFC4DF300000000` gives `0xFFF12DF300000000` |
| BitfieldTests.TestSetOffByteBoundary | tests/8byte_tests.c:141-148 | after that write, bits 12..23 read `0x12d`, so the nibble after the field survives |
| BitfieldTests.TestSetOddNumberOfBitsHigh | tests/8byte_tests.c:152-157 | after writing `0x12` into the 5 bits at bit 11 of `0xFFFC4DF300000000`, they read `0x12` |
| BitfieldTests.TestSetOddNumberOfBitsLow | tests/8byte_tests.c:159-164 | after writing `0x2` into the same 5 bits of the same word, they read `0x2` |
| BitfieldTests.TestNthByteTop | tests/8byte_tests.c:170-173 | byte 0 of `0x00000000F34DFCFF` is `0x00` |
| BitfieldTests.TestNthByteLow | tests/8byte_tests.c:175-189 | bytes 4, 5, 6 and 7 of `0x00000000F34DFCFF` are `0xF3`, `0x4D`, `0xFC` and `0xFF` |

## Left out

- SetField: masking `value` down to its low `numBits` bits is a design
  choice. No write in the tests uses a value wider than its field
  (`tests/8byte_tests.c:109`, 113, 118, 127, 134, 144, 153, 160), and the
  library's implementation is not part of this model. An implementation
  that shifted `value` in unmasked would spill the extra bits in front of
  the field. For such values the model promises the masked behaviour, so
  `SetFieldFrame`, the masked half of `SetThenGet` and
  `WordCell.SetBitField` speak only for a masking library.

- `swapped == true`: every call in the tests passes `false`, and nothing
  shown defines the byte order a swapped read would use. `GetBitField`
  therefore requires `!swapped`.
- Calls outside the preconditions: `numBits == 0` or
  `startBit + numBits > 64` for get and set, `numBits > 64` or negative for
  `bitmask`, and a byte index above 7. No test asserts a result for these,
  so they appear only as `requires` clauses.
- The library's implementation files are not part of this model. The
  definitions follow the behaviour the tests pin down.
- Words are naturals below 2^64, and C's `&`, `|`, `~`, `<<` and `>>` are
  written as division, remainder and sums. `MaskIsBitwiseAnd` ties the
  remainder to the bitwise and with `bitmask`.
- The test harness is not modelled: suite construction, the runner and
  `main` (`tests/8byte_tests.c:193-225`), and the printf-style failure
  messages. The messages carry no behaviour.
- The C tests `test_set_field`, `test_set_doesnt_clobber_existing_data`,
  `test_set_odd_number_of_bits` and `test_nth_byte` each split into several
  members, one per independent check, instead of one member per C function.
