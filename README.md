# Panda3DS bit-manipulation helpers in Dafny

This project models the `Helpers` namespace of the Panda3DS Nintendo 3DS
emulator (`include/helpers.hpp`): the integer helpers that the CPU and GPU
emulation code uses to decode instruction fields and registers. It covers
sign extension (`signExtend32`, `signExtend16`), masks and bit fields
(`ones`, `getBit`, `getBits`, `isBitSet`), rotations (`rotr`, `rotl`), the
packed-BCD increment `incBCDByte`, and the size literals `_KB`, `_MB`,
`_GB`.

Every helper is pure, so every helper is a Dafny `function`. Values are
mathematical integers. A value of a `w`-bit unsigned type is an integer in
[0, 2^w). The C++20 rules the helpers depend on are written out in module
`CppInt`:

- integral promotion: u8 and u16 operands become the 32-bit `int` before a
  shift or a bitwise operator;
- `>>` rounds down;
- a signed `<<` gives the value congruent modulo 2^w;
- a conversion to an unsigned type reduces modulo 2^w;
- a shift by the promoted width or more is undefined, and a `requires`
  rules it out.

A template over an unsigned `T` becomes one definition with a `width`
parameter of 8, 16, 32 or 64. Bits are read arithmetically: `Bit(x, i)` is
whether `x / 2^i` is odd. `&` and `|` are defined recursively on halves.

Modules:

- `Arithmetic`: powers of two and Euclidean division.
- `Bits`: bits, `&` and `|`.
- `CppInt`: the C++ integer rules listed above.
- `SignExtension`, `BitFields`, `Rotation`, `Bcd` and `SizeLiterals`: the
  helpers.

## Model

| member | source | states |
|---|---|---|
| SignExtension.SignExtended | include/helpers.hpp:85 | reference meaning of sign extension: bit `i` of the result is bit `i` of the value below `n` and bit `n - 1` (the sign bit) from `n` up to the width |
| SignExtension.SignExtend32 | include/helpers.hpp:85-90 | equals the reference sign extension to 32 bits; keeps the low `startingSize` bits; copies the sign bit into every higher bit; read as `s32` it is the low bits read as a `startingSize`-bit signed number; a `startingSize` of 32 returns the value unchanged |
| SignExtension.ShiftPair | include/helpers.hpp:87-96 | the shift pair `(u<width>)(temp << k >> k)` of both helpers as written, with `temp` the value read as signed and both shifts on the promoted type; the result fits the width. Its meaning is stated by the next two rows |
| SignExtension.ShiftPairAtOwnWidth | include/helpers.hpp:87-89 | shifting left and then arithmetically right by `width - n` on a signed type of the value's own width is sign extension from `n` bits |
| SignExtension.ShiftPairCancels | include/helpers.hpp:94-96 | when the shifts run on a type at least twice the value's width, they cancel and the value comes back unchanged |
| SignExtension.SignExtend16 | include/helpers.hpp:92-97 | as written, the result equals the input for every `startingSize` from 0 to 16, because `(s16)value` is promoted to `int` before the shifts |
| SignExtension.SignExtend16Fixed | include/helpers.hpp:92-97 | with the shifts carried out on 16 bits: the reference sign extension to 16 bits, with the low bits kept, the sign bit copied upwards and the signed reading preserved |
| SignExtension.SignExtend16DoesNotExtend | include/helpers.hpp:93-97 | for 0x80 from 8 bits, the helper as written returns 0x80 and the corrected one returns 0xFF80 |
| BitFields.Ones | include/helpers.hpp:99-109 | `ones<T, count>()` is 2^count - 1: bit `i` is set exactly when `i < count`, and `count == 0` gives 0 |
| BitFields.OnesFullWidth | include/helpers.hpp:105-108 | `ones<T, bitsize>()` is `~T(0)`, with every bit set |
| BitFields.GetBit | include/helpers.hpp:111-115 | `getBit<offset>(value)` is 1 when bit `offset` of the value is set and 0 otherwise |
| BitFields.GetBits | include/helpers.hpp:117-121 | `getBits<offset, bits>(value)` is below 2^bits, and its bit `i` is bit `offset + i` of the value for `i < bits` |
| BitFields.GetBitsOfOneBit | include/helpers.hpp:111-121 | a one-bit field from `getBits` equals `getBit` at the same offset |
| BitFields.IsBitSet | include/helpers.hpp:123-124 | `isBitSet(value, bit)` holds exactly when bit `bit` of the 32-bit value is set |
| BitFields.IsBitSetAgreesWithGetBit | include/helpers.hpp:113-124 | the runtime-indexed `isBitSet` agrees with `getBit(value) == 1` |
| Rotation.ReducedAmount | include/helpers.hpp:130 | `bits &= bitWidth - 1` leaves the Euclidean remainder of `bits` by the width, negative amounts included |
| Rotation.Rotr | include/helpers.hpp:126-132 | `rotr`: the result fits the width, and its bit `i` is bit `(i + bits) mod width` of the value |
| Rotation.Rotl | include/helpers.hpp:134-140 | `rotl`: the result fits the width, and its bit `i` is bit `(i - bits) mod width` of the value |
| Rotation.RotlUndoesRotr | include/helpers.hpp:126-140 | `rotl(rotr(v, bits), bits) == v` for every amount where the shifts are defined |
| Rotation.RotrUndoesRotl | include/helpers.hpp:126-140 | `rotr(rotl(v, bits), bits) == v` for every amount where the shifts are defined |
| Rotation.RotrIsRotlByComplement | include/helpers.hpp:126-140 | `rotr(v, bits) == rotl(v, width - bits mod width)` |
| Rotation.RotateByWholeWidth | include/helpers.hpp:126-140 | for u8 and u16, rotating either way by a multiple of the width (0 included) returns the value |
| Rotation.ComplementCount | include/helpers.hpp:129-131 | the complementary shift count `bitWidth - bits` lies in 1..width and equals the width exactly when the amount is a multiple of it |
| Rotation.WholeWidthRotationOvershifts | include/helpers.hpp:129-131 | for u32 and u64 and an amount that is a multiple of the width, the complementary shift equals the promoted width, so it is undefined |
| Rotation.RotrFixed | include/helpers.hpp:126-132 | `rotr` with the complementary count masked as well: defined for every amount, with the same bit-level meaning as `rotr` |
| Rotation.RotlFixed | include/helpers.hpp:134-140 | `rotl` with the complementary count masked as well: defined for every amount, with the same bit-level meaning as `rotl` |
| Rotation.FixedRotationsAgree | include/helpers.hpp:126-140 | wherever the original rotations are defined, the corrected ones return the same values |
| Rotation.FixedRotationsRoundTrip | include/helpers.hpp:126-140 | the corrected rotations undo each other for every amount and width |
| Rotation.FixedRotationByWholeWidth | include/helpers.hpp:126-140 | the corrected rotations by a multiple of the width return the value at every width |
| Bcd.ToBcd | include/helpers.hpp:153-154 | the BCD byte of a number below 100 is valid BCD and decodes back to the number |
| Bcd.BcdRoundTrip | include/helpers.hpp:153-154 | every valid BCD byte is the encoding of its own decimal value |
| Bcd.IncBcdByte | include/helpers.hpp:153-154 | for a valid BCD byte below 0x99 the result is valid BCD and stands for the next number; otherwise the byte plus 7 (units digit 9) or plus 1, modulo 0x100 |
| Bcd.IncBcdByteCounts | include/helpers.hpp:153-154 | incrementing the encoding of `n` gives the encoding of `n + 1` for every `n` below 99 |
| Bcd.IncBcdByteExamples | include/helpers.hpp:154 | 0x09 goes to 0x10, 0x05 to 0x06, 0x49 to 0x50 and 0x98 to 0x99 |
| Bcd.IncBcdByteOutOfRange | include/helpers.hpp:153-154 | 0x99 goes to 0xA0, which is not BCD; 0xF9 and 0xFF wrap around to 0 |
| SizeLiterals.KB | include/helpers.hpp:170 | `x_KB` is a multiple of 1024 modulo 2^64, and exactly `1024 * x` below 2^54 |
| SizeLiterals.MB | include/helpers.hpp:171 | `x_MB` equals `_KB` applied twice; it is a multiple of 2^20, and exactly `2^20 * x` below 2^44 |
| SizeLiterals.GB | include/helpers.hpp:172 | `x_GB` equals `_KB` of `x_MB`; it is a multiple of 2^30, and exactly `2^30 * x` below 2^34 |
| SizeLiterals.KBRoundTrip | include/helpers.hpp:170 | below the wrap-around, dividing `x_KB` by 1024 gives `x` back |
| SizeLiterals.SizeUnits | include/helpers.hpp:170-172 | 1 KB is 0x400, 1 MB is 0x100000 and 1 GB is 0x40000000; 2^34 GB wraps around to 0 |

## Left out

- `panic`, `warn` and `debug_printf` (include/helpers.hpp:34-52, 76-83) only print to the console and may exit the process, so they are left out as I/O.
- `buildingInDebugMode` (include/helpers.hpp:69-74) depends on a preprocessor flag, so it is left out.
- `loadROM` (include/helpers.hpp:54-67) reads a file, so it is left out as I/O.
- `bit_cast` (include/helpers.hpp:156-166) reinterprets object representations, including floating point, so it is left out.
- `static_for` (include/helpers.hpp:142-151) is a compile-time code generator that has no value semantics, so it is left out.
- The `likely`/`unlikely` macros (include/helpers.hpp:174-182) are compiler hints, and the type aliases are the u8/u16/u32/u64 subset types of `CppInt`.
- `src/main.cpp` is the emulator's entry point, and the emulator it drives is not part of this model.
- The templates `ones`, `getBit`, `getBits`, `rotr` and `rotl` are modelled for the unsigned types u8, u16, u32 and u64 only; instantiations with signed `T` are left out.
- `size_t` is taken to be 64 bits wide, as on the platforms the emulator targets.
- Rotation.Rotr, Rotation.Rotl: for u8 and u16 the promoted operand is the signed `int`. The model represents its left shift by the 32-bit pattern of the result. Only the low bits of that pattern reach the final conversion back to `T`.
- Rotation.Rotr, Rotation.Rotl: defined only where the shifts are. For u32 and u64 an amount that is a multiple of the width is excluded; see Findings.
- SignExtension.SignExtend32, SignExtension.SignExtend16: a `startingSize` that makes the shift count reach the promoted width is excluded. That is 0 or above 32 for `signExtend32`, and above 16 for `signExtend16`.
- BitFields.IsBitSet: a `bit` outside 0..31 makes the shift undefined and is excluded.
- For u32 and u64, a rotation by a multiple of the width shifts by the full width, which is undefined; see Findings.

## Findings

| source | as written | input that shows it | evidently intended | confidence | as-written member | corrected member |
|---|---|---|---|---|---|---|
| include/helpers.hpp:93-97 | `(s16)value` is promoted to the 32-bit `int`, so `temp << bitsToShift >> bitsToShift` loses no bits and the result is `value` unchanged | `signExtend16(0x80, 8)` returns 0x80 | sign extension to 16 bits: 0xFF80 | high; not executed | SignExtension.SignExtend16, SignExtension.SignExtend16DoesNotExtend | SignExtension.SignExtend16Fixed |
| include/helpers.hpp:127-140 | for a 32-bit or 64-bit `T`, a reduced amount of 0 makes `value << (bitWidth - bits)` (rotr) or `value >> (bitWidth - bits)` (rotl) a shift by the full width, which is undefined | `rotr<u32>(x, 0)` or `rotl<u64>(x, 64)` | rotation by a multiple of the width returns `x` | high; not executed | Rotation.Rotr, Rotation.Rotl, Rotation.WholeWidthRotationOvershifts | Rotation.RotrFixed, Rotation.RotlFixed |
