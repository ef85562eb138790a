# BMS register-block decoding, in Dafny

This project models the decoding core of a MODBUS battery-management-system
bridge. The bridge fetches blocks of 16-bit registers from the BMS and turns
each block into a record of named readings.

- `buffers.dfy` (module `Buffers`) models the three byte-level accessors of
  `src/buffers.ts`:
  - `OffsetOf` finds a register in a block. It is the only bounds check in
    the source's own code.
  - `NumberAt` reads a 1- or 2-register big-endian integer, signed or
    unsigned, and scales it by `10^-decimalPlaces`.
  - `AsciiAt` reads a run of registers as ASCII text and removes trailing
    NULs.
- `queries.dfy` (module `Queries`) models the five record schemas of
  `src/queries.ts`, each a block plus its parse function:
  - cell temperatures and voltages;
  - counts;
  - limits;
  - status;
  - properties.

Both source files are pure, so the model uses datatypes, functions and lemmas.

Modelling choices:

- A thrown error becomes `Err` of a `Result`, in three kinds:
  - `BadOffset` is the `offsetOf` failure.
  - `BadNumberRequest` is the unsupported-width failure of `numberAt`.
  - `ReadOutOfRange` is the `RangeError` that Node's `Buffer.readXX` raises
    when fewer bytes remain than the read needs.
- The order of the checks follows the code: offset first, then width, then the
  read.
- Node's `toString('ascii', start, end)` is modelled as written:
  - the end is clamped to the buffer (`ByteRange`);
  - each byte has its high bit cleared (`DecodeAscii`).
- Numbers are exact decimals, `Decimal(mantissa, places)` with value
  `mantissa · 10^-places`. This is the mathematical value that the
  floating-point code approximates.
- The state of charge is a `Percentage`. It models the three outcomes of a
  JavaScript division: finite, ±Infinity, and NaN.
- The per-device `overrides` are `Option`s. A present value wins even when it
  is `0` or `""`, as with JavaScript's `??`.

## Model

| member | source | states |
|---|---|---|
| Buffers.OffsetOf | src/buffers.ts:6-19 | succeeds exactly when `startRegister <= register` and `2·(register − startRegister) < buffer length`; the offset is `2·(register − startRegister)`; otherwise the error is `BadOffset` carrying the buffer length and both registers |
| Buffers.OffsetOfAcceptsExactlyTheBlock | src/buffers.ts:11-12 | the registers accepted are exactly `startRegister` up to `startRegister + ⌈length/2⌉ − 1` |
| Buffers.BigEndian | src/buffers.ts:39-51 | the big-endian value of `n` bytes lies below `256^n` |
| Buffers.BigEndianOfToBigEndian | src/buffers.ts:39-51 | encoding a value below `256^width` in `width` big-endian bytes and decoding it gives it back |
| Buffers.ToBigEndianOfBigEndian | src/buffers.ts:39-51 | decoding bytes and re-encoding them at the same width gives the same bytes |
| Buffers.BigEndianAppend | src/buffers.ts:46-51 | the value of `head + tail` is `value(head) · 256^|tail| + value(tail)` |
| Buffers.RegisterWord | src/buffers.ts:40-42 | one register is `b0·256 + b1` |
| Buffers.HighWordFirst | src/buffers.ts:46-51 | a 32-bit read is `high register · 65536 + low register` |
| Buffers.DecodeInteger | src/buffers.ts:39-51 | the result of `readUInt16BE`/`readInt16BE`/`readUInt32BE`/`readInt32BE` is in range for its width and signedness |
| Buffers.DecodeEncodeInteger | src/buffers.ts:39-51 | an in-range integer written at a width and signedness reads back unchanged |
| Buffers.EncodeDecodeInteger | src/buffers.ts:39-51 | decoding and re-encoding bytes reproduces them |
| Buffers.DecodedRanges | src/buffers.ts:40-51 | unsigned 16-bit in [0, 65535], signed 16-bit in [−32768, 32767], unsigned 32-bit in [0, 2³²−1], signed 32-bit in [−2³¹, 2³¹−1] |
| Buffers.SignedIsTwosComplement | src/buffers.ts:40-51 | the signed read equals the unsigned read, or that minus `256^width`; it is negative exactly when the unsigned read is in the upper half |
| Buffers.Scale | src/buffers.ts:56-70 | absent or non-positive decimal places leave the integer unchanged; `d > 0` places give a value that, times `10^d`, is the integer |
| Buffers.ReadInteger | src/buffers.ts:39-51 | the read succeeds exactly when `offset + width` bytes exist, and the result is in range |
| Buffers.NumberAt | src/buffers.ts:29-71 | an `offsetOf` failure propagates unchanged; a valid offset with a width other than 1 or 2 gives `BadNumberRequest`; success exactly when the offset is valid, the width is 1 or 2 and the whole read fits; the value is the scaled decoding of the bytes at the offset |
| Buffers.NumberAtReadsOnlyItsRegisters | src/buffers.ts:37-51 | two buffers of equal length that agree on the field's bytes give the same result, error or value |
| Buffers.NumberAtUnscaled | src/buffers.ts:56-58 | without positive decimal places the result is the raw integer |
| Buffers.NumberAtRoundTrip | src/buffers.ts:29-71 | an in-range integer encoded at a register reads back as that integer, scaled |
| Buffers.OffsetCheckDoesNotCoverWidth | src/buffers.ts:12-16 | a 2-register read at the last register of a 2-byte buffer passes `offsetOf` and fails in the read with `ReadOutOfRange(0, 4, 2)` |
| Buffers.SingleRegisterReadFits | src/buffers.ts:37-42 | on a buffer of whole registers, a 1-register read succeeds exactly when `offsetOf` does |
| Buffers.NumberAtDecimalExample | src/buffers.ts:56-70 | register 0x04D2 with 2 decimal places is 12.34, and with none is 1234 |
| Buffers.TrimTrailingNul | src/buffers.ts:87 | the result is a prefix of the text that does not end in NUL, and only NULs follow it |
| Buffers.TrimmedIsUnique | src/buffers.ts:87 | that prefix is unique, so trimming removes the maximal trailing NUL run |
| Buffers.TrimKeepsInterior | src/buffers.ts:87 | every character up to the last non-NUL is kept, interior NULs included |
| Buffers.TrimAllNul | src/buffers.ts:87 | all-NUL text trims to "" |
| Buffers.TrimIdempotent | src/buffers.ts:87 | trimming twice is trimming once |
| Buffers.AsciiAt | src/buffers.ts:79-88 | succeeds exactly when `offsetOf` does, failing with its `BadOffset` otherwise; the text is the trimmed ASCII decoding of bytes `[offset, offset + 2·length)` clamped to the buffer; a non-positive length gives "" |
| Buffers.FieldText | src/buffers.ts:87 | the text of a byte range, as Node decodes it, is a prefix of the decoded range that does not end in NUL, with only NULs after it |
| Buffers.AsciiAtTruncates | src/buffers.ts:86-87 | a field that runs past the end of the buffer is cut short without an error: it reads as the trimmed text of every byte from its offset to the end |
| Buffers.AsciiAtRoundTrip | src/buffers.ts:79-88 | 7-bit text not ending in NUL, right-padded with NULs to the field width, reads back as the text |
| Buffers.AsciiAtAllNul | src/buffers.ts:86-87 | a field whose bytes are all NUL reads as "", whatever the rest of the buffer holds |
| Buffers.AsciiAtExample | src/buffers.ts:79-88 | bytes `41 42 00 00` over two registers read as "AB" |
| Queries.CellCount | src/queries.ts:20-29 | a present `cellCount` override is the count, 0 included; otherwise the count is the unsigned register, read only when it is in the buffer |
| Queries.CellValues | src/queries.ts:31-40 | success exactly when the count is 0 or all `count` registers are in the buffer; then there are `count` values and value `i` is the unsigned register `first + i`; on failure the error is that of `numberAt` at the first register past the buffer, which depends on the buffer's length only |
| Queries.ParseCellTemperaturesAndVoltages | src/queries.ts:11-71 | success exactly when every register read is in the buffer; the voltage count is the override or register 5000, and the temperature count is the override or register 5017; there are `cellVoltageCount` voltages from register 5001 + i and `cellTemperatureCount` temperatures from register 5018 + i |
| Queries.CellsFailExactlyWhenCountsOverrunTheBlock | src/queries.ts:11-62 | on a 68-byte buffer, parsing fails exactly when the voltage count exceeds 33 or the temperature count exceeds 16 |
| Queries.CellCountOverrideWins | src/queries.ts:20-29 | one override sets both counts; an override of 0 parses to empty arrays on any buffer |
| Queries.CellValuesReadOnlyTheirRegisters | src/queries.ts:31-40 | two buffers of equal length that agree on the cell registers give the same result: nothing past the last cell register is read |
| Queries.Times | src/queries.ts:99 | the product of two decimals has the product of their values |
| Queries.StateOfCharge | src/queries.ts:125 | finite exactly when the capacity is non-zero, and then `soc · capacityAh = 100 · chargeAh`; NaN exactly when both are zero; otherwise an infinity with the sign of the charge |
| Queries.StateOfChargeIsPercentage | src/queries.ts:125 | a charge between 0 and a non-zero capacity gives a finite soc in [0, 100] |
| Queries.StateOfChargeOfSameUnit | src/queries.ts:101-125 | with charge and capacity in the same unit, soc is `100 · charge / capacity` in raw units; it is NaN for 0/0 and +Infinity for a positive charge over a zero capacity |
| Queries.ParseCounts | src/queries.ts:73-148 | success exactly when the buffer has at least 28 bytes; at most 14 bytes gives `BadOffset` at register 5042; the fields are: amperage (signed 5042, 2 places), voltage (signed 5043, 1 place), chargeAh and capacityAh (unsigned 32-bit at 5044 and 5046, 3 places), cycle (unscaled 5048), wattage/charge/capacity as the products with voltage, soc as `StateOfCharge` of chargeAh and capacityAh |
| Queries.DerivedValuesAreProducts | src/queries.ts:99-123 | wattage, charge and capacity are, as numbers, amperage × voltage, chargeAh × voltage and capacityAh × voltage |
| Queries.WattageExample | src/queries.ts:79-99 | amperage register 250 and voltage register 480 give 2.5 A, 48.0 V and 120.0 W |
| Queries.ParseLimits | src/queries.ts:150-195 | success exactly when the buffer has at least 8 bytes; an empty buffer fails at register 5049; the four limits are the unsigned registers 5049-5052 with 1, 1, 2 and 2 decimal places |
| Queries.ParseStatus | src/queries.ts:197-204 | the empty record, for any buffer |
| Queries.ParseProperties | src/queries.ts:206-272 | success exactly when the buffer has more than 44 bytes, since only each field's first byte is bounds-checked; an empty buffer without a serial override fails at register 5110; the serial is the override when present and otherwise the field text of bytes 0-16; the other six fields are the field texts of bytes 16-18, 18-22, 22-24, 24-40, 40-44 and 44-64, each cut at the end of the buffer |
| Queries.SerialOverrideWins | src/queries.ts:213-221 | a serial override replaces the serial whatever the buffer holds and changes nothing else |
| Queries.PropertiesFieldsTileTheBlock | src/queries.ts:206-269 | the seven text fields cover registers 5110-5141 end to end, without gaps or overlap |
| Queries.FieldsLieWithinTheirBlocks | src/queries.ts:73-272 | every field of limits, counts and properties lies, with its full width, inside its block |
| Queries.ExactBlockParses | src/queries.ts:73-272 | a buffer of exactly `2·length` bytes always parses for limits, counts and properties |
| Queries.LimitsReadOnlyTheBlock | src/queries.ts:150-195 | a longer buffer parses as its first 8 bytes |
| Queries.CountsReadOnlyTheBlock | src/queries.ts:73-148 | a longer buffer parses as its first 28 bytes |
| Queries.PropertiesReadOnlyTheBlock | src/queries.ts:206-272 | a longer buffer parses as its first 64 bytes |

## Left out

- `src/index.ts`, `src/source_modbus_http.ts`, `src/http.ts` and `src/config_file.ts` are not part of this model. They are I/O and wiring:
  - `src/index.ts` reads the limits and properties blocks once at startup. It reads the cell, counts and status blocks again on each `/batteries/:serial` request, and serves the records over HTTP.
  - `src/source_modbus_http.ts` fetches one register block with a single HTTP POST to a MODBUS gateway.
  - `src/http.ts` starts the Express server.
  - `src/config_file.ts` is the configuration schema.
  The model takes the fetched block and the overrides as parameters.
- The `logger` argument of every parse function is left out. No parse function uses it.
- IEEE-754 rounding is not modelled. `numberAt` multiplies by a rounded factor such as `0.1`, and the counts products are floating point. The model gives the exact decimal values that those computations approximate.
- A zero capacity does not always give NaN. `100 * (chargeAh / capacityAh)` is NaN only for 0/0, and a positive charge over a zero capacity gives +Infinity. The model keeps both outcomes (`Percentage`).
- Non-integer register numbers, widths and decimal places are not modelled. JavaScript numbers can hold them, but every call site passes integer constants.
- A `cellCount` override is assumed to be a natural number. The configuration schema accepts any number (`src/config_file.ts:18`). A negative or fractional override would make `new Array` throw, and the model does not cover that.
- The error values carry the data of the source's messages, not the messages themselves or the JavaScript error classes.
- ASCII decoding clears the high bit of each byte, as Node's 'ascii' decoding does, so a byte `0x80` also decodes to NUL and is trimmed at the end of a field.
- Status bitfields are not decoded, because the source does not decode them either: the status record has no fields.
