# ATE401 UART framing core in Dafny

A model of the framing and integrity layer of the ATE401 UART protocol
(`ATE401/ate_uart/ate401_uart.cpp`) and of its compiled-out command parser.
It includes proofs about that model.

A frame on the wire is `MAGIC ("#@!") | LENGTH | payload | CRC8`:

- LENGTH is the payload length plus 2, stored in one byte.
- CRC8 is the table-driven CRC-8 with polynomial 0x07, seed 0 and no final
  XOR. It is computed over every byte before it, MAGIC included.

Modules:

- `CrcFold` (`crc_fold.dfy`): the byte-at-a-time CRC loop as a fold over an
  abstract step function. It proves the append, single-byte-corruption and
  zero-residue algebra once, without the table.
- `Crc8` (`crc8.dfy`):
  - `crc8Table`, with its 256 entries laid out as in the firmware;
  - the proof that every entry is eight MSB-first shift/XOR-0x07 steps;
  - `calculateCRC8` and `checkCRC8` as loops, proved against the fold.
- `Codec` (`codec.dfy`):
  - both `packed` overloads;
  - `checkCRC8Pack` and `unpacked`;
  - `ack` as the code builds it, with its one-too-large LENGTH byte;
  - round trips and layout lemmas;
  - the demonstration program's two test vectors.
- `Scanner` (`scanner.dfy`): `getPackStart`.
  - It is a loop proved equal to a recursive scan function.
  - The scan is sound.
  - It returns the first qualifying position whenever the pattern does not
    overlap itself, which holds for "#@!". So the skip after a failed
    candidate misses nothing.
  - A `packed` frame of at most 254 payload bytes is found at index 0 when
    the buffer starts with it, and at its own offset when no earlier
    position qualifies.
  - An `ack` frame whose state is at most 252 bytes is not found at its
    start when it is alone in the buffer. With longer states LENGTH wraps,
    and the outcome depends on the bytes.
- `Parser` (`parser.dfy`): `ate401_parser`. This code sits between
  `#if 0` and `#endif`, so it is not part of the firmware as built.
  - A specification function gives the dispatch on the command byte.
  - Each `vector::at` that reads past the end of the payload becomes an
    `OutOfRange` result, which carries the fields already written.
  - A `Device` class holds the global `mode` and updates it field by field.

## Model

| member | source | states |
|---|---|---|
| CrcFold.CrcFromAppend | ATE401/ate_uart/ate401_uart.cpp:52-54 | the CRC loop over `a + b` continues from the value reached after `a` |
| CrcFold.CrcFromByteChange | ATE401/ate_uart/ate401_uart.cpp:52-54 | with a step that separates both its arguments, changing any one byte changes the result |
| CrcFold.CrcFromResidue | ATE401/ate_uart/ate401_uart.cpp:52-54 | with a step that is zero exactly on a match, the fold over `data + [b]` is 0 iff `b` is the fold over `data` |
| Crc8.ShiftStepIsConditionalXor | ATE401/ate_uart/ate401_uart.cpp:27 | the branch-free division step is the MSB-first "shift left, XOR 0x07 if the top bit was set" step of polynomial 0x07 |
| Crc8.EntriesMatchPolynomial | ATE401/ate_uart/ate401_uart.cpp:28-45 | each of the 256 literal table entries equals eight division steps applied to its index |
| Crc8.TableMatchesPolynomial | ATE401/ate_uart/ate401_uart.cpp:27-45 | `crc8Table[i]` is the remainder of `i * x^8` modulo x^8 + x^2 + x + 1, for every byte `i` |
| Crc8.TableInjective | ATE401/ate_uart/ate401_uart.cpp:28-45 | different indices have different table entries |
| Crc8.TableZero | ATE401/ate_uart/ate401_uart.cpp:28-45 | the only table entry equal to 0 is entry 0 |
| Crc8.CrcIsLeftFold | ATE401/ate_uart/ate401_uart.cpp:47-57 | the CRC of no bytes is the seed 0, and the CRC of `a + b` continues from the CRC of `a` |
| Crc8.CrcSnoc | ATE401/ate_uart/ate401_uart.cpp:53 | one more byte performs one table step `table[crc ^ b]` |
| Crc8.TableDrivenEqualsBitwise | ATE401/ate_uart/ate401_uart.cpp:27-57 | the table-driven CRC equals the bit-by-bit CRC-8/0x07 of the same bytes |
| Crc8.ByteChangeChangesCrc | ATE401/ate_uart/ate401_uart.cpp:47-57 | any single-byte change in the data changes the CRC |
| Crc8.CrcResidue | ATE401/ate_uart/ate401_uart.cpp:47-57 | appending byte `b` gives CRC 0 iff `b` is the CRC of the data before it |
| Crc8.CalculateCrc8 | ATE401/ate_uart/ate401_uart.cpp:47-57 | the loop returns the CRC fold of the whole input, empty input included |
| Crc8.CheckCrc8 | ATE401/ate_uart/ate401_uart.cpp:59-67 | true iff the CRC of the data equals the expected byte |
| Codec.LengthByteValue | ATE401/ate_uart/ate401_uart.cpp:91 | a size pushed into a `uint8_t` keeps its value modulo 256 |
| Codec.Packed | ATE401/ate_uart/ate401_uart.cpp:83-99 | the vector built step by step is MAGIC, the truncated payload length plus 2, the payload, and the CRC of all of those |
| Codec.PackedBuffer | ATE401/ate_uart/ate401_uart.cpp:101-116 | the buffer overload copies the first `size` bytes and yields exactly the same frame as the list overload for those bytes |
| Codec.CheckCrc8Pack | ATE401/ate_uart/ate401_uart.cpp:69-81 | the last byte matches the CRC of the earlier ones iff the CRC of the whole sequence is 0 |
| Codec.Unpacked | ATE401/ate_uart/ate401_uart.cpp:118-123 | the result is five bytes shorter and is exactly what lies between MAGIC and LENGTH in front and the CRC byte at the end |
| Codec.FrameLayout | ATE401/ate_uart/ate401_uart.cpp:13-17 | a frame is 5 bytes longer than its payload: MAGIC, LENGTH = payload + 2 mod 256, payload, then the CRC of everything before it |
| Codec.FramePassesCheck | ATE401/ate_uart/ate401_uart.cpp:69-99 | every frame `packed` emits passes `checkCRC8Pack` |
| Codec.UnpackedFrame | ATE401/ate_uart/ate401_uart.cpp:83-123 | `unpacked(packed(p)) == p` for every payload |
| Codec.FrameInjective | ATE401/ate_uart/ate401_uart.cpp:83-99 | different payloads give different frames |
| Codec.FrameOfUnpacked | ATE401/ate_uart/ate401_uart.cpp:69-123 | a sequence with MAGIC, a LENGTH that agrees with its size and a valid CRC is `packed(unpacked(data))` |
| Codec.CorruptedFrameFailsCheck | ATE401/ate_uart/ate401_uart.cpp:69-81 | any single corrupted byte of a frame, CRC byte included, makes `checkCRC8Pack` fail |
| Codec.Ack | ATE401/ate_uart/ate401_uart.cpp:125-142 | the vector built by appending MAGIC, the command and the state, inserting the then-current size after MAGIC and appending the CRC |
| Codec.AckLayout | ATE401/ate_uart/ate401_uart.cpp:125-142 | an ack is MAGIC, LENGTH = payload + 3, the command, the state bytes and the CRC of the rest |
| Codec.AckLengthOneMoreThanFrame | ATE401/ate_uart/ate401_uart.cpp:136 | an ack agrees with `packed` of the same payload in length, MAGIC and payload, but its LENGTH byte is one more |
| Codec.AckLengthDisagreesWithSize | ATE401/ate_uart/ate401_uart.cpp:136 | an ack's LENGTH never equals its size minus 3, the relation every `packed` frame satisfies |
| Codec.AckPassesCheck | ATE401/ate_uart/ate401_uart.cpp:136-139 | an ack still passes `checkCRC8Pack` |
| Codec.UnpackedAck | ATE401/ate_uart/ate401_uart.cpp:118-142 | stripping an ack gives back the command followed by the state bytes |
| Codec.CorrectedAck | ATE401/ate_uart/ate401_uart.cpp:125-142 | the ack with LENGTH = 1 + state size + 2: same size, payload recovered by `unpacked`, passes `checkCRC8Pack` |
| Codec.DemoVectorCrc | main.cpp:9-11 | the CRC of the demonstration vector 23 40 21 07 09 01 is 0xFC |
| Codec.DemoLedRedFrame | main.cpp:21-35 | `packed({LED_RED, STATE_ON})` is 23 40 21 04 09 01 41; it passes the check and unpacks to 09 01 |
| Scanner.MagicNoSelfOverlap | ATE401/ate_uart/ate401_uart.cpp:21 | no proper suffix of "#@!" is a prefix of it |
| Scanner.NoOccurrenceInside | ATE401/ate_uart/ate401_uart.cpp:161 | for a pattern that does not overlap itself, no occurrence starts strictly inside another |
| Scanner.ScanFromSound | ATE401/ate_uart/ate401_uart.cpp:150-168 | any position the scan returns is inside the buffer and qualifies: MAGIC, then a CRC that matches over the declared length |
| Scanner.ScanFromLeast | ATE401/ate_uart/ate401_uart.cpp:160-165 | when the pattern does not overlap itself, no position skipped before the result (or before the end) qualifies |
| Scanner.ScanSkipsByte | ATE401/ate_uart/ate401_uart.cpp:150-165 | a position without the pattern moves the scan one byte on |
| Scanner.ScanSkipsCandidate | ATE401/ate_uart/ate401_uart.cpp:160-165 | a candidate whose CRC fails moves the scan by the whole pattern length |
| Scanner.LeastResult | ATE401/ate_uart/ate401_uart.cpp:150-168 | the scan from 0 returns the first qualifying position, and `None` only when nothing qualifies |
| Scanner.GetPackStart | ATE401/ate_uart/ate401_uart.cpp:144-169 | the loop returns the scan's result: a qualifying index and, for a non-self-overlapping pattern, the least one, or `None` when none qualifies |
| Scanner.QualifiesShift | ATE401/ate_uart/ate401_uart.cpp:151-156 | whether a candidate qualifies does not depend on the bytes before it |
| Scanner.DeclaredLengthOfLengthByte | ATE401/ate_uart/ate401_uart.cpp:153 | the scanner's `LENGTH - 1` in `uint8_t` undoes `packed`'s `+ 2` for every size up to 255, the wrap of 256 to 0 included |
| Scanner.FrameQualifiesAtStart | ATE401/ate_uart/ate401_uart.cpp:151-156 | a frame of at most 254 payload bytes qualifies at the start of a buffer, whatever follows |
| Scanner.FrameQualifies | ATE401/ate_uart/ate401_uart.cpp:151-156 | a frame of at most 254 payload bytes qualifies wherever it lies in a buffer |
| Scanner.CandidateMatches | ATE401/ate_uart/ate401_uart.cpp:153-156 | one candidate is accepted iff the byte after its declared length lies inside the buffer and equals the CRC of the bytes before it from the candidate on |
| Scanner.ScanFindsFrame | ATE401/ate_uart/ate401_uart.cpp:144-169 | a buffer starting with a frame of at most 254 payload bytes is found at index 0 |
| Scanner.ScanFindsFrameAfterNoise | ATE401/ate_uart/ate401_uart.cpp:144-169 | after leading bytes in which nothing qualifies, a frame is found exactly at its start |
| Scanner.UncheckedCrcPositionOverruns | ATE401/ate_uart/ate401_uart.cpp:151-156 | on the 4-byte buffer 23 40 21 10 the guard passes at 0 while the CRC byte read is at index 18 |
| Scanner.AckNotFoundAlone | ATE401/ate_uart/ate401_uart.cpp:136 | an ack as built (state up to 252 bytes) does not qualify at its own start: its CRC position is one past its end |
| Scanner.AckFoundOnlyBeforeZero | ATE401/ate_uart/ate401_uart.cpp:136 | an ack followed by more bytes qualifies at its start iff the next byte is 0 |
| Scanner.ScanFindsCorrectedAck | ATE401/ate_uart/ate401_uart.cpp:125-169 | the corrected ack is found at index 0, whatever follows it |
| Parser.Be16 | ATE401/ate_uart/ate401_uart.cpp:202-204 | the high byte of the result is the first byte read and the low byte the second |
| Parser.Be16Bytes | ATE401/ate_uart/ate401_uart.cpp:202-204 | splitting a 16-bit value high byte first and reading it back gives the value |
| Parser.Le32 | ATE401/ate_uart/ate401_uart.cpp:209-212 | byte k of the result (from the least significant) is the k-th byte read |
| Parser.Le32Bytes | ATE401/ate_uart/ate401_uart.cpp:209-212 | splitting a 32-bit value low byte first and reading it back gives the value |
| Parser.Parse | ATE401/ate_uart/ate401_uart.cpp:172-217 | an empty payload throws with nothing written; a parse returns iff the payload holds every byte its command reads |
| Parser.Device.ParseCommand | ATE401/ate_uart/ate401_uart.cpp:172-217 | the field-by-field updates of the global mode produce exactly the specified result, and leave the mode it carries |
| Parser.Device.constructor | ATE401/ate_uart/ate401_uart.cpp:23 | the global mode starts zero-initialized |
| Parser.UnknownCommandLeavesMode | ATE401/ate_uart/ate401_uart.cpp:176-214 | a command byte without a case (ACK, POWER, unassigned) returns the mode unchanged |
| Parser.ParseWritesOnlyItsField | ATE401/ate_uart/ate401_uart.cpp:176-214 | each command changes only its own field of the mode, whether it returns or throws |
| Parser.ParseIgnoresTrailingBytes | ATE401/ate_uart/ate401_uart.cpp:176-214 | bytes after those a command reads change neither the outcome nor the mode |
| Parser.ParseIdempotent | ATE401/ate_uart/ate401_uart.cpp:176-214 | parsing the same payload twice gives the same result as parsing it once |
| Parser.BuzzerPwmCommand | ATE401/ate_uart/ate401_uart.cpp:197-204 | a PWM buzzer payload is 8 bytes: BUZZER, STATE_PWM, then the three properties |
| Parser.ParseBuzzerPwm | ATE401/ate_uart/ate401_uart.cpp:197-204 | the buzzer properties are read back exactly from bytes 2 to 7, high byte first |
| Parser.TruncatedBuzzerWritesPrefix | ATE401/ate_uart/ate401_uart.cpp:197-204 | a cut-short PWM buzzer payload throws after writing the state and each property whose two bytes arrived |
| Parser.ParseSetTime | ATE401/ate_uart/ate401_uart.cpp:208-212 | the time is read back exactly from bytes 2 to 5, low byte first, whatever byte 1 holds |
| Parser.EmptyPayloadThrows | ATE401/ate_uart/ate401_uart.cpp:174 | `data.at(0)` on an empty payload throws before anything is written |
| Parser.BuzzerFrameEndToEnd | ATE401/ate_uart/ate401_uart.cpp:83-217 | a packed PWM buzzer command is found by the scanner at its start and, once unpacked, parses to exactly the properties sent |
| Parser.BuzzerExample | ATE401/ate_uart/ate401_uart.cpp:197-204 | the payload 0B 02 00 05 00 64 03 E8 sets a count of 5, an interval of 100 ms and a duration of 1000 ms |

## Left out

- Logging to `std::cout` (lines 76 and 157) is not modelled. It has no effect on results.
- The buffer overload of `packed` (`const void*`, `size_t`) takes an `array<bv8>` and a size no larger than the array, as `Codec.PackedBuffer` does. The address-and-length arguments of `calculateCRC8` and `getPackStart` are modelled as sequences of exactly that length. `std::vector` values become `seq<bv8>`, and the address `getPackStart` returns becomes an index in an `Option`.
- `calculateCRC8` counts with an `int` against a `size_t` length. Inputs of 2^31 bytes or more are not modelled.
- The `ATE401_uart` state passed to `ack` is reinterpreted as raw memory. It is modelled as an arbitrary byte sequence of any length, because its layout and `sizeof` are not part of this model.
- The globals `state` and `interval` are not modelled, since no modelled function reads them. The global `mode` becomes the field of `Parser.Device`.
- `ate401.h` (line 26) declares a `calculateCRC8` overload with a vector parameter, which `main.cpp` calls (line 11), but no file defines it: a build mismatch. Only the address-and-length definition at `ate401_uart.cpp` lines 47-57 is modelled, as `Crc8.CalculateCrc8`, and `Codec.DemoVectorCrc` takes the call in `main.cpp` to compute that same fold.
- The I2C files (`ATE401/ate_i2c/`) are not part of this model.
- The demonstration program `main.cpp` is not modelled as a program. Only its two test vectors appear, as `Codec.DemoVectorCrc` and `Codec.DemoLedRedFrame`.
- Codec.CheckCrc8Pack requires at least one byte, because `data.end() - 1` on an empty vector is undefined.
- Codec.Unpacked requires at least five bytes, because shorter input makes the firmware build a vector from an inverted range, which is undefined.
- Scanner.GetPackStart requires a non-empty pattern. With an empty one the firmware compares against the string's terminator, and its skip after a failed candidate (`i + 0 - 1`, then `++i`) does not advance, so it can loop forever.
- Scanner.GetPackStart treats a candidate whose CRC byte lies past the buffer as a non-match. The firmware reads out of bounds there; see Findings.
- Scanner.ScanFindsFrame and the other "frame is found" lemmas require at most 254 payload bytes. For longer payloads `packed` truncates LENGTH, and the frame is in general not found at its start.
- Parser: `Mode`, `Pi401Cmd` and `ATE401Indicate` are not declared in the available source, so three assumptions are made:
  - the opcodes are the `ate401.h` defines;
  - `ATE401Indicate::PWM` is `STATE_PWM` (0x02);
  - the field widths are `uint8_t` for `ate`, the LED levels and the buzzer state, `uint16_t` for the buzzer properties and `uint32_t` for `time`, as the casts suggest.
- C++ leaves the evaluation order of the operands of `|` unspecified. It does not matter here: a throw from either `at()` comes before the assignment, so the model just needs both bytes present.
- Where the frame layout comment of `ate401_uart.cpp` (lines 13-17, LENGTH counts itself and the CRC, that is payload + 2) and the code of `ack` disagree on the ack's LENGTH, the model follows the code: `Codec.Ack` inserts payload + 3, not 1 + state size + 2. The corrected form is `Codec.CorrectedAck`.

## Findings

| source | as written | input that shows it | evidently intended | confidence | as-written member | corrected member |
|---|---|---|---|---|---|---|
| ATE401/ate_uart/ate401_uart.cpp:136 | `ack` inserts the vector's size after MAGIC, which is the payload length + 3, one more than `packed` writes | command 0x01 with a one-byte state `s` gives 23 40 21 05 01 s CRC. Fed alone to `getPackStart`, the CRC position is 3 + 4 = 7, one past the last byte of the 7-byte frame | LENGTH = payload + 2, as in `packed`, so the scanner finds acks like any frame | high, not executed | Scanner.AckNotFoundAlone | Codec.CorrectedAck |
| ATE401/ate_uart/ate401_uart.cpp:153-156 | `getPackStart` computes the CRC over `len + subSize` bytes and reads the byte after them without checking either against `size` | the 4-byte buffer 23 40 21 10 passes the guard at 0, and the firmware then reads 18 bytes and the byte at index 18 | a candidate whose CRC byte lies past the buffer is not a frame yet | high, not executed | Scanner.UncheckedCrcPositionOverruns | Scanner.GetPackStart |
