# dmx-rs in Dafny

A model of the core of dmx-rs, a `no_std` Rust library that drives ROBOTIS DYNAMIXEL servos over a
half-duplex serial bus, together with the Python generator that writes its per-device accessors.

What the model covers:

- **Byte conversions** (`src/convert.rs`): little-endian packing and unpacking of u8/u16/u32, and
  the absolute distance of two u32. They are modelled in `bytes.dfy` against one reference
  definition, `FromLe`/`ToLe`.
- **Instructions** (`src/protocol.rs`): the instruction codes and the byte-to-instruction
  conversion, in `instruction.dfy`.
- **Protocol 1.0** (`src/protocol_1.rs`): the frame `send` writes, with its inverted wrapping-sum
  checksum, and `recv`. `recv` waits for the header, reads id, length, error, parameters and
  checksum, then checks the error byte and the checksum. This is in `frames.dfy`.
- **Protocol 2.0** (`src/protocol_2.rs`): the frame with its 16-bit length field and its
  CRC-16/BUYPASS trailer, and `recv`. `recv` refuses any packet that is not a status packet and
  checks the CRC. Also modelled: the decoding of the status byte. This is in `frames.dfy`, and the
  CRC is in `crc16.dfy`.
- **The controller** (`src/protocol.rs` `Controller`, `send`, `recv`, `ping`): a class whose state
  is the protocol version, `n_recv`, the bytes the serial line will still deliver, and the bytes
  written so far. Its methods run the source's loops step by step, and each is proved equal to the
  byte-sequence functions above. This is in `controller.dfy`.
- **Generated accessors** (`src/generated/xl430w250test.rs`, `src/generated/xm430w210.rs`): the
  getter and setter that the generator emits for each control-table field. They come in two
  template generations, which `accessors.dfy` models as two templates:
  - **Pushed**: requests are built with `heapless::Vec::push`, and a reply is decoded with
    `into_array`.
  - **Sliced**: requests are array literals, and a reply's fixed-size parameter array is decoded
    directly.
- **The generator** (`src/generate.py`): the scan over a device page's lines, the decoding of
  control-table rows, the field-name normalisation, and what `generate` emits per row. This is in
  `generator.dfy`, built on `text.dfy`, which models the Python string operations it uses:
  `split`, `strip`, `replace`, `lower`, `upper` and `int`.

The central results:

- Each status frame laid out as `send` lays it out is received intact, in both protocol versions.
- A single corrupted parameter byte is detected, by the checksum in Protocol 1.0 and by the CRC in
  Protocol 2.0.
- Every controller method computes exactly what the corresponding byte-level function computes.
- A getter returns the value the device sends.
- On an echoing bus (`n_recv == 2`), the accessors as written always fail. An accessor that
  discards the echo returns the device's answer (see Findings).

## Model

| member | source | states |
|---|---|---|
| Bytes.U8ToBytes | src/convert.rs:1-3 | one byte whose little-endian value is the input |
| Bytes.U16ToBytes | src/convert.rs:5-7 | two bytes whose little-endian value is the input |
| Bytes.U32ToBytes | src/convert.rs:9-16 | four bytes whose little-endian value is the input |
| Bytes.BytesToU8 | src/convert.rs:18-20 | the little-endian value of the first byte of any slice of at least one byte |
| Bytes.BytesToU16 | src/convert.rs:22-24 | the little-endian value of the first two bytes; the high byte weighs 256 |
| Bytes.BytesToU32 | src/convert.rs:26-28 | the little-endian value of the first four bytes |
| Bytes.U8RoundTrip | src/convert.rs:1-3 | decoding the encoded u8 gives it back |
| Bytes.U16RoundTrip | src/convert.rs:5-7 | decoding the encoded u16 gives it back |
| Bytes.U32RoundTrip | src/convert.rs:9-16 | decoding the encoded u32 gives it back |
| Bytes.U16Prefix | src/convert.rs:22-24 | encoding the decoded u16 gives back the first two bytes of the slice |
| Bytes.U32Prefix | src/convert.rs:26-28 | encoding the decoded u32 gives back the first four bytes of the slice |
| Bytes.ToBytesIsToLe | src/convert.rs:1-16 | the three encoders agree with the generic little-endian encoding, which the accessors use for `to_le_bytes` |
| Bytes.FromLeToLe | src/convert.rs:26-28 | the generic little-endian decoding inverts the encoding of any value that fits |
| Bytes.DistanceU32 | src/convert.rs:30-36 | the result added to the smaller argument gives the larger, so it never underflows |
| Bytes.DistanceSymmetric | src/convert.rs:30-36 | the distance is symmetric and is 0 exactly for equal arguments |
| Instructions.FromByte | src/protocol.rs:27-49 | a listed opcode maps to the instruction with that code; every other byte maps to WrongInstruction, and only those do |
| Instructions.FromCode | src/protocol.rs:5-49 | converting an instruction's code back gives the instruction |
| Instructions.CodeInjective | src/protocol.rs:5-25 | no two instructions share a code |
| Instructions.CodeFromByte | src/protocol.rs:27-49 | converting a byte and taking the code gives the byte back exactly for the listed opcodes and 0xFF |
| Instructions.UnlistedExample | src/protocol.rs:46 | 0x07 and 0x00 convert to WrongInstruction |
| Crc16.UpdateAppend | src/protocol_2.rs:75-79 | feeding the CRC state two chunks in turn equals feeding it their concatenation, which is why `send`'s three updates and `recv`'s per-parameter updates compute one CRC |
| Crc16.SingleByteErrorDetected | src/protocol_2.rs:122-132 | changing any single byte of a message changes its CRC |
| Crc16.UpdateInjective | src/protocol_2.rs:123-129 | two different CRC states stay different after any common input |
| Frames.Frame1Layout | src/protocol_1.rs:36-44 | the frame holds the header, id, length, instruction and parameters in place, and its bytes after the header sum to 0xFF modulo 256 |
| Frames.Checksum1Fields | src/protocol_1.rs:37-38 | the checksum `send` writes is the NOT of the wrapping sum of id, length, instruction and parameters |
| Frames.Sync | src/protocol_1.rs:50-60 | the header wait leaves a proper suffix of its input |
| Frames.SyncEndsWithHeader | src/protocol_2.rs:93-102 | the wait stops only right after a complete copy of the header |
| Frames.SyncOnFrame | src/protocol_2.rs:93-102 | input that starts with the header synchronises right after it |
| Frames.TripleFfDoesNotSync | src/protocol_2.rs:95-98 | a third 0xFF resets the match, so FF FF FF FD 00 never synchronises |
| Frames.SyncSkipsNonFf | src/protocol_2.rs:93-102 | bytes that are never 0xFF, ahead of the input, do not change where the wait ends |
| Frames.Check1 | src/protocol_1.rs:72-83 | success exactly when the error byte is 0 and the checksum matches the wrapping sum of id, length and the whole parameter array, the response then carrying those fields; a nonzero error byte gives Protocol(error) whatever the checksum, and otherwise a mismatching checksum gives ChecksumError |
| Frames.Recv1Layout | src/protocol_1.rs:49-84 | a packet whose length matches its parameters is read completely, zero-padded to the capacity, and judged by Check1 on its own fields |
| Frames.Recv1RoundTrip | src/protocol_1.rs:36-84 | a status frame laid out by `send` is received with its id, length, parameters and count, and exactly its bytes are consumed |
| Frames.Recv1OwnEcho | src/protocol_1.rs:63-73 | reading back one's own instruction frame fails with Protocol(instruction code) after the whole frame is consumed |
| Frames.Recv1DetectsCorruptParam | src/protocol_1.rs:74-75 | a status frame with one parameter byte changed is refused with ChecksumError |
| Frames.Frame2Layout | src/protocol_2.rs:68-84 | the frame holds the header, id, instruction and parameters in place, its length field reads back as the parameter count plus 3, and it ends with the CRC of all that precedes it |
| Frames.Check2 | src/protocol_2.rs:122-140 | success exactly when the trailer equals the CRC of the header, the five fixed fields and the parameters read; the response then carries id, error byte, length field minus 4, count and the zero-padded parameters; the only error is CrcError |
| Frames.Recv2Layout | src/protocol_2.rs:91-141 | a status packet whose length matches its data is read completely and judged by Check2 on its own fields |
| Frames.LengthField | src/protocol_2.rs:69-72 | the two length bytes of the frame `send` writes read back as the parameter count plus 3 |
| Frames.Recv2RoundTrip | src/protocol_2.rs:68-141 | a status frame laid out by `send` is received with its id, data length, data and error byte, and exactly its bytes are consumed |
| Frames.Recv2OwnEcho | src/protocol_2.rs:105-111 | a packet that is not a status packet is refused with InstructionReceived after its four fixed fields, leaving the rest of it unread |
| Frames.Recv2DetectsCorruptData | src/protocol_2.rs:122-132 | a status frame with one data byte changed is refused with CrcError |
| Frames.RecvConsumes | src/protocol_2.rs:91-141 | receiving never invents input: what is left is a suffix of what was there |
| Frames.ToStatus | src/protocol_2.rs:22-35 | bytes 1 to 7 map to the status with that discriminant; ProtocolError is returned exactly for every other byte, 0 included |
| Frames.StatusRoundTrip | src/protocol_2.rs:10-35 | each status's discriminant converts back to it |
| Frames.LedFrames | debug.py:29-31 | the frames for writing 1, 2 and 3 to address 0x19 of device 1 are byte for byte the ones listed, CRC included |
| Frames.PingFrame | src/protocol.rs:121-122 | the Ping frame for device 1 is FF FF FD 00 01 03 00 01 19 4E |
| Controllers.Controller.constructor | src/protocol.rs:72-78 | the fields are stored as given and nothing has been written |
| Controllers.Controller.Write | src/protocol_1.rs:42-44 | the bytes are appended to the output in order, and the input is untouched |
| Controllers.Controller.Send | src/protocol_2.rs:68-89 | exactly the frame of the controller's protocol version is appended to the output |
| Controllers.Controller.Send1 | src/protocol_1.rs:36-47 | exactly the Protocol 1.0 frame is appended |
| Controllers.Controller.Send2 | src/protocol_2.rs:68-89 | exactly the Protocol 2.0 frame is appended, with the CRC accumulated over header, content and parameters in turn |
| Controllers.Controller.Recv | src/protocol_2.rs:91-141 | the result and the bytes left on the line are those of the byte-level receive for the controller's version |
| Controllers.Controller.WaitHeader | src/protocol_1.rs:50-60 | the loop consumes exactly what the synchronisation function consumes, and reports whether the header was found |
| Controllers.Controller.ReadPacket1 | src/protocol_1.rs:62-83 | the reads into a zeroed array and the checks give the byte-level Protocol 1.0 packet result |
| Controllers.Controller.ReadPacket2 | src/protocol_2.rs:104-112 | the fixed fields, the instruction check and the length check give the byte-level Protocol 2.0 packet result |
| Controllers.Controller.ReadStatus2 | src/protocol_2.rs:113-140 | the error byte, the parameter reads and the CRC recomputation give the byte-level Protocol 2.0 packet result |
| Controllers.Controller.ReadInto | src/protocol_2.rs:114-117 | the first k entries of the array receive the next k bytes of the line, the rest stay 0; running dry empties the line |
| Controllers.Controller.Ping | src/protocol.rs:121-124 | a Ping frame is written, and the answer is true exactly when a three-parameter receive succeeds |
| Controllers.CheckStatus2 | src/protocol_2.rs:122-140 | the CRC comparison gives the byte-level check of a Protocol 2.0 status packet |
| Controllers.StatusCrc | src/protocol_2.rs:123-129 | updating one parameter at a time gives the CRC of header, fields and parameters together |
| Controllers.WrappingSum | src/protocol_1.rs:38 | the u8 sum computed byte by byte is the sum modulo 256 |
| Controllers.CrcUpdate | src/protocol_2.rs:76-78 | absorbing a chunk byte by byte gives the CRC register for that chunk |
| Accessors.ReadRequestV2Fields | src/generated/xl430w250test.rs:12-20 | a Protocol 2.0 read request holds the address and the size in full, little-endian |
| Accessors.ReadRequestV1Aliases | src/generated/xm430w210.rs:1879-1884 | Protocol 1.0 requests keep only the address's low byte, so two addresses give the same request exactly when they agree modulo 256 |
| Accessors.WriteRequestValue | src/generated/xl430w250test.rs:95-102 | a write request is the address bytes followed by the value's little-endian bytes, which decode back to the value |
| Accessors.RequestExamples | src/generated/xm430w210.rs:284-300 | the generated constants: model number [0,0,2,0] and [0,2], indirect address 29 [66,2,2,0] and [66,2], homing offset 20 followed by the value's four bytes |
| Accessors.PushAll | src/generated/xl430w250test.rs:100-102 | successive pushes succeed with the bytes appended exactly when everything fits the capacity, and otherwise fail with TooSmall |
| Accessors.GetPushed | src/generated/xl430w250test.rs:11-29 | the Read frame with the request is written; the result and the rest of the line are those of the echo skip followed by the reply decode |
| Accessors.GetSliced | src/generated/xm430w210.rs:6-17 | the same for the array-literal template |
| Accessors.ReceiveValue | src/generated/xm430w210.rs:12-16 | the echo skip with its error propagated, then the reply decoded by the template |
| Accessors.SetPushed | src/generated/xl430w250test.rs:90-112 | the Write frame with address and value is written; the result is the echo skip, then the status packet when `n_recv >= 1` and None otherwise |
| Accessors.SetSliced | src/generated/xm430w210.rs:57-72 | the same for the array-literal template |
| Accessors.ReceiveStatus | src/generated/xm430w210.rs:64-71 | the echo skip with its error propagated, then the status packet or None |
| Accessors.RecvStatusFrame | src/protocol_2.rs:133-140 | a device's status frame, in either version, is received with its id, data and no error |
| Accessors.ReadRoundTrip | src/generated/xl430w250test.rs:25-28 | without an echo, a getter of either template returns the value the device encodes and consumes exactly its reply |
| Accessors.DecodeTemplates | src/generated/xl430w250test.rs:25-28 | on a complete reply both templates decode alike; on a short one Pushed fails with TooSmall while Sliced returns the zero-extended bytes |
| Accessors.WriteStatusReply | src/generated/xm430w210.rs:67-71 | with `n_recv == 0` a setter reads nothing and returns None; with `n_recv == 1` it returns the device's status packet |
| Accessors.EchoAbortsRead | src/generated/xm430w210.rs:12-14 | on an echoing bus a getter of either template fails, whatever the device answers (Protocol(2) in 1.0, InstructionReceived in 2.0) |
| Accessors.EchoAbortsWrite | src/generated/xm430w210.rs:64-66 | on an echoing bus a setter fails, whatever the device answers |
| Accessors.SkippedEchoRead | src/generated/xl430w250test.rs:22-24 | a getter that discards the echo returns the device's value, provided the echo's unread tail holds no 0xFF |
| Accessors.SkippedEchoWrite | src/generated/xl430w250test.rs:104-111 | a setter that discards the echo returns the device's status packet |
| Accessors.GetSkippingEcho | src/generated/xm430w210.rs:6-17 | the corrected getter writes the same request, keeps `n_recv`, and computes the echo-discarding result |
| Accessors.SetSkippingEcho | src/generated/xm430w210.rs:57-72 | the corrected setter writes the same request, keeps `n_recv`, and computes the echo-discarding result |
| Generator.ByteSplitParts | src/generate.py:54-56 | `(v & 0xFF, v >> 8)` loses nothing; it is a byte pair exactly when v fits 16 bits, and then it is the low and high byte |
| Generator.FieldNameChars | src/generate.py:57-62 | a generated field name has no space, no capital and no `]` |
| Generator.FieldNameOfLink | src/generate.py:57-62 | a name written as a link, `[Name](#anchor)`, gives the normalised name |
| Generator.FieldNameDropsFirstLetter | src/generate.py:58 | a name written plain loses its first letter compared with the same name in brackets |
| Generator.NormaliseShadow | src/generate.py:59-61 | `(Shadow)` becomes `_shadow`, so `Secondary(Shadow) ID` gives `secondary_shadow_id` |
| Generator.PlainAndLinkAgree | src/generate.py:57-62 | with the bracket dropped only when present, plain and linked names give the same field name |
| Generator.GenerateAccessors | src/generate.py:63-99 | every row gets a getter, exactly the `RW` rows also get a setter naming the same field and address; a non-numeric address or size aborts |
| Generator.GeneratedRequests | src/generate.py:67-95 | for an address and size that fit 16 bits, the emitted accessors push the requests of the accessor templates |
| Generator.DecodeRowColumns | src/generate.py:127-141 | with a Description column the six cells keep their places; without it the name doubles as description and the rest shift left; too few cells aborts |
| Generator.CellsOfRow | src/generate.py:136 | a row `| c0 | c1 | ... |` yields its cells stripped, whatever follows the last bar |
| Generator.Scan | src/generate.py:104-154 | the line loop with its three state variables produces exactly the module the scan function defines |
| Generator.NothingBeforeMarker | src/generate.py:110-126 | no accessor comes from lines before the first `control-table-of` marker |
| Generator.StopsAfterSecondSection | src/generate.py:116-119 | a blank line ending the second section's data stops the scan, whatever follows |
| Generator.FirstSectionContinues | src/generate.py:116-117 | a blank line ending the first section's data only leaves the data |
| Generator.ScanThrough | src/generate.py:110-153 | scanning a page is scanning a first part, then the rest from the state the first part leaves: an error in the rest fails the whole, and the first part's accessors come first |
| Generator.BadRowAborts | src/generate.py:127-153 | a row that cannot be unpacked or parsed, wherever the scan reaches it, fails the whole run, with that row's error when no earlier row failed |
| Generator.TraitName | src/generate.py:108 | the trait's name is the device name in capitals: same length, each small letter raised to its capital, every other character kept |
| Generator.MotorNameChars | src/generate.py:169-173 | the device name holds no `_`, `-` or `+` |
| Generator.MotorNameKeepsPlain | src/generate.py:169-173 | a stem without those characters is kept as it is |
| Text.SplitJoin | src/generate.py:58 | joining the pieces of a split with the separator gives the string back, and no piece holds the separator |
| Text.StripResult | src/generate.py:116 | the stripped string is a slice of the input from which only whitespace was cut at either end; it has no whitespace at either end and is empty exactly for blank input |
| Text.ReplaceRemoves | src/generate.py:59 | after replacing a character by text that does not hold it, the character is gone |
| Text.LowerResult | src/generate.py:61 | lower-casing leaves no capital, keeps every other character, and lowers each capital |
| Text.ParseDecimal | src/generate.py:54-55 | `int` parses a decimal numeral back to its value |

## Left out

- Blocking, timeouts and read errors of the serial line are not modelled. A read either yields the next byte or finds the line empty. An empty line during a field read is a Communication error. An empty line during the header wait is also a Communication error; the source would block, and a read error there only resets the wait.
- The direction pin and `flush` around `send` are not modelled. The Controller constructor's `serial` and `direction` are represented by the line's input and the protocol version.
- Accessors.GetPushed, Accessors.SetPushed and Controllers.Controller.Ping do not model a failing `send`. They call the trait's `send` (`src/protocol.rs:110-115`), which returns a `Result`, and its error is propagated by `?` (`src/generated/xl430w250test.rs:21`, `src/protocol.rs:122`). No implementation of that trait method is in the repository: the `send` at `src/protocol_1.rs:36` and `src/protocol_2.rs:68` returns unit. So the path where a send error aborts the accessor before any receive is not modelled, and `send` always writes its frame.
- `src/protocol.rs:106-119` declares a trait whose `recv` returns a `StatusPacket` with a `heapless::Vec` of parameters. The repository's `recv` implementations return fixed-size arrays. The Pushed template is modelled on the byte-level `recv`, with the status packet's parameters taken as the bytes actually received (`count`).
- StatusPacket.instruction (`src/protocol.rs:62`) is not modelled: no `recv` fills it.
- The default capacity 4 of StatusPacket is not modelled, since every accessor names its capacity.
- The parameter capacity `PARAMS_SIZE` is a parameter n of each receive.
- Frames.Check1: the u8 additions of the checksum, which panic on overflow in a debug build, are modelled as wrapping, which is what a release build does.
- Frames.Packet1 and Frames.Packet2: the usize subtraction on the received length, which panics on underflow, is modelled as the error LengthUnderflow.
- The table-driven `crc16` crate is not part of this model. CRC-16/BUYPASS (polynomial 0x8005, initial value 0, no reflection) is defined bitwise. Its values are pinned to the repository's own reference frames (`debug.py:29-31`, the Ping frame).
- Byte stuffing of Protocol 2.0 is not modelled: the source does not implement it.
- `src/ctrl.rs`, `src/lib.rs`, `src/serialport_embedded_hal.rs`, the hand-written device files (`src/ax12a.rs`, `src/mx28.rs`, `src/mx106.rs`, `src/xl320.rs`), the other generated device files and the programs under `examples/` are not part of this model.
- Generator: the directory walk, the list of excluded pages, writing the files, `mod.rs` and `rustfmt` are not modelled. They are file-system I/O.
- Generator.Generate: the emitted Rust text is represented by a descriptor per accessor: kind, name, address and size pairs, description and initial value. The HEAD and TAIL templates are represented only by the trait name.
- Text: the Python string operations are modelled on ASCII. Unicode case mapping and Unicode whitespace are not modelled. `ParseInt` accepts an optional sign followed by decimal digits; `int()`'s acceptance of surrounding spaces and of underscores between digits is not modelled.
- Accessors.PushAll: its TooSmall path is unreachable at the capacities the templates use (4 for a request, `2 + size` for a write). The accessors are proved to take the success path.

## Findings

| source | as written | input that shows it | evidently intended | confidence | as-written member | corrected member |
|---|---|---|---|---|---|---|
| src/generate.py:58 | `data_name.split("]")[0][1:]` drops the first character whether or not the name is bracketed | a row whose name cell is `Model Information` gives `odel_information`, as emitted at src/generated/xl430w250test.rs:31 | drop the opening `[` only when there is one, giving `model_information` | high, not executed | Generator.FieldNameDropsFirstLetter | Generator.PlainAndLinkAgree |
| src/generated/xm430w210.rs:12-14 | on an echoing bus (`n_recv == 2`) the accessor reads the echo with `self.recv::<4>()?`, but `recv` refuses one's own request (InstructionReceived in Protocol 2.0, src/protocol_2.rs:109-111; Protocol(instruction) in Protocol 1.0), and `?` returns that error | any getter with `n_recv == 2`, e.g. model number of device 1 with the reply FF FF FD 00 01 05 00 55 00 ... after the echo | discard the echo whatever `recv` makes of it, as examples/linux-xl320.rs:48-50 does, then read the reply | medium for the Sliced template, lower for the Pushed one, whose `recv` is not in the repository; not executed | Accessors.EchoAbortsRead | Accessors.SkippedEchoRead |
