# kern: a verified model of the GPIO frame protocol

kern lets a terminal program on a host switch and read the pins of an
Arduino Uno over a serial line. Both ends speak one frame format:

    STX 0x02 | version<<5 | pin | io<<7 | rw<<6 | length | data... | checksum | ETX 0x03

The checksum is the mod-256 sum of the *unpacked* fields version, pin, io,
rw and length, followed by the data bytes.

This project models five pieces in Dafny and proves what they promise.

- **`Codec`** (`codec.dfy`) is the host library's codec (bluekern/message.go):
  - the checksum, as a loop (`CalculateChecksum`) proved against its specification `Checksum`;
  - header packing and unpacking;
  - `Encode`;
  - `Decode`, with its rejection order (too short, STX, ETX, checksum).

  The lemmas cover:
  - the round trip in both directions;
  - the checksum catching any single corrupted data or checksum byte;
  - the limits of an additive checksum;
  - concrete frames.
- **`UnoCodec`** (`uno_codec.dfy`) is the firmware's own copy of the codec
  (arduino-uno/message.go), written with literal masks. It is proved to
  produce the same bytes and the same decoding results as `Codec`. The one
  difference is that its `Decode` leaves the checksum field at zero.
- **`Firmware`** (`firmware.dfy`) is the firmware (arduino-uno/main.go):
  - The class `Board` holds:
    - the pins, as a map from pin number to mode and level;
    - the scanner's partial frame;
    - the serial input still to be read;
    - the bytes written;
    - the number of error blinks.
  - Its methods are `readMessage`'s scanning loop, `sendMessage`'s byte-by-byte
    writer, `setPin`, `errorFastBlink`, `sendOn`/`sendOff`,
    `sendInitialMessage` and the body of `main`'s loop. Each method is proved
    to move the board exactly as a functional specification says:
    `Scan`, `Handle`, `SendSpec`, `ReadSpec`, `DispatchSpec`, `Next`.
  - The lemmas about those functions cover:
    - the scanner resynchronises after garbage;
    - it always cuts at the first 0x03;
    - what a read or a write request does to the pins and what it answers;
    - a decode error touches no pin but the LED;
    - every response the firmware sends, to a decoded request or as an error report, can be decoded by the host.
- **`Pins`** (`pins.dfy`) is the host's pin-name table (cli/pins.go):
  - `GetPin`;
  - the table follows the Uno's wiring of D0-D19 to ports D, B and C;
  - the analog and reset aliases;
  - every pin fits the five pin bits of the header.
- **`Host`** (`host.dfy`) is the request the terminal UI builds for a menu
  choice (cli/ui.go:71-88). One end-to-end lemma covers "1", "0" and "2"
  for any pin of the table, arriving after garbage without STX. One firmware
  turn then:
  - configures the pin as an output;
  - drives it high or low, or leaves it alone;
  - writes back a response the host decodes, carrying the resulting level.

Bytes are `bv8`, so shifts and masks behave as on Go's `byte`. The checksum's
wrap-around is written out as `% 256`.

What the outside world decides is a parameter:
- the level an input pin senses (`sensed`);
- which UART write fails, if any (`failAt`, the index of the failing write);
- the serial input, a sequence of `Rx` values, where `NoByte` is a read that
  returned an error.

The scanner runs over the input there is. If no ETX arrives, it keeps its
partial frame for the next turn.

Three of the source's crashes are modelled as written, in two functions that
return `Run` values (`Returns` or `Panics`): `Codec.DecodeAsWritten` and
`Firmware.StepAsWritten`. Each crash is then corrected. The corrected versions are the
ones the rest of the model uses (see Findings). The out-of-range checksum
index in `Decode` is corrected with the smallest guard that removes the
panic: a buffer whose checksum index `3 + length` lies inside it is decoded.
So a buffer one byte short, whose end marker happens to equal the checksum,
still decodes (`Codec.EndMarkerReadAsChecksum`). A stricter guard would
demand room for the data, the checksum and the end marker. This model
follows the code.

## Model

| member | source | states |
|---|---|---|
| `Codec.ErrorText` | bluekern/message.go:102-143 | each decode error's text is non-empty, shorter than 64 bytes and ASCII, so it fits one response frame |
| `Codec.CalculateChecksum` | bluekern/message.go:59-66 | the byte-accumulator loop returns the sum of all bytes wrapped to a byte (0 for no bytes) |
| `Codec.ChecksumValue` | bluekern/message.go:59-66 | the specification checksum is the sum of the bytes modulo 256 |
| `Codec.SumStep` | bluekern/message.go:61-63 | adding one more byte to the wrapped running sum gives the wrapped sum of the longer prefix |
| `Codec.ByteOfValue` | bluekern/message.go:64-65 | the byte conversion of a number below 256 has that value |
| `Codec.ChecksumData` | bluekern/message.go:98-100 | the checksummed bytes are five header-field bytes followed by the data verbatim |
| `Codec.SumConcat` | bluekern/message.go:61-63 | the sum of two byte strings joined is the sum of their sums |
| `Codec.ChecksumOfFields` | bluekern/message.go:92-100 | a message's checksum is version + pin + io + rw + length + the sum of its data bytes, modulo 256: the five leading bytes are the unpacked fields themselves |
| `Codec.ChecksumIgnoresStored` | bluekern/message.go:98-100 | the stored checksum field is not among the checksummed bytes, so it never changes the checksum a message should carry |
| `Codec.Encode` | bluekern/message.go:72-96 | the frame is five bytes longer than the data, starts with STX, carries the data verbatim at offset 3, then the recomputed checksum (whatever the stored one), then ETX |
| `Codec.Header1Unpacks` | bluekern/message.go:83-117 | packing a version and a pin as at line 83, then applying the version/pin masks and shift recover any version < 8 and pin < 32 from the packed first header byte |
| `Codec.Header2Unpacks` | bluekern/message.go:87-122 | packing io, rw and length as at line 87, then applying the io/rw/length masks and shifts recover any io, rw <= 1 and length < 64 from the packed second header byte |
| `Codec.HeadersRepack` | bluekern/message.go:83-122 | packing the unpacked fields gives back any header byte, so unpacking loses nothing |
| `Codec.UnpackRepacks` | bluekern/message.go:115-122 | repacking the fields `Decode` unpacks gives back both header bytes |
| `Codec.Unpack` | bluekern/message.go:115-135 | unpacked fields are always in range: version < 8, pin < 32, io and rw <= 1, length < 64 |
| `Codec.Decode` | bluekern/message.go:102-148 | rejects in order too short, invalid STX, invalid ETX, then a checksum index outside the buffer as too short; a success is well-formed, carries the recomputed checksum and is exactly what the bytes frame |
| `Codec.UnpackedFrame` | bluekern/message.go:124-147 | a marked buffer whose checksum byte matches is the frame of the well-formed message unpacked from it, with a consistent checksum |
| `Codec.DecodeAsWritten` | bluekern/message.go:124-137 | the code as written panics exactly for a marked buffer of at least 4 bytes whose checksum index `3 + length` is not inside it |
| `Codec.DecodeAgreesWhereSourceReturns` | bluekern/message.go:102-148 | wherever the written code returns, the corrected decoder returns the same; where it panics, the corrected one reports too short |
| `Codec.DecodeAsWrittenPanics` | bluekern/message.go:137 | `02 20 01 03` makes the written code panic; the corrected decoder reports too short |
| `Codec.EncodedHeadersUnpack` | bluekern/message.go:83-122 | the header bytes of an encoded well-formed message declare its data length and unpack to its own fields |
| `Codec.DecodeEncode` | bluekern/message.go:72-148 | decoding the encoding of a well-formed message gives the same fields with the recomputed checksum |
| `Codec.DecodeEncodeConsistent` | bluekern/message.go:145 | a well-formed message whose checksum field is already consistent survives the round trip unchanged |
| `Codec.EncodeDecode` | bluekern/message.go:102-148 | a decoded buffer with no trailing bytes re-encodes to exactly the same bytes |
| `Codec.EncodingOfFrame` | bluekern/message.go:72-96 | a well-formed message with a consistent checksum, framed by a buffer with no trailing bytes, encodes to that buffer |
| `Codec.EndMarkerReadAsChecksum` | bluekern/message.go:111-145 | `02 22 00 03` decodes, the end marker being read as the checksum |
| `Codec.ShortFrameDecodes` | bluekern/message.go:111-147 | `02 20 02 31 CF 03` declares two data bytes but holds one; it decodes with data `31 CF` and checksum 0x03, its checksum byte read as data and its ETX as the checksum |
| `Codec.ShortFrameChecksum` | bluekern/message.go:59-66 | the fields of that frame (1, 0, 0, 0, 2, 0x31, 0xCF) sum to 3 modulo 256 |
| `Codec.ShortFrameMismatches` | bluekern/message.go:111-143 | `02 20 02 31 00 03`, also one byte short, is reported as a checksum mismatch, not as too short |
| `Codec.SumUpdate` | bluekern/message.go:59-66 | replacing one byte changes the plain sum by exactly the difference |
| `Codec.ChecksumDetectsOneByte` | bluekern/message.go:59-66 | changing any single byte always changes the wrapped sum |
| `Codec.DecodeAcceptsGoodChecksum` | bluekern/message.go:137-147 | a marked buffer whose checksum byte matches the recomputed sum decodes to its unpacked message |
| `Codec.DecodeRejectsBadChecksum` | bluekern/message.go:137-143 | a marked buffer whose checksum byte differs from the recomputed sum is a checksum mismatch |
| `Codec.DataChangeChangesChecksum` | bluekern/message.go:98-100 | changing one data byte changes the checksum of the message |
| `Codec.DataCorruptedFrame` | bluekern/message.go:124-143 | an encoded frame with one data byte replaced keeps its markers, length and headers, and unpacks to the message with that byte replaced |
| `Codec.DecodeDetectsDataCorruption` | bluekern/message.go:124-143 | corrupting any one data byte of an encoded well-formed frame makes decoding fail with a checksum mismatch |
| `Codec.DecodeDetectsChecksumCorruption` | bluekern/message.go:137-143 | corrupting the checksum byte of an encoded well-formed frame makes decoding fail with a checksum mismatch |
| `Codec.ChecksumCorruptedFrame` | bluekern/message.go:124-143 | an encoded frame with its checksum byte replaced keeps its markers and length and still unpacks to the original fields |
| `Codec.EncodedLength` | bluekern/message.go:87-122 | the length bits of an encoded well-formed message count its data |
| `Codec.HeaderCorruptedFrame` | bluekern/message.go:83-143 | an encoded frame with header byte 1 or 2 replaced by that of a message with the same length and data keeps its markers, its declared length and its checksum byte |
| `Codec.HeaderCorruptedUnpack` | bluekern/message.go:115-135 | such a frame unpacks to the other message's fields |
| `Codec.ReplacedHeaderByte` | bluekern/message.go:124-137 | replacing byte 1 or 2 leaves the markers, the data and the checksum byte in place |
| `Codec.DecodeDetectsHeaderCorruption` | bluekern/message.go:83-143 | if that other message's checksum differs, decoding the frame fails with a checksum mismatch |
| `Codec.DecodeDetectsVersionCorruption` | bluekern/message.go:83-143 | changing the version bits of an encoded well-formed frame to any other version below 8 is a checksum mismatch |
| `Codec.DecodeDetectsPinCorruption` | bluekern/message.go:83-143 | changing the pin bits to any other pin below 32 is a checksum mismatch |
| `Codec.DecodeDetectsIoCorruption` | bluekern/message.go:87-143 | flipping the io bit is a checksum mismatch |
| `Codec.DecodeDetectsRwCorruption` | bluekern/message.go:87-143 | flipping the rw bit is a checksum mismatch |
| `Codec.HeaderSwapGoesUndetected` | bluekern/message.go:139-143 | the additive checksum misses moving one unit from pin to version: `02 25 80 07 03` and `02 44 80 07 03` both decode |
| `Codec.DecodeVersionOnePinFive` | bluekern/message.go:102-148 | `02 25 80 07 03` decodes to version 1, pin 5, output, read, no data |
| `Codec.DecodeVersionTwoPinFour` | bluekern/message.go:102-148 | `02 44 80 07 03` decodes to version 2, pin 4, output, read, no data |
| `Codec.EncodeReadExample` | bluekern/message.go:72-96 | version 1, pin 5, output, read, no data encodes to `02 25 80 07 03` |
| `Codec.EncodeWriteExample` | bluekern/message.go:72-96 | writing '1' to pin 0 with version 1, output, encodes to `02 20 C1 31 35 03` |
| `UnoCodec.Encode` | arduino-uno/message.go:51-64 | the literal-mask encoder produces a frame five bytes longer than the data |
| `UnoCodec.Decode` | arduino-uno/message.go:70-114 | rejects in the same order as the host copy and leaves the checksum field at zero on success |
| `UnoCodec.EncodeAgrees` | arduino-uno/message.go:51-68 | both copies of `Encode` produce the same bytes for every message |
| `UnoCodec.LiteralMasksUnpack` | arduino-uno/message.go:83-90 | the literal masks unpack the same fields as the named ones |
| `UnoCodec.DecodeMarkedBuffer` | arduino-uno/message.go:83-113 | on a marked buffer that holds its checksum index, the copy returns the unpacked message or a checksum mismatch |
| `UnoCodec.DecodeAgreesOnMarkedBuffer` | arduino-uno/message.go:70-114 | on a marked buffer that holds its checksum index, both copies give the same error or the same message up to the checksum field |
| `UnoCodec.DecodeAgrees` | arduino-uno/message.go:70-114 | both copies accept and reject the same buffers with the same error, and succeed with the same message up to the checksum field |
| `UnoCodec.DecodeEncode` | arduino-uno/message.go:51-114 | the firmware's copy decodes an encoded well-formed message to the same fields with checksum zero |
| `Firmware.Scan` | arduino-uno/main.go:64-88 | a completed frame consumes at least one read, is longer than the buffer the scanner had and ends with ETX |
| `Firmware.ScanShape` | arduino-uno/main.go:77-87 | a scanned frame starts with STX, ends with the first ETX after it, extends the buffer the scanner had, and leaves a suffix of the input; a waiting scanner holds STX and no ETX |
| `Firmware.ScanKeepsPartial` | arduino-uno/main.go:75-87 | from a partial frame, the scanner only ever extends its buffer, keeping it a started, unfinished frame until the first ETX ends it |
| `Firmware.ScanLeavesSuffix` | arduino-uno/main.go:64-88 | after a frame the scanner leaves a proper suffix of the input unread |
| `Firmware.ScanSkipsFailedRead` | arduino-uno/main.go:70-73 | a failed read leaves the scanner where it was |
| `Firmware.ScanSkipsGarbage` | arduino-uno/main.go:75-81 | while the buffer is empty, reads that bring no STX are discarded |
| `Firmware.ScanAccumulates` | arduino-uno/main.go:83-87 | once a frame has started, bytes without ETX are appended in order |
| `Firmware.ScanWholeFrame` | arduino-uno/main.go:64-88 | a frame whose only ETX is its last byte is returned whole, leaving the reads after it |
| `Firmware.ScanResynchronises` | arduino-uno/main.go:64-88 | after any garbage without STX, such a frame is found exactly |
| `Firmware.ScanDecodesEncoded` | arduino-uno/main.go:64-96 | a well-formed request without an inner 0x03 reaches the firmware's decoder intact and decodes to itself |
| `Firmware.EmbeddedEndMarkerCutsFrame` | arduino-uno/main.go:85-87 | a read request with three data bytes has header byte 0x03, so only `02 20 03` reaches the decoder, which rejects it as too short |
| `Firmware.Get` | arduino-uno/main.go:114 | reading a pin gives the level it drives when it is an output, and the sensed level otherwise |
| `Firmware.DrivenPinReadsBack` | arduino-uno/main.go:110-126 | a pin configured as an output and driven high or low reads back that level, whatever an input would sense |
| `Firmware.InputPinReadsSensed` | arduino-uno/main.go:110-114 | a pin configured as an input reads the sensed level, whatever level it last drove |
| `Firmware.Response` | arduino-uno/main.go:46-49 | a response keeps the request's markers, version, pin, io and rw, carries exactly the text, and has a consistent checksum |
| `Firmware.Handle` | arduino-uno/main.go:110-133 | only a read or a write gets a reply; a blink follows exactly a write whose first data byte is neither '1' nor '0', and it comes with the answer "invalid data" |
| `Firmware.ModeFor` | arduino-uno/main.go:138-144 | IO 0 selects input mode and IO 1 output mode; anything else leaves the zero mode |
| `Firmware.Configure` | arduino-uno/main.go:146-148 | configuring a pin sets its mode, keeps its level and touches no other pin |
| `Firmware.Drive` | arduino-uno/main.go:121-126 | `High`/`Low` set the pin's level, keep its mode and touch no other pin |
| `Firmware.Blinked` | arduino-uno/main.go:29-44 | an error blink leaves the LED an output driven low and touches no other pin |
| `Firmware.Received` | arduino-uno/main.go:70-73 | bytes arriving one by one are read in order, one successful read each |
| `Firmware.ErrorBytes` | arduino-uno/main.go:93 | the bytes of a decode error text are non-empty and fit a frame's length field |
| `Firmware.Transmitted` | arduino-uno/main.go:51-61 | what reaches the UART is a prefix of the frame plus newline, cut short exactly when a frame byte's write fails: then it is the frame up to the failing byte; with no failure it is the whole frame and the newline |
| `Firmware.ResponseKeepsHeader` | arduino-uno/main.go:46-49 | a response keeps the request's markers, version, pin, io and rw, carries the text with its length, and has a consistent checksum |
| `Firmware.ResponseDecodes` | arduino-uno/main.go:46-51 | a response to any message whose markers, version, pin, io and rw are in range (a decoded request, or the error report's header), with text under 64 bytes, is a frame the host decodes to that response |
| `Firmware.ErrorReportDecodes` | arduino-uno/main.go:90-96 | the error report sent after a decode error, the error text in a version 1, pin 0, input, read message, is a frame the host decodes to that report |
| `Firmware.HandleTouchesOnlyItsPin` | arduino-uno/main.go:110 | handling a request configures its pin per `io` and changes no other pin |
| `Firmware.DecodedRequestPicksMode` | arduino-uno/main.go:138-148 | a decoded request always selects input or output mode |
| `Firmware.HandleRead` | arduino-uno/main.go:113-118 | a read changes no level and answers '1' exactly when the pin reads high: its own level as an output, the sensed level otherwise |
| `Firmware.HandleWrite` | arduino-uno/main.go:119-130 | '1' drives the pin high and answers '1'; '0' drives it low and answers '0'; anything else changes no level, answers "invalid data" and blinks; no other pin's level changes |
| `Firmware.HandleEmptyWrite` | arduino-uno/main.go:131-133 | a write without data changes no level and answers "no data" |
| `Firmware.ReadDispatch` | arduino-uno/main.go:110-118 | handling a read configures the pin and answers its level, '1' or '0' |
| `Firmware.WriteDispatch` | arduino-uno/main.go:110-133 | handling a write configures the pin, then drives it for '1' or '0' and answers the same, answers "no data" without data, and answers "invalid data" and blinks otherwise |
| `Firmware.DispatchAnswers` | arduino-uno/main.go:110-134 | a read or write request always gets a reply; the UART receives its response frame up to any failed write, and the pin change stands unless a blink follows |
| `Firmware.SendKeepsScanner` | arduino-uno/main.go:46-62 | sending a response leaves the scanner's buffer and the unread input alone |
| `Firmware.DispatchKeepsScanner` | arduino-uno/main.go:110-134 | handling a request leaves the scanner's buffer and the unread input alone |
| `Firmware.Next` | arduino-uno/main.go:107-135 | a turn only appends to what was written and never takes back an error blink |
| `Firmware.ReadSpecAppends` | arduino-uno/main.go:64-97 | reading a request only appends to the output and only adds blinks |
| `Firmware.DispatchAppends` | arduino-uno/main.go:110-134 | handling a request only appends to the output and only adds blinks |
| `Firmware.NextKeepsPartial` | arduino-uno/main.go:64-88 | between turns the scanner's buffer is always empty or a started, unfinished frame |
| `Firmware.NextConsumesInput` | arduino-uno/main.go:64-97 | a turn consumes the input up to the end of the first frame, or all of it when no frame completes |
| `Firmware.NextWithoutFrame` | arduino-uno/main.go:67-88 | until an ETX arrives, a turn only moves input into the scanner's buffer |
| `Firmware.NextOnDecodeError` | arduino-uno/main.go:90-96 | a frame that fails to decode drives no pin (only the LED, by the blink) and sends the error text in a version 1, pin 0, input, read message |
| `Firmware.NextOnRequest` | arduino-uno/main.go:107-134 | a decoded request always gets a reply; what reaches the UART is its response frame up to any failed write, and the handler's pin change stands unless a blink follows or a write fails |
| `Firmware.NextServesRequest` | arduino-uno/main.go:107-134 | with all writes succeeding and no blink asked for, a turn is exactly the pin change, the response frame with its newline and the consumed input |
| `Firmware.StepAsWritten` | arduino-uno/main.go:107-135 | wherever the loop body as written does not crash, it does what the corrected `Next` does |
| `Firmware.BadChecksumCrashesAsWritten` | arduino-uno/main.go:90-110 | `02 00 00 03` crashes the loop body as written; the corrected model blinks once |
| `Firmware.BadChecksumFrameArrives` | arduino-uno/main.go:64-96 | `02 00 00 03` is scanned whole, does not panic the written decoder, and fails its checksum |
| `Firmware.EmptyWriteCrashesAsWritten` | arduino-uno/main.go:119-133 | `02 20 40 02 03` (a write without data) crashes the loop body as written; the corrected model answers "no data" |
| `Firmware.EmptyWriteFrameArrives` | arduino-uno/main.go:64-96 | `02 20 40 02 03` is scanned whole and decodes to a write to pin 0 with no data |
| `Firmware.Board.constructor` | arduino-uno/main.go:99-105 | after reset the LED is an output driven low, and nothing is buffered, written or blinked |
| `Firmware.Board.ErrorFastBlink` | arduino-uno/main.go:42-44 | blinks the LED and counts one error blink |
| `Firmware.Board.SetPin` | arduino-uno/main.go:138-151 | configures the addressed pin with the mode for its IO flag |
| `Firmware.Board.SendMessage` | arduino-uno/main.go:46-62 | builds the response with the looped checksum and leaves exactly `SendSpec`'s state: the response frame up to the first failing write, which blinks and stops, or the whole frame and a newline |
| `Firmware.Board.Transmit` | arduino-uno/main.go:53-61 | the write loop leaves exactly `TransmitSpec`'s state: each frame byte in turn, a failed write blinking and stopping, then the newline |
| `Firmware.Board.SendInitialMessage` | arduino-uno/main.go:13-27 | sends a text in a version 1, pin 0, input, read message |
| `Firmware.Board.SendOn` | arduino-uno/message.go:116-118 | sends the request back with the payload '1' |
| `Firmware.Board.SendOff` | arduino-uno/message.go:120-122 | sends the request back with the payload '0' |
| `Firmware.Board.ReadFrame` | arduino-uno/main.go:64-88 | the scanning loop returns the frame `Scan` finds and leaves the reads after it, or keeps the partial frame when none completes |
| `Firmware.Board.ReadMessage` | arduino-uno/main.go:64-97 | returns the decoded request; after a decode error it blinks, reports the error text and returns no request |
| `Firmware.Board.Dispatch` | arduino-uno/main.go:110-134 | the switch on the request leaves exactly `DispatchSpec`'s state |
| `Firmware.Board.ServeWrite` | arduino-uno/main.go:119-133 | the Write case on a configured pin leaves exactly `DispatchSpec`'s state |
| `Firmware.Board.Step` | arduino-uno/main.go:107-135 | one turn of the loop leaves exactly `Next`'s state and keeps the scanner's buffer a partial frame |
| `Pins.GetPin` | cli/pins.go:43-51 | a name in the table gives its pin and no error; any other name gives pin 0 and "Pin not found" |
| `Pins.UnoDigitalPin` | cli/pins.go:12-41 | every digital pin of the Uno maps to a port-major pin number below 24 |
| `Pins.DigitalNamesFollowWiring` | cli/pins.go:53-73 | D0-D7 are port D bits 0-7, D8-D13 port B bits 0-5, and D14-D19 port C bits 0-5 |
| `Pins.DigitalName` | cli/pins.go:53-73 | each digital name D0-D19 is in the table with the Uno's wiring |
| `Pins.AnalogNamesAlias` | cli/pins.go:74-80 | A1-A6 are the same pins as D14-D19, and RESET is port C bit 6, pin 14 |
| `Pins.AnalogNamesShifted` | cli/pins.go:75-80 | there is no "A0": it is not found, and "A6" names port C bit 5 |
| `Pins.NamedAliases` | cli/pins.go:67-75 | D13 is 5, D14 and A1 are 8, RESET is 14 |
| `Pins.TablePinsFitHeader` | cli/pins.go:53-81 | every pin in the table is below 24 |
| `Pins.TablePinsRoundTripHeader` | cli/pins.go:53-81 | every pin in the table survives the header's pin mask and leaves the version bits alone |
| `Host.BuildRequest` | cli/ui.go:71-88 | the menu request is an output request for the pin carrying the value; it is a write exactly when the value is "1" or "0"; its length is the value's length, and its checksum is consistent |
| `Host.RequestRoundTrip` | cli/ui.go:71-91 | a request for a pin under 32 with under 64 bytes decodes to itself with the host's decoder and with the firmware's |
| `Host.MenuSum` | bluekern/message.go:59-66 | the checksummed bytes of a menu request add up, field by field, to less than 256 |
| `Host.MenuChecksum` | bluekern/message.go:59-66 | a menu request's checksum is the plain sum of its fields |
| `Host.MenuFrameIsClean` | cli/ui.go:71-91 | with version >= 1, no byte of a menu request's frame but the last is 0x03 |
| `Host.MenuRequestArrives` | cli/ui.go:71-93 | a menu request for a pin below 24 reaches the firmware whole after garbage without STX, and is decoded there |
| `Host.MenuHandled` | arduino-uno/main.go:110-130 | the firmware makes the pin an output, drives it high for "1" or low for "0" or leaves it for "2", and replies with the resulting level, without a blink |
| `Host.MenuCommandOnPin` | cli/ui.go:71-93 | end to end, with no failed write: one firmware turn sets the pin as the menu asked, changes no other pin's level, writes a response the host decodes followed by a newline, and does not blink |
| `Host.MenuCommand` | cli/ui.go:65-93 | for any pin name the table knows, looked up as the UI does, and a menu request arriving after garbage without STX: one firmware turn with no failed write makes the pin an output at the asked level (its old level for "2"), changes no other pin's level, appends exactly the encoded response with that level and a newline, which the host decodes to the response, does not blink, and leaves the scanner empty and the input after the request unread |

## Left out

- The serial port, the pins and the LED are abstract state. The UART and pin drivers of TinyGo's `machine` package are not part of this model. `Configure` is taken to keep a pin's level, and an input pin reads the `sensed` parameter.
- The blink timing and `time.Sleep` (arduino-uno/main.go:29-40) are left out. A blink is counted, and it leaves the LED an output driven low.
- The serial configuration at start-up (arduino-uno/main.go:101-103) is left out.
- `main`'s forever loop and `readMessage`'s busy wait are modelled as one turn over the input there is. A scanner that reaches the end of the input keeps its partial frame.
- `Firmware.Board.SendMessage`: the return value of the final newline write is ignored, as in the source. The model sends nothing after the newline either way.
- `Firmware.ModeFor`: the zero mode used for IO values other than 0 and 1 is a separate value here. The decoder never produces such values (`Firmware.DecodedRequestPicksMode`).
- The firmware's `calculateChecksum` and `checksumData` (arduino-uno/message.go:42-49, 66-68) are textually identical to the host library's. They are modelled once, as `Codec.CalculateChecksum` and `Codec.ChecksumData`.
- `DataAsString` (bluekern/message.go:68-70) is a string conversion with nothing to prove.
- The host's reader (cli/commands.go) is left out: port enumeration, a goroutine pipeline and a line scanner splitting on the newline. So is the UI state (cli/ui.go), which only builds requests as `Host.BuildRequest` does. Process startup and logging (cli/main.go), styling (cli/style.go) and key bindings (cli/keymap.go) are left out too.
- The UI's `VERSION` constant is `0x01` (cli/main.go:9). The version is a parameter of `Host.BuildRequest`, and the end-to-end lemmas require `1 <= version < 8`, which covers it.
- The terminal UI builds requests with its own package's `Message` type and encoder, whose file is not part of this model (cli/ui.go does not import the host library). The `Host` lemmas take them to behave as `Codec`.
- The host test cli/main_test.go is not modelled. It computes its expected checksum with RW = Write but builds the message with RW = Read. Its comparison therefore depends on a host codec that is not part of this model.
- `Codec.Decode`: the corrected guard only demands that the checksum index `3 + length` lie inside the buffer, not the stricter `|b| >= 3 + length + 2` that would leave room for the data, the checksum and the end marker. So a frame one byte short decodes, with its checksum byte read as the last data byte and its ETX read as the checksum, whenever that ETX equals the checksum of what it unpacks (`Codec.ShortFrameDecodes`, `Codec.EndMarkerReadAsChecksum`); otherwise it is a checksum mismatch, not "too short" (`Codec.ShortFrameMismatches`). This is the least change that removes the panic; the stricter bound is not what the code checks.
- `Codec.DecodeDetectsHeaderCorruption`: header corruption is proved detected for the version, pin, io and rw bits. A change in the length bits is not covered: it moves the checksum index, so the byte compared as the checksum is another one, and whether the change is caught depends on the data.
- The analog names in cli/pins.go:75-80 run A1 to A6 for port C bits 0-5, but the Uno board labels those pins A0 to A5, so the table's names are likely one off. The model keeps the table as written (`Pins.AnalogNamesAlias`, `Pins.AnalogNamesShifted`). Asking for "A0" is a "Pin not found" error, which the UI treats as fatal (cli/ui.go:65-69).
- The scanner cuts a frame at the first 0x03 wherever it occurs: in the second header byte, the data or the checksum. This is how the code behaves, and it is stated as it is (`Firmware.ScanShape`, `Firmware.EmbeddedEndMarkerCutsFrame`), not corrected. The end-to-end lemmas assume version >= 1 for this reason: with version 0, the first header byte for pin 3 (D11) would be 0x03.

## Findings

| source | as written | input that shows it | evidently intended | confidence | as-written member | corrected member |
|---|---|---|---|---|---|---|
| bluekern/message.go:137 (also arduino-uno/message.go:105) | `Decode` indexes `encoded[3+length]` without checking that the buffer holds it | `02 20 01 03`: declares one data byte, and the checksum index 4 is past the end | report "message too short" | high (not executed) | `Codec.DecodeAsWrittenPanics` | `Codec.Decode` |
| arduino-uno/main.go:90-110 | after a decode error `readMessage` returns nil, and `main` reads `msg.Pin` from it | `02 00 00 03`: checksum byte 0x03, recomputed sum 0 | report the error and wait for the next frame | high (not executed) | `Firmware.BadChecksumCrashesAsWritten` | `Firmware.NextOnDecodeError` |
| arduino-uno/main.go:120-121 | the `msg.Data != nil` guard passes for the empty slice a decoded zero-length frame carries, so `msg.Data[0]` is out of range | `02 20 40 02 03`: write to pin 0 with no data | answer "no data" (the else branch at line 132) | high (not executed) | `Firmware.EmptyWriteCrashesAsWritten` | `Firmware.HandleEmptyWrite` |
