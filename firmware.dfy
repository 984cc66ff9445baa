/**
 * The Arduino Uno firmware (arduino-uno/main.go together with `sendOn` and
 * `sendOff` from arduino-uno/message.go): a framing scanner over the serial
 * byte stream, a request handler that drives GPIO pins, and the writer that
 * sends the response frame back.
 *
 * The hardware is abstract state: a map from pin number to its mode and
 * level, the bytes still to be read from the UART, the bytes written to it
 * and the number of error blinks. What the outside world decides is passed
 * in: the level an input pin senses, and which UART write (if any) fails.
 */
module Firmware {
  import opened Codec
  import UnoCodec

  /** Payload bytes of a write request and of a level response: ASCII '1' and '0'. */
  const ON: bv8 := 0x31
  const OFF: bv8 := 0x30

  /** The line feed `sendMessage` writes after each frame. */
  const NEWLINE: bv8 := 0x0A

  /** `machine.LED` on the Uno: digital pin 13, which is port B bit 5. */
  const LED: int := 5

  /** `[]byte(s)` for ASCII text. */
  function Ascii(s: string): (b: seq<bv8>)
    requires forall i :: 0 <= i < |s| ==> s[i] as int < 128
    ensures |b| == |s|
  {
    seq(|s|, i requires 0 <= i < |s| => ByteOf(s[i] as int))
  }

  const NO_DATA: seq<bv8> := Ascii("no data")
  const INVALID_DATA: seq<bv8> := Ascii("invalid data")

  /** The bytes of a decode error's text. */
  function ErrorBytes(e: DecodeError): (b: seq<bv8>)
    ensures 0 < |b| < 64
  {
    Ascii(ErrorText(e))
  }

  // ---------------------------------------------------------------------
  // The framing scanner (`readMessage`, lines 64-88)
  // ---------------------------------------------------------------------

  /** One call of `machine.Serial.ReadByte`: a byte, or the error it returns when none is ready. */
  datatype Rx = Byte(value: bv8) | NoByte

  /** The bytes of `b` as they arrive one by one. */
  function Received(b: seq<bv8>): (r: seq<Rx>)
    ensures |r| == |b|
    ensures forall i :: 0 <= i < |b| ==> r[i] == Byte(b[i])
  {
    seq(|b|, i requires 0 <= i < |b| => Byte(b[i]))
  }

  /**
   * What the scanner has when the input runs out: a complete frame and the
   * reads after it, or the partial buffer it is still accumulating.
   */
  datatype Scanned = Frame(bytes: seq<bv8>, rest: seq<Rx>) | Waiting(partial: seq<bv8>)

  /**
   * The scanner, continuing from buffer `buf`: failed reads are skipped;
   * while the buffer is empty every byte but STX is dropped; otherwise each
   * byte is appended, and an ETX completes the frame.
   */
  function Scan(buf: seq<bv8>, input: seq<Rx>): (r: Scanned)
    ensures r.Frame? ==> |r.rest| < |input| && |r.bytes| > |buf| && r.bytes[|r.bytes| - 1] == ETX
    decreases |input|
  {
    if input == [] then Waiting(buf)
    else match input[0]
      case NoByte => Scan(buf, input[1..])
      case Byte(c) =>
        if buf == [] && c != STX then Scan(buf, input[1..])
        else if c == ETX then Frame(buf + [c], input[1..])
        else Scan(buf + [c], input[1..])
  }

  /** No byte of `b` is the end marker. */
  predicate NoEtx(b: seq<bv8>)
  {
    forall i :: 0 <= i < |b| ==> b[i] != ETX
  }

  /** A buffer the scanner can hold between frames: empty, or started by STX and not yet ended. */
  predicate Partial(buf: seq<bv8>)
  {
    buf == [] || (buf[0] == STX && NoEtx(buf))
  }

  /** What a scanned frame looks like: STX first, ETX last and nowhere before. */
  predicate ScannedFrame(f: seq<bv8>)
  {
    |f| >= 2 && f[0] == STX && f[|f| - 1] == ETX && NoEtx(f[..|f| - 1])
  }

  /**
   * Every frame the scanner returns starts with STX, ends with the first ETX
   * after it and extends the buffer it started from; the reads after it are
   * a suffix of the input. A scanner still waiting holds a partial frame.
   */
  lemma ScanShape(buf: seq<bv8>, input: seq<Rx>)
    requires Partial(buf)
    ensures Scan(buf, input).Frame? ==>
      var f, rest := Scan(buf, input).bytes, Scan(buf, input).rest;
      ScannedFrame(f) && buf <= f && |rest| < |input| && rest == input[|input| - |rest|..]
    ensures Scan(buf, input).Waiting? ==>
      var p := Scan(buf, input).partial;
      Partial(p) && buf <= p
  {
    ScanKeepsPartial(buf, input);
    ScanLeavesSuffix(buf, input);
  }

  /** The bytes the scanner holds, finished or not, extend its buffer and keep its shape. */
  lemma {:induction false} ScanKeepsPartial(buf: seq<bv8>, input: seq<Rx>)
    requires Partial(buf)
    ensures Scan(buf, input).Frame? ==> ScannedFrame(Scan(buf, input).bytes) && buf <= Scan(buf, input).bytes
    ensures Scan(buf, input).Waiting? ==> Partial(Scan(buf, input).partial) && buf <= Scan(buf, input).partial
    decreases |input|
  {
    if input != [] {
      var tail := input[1..];
      match input[0]
      case NoByte =>
        ScanKeepsPartial(buf, tail);
      case Byte(c) =>
        if buf == [] && c != STX {
          ScanKeepsPartial(buf, tail);
        } else if c == ETX {
          assert (buf + [c])[..|buf + [c]| - 1] == buf;
        } else {
          assert Partial(buf + [c]);
          ScanKeepsPartial(buf + [c], tail);
        }
    }
  }

  /** The reads left after a frame are a proper suffix of the input. */
  lemma {:induction false} ScanLeavesSuffix(buf: seq<bv8>, input: seq<Rx>)
    ensures Scan(buf, input).Frame? ==>
      var rest := Scan(buf, input).rest;
      |rest| < |input| && rest == input[|input| - |rest|..]
    decreases |input|
  {
    if input != [] {
      var tail := input[1..];
      var next := match input[0]
        case NoByte => buf
        case Byte(c) => if buf == [] && c != STX then buf else buf + [c];
      if input[0] == Byte(ETX) && next != [] {
        assert input[|input| - |tail|..] == tail;
      } else {
        assert Scan(buf, input) == Scan(next, tail);
        ScanLeavesSuffix(next, tail);
        ShorterSuffix(input, Scan(next, tail));
      }
    }
  }

  /** A suffix of the tail of `input` is a shorter suffix of `input`. */
  lemma ShorterSuffix(input: seq<Rx>, r: Scanned)
    requires input != []
    requires r.Frame? ==> |r.rest| < |input| - 1 && r.rest == input[1..][|input| - 1 - |r.rest|..]
    ensures r.Frame? ==> |r.rest| < |input| && r.rest == input[|input| - |r.rest|..]
  {
  }

  /** A failed read leaves the scanner exactly where it was. */
  lemma ScanSkipsFailedRead(buf: seq<bv8>, input: seq<Rx>)
    ensures Scan(buf, [NoByte] + input) == Scan(buf, input)
  {
    assert ([NoByte] + input)[1..] == input;
  }

  /** Reads that bring no STX are discarded while the buffer is empty. */
  lemma {:induction false} ScanSkipsGarbage(garbage: seq<Rx>, input: seq<Rx>)
    requires forall i :: 0 <= i < |garbage| ==> garbage[i] != Byte(STX)
    ensures Scan([], garbage + input) == Scan([], input)
    decreases |garbage|
  {
    if garbage == [] {
      assert garbage + input == input;
    } else {
      assert (garbage + input)[1..] == garbage[1..] + input;
      ScanSkipsGarbage(garbage[1..], input);
    }
  }

  /** Once a frame has started, bytes without ETX are appended one by one. */
  lemma {:induction false} ScanAccumulates(buf: seq<bv8>, g: seq<bv8>, rest: seq<Rx>)
    requires buf != [] && NoEtx(g)
    ensures Scan(buf, Received(g) + rest) == Scan(buf + g, rest)
    decreases |g|
  {
    if g == [] {
      assert Received(g) + rest == rest;
      assert buf + g == buf;
    } else {
      assert (Received(g) + rest)[0] == Byte(g[0]);
      assert (Received(g) + rest)[1..] == Received(g[1..]) + rest;
      ScanAccumulates(buf + [g[0]], g[1..], rest);
      assert buf + [g[0]] + g[1..] == buf + g;
    }
  }

  /** A frame whose only ETX is its last byte is returned whole, and the reads after it are left. */
  lemma ScanWholeFrame(f: seq<bv8>, rest: seq<Rx>)
    requires ScannedFrame(f)
    ensures Scan([], Received(f) + rest) == Frame(f, rest)
  {
    var n := |f|;
    var mid := f[1..n - 1];
    assert NoEtx(mid) by {
      forall i | 0 <= i < |mid| ensures mid[i] != ETX {
        assert mid[i] == f[..n - 1][i + 1];
      }
    }
    var input := Received(f) + rest;
    var tail := [Byte(ETX)] + rest;
    assert input[0] == Byte(STX);
    assert input[1..] == Received(mid) + tail;
    var empty: seq<bv8> := [];
    assert empty + [STX] == [STX];
    assert Scan([], input) == Scan([STX], Received(mid) + tail);
    ScanAccumulates([STX], mid, tail);
    assert tail[0] == Byte(ETX) && tail[1..] == rest;
    assert Scan([STX] + mid, tail) == Frame([STX] + mid + [ETX], rest);
    assert [STX] + mid + [ETX] == f;
  }

  /**
   * Resynchronisation: whatever garbage precedes it, as long as it brings no
   * STX, a frame whose only ETX is its last byte is found exactly.
   */
  lemma ScanResynchronises(garbage: seq<Rx>, f: seq<bv8>, rest: seq<Rx>)
    requires forall i :: 0 <= i < |garbage| ==> garbage[i] != Byte(STX)
    requires ScannedFrame(f)
    ensures Scan([], garbage + Received(f) + rest) == Frame(f, rest)
  {
    assert garbage + Received(f) + rest == garbage + (Received(f) + rest);
    ScanSkipsGarbage(garbage, Received(f) + rest);
    ScanWholeFrame(f, rest);
  }

  /**
   * A well-formed message sent by the host, whose encoding carries no ETX
   * before its last byte, reaches the firmware's decoder intact and decodes
   * to itself (with the checksum field left at zero).
   */
  lemma ScanDecodesEncoded(m: Message, rest: seq<Rx>)
    requires WellFormed(m) && NoEtx(Encode(m)[..|Encode(m)| - 1])
    ensures Scan([], Received(Encode(m)) + rest) == Frame(Encode(m), rest)
    ensures UnoCodec.Decode(Encode(m)) == Ok(m.(checksum := 0))
  {
    ScanWholeFrame(Encode(m), rest);
    UnoCodec.EncodeAgrees(m);
    UnoCodec.DecodeEncode(m);
  }

  /**
   * The scanner stops at the first ETX-valued byte, wherever it is: a read
   * request with three data bytes has the second header byte 0x03, so only
   * three bytes reach the decoder, which rejects them as too short.
   */
  lemma EmbeddedEndMarkerCutsFrame()
    ensures var m := Message(STX, 1, 0, INPUT, READ, 3, [0x61, 0x62, 0x63], 0, ETX);
      && WellFormed(m)
      && Scan([], Received(Encode(m))) == Frame([STX, 0x20, 0x03], Received(Encode(m)[3..]))
      && UnoCodec.Decode([STX, 0x20, 0x03]) == Err(TooShort)
  {
    var m := Message(STX, 1, 0, INPUT, READ, 3, [0x61, 0x62, 0x63], 0, ETX);
    var e := Encode(m);
    assert Header1(1, 0) == 0x20 && Header2(INPUT, READ, 3) == 0x03;
    assert e[0] == STX && e[1] == 0x20 && e[2] == ETX;
    var input := Received(e);
    var empty: seq<bv8> := [];
    assert empty + [STX] == [STX];
    assert Scan([], input) == Scan([STX], input[1..]);
    assert input[1..][0] == Byte(0x20) && input[1..][1..] == input[2..];
    assert Scan([STX], input[1..]) == Scan([STX, 0x20], input[2..]);
    assert input[2..][0] == Byte(ETX) && input[2..][1..] == input[3..];
    assert Scan([STX, 0x20], input[2..]) == Frame([STX, 0x20, ETX], input[3..]);
    assert input[3..] == Received(e[3..]);
  }

  // ---------------------------------------------------------------------
  // GPIO (`setPin`, `pin.Get`, `pin.High`, `pin.Low`, `blink`)
  // ---------------------------------------------------------------------

  /** `machine.PinInput`, `machine.PinOutput`, or the zero mode `setPin` leaves for other IO values. */
  datatype PinMode = PinInput | PinOutput | PinModeZero

  datatype PinState = PinState(mode: PinMode, high: bool)

  /** Pin modes and levels, by pin number (`machine.Pin`). */
  type Gpio = map<int, PinState>

  /** The mode `setPin` chooses for an IO flag. */
  function ModeFor(io: bv8): (mode: PinMode)
    ensures io == INPUT <==> mode == PinInput
    ensures io == OUTPUT <==> mode == PinOutput
  {
    if io == INPUT then PinInput else if io == OUTPUT then PinOutput else PinModeZero
  }

  /** The level a pin drives; a pin never touched is low. */
  function LevelOf(g: Gpio, pin: int): bool
  {
    pin in g && g[pin].high
  }

  /** `machinePin.Configure`: sets the mode and keeps the level. */
  function Configure(g: Gpio, pin: int, mode: PinMode): (g': Gpio)
    ensures pin in g' && g'[pin].mode == mode && LevelOf(g', pin) == LevelOf(g, pin)
    ensures forall p :: p != pin ==> (p in g' <==> p in g)
    ensures forall p :: p != pin && p in g ==> g'[p] == g[p]
  {
    g[pin := PinState(mode, LevelOf(g, pin))]
  }

  /** `pin.High()` / `pin.Low()` on a configured pin. */
  function Drive(g: Gpio, pin: int, high: bool): (g': Gpio)
    requires pin in g
    ensures pin in g' && g'[pin].mode == g[pin].mode && LevelOf(g', pin) == high
    ensures forall p :: p != pin ==> (p in g' <==> p in g)
    ensures forall p :: p != pin && p in g ==> g'[p] == g[p]
  {
    g[pin := PinState(g[pin].mode, high)]
  }

  /** `pin.Get()`: an output pin reads back its own level, any other pin the level it senses. */
  function Get(g: Gpio, pin: int, sensed: bool): (high: bool)
    ensures pin in g && g[pin].mode == PinOutput ==> high == LevelOf(g, pin)
    ensures !(pin in g && g[pin].mode == PinOutput) ==> high == sensed
  {
    if pin in g && g[pin].mode == PinOutput then g[pin].high else sensed
  }

  /** A pin configured as an output and driven reads back the driven level, whatever an input would sense. */
  lemma DrivenPinReadsBack(g: Gpio, pin: int, high: bool, sensed: bool)
    ensures Get(Drive(Configure(g, pin, PinOutput), pin, high), pin, sensed) == high
  {
  }

  /** A pin configured as an input reads the sensed level, whatever it last drove. */
  lemma InputPinReadsSensed(g: Gpio, pin: int, sensed: bool)
    ensures Get(Configure(g, pin, PinInput), pin, sensed) == sensed
  {
  }

  /** `errorFastBlink`: the LED is made an output and, after toggling, left low. */
  function Blinked(g: Gpio): (g': Gpio)
    ensures LED in g' && g'[LED] == PinState(PinOutput, false)
    ensures forall p :: p != LED ==> (p in g' <==> p in g)
    ensures forall p :: p != LED && p in g ==> g'[p] == g[p]
  {
    g[LED := PinState(PinOutput, false)]
  }

  // ---------------------------------------------------------------------
  // Responses (`sendMessage`, `sendInitialMessage`, `sendOn`, `sendOff`)
  // ---------------------------------------------------------------------

  /**
   * The message `sendMessage` encodes: the request with its data replaced by
   * the text, the length set to the text length cut to a byte, and the
   * checksum recomputed.
   */
  function Response(original: Message, text: seq<bv8>): (r: Message)
    ensures r.stx == original.stx && r.etx == original.etx
    ensures r.version == original.version && r.pin == original.pin
    ensures r.io == original.io && r.rw == original.rw
    ensures r.data == text && r.checksum == ChecksumOf(r)
  {
    var m := original.(data := text, length := ByteOf(|text| % 256));
    ChecksumIgnoresStored(m, ChecksumOf(m));
    m.(checksum := ChecksumOf(m))
  }

  /** A response keeps the request's addressing and carries the text with a consistent checksum. */
  lemma ResponseKeepsHeader(original: Message, text: seq<bv8>)
    requires |text| < 256
    ensures var r := Response(original, text);
      && r.stx == original.stx && r.etx == original.etx
      && r.version == original.version && r.pin == original.pin
      && r.io == original.io && r.rw == original.rw
      && r.data == text && r.length as int == |text|
      && r.checksum == ChecksumOf(r)
  {
    assert |text| % 256 == |text|;
    ByteOfValue(|text| % 256);
    var m := original.(data := text, length := ByteOf(|text| % 256));
    ChecksumIgnoresStored(m, ChecksumOf(m));
  }

  /**
   * A response to a message whose markers and header fields are in range,
   * with text shorter than 64 bytes, is encoded by the firmware into a frame
   * the host decodes to that response. The request's own length and checksum
   * do not matter: `Response` replaces both.
   */
  lemma ResponseDecodes(request: Message, text: seq<bv8>)
    requires request.stx == STX && request.etx == ETX
    requires request.version < 8 && request.pin < 32 && request.io <= 1 && request.rw <= 1
    requires |text| < 64
    ensures WellFormed(Response(request, text))
    ensures Decode(UnoCodec.Encode(Response(request, text))) == Ok(Response(request, text))
  {
    ResponseKeepsHeader(request, text);
    UnoCodec.EncodeAgrees(Response(request, text));
    DecodeEncodeConsistent(Response(request, text));
  }

  /** The message `sendInitialMessage` reports a text with: version 1, pin 0, input, read. */
  function InitialMessage(text: seq<bv8>): Message
  {
    Message(STX, 1, 0, INPUT, READ, 0, text, 0, ETX)
  }

  /** The error report a decode error produces is a frame the host decodes to that report. */
  lemma ErrorReportDecodes(e: DecodeError)
    ensures var t := ErrorBytes(e);
      Decode(UnoCodec.Encode(Response(InitialMessage(t), t))) == Ok(Response(InitialMessage(t), t))
  {
    ResponseDecodes(InitialMessage(ErrorBytes(e)), ErrorBytes(e));
  }

  /** Some write of the frame fails: the UART rejects write number `failAt` before the frame is out. */
  predicate WriteFails(frame: seq<bv8>, failAt: Option<nat>)
  {
    failAt.Some? && failAt.value < |frame|
  }

  /**
   * The bytes that reach the UART: the frame up to the first failing write;
   * otherwise the whole frame and a newline, unless writing the newline fails.
   */
  function Transmitted(frame: seq<bv8>, failAt: Option<nat>): (out: seq<bv8>)
    ensures out <= frame + [NEWLINE]
    ensures WriteFails(frame, failAt) <==> |out| < |frame|
    ensures WriteFails(frame, failAt) ==> out == frame[..failAt.value]
    ensures failAt == None ==> out == frame + [NEWLINE]
  {
    if WriteFails(frame, failAt) then frame[..failAt.value]
    else if failAt == Some(|frame|) then frame
    else frame + [NEWLINE]
  }

  // ---------------------------------------------------------------------
  // Request handling (the body of `main`'s loop, lines 110-134)
  // ---------------------------------------------------------------------

  /** What handling a request does to the pins, which text it answers with, and whether it blinks after. */
  datatype Reaction = Reaction(gpio: Gpio, reply: Option<seq<bv8>>, blinkAfter: bool)

  /**
   * The request handler. The pin is configured per `io`; a read answers
   * '1' or '0' after the level; a write drives the pin for '1' or '0' and
   * answers it back, answers "invalid data" and blinks for any other first
   * byte, and answers "no data" when there is no data at all. An `rw` that
   * is neither Read nor Write matches no case and nothing is sent.
   */
  function Handle(g: Gpio, m: Message, sensed: bool): (r: Reaction)
    ensures r.reply.None? <==> m.rw != READ && m.rw != WRITE
    ensures r.blinkAfter <==> m.rw == WRITE && |m.data| > 0 && m.data[0] != ON && m.data[0] != OFF
    ensures r.blinkAfter ==> r.reply == Some(INVALID_DATA)
  {
    var g1 := Configure(g, m.pin as int, ModeFor(m.io));
    if m.rw == READ then
      Reaction(g1, Some(if Get(g1, m.pin as int, sensed) then [ON] else [OFF]), false)
    else if m.rw == WRITE then
      if |m.data| == 0 then Reaction(g1, Some(NO_DATA), false)
      else if m.data[0] == ON then Reaction(Drive(g1, m.pin as int, true), Some([ON]), false)
      else if m.data[0] == OFF then Reaction(Drive(g1, m.pin as int, false), Some([OFF]), false)
      else Reaction(g1, Some(INVALID_DATA), true)
    else Reaction(g1, None, false)
  }

  /** Handling a request configures its pin per `io` and touches no other pin. */
  lemma HandleTouchesOnlyItsPin(g: Gpio, m: Message, sensed: bool)
    ensures var r := Handle(g, m, sensed);
      && (m.pin as int) in r.gpio && r.gpio[m.pin as int].mode == ModeFor(m.io)
      && (forall p :: p != m.pin as int ==> (p in r.gpio <==> p in g))
      && (forall p :: p != m.pin as int && p in g ==> r.gpio[p] == g[p])
  {
  }

  /** A decoded request selects input or output mode, never the zero mode. */
  lemma DecodedRequestPicksMode(b: seq<bv8>)
    requires UnoCodec.Decode(b).Ok?
    ensures ModeFor(UnoCodec.Decode(b).value.io) in {PinInput, PinOutput}
  {
    UnoCodec.DecodeAgrees(b);
  }

  /**
   * A read request leaves every level as it was and answers '1' exactly
   * when the pin reads high: its own level if configured as output, the
   * sensed level otherwise.
   */
  lemma HandleRead(g: Gpio, m: Message, sensed: bool)
    requires m.rw == READ
    ensures var r := Handle(g, m, sensed);
      && (forall p :: LevelOf(r.gpio, p) == LevelOf(g, p))
      && !r.blinkAfter
      && r.reply == Some(if (if m.io == OUTPUT then LevelOf(g, m.pin as int) else sensed) then [ON] else [OFF])
  {
    var g1 := Configure(g, m.pin as int, ModeFor(m.io));
    assert Get(g1, m.pin as int, sensed) == if m.io == OUTPUT then LevelOf(g, m.pin as int) else sensed;
  }

  /**
   * A write request with data: '1' drives the pin high and answers '1', '0'
   * drives it low and answers '0'; any other first byte leaves every level
   * as it was, answers "invalid data" and asks for an error blink.
   */
  lemma HandleWrite(g: Gpio, m: Message, sensed: bool)
    requires m.rw == WRITE && |m.data| > 0
    ensures var r := Handle(g, m, sensed);
      && (m.data[0] == ON ==> LevelOf(r.gpio, m.pin as int) && r.reply == Some([ON]) && !r.blinkAfter)
      && (m.data[0] == OFF ==> !LevelOf(r.gpio, m.pin as int) && r.reply == Some([OFF]) && !r.blinkAfter)
      && (m.data[0] != ON && m.data[0] != OFF ==>
            (forall p :: LevelOf(r.gpio, p) == LevelOf(g, p)) && r.reply == Some(INVALID_DATA) && r.blinkAfter)
      && (forall p :: p != m.pin as int ==> LevelOf(r.gpio, p) == LevelOf(g, p))
  {
  }

  /** A write request without data leaves every level as it was and answers "no data". */
  lemma HandleEmptyWrite(g: Gpio, m: Message, sensed: bool)
    requires m.rw == WRITE && |m.data| == 0
    ensures var r := Handle(g, m, sensed);
      && (forall p :: LevelOf(r.gpio, p) == LevelOf(g, p))
      && r.reply == Some(NO_DATA) && !r.blinkAfter
  {
  }

  // ---------------------------------------------------------------------
  // One turn of the firmware loop, as a function of the board's state
  // ---------------------------------------------------------------------

  /** The board's state: pins, the scanner's buffer, unread input, written output, error blinks. */
  datatype BoardState = BoardState(
    gpio: Gpio,
    pending: seq<bv8>,
    input: seq<Rx>,
    output: seq<bv8>,
    errorBlinks: nat)

  /** `errorFastBlink`. */
  function BlinkSpec(s: BoardState): BoardState
  {
    s.(gpio := Blinked(s.gpio), errorBlinks := s.errorBlinks + 1)
  }

  /** Writing a frame to the UART byte by byte: a failed write stops the frame and blinks. */
  function TransmitSpec(s: BoardState, frame: seq<bv8>, failAt: Option<nat>): BoardState
  {
    var s1 := s.(output := s.output + Transmitted(frame, failAt));
    if WriteFails(frame, failAt) then BlinkSpec(s1) else s1
  }

  /** `sendMessage(original, text)`: the response frame, transmitted. */
  function SendSpec(s: BoardState, original: Message, text: seq<bv8>, failAt: Option<nat>): BoardState
  {
    TransmitSpec(s, UnoCodec.Encode(Response(original, text)), failAt)
  }

  /**
   * `readMessage` over the input there is: no frame yet (the partial frame
   * is kept); a frame that fails to decode (blink, report the error text in
   * an initial message, and return no request); or a decoded request.
   */
  function ReadSpec(s: BoardState, failAt: Option<nat>): (BoardState, Option<Message>)
  {
    match Scan(s.pending, s.input)
    case Waiting(p) => (s.(pending := p, input := []), None)
    case Frame(f, rest) =>
      var s1 := s.(pending := [], input := rest);
      match UnoCodec.Decode(f)
      case Err(e) => (SendSpec(BlinkSpec(s1), InitialMessage(ErrorBytes(e)), ErrorBytes(e), failAt), None)
      case Ok(m) => (s1, Some(m))
  }

  /** Handling a decoded request: GPIO effect, the response frame, then the blink if asked for. */
  function DispatchSpec(s: BoardState, m: Message, sensed: bool, failAt: Option<nat>): BoardState
  {
    var r := Handle(s.gpio, m, sensed);
    var s1 := s.(gpio := r.gpio);
    match r.reply
    case None => s1
    case Some(text) =>
      var s2 := SendSpec(s1, m, text, failAt);
      if r.blinkAfter then BlinkSpec(s2) else s2
  }

  /** Handling a read request: the configured pin's level goes back as '1' or '0'. */
  lemma ReadDispatch(s: BoardState, m: Message, sensed: bool, failAt: Option<nat>)
    requires m.rw == READ
    ensures var s1 := s.(gpio := Configure(s.gpio, m.pin as int, ModeFor(m.io)));
      DispatchSpec(s, m, sensed, failAt) ==
        SendSpec(s1, m, if Get(s1.gpio, m.pin as int, sensed) then [ON] else [OFF], failAt)
  {
  }

  /** Handling a write request, branch by branch on its data. */
  lemma WriteDispatch(s: BoardState, m: Message, sensed: bool, failAt: Option<nat>)
    requires m.rw == WRITE
    ensures var s1 := s.(gpio := Configure(s.gpio, m.pin as int, ModeFor(m.io)));
      DispatchSpec(s, m, sensed, failAt) ==
        if |m.data| == 0 then SendSpec(s1, m, NO_DATA, failAt)
        else if m.data[0] == ON then SendSpec(s1.(gpio := Drive(s1.gpio, m.pin as int, true)), m, [ON], failAt)
        else if m.data[0] == OFF then SendSpec(s1.(gpio := Drive(s1.gpio, m.pin as int, false)), m, [OFF], failAt)
        else BlinkSpec(SendSpec(s1, m, INVALID_DATA, failAt))
  {
  }

  /** Reading a request only appends to the output and only adds blinks. */
  lemma ReadSpecAppends(s: BoardState, failAt: Option<nat>)
    ensures s.output <= ReadSpec(s, failAt).0.output
    ensures s.errorBlinks <= ReadSpec(s, failAt).0.errorBlinks
  {
  }

  /** Handling a request, if there is one, only appends to the output and only adds blinks. */
  lemma DispatchAppends(s: BoardState, msg: Option<Message>, sensed: bool, failAt: Option<nat>)
    ensures msg.Some? ==> s.output <= DispatchSpec(s, msg.value, sensed, failAt).output
    ensures msg.Some? ==> s.errorBlinks <= DispatchSpec(s, msg.value, sensed, failAt).errorBlinks
  {
  }

  /** One turn of `main`'s loop: read a request, and handle it if there is one. */
  function Next(s: BoardState, sensed: bool, failAt: Option<nat>): (s': BoardState)
    ensures s.output <= s'.output && s.errorBlinks <= s'.errorBlinks
  {
    ReadSpecAppends(s, failAt);
    DispatchAppends(ReadSpec(s, failAt).0, ReadSpec(s, failAt).1, sensed, failAt);
    var (s1, msg) := ReadSpec(s, failAt);
    match msg
    case None => s1
    case Some(m) => DispatchSpec(s1, m, sensed, failAt)
  }

  /** A turn keeps the scanner's buffer a partial frame. */
  lemma NextKeepsPartial(s: BoardState, sensed: bool, failAt: Option<nat>)
    requires Partial(s.pending)
    ensures Partial(Next(s, sensed, failAt).pending)
  {
    ScanShape(s.pending, s.input);
    NextConsumesInput(s, sensed, failAt);
  }

  /** Sending a response leaves the scanner alone. */
  lemma SendKeepsScanner(s: BoardState, original: Message, text: seq<bv8>, failAt: Option<nat>)
    ensures SendSpec(s, original, text, failAt).pending == s.pending
    ensures SendSpec(s, original, text, failAt).input == s.input
  {
  }

  /** Handling a request leaves the scanner alone. */
  lemma DispatchKeepsScanner(s: BoardState, m: Message, sensed: bool, failAt: Option<nat>)
    ensures DispatchSpec(s, m, sensed, failAt).pending == s.pending
    ensures DispatchSpec(s, m, sensed, failAt).input == s.input
  {
    var r := Handle(s.gpio, m, sensed);
    if r.reply.Some? {
      SendKeepsScanner(s.(gpio := r.gpio), m, r.reply.value, failAt);
    }
  }

  /**
   * A turn consumes the input up to the end of the first frame, or all of
   * it when no frame completes; only the scanner changes the buffer.
   */
  lemma NextConsumesInput(s: BoardState, sensed: bool, failAt: Option<nat>)
    ensures Scan(s.pending, s.input).Frame? ==>
      Next(s, sensed, failAt).pending == [] && Next(s, sensed, failAt).input == Scan(s.pending, s.input).rest
    ensures Scan(s.pending, s.input).Waiting? ==>
      Next(s, sensed, failAt).pending == Scan(s.pending, s.input).partial && Next(s, sensed, failAt).input == []
  {
    match Scan(s.pending, s.input)
    case Waiting(p) =>
    case Frame(f, rest) =>
      var s1 := s.(pending := [], input := rest);
      match UnoCodec.Decode(f)
      case Err(e) =>
        SendKeepsScanner(BlinkSpec(s1), InitialMessage(ErrorBytes(e)), ErrorBytes(e), failAt);
      case Ok(m) =>
        DispatchKeepsScanner(s1, m, sensed, failAt);
  }

  /** Until an ETX arrives, a turn only moves the input into the scanner's buffer. */
  lemma NextWithoutFrame(s: BoardState, sensed: bool, failAt: Option<nat>)
    requires Scan(s.pending, s.input).Waiting?
    ensures Next(s, sensed, failAt) == s.(pending := Scan(s.pending, s.input).partial, input := [])
  {
  }

  /**
   * A frame that fails to decode drives no pin: only the LED is touched, by
   * the error blink; the error text goes out in an initial message.
   */
  lemma NextOnDecodeError(s: BoardState, sensed: bool, failAt: Option<nat>)
    requires Scan(s.pending, s.input).Frame? && UnoCodec.Decode(Scan(s.pending, s.input).bytes).Err?
    ensures var s' := Next(s, sensed, failAt);
      var e := UnoCodec.Decode(Scan(s.pending, s.input).bytes).error;
      && s'.gpio == Blinked(s.gpio)
      && s'.output == s.output + Transmitted(UnoCodec.Encode(Response(InitialMessage(ErrorBytes(e)), ErrorBytes(e))), failAt)
      && s'.errorBlinks > s.errorBlinks
      && s'.pending == [] && s'.input == Scan(s.pending, s.input).rest
  {
  }

  /** A decoded request is handled exactly once and its response is sent after the pin is set. */
  lemma NextOnRequest(s: BoardState, sensed: bool, failAt: Option<nat>)
    requires Scan(s.pending, s.input).Frame? && UnoCodec.Decode(Scan(s.pending, s.input).bytes).Ok?
    ensures var m := UnoCodec.Decode(Scan(s.pending, s.input).bytes).value;
      var r := Handle(s.gpio, m, sensed);
      var s' := Next(s, sensed, failAt);
      && r.reply.Some?
      && s'.output == s.output + Transmitted(UnoCodec.Encode(Response(m, r.reply.value)), failAt)
      && (!r.blinkAfter && !WriteFails(UnoCodec.Encode(Response(m, r.reply.value)), failAt) ==> s'.gpio == r.gpio)
      && s'.pending == [] && s'.input == Scan(s.pending, s.input).rest
  {
    var scan := Scan(s.pending, s.input);
    var s1 := s.(pending := [], input := scan.rest);
    var m := UnoCodec.Decode(scan.bytes).value;
    assert ReadSpec(s, failAt) == (s1, Some(m));
    DispatchKeepsScanner(s1, m, sensed, failAt);
    UnoCodec.DecodeAgrees(scan.bytes);
    DispatchAnswers(s1, m, sensed, failAt);
  }

  /** A read or write request is always answered; the pin change stands unless a blink follows. */
  lemma DispatchAnswers(s: BoardState, m: Message, sensed: bool, failAt: Option<nat>)
    requires m.rw == READ || m.rw == WRITE
    ensures var r := Handle(s.gpio, m, sensed);
      var s' := DispatchSpec(s, m, sensed, failAt);
      && r.reply.Some?
      && s'.output == s.output + Transmitted(UnoCodec.Encode(Response(m, r.reply.value)), failAt)
      && (!r.blinkAfter && !WriteFails(UnoCodec.Encode(Response(m, r.reply.value)), failAt) ==> s'.gpio == r.gpio)
  {
  }

  /**
   * When every UART write succeeds and the request asks for no blink, a turn
   * does exactly three things: the handler's pin change, the response frame
   * with its newline, and the consumption of the frame's input.
   */
  lemma NextServesRequest(s: BoardState, sensed: bool)
    requires Scan(s.pending, s.input).Frame? && UnoCodec.Decode(Scan(s.pending, s.input).bytes).Ok?
    requires !Handle(s.gpio, UnoCodec.Decode(Scan(s.pending, s.input).bytes).value, sensed).blinkAfter
    ensures var m := UnoCodec.Decode(Scan(s.pending, s.input).bytes).value;
      var r := Handle(s.gpio, m, sensed);
      && r.reply.Some?
      && Next(s, sensed, None) == s.(gpio := r.gpio, pending := [], input := Scan(s.pending, s.input).rest,
                                     output := s.output + UnoCodec.Encode(Response(m, r.reply.value)) + [NEWLINE])
  {
    NextOnRequest(s, sensed, None);
  }

  // ---------------------------------------------------------------------
  // The loop body as written
  // ---------------------------------------------------------------------

  /**
   * `main`'s loop body exactly as written: the source decodes without a
   * bounds check, dereferences the nil message `readMessage` returns after
   * a decode error, and guards the write branch with `Data != nil`, which a
   * decoded (possibly empty) slice always passes, so `Data[0]` is read even
   * when there is no data.
   */
  function StepAsWritten(s: BoardState, sensed: bool, failAt: Option<nat>): (r: Run<BoardState>)
    ensures r.Returns? ==> r.value == Next(s, sensed, failAt)
  {
    match Scan(s.pending, s.input)
    case Waiting(p) => Returns(s.(pending := p, input := []))
    case Frame(f, rest) =>
      var s1 := s.(pending := [], input := rest);
      if DecodeAsWritten(f).Panics? then Panics
      else match UnoCodec.Decode(f)
      case Err(_) => Panics
      case Ok(m) =>
        if m.rw == WRITE && |m.data| == 0 then Panics
        else Returns(DispatchSpec(s1, m, sensed, failAt))
  }

  /** The board after reset with `input` still to arrive. */
  function Booted(input: seq<Rx>): BoardState
  {
    BoardState(map[LED := PinState(PinOutput, false)], [], input, [], 0)
  }

  /** A frame with a bad checksum crashes the firmware as written; the model blinks and answers instead. */
  lemma BadChecksumCrashesAsWritten()
    ensures StepAsWritten(Booted(Received([STX, 0x00, 0x00, ETX])), false, None) == Panics
    ensures Next(Booted(Received([STX, 0x00, 0x00, ETX])), false, None).errorBlinks == 1
  {
    BadChecksumFrameArrives();
    NextOnDecodeError(Booted(Received([STX, 0x00, 0x00, ETX])), false, None);
  }

  /** The frame of `BadChecksumCrashesAsWritten` is scanned whole and fails its checksum. */
  lemma BadChecksumFrameArrives()
    ensures var f: seq<bv8> := [STX, 0x00, 0x00, ETX];
      && Scan([], Received(f)) == Frame(f, [])
      && DecodeAsWritten(f).Returns?
      && UnoCodec.Decode(f) == Err(ChecksumMismatch)
  {
    var f: seq<bv8> := [STX, 0x00, 0x00, ETX];
    ScanWholeFrame(f, []);
    assert Received(f) + [] == Received(f);
    var m := Unpack(0x00, 0x00, []);
    assert ChecksumData(m) == [0, 0, 0, 0, 0];
    SumOfFive(0, 0, 0, 0, 0);
    ChecksumOfSum(m, 0);
    assert f[3..3 + DeclaredLength(f)] == [];
    DecodeRejectsBadChecksum(f, m);
    UnoCodec.DecodeAgrees(f);
  }

  /**
   * A write request without data (version 1, pin 0, input, write: 02 20 40 02 03)
   * crashes the firmware as written on `Data[0]`; the model answers "no data".
   */
  lemma EmptyWriteCrashesAsWritten()
    ensures StepAsWritten(Booted(Received([STX, 0x20, 0x40, 0x02, ETX])), false, None) == Panics
    ensures Next(Booted(Received([STX, 0x20, 0x40, 0x02, ETX])), false, None).output
            == UnoCodec.Encode(Response(Message(STX, 1, 0, INPUT, WRITE, 0, [], 0, ETX), NO_DATA)) + [NEWLINE]
  {
    EmptyWriteFrameArrives();
    var m := Message(STX, 1, 0, INPUT, WRITE, 0, [], 0, ETX);
    HandleEmptyWrite(Booted([]).gpio, m, false);
  }

  /** The empty write request of `EmptyWriteCrashesAsWritten` is scanned whole and decodes without a panic. */
  lemma EmptyWriteFrameArrives()
    ensures var f: seq<bv8> := [STX, 0x20, 0x40, 0x02, ETX];
      && Scan([], Received(f)) == Frame(f, [])
      && DecodeAsWritten(f).Returns?
      && UnoCodec.Decode(f) == Ok(Message(STX, 1, 0, INPUT, WRITE, 0, [], 0, ETX))
  {
    var f: seq<bv8> := [STX, 0x20, 0x40, 0x02, ETX];
    ScanWholeFrame(f, []);
    assert Received(f) + [] == Received(f);
    var m := Unpack(0x20, 0x40, []);
    assert m == Message(STX, 1, 0, INPUT, WRITE, 0, [], 0, ETX);
    assert ChecksumData(m) == [1, 0, 0, 1, 0];
    SumOfFive(1, 0, 0, 1, 0);
    ChecksumOfSum(m, 2);
    assert f[3..3 + DeclaredLength(f)] == [];
    DecodeAcceptsGoodChecksum(f, m);
    UnoCodec.DecodeAgrees(f);
  }

  // ---------------------------------------------------------------------
  // The board
  // ---------------------------------------------------------------------

  /** The microcontroller running the firmware. */
  class Board {
    var gpio: Gpio
    var pending: seq<bv8>
    var input: seq<Rx>
    var output: seq<bv8>
    var errorBlinks: nat

    /** The scanner's buffer between turns is a partial frame. */
    ghost predicate Valid()
      reads this
    {
      Partial(pending)
    }

    function State(): BoardState
      reads this
    {
      BoardState(gpio, pending, input, output, errorBlinks)
    }

    /** Reset: the LED is configured as output and driven low; `input` is what will arrive. */
    constructor (input: seq<Rx>)
      ensures Valid() && State() == Booted(input)
    {
      gpio := map[LED := PinState(PinOutput, false)];
      pending := [];
      this.input := input;
      output := [];
      errorBlinks := 0;
    }

    /** `errorFastBlink`. */
    method ErrorFastBlink()
      modifies this
      ensures State() == BlinkSpec(old(State()))
    {
      gpio := Blinked(gpio);
      errorBlinks := errorBlinks + 1;
    }

    /** `setPin`: configures the pin per the IO flag. */
    method SetPin(pin: bv8, io: bv8)
      modifies this
      ensures State() == old(State()).(gpio := Configure(old(gpio), pin as int, ModeFor(io)))
    {
      var mode := if io == INPUT then PinInput else if io == OUTPUT then PinOutput else PinModeZero;
      gpio := gpio[pin as int := PinState(mode, LevelOf(gpio, pin as int))];
    }

    /**
     * `sendMessage`: builds the response on a copy of the request, encodes
     * it and writes it byte by byte, then a newline; the first failed write
     * abandons the response and blinks.
     */
    method SendMessage(original: Message, text: seq<bv8>, failAt: Option<nat>)
      modifies this
      ensures State() == SendSpec(old(State()), original, text, failAt)
    {
      var m := original.(data := text, length := ByteOf(|text| % 256));
      var sum := CalculateChecksum(ChecksumData(m));
      m := m.(checksum := sum);
      assert m == Response(original, text);
      Transmit(UnoCodec.Encode(m), failAt);
    }

    /**
     * The writing half of `sendMessage`: each byte of the frame goes to the
     * UART in turn, then a newline; the first failed write blinks and stops.
     */
    method Transmit(frame: seq<bv8>, failAt: Option<nat>)
      modifies this
      ensures State() == TransmitSpec(old(State()), frame, failAt)
    {
      var i := 0;
      while i < |frame|
        invariant 0 <= i <= |frame|
        invariant failAt.Some? ==> i <= failAt.value
        invariant State() == old(State()).(output := old(output) + frame[..i])
      {
        if failAt == Some(i) {
          ErrorFastBlink();
          return;
        }
        output := output + [frame[i]];
        i := i + 1;
      }
      assert frame[..i] == frame;
      if failAt != Some(|frame|) {
        output := output + [NEWLINE];
      }
    }

    /** `sendInitialMessage`: reports a text in a message for pin 0. */
    method SendInitialMessage(text: seq<bv8>, failAt: Option<nat>)
      modifies this
      ensures State() == SendSpec(old(State()), InitialMessage(text), text, failAt)
    {
      SendMessage(InitialMessage(text), text, failAt);
    }

    /** `Message.sendOn`: answers '1'. */
    method SendOn(m: Message, failAt: Option<nat>)
      modifies this
      ensures State() == SendSpec(old(State()), m, [ON], failAt)
    {
      SendMessage(m, [ON], failAt);
    }

    /** `Message.sendOff`: answers '0'. */
    method SendOff(m: Message, failAt: Option<nat>)
      modifies this
      ensures State() == SendSpec(old(State()), m, [OFF], failAt)
    {
      SendMessage(m, [OFF], failAt);
    }

    /**
     * The scanning loop of `readMessage` over the input there is: returns
     * the frame if an ETX completes one, and otherwise keeps the partial
     * frame for the next turn.
     */
    method ReadFrame() returns (frame: Option<seq<bv8>>)
      requires Valid()
      modifies this
      ensures Valid()
      ensures match Scan(old(pending), old(input))
        case Frame(f, rest) => frame == Some(f) && State() == old(State()).(pending := [], input := rest)
        case Waiting(p) => frame == None && State() == old(State()).(pending := p, input := [])
    {
      ScanShape(pending, input);
      var buf := pending;
      var i := 0;
      while i < |input|
        invariant 0 <= i <= |input|
        invariant Scan(pending, input) == Scan(buf, input[i..])
      {
        assert input[i..][1..] == input[i + 1..];
        var rx := input[i];
        i := i + 1;
        if rx.Byte? && !(buf == [] && rx.value != STX) {
          buf := buf + [rx.value];
          if rx.value == ETX {
            frame := Some(buf);
            pending := [];
            input := input[i..];
            return;
          }
        }
      }
      frame := None;
      pending := buf;
      input := [];
    }

    /**
     * `readMessage`: the next frame, decoded. A frame that fails to decode
     * blinks, is reported back in an initial message, and yields no request
     * (where the source returns nil for `main` to dereference).
     */
    method ReadMessage(failAt: Option<nat>) returns (msg: Option<Message>)
      requires Valid()
      modifies this
      ensures Valid()
      ensures (State(), msg) == ReadSpec(old(State()), failAt)
    {
      var frame := ReadFrame();
      msg := None;
      if frame.Some? {
        var decoded := UnoCodec.Decode(frame.value);
        if decoded.Err? {
          ErrorFastBlink();
          SendInitialMessage(ErrorBytes(decoded.error), failAt);
        } else {
          msg := Some(decoded.value);
        }
      }
    }

    /** The handling half of `main`'s loop body for one decoded request. */
    method Dispatch(m: Message, sensed: bool, failAt: Option<nat>)
      modifies this
      ensures State() == DispatchSpec(old(State()), m, sensed, failAt)
    {
      ghost var s0 := State();
      SetPin(m.pin, m.io);
      if m.rw == READ {
        ReadDispatch(s0, m, sensed, failAt);
        if Get(gpio, m.pin as int, sensed) {
          SendOn(m, failAt);
        } else {
          SendOff(m, failAt);
        }
      } else if m.rw == WRITE {
        ServeWrite(m, failAt, s0, sensed);
      }
    }

    /** The Write case of `main`'s loop body, on a pin `setPin` has just configured. */
    method ServeWrite(m: Message, failAt: Option<nat>, ghost s0: BoardState, ghost sensed: bool)
      requires m.rw == WRITE
      requires State() == s0.(gpio := Configure(s0.gpio, m.pin as int, ModeFor(m.io)))
      modifies this
      ensures State() == DispatchSpec(s0, m, sensed, failAt)
    {
      WriteDispatch(s0, m, sensed, failAt);
      if |m.data| == 0 {
        SendMessage(m, NO_DATA, failAt);
      } else if m.data[0] == ON {
        gpio := Drive(gpio, m.pin as int, true);
        SendOn(m, failAt);
      } else if m.data[0] == OFF {
        gpio := Drive(gpio, m.pin as int, false);
        SendOff(m, failAt);
      } else {
        SendMessage(m, INVALID_DATA, failAt);
        ErrorFastBlink();
      }
    }

    /** One turn of `main`'s loop. */
    method Step(sensed: bool, failAt: Option<nat>)
      requires Valid()
      modifies this
      ensures Valid()
      ensures State() == Next(old(State()), sensed, failAt)
    {
      var msg := ReadMessage(failAt);
      if msg.Some? {
        ghost var s1 := State();
        Dispatch(msg.value, sensed, failAt);
        DispatchKeepsScanner(s1, msg.value, sensed, failAt);
      }
    }
  }
}
