/**
 * The request the host's terminal UI builds for a menu choice (cli/ui.go),
 * and what the firmware does with it end to end: the host looks the pin
 * name up, encodes the request, the firmware finds the frame in its serial
 * input, acts on the pin and echoes a response the host can decode.
 */
module Host {
  import opened Codec
  import Pins
  import UnoCodec
  import opened Firmware

  /**
   * The request for a menu item's value: an output-direction message for the
   * pin, carrying the value as data, a Write when the value is "1" or "0"
   * and a Read otherwise, with its checksum filled in.
   */
  function BuildRequest(version: bv8, pin: Pins.Pin, value: seq<bv8>): (m: Message)
    ensures m.stx == STX && m.etx == ETX && m.version == version && m.pin == pin && m.io == OUTPUT
    ensures m.data == value && m.length == ByteOf(|value| % 256)
    ensures m.rw == WRITE <==> value == [ON] || value == [OFF]
    ensures m.rw == READ <==> !(value == [ON] || value == [OFF])
    ensures m.checksum == ChecksumOf(m)
  {
    var rw := if value == [ON] || value == [OFF] then WRITE else READ;
    var m := Message(STX, version, pin, OUTPUT, rw, ByteOf(|value| % 256), value, 0, ETX);
    ChecksumIgnoresStored(m, ChecksumOf(m));
    m.(checksum := ChecksumOf(m))
  }

  /** A request for a pin that fits five bits, with under 64 bytes of data, decodes to itself on either side. */
  lemma RequestRoundTrip(version: bv8, pin: Pins.Pin, value: seq<bv8>)
    requires version < 8 && pin < 32 && |value| < 64
    ensures WellFormed(BuildRequest(version, pin, value))
    ensures Decode(Encode(BuildRequest(version, pin, value))) == Ok(BuildRequest(version, pin, value))
    ensures UnoCodec.Decode(Encode(BuildRequest(version, pin, value))) == Ok(BuildRequest(version, pin, value).(checksum := 0))
  {
    var m := BuildRequest(version, pin, value);
    ByteOfValue(|value|);
    DecodeEncodeConsistent(m);
    UnoCodec.EncodeAgrees(m);
    UnoCodec.DecodeEncode(m);
  }

  /** The values of the menu: "1" (ON), "0" (OFF) and "2" (Retrieve). */
  const RETRIEVE: bv8 := 0x32

  predicate MenuValue(d: bv8)
  {
    d == ON || d == OFF || d == RETRIEVE
  }

  /** The checksum of a menu request is the plain sum of its fields, which stays below 256. */
  lemma MenuChecksum(m: Message)
    requires m.version < 8 && m.pin < 24 && m.io <= 1 && m.rw <= 1 && m.length == 1
    requires |m.data| == 1 && MenuValue(m.data[0])
    ensures ChecksumOf(m) as int
      == m.version as int + m.pin as int + m.io as int + m.rw as int + 1 + m.data[0] as int
  {
    MenuSum(m);
    var n := Sum(ChecksumData(m));
    assert n % 256 == n;
    ByteOfValue(n);
  }

  /** The sum behind a menu request's checksum, field by field. */
  lemma MenuSum(m: Message)
    requires m.version < 8 && m.pin < 24 && m.io <= 1 && m.rw <= 1 && m.length == 1
    requires |m.data| == 1 && MenuValue(m.data[0])
    ensures Sum(ChecksumData(m))
      == m.version as int + m.pin as int + m.io as int + m.rw as int + 1 + m.data[0] as int
    ensures 0 <= Sum(ChecksumData(m)) < 256
  {
    var s := ChecksumData(m);
    assert s[..5] == [m.version, m.pin, m.io, m.rw, m.length];
    SumOfFive(m.version, m.pin, m.io, m.rw, m.length);
    assert Sum(s) == Sum(s[..5]) + m.data[0] as int;
  }

  /**
   * With a version of at least 1, no byte of a menu request's frame but the
   * last is an ETX, so the firmware's scanner sees the frame whole.
   */
  lemma MenuFrameIsClean(version: bv8, pin: Pins.Pin, d: bv8)
    requires 1 <= version < 8 && pin < 24 && MenuValue(d)
    ensures WellFormed(BuildRequest(version, pin, [d]))
    ensures ScannedFrame(Encode(BuildRequest(version, pin, [d])))
  {
    var m := BuildRequest(version, pin, [d]);
    assert m.length == ByteOf(1) == 1;
    MenuChecksum(m);
    var f := Encode(m);
    assert f == [STX, Header1(version, pin), Header2(OUTPUT, m.rw, 1), d, ChecksumOf(m), ETX];
    assert Header1(version, pin) != ETX;
    assert ChecksumOf(m) != ETX;
    assert NoEtx(f[..5]);
  }

  /**
   * A menu request for a pin below 24 reaches the firmware intact after any
   * garbage without STX, and is decoded there.
   */
  lemma MenuRequestArrives(version: bv8, pin: Pins.Pin, d: bv8, garbage: seq<Rx>, rest: seq<Rx>)
    requires pin < 24 && 1 <= version < 8 && MenuValue(d)
    requires forall i :: 0 <= i < |garbage| ==> garbage[i] != Byte(STX)
    ensures var m := BuildRequest(version, pin, [d]);
      && Scan([], garbage + Received(Encode(m)) + rest) == Frame(Encode(m), rest)
      && UnoCodec.Decode(Encode(m)) == Ok(m.(checksum := 0))
  {
    var m := BuildRequest(version, pin, [d]);
    MenuFrameIsClean(version, pin, d);
    ScanResynchronises(garbage, Encode(m), rest);
    ScanDecodesEncoded(m, []);
  }

  /**
   * The firmware's reaction to a menu request as received: the pin becomes
   * an output, driven high for "1", low for "0" and left as it is for "2";
   * the reply is the resulting level and no blink follows.
   */
  lemma MenuHandled(g: Gpio, m: Message, sensed: bool)
    requires m.io == OUTPUT && |m.data| == 1 && MenuValue(m.data[0])
    requires m.rw == if m.data[0] == ON || m.data[0] == OFF then WRITE else READ
    ensures var pin := m.pin as int;
      var d := m.data[0];
      var high := if d == ON then true else if d == OFF then false else LevelOf(g, pin);
      var r := Handle(g, m, sensed);
      && r.reply == Some(if high then [ON] else [OFF]) && !r.blinkAfter
      && pin in r.gpio && r.gpio[pin].mode == PinOutput && LevelOf(r.gpio, pin) == high
      && (forall p :: p != pin ==> LevelOf(r.gpio, p) == LevelOf(g, p))
  {
    if m.rw == WRITE {
      HandleWrite(g, m, sensed);
    } else {
      HandleRead(g, m, sensed);
    }
    HandleTouchesOnlyItsPin(g, m, sensed);
  }

  /**
   * End to end, when no UART write fails: a menu choice for a pin below 24,
   * arriving after garbage without STX, makes one firmware turn configure
   * the pin as output, drive it high for "1" and low for "0" or leave it as
   * it is for "2", and echo the resulting level ("1"/"0") in a response the
   * host decodes, without any error blink.
   */
  lemma MenuCommandOnPin(version: bv8, pin: Pins.Pin, d: bv8, garbage: seq<Rx>, rest: seq<Rx>,
                         s: BoardState, sensed: bool)
    requires pin < 24 && 1 <= version < 8 && MenuValue(d)
    requires forall i :: 0 <= i < |garbage| ==> garbage[i] != Byte(STX)
    requires s.pending == []
    requires s.input == garbage + Received(Encode(BuildRequest(version, pin, [d]))) + rest
    ensures var m := BuildRequest(version, pin, [d]);
      var high := if d == ON then true else if d == OFF then false else LevelOf(s.gpio, pin as int);
      var reply := Response(m, if high then [ON] else [OFF]);
      var s' := Next(s, sensed, None);
      && pin as int in s'.gpio && s'.gpio[pin as int].mode == PinOutput && LevelOf(s'.gpio, pin as int) == high
      && (forall p :: p != pin as int ==> LevelOf(s'.gpio, p) == LevelOf(s.gpio, p))
      && s'.output == s.output + UnoCodec.Encode(reply) + [NEWLINE]
      && Decode(UnoCodec.Encode(reply)) == Ok(reply)
      && s'.errorBlinks == s.errorBlinks
      && s'.pending == [] && s'.input == rest
  {
    var m := BuildRequest(version, pin, [d]);
    MenuRequestArrives(version, pin, d, garbage, rest);
    MenuFrameIsClean(version, pin, d);
    var received := m.(checksum := 0);
    assert Scan(s.pending, s.input) == Frame(Encode(m), rest);
    MenuHandled(s.gpio, received, sensed);
    var r := Handle(s.gpio, received, sensed);
    var high := if d == ON then true else if d == OFF then false else LevelOf(s.gpio, pin as int);
    var text: seq<bv8> := if high then [ON] else [OFF];
    assert r.reply == Some(text);
    assert Response(received, text) == Response(m, text);
    NextServesRequest(s, sensed);
    ResponseDecodes(m, text);
  }

  /** The same for a pin named in the table, looked up as the UI does. */
  lemma MenuCommand(version: bv8, name: string, d: bv8, garbage: seq<Rx>, rest: seq<Rx>,
                    s: BoardState, sensed: bool)
    requires name in Pins.PINS && 1 <= version < 8 && MenuValue(d)
    requires forall i :: 0 <= i < |garbage| ==> garbage[i] != Byte(STX)
    requires s.pending == []
    requires s.input == garbage + Received(Encode(BuildRequest(version, Pins.GetPin(name).pin, [d]))) + rest
    ensures var p := Pins.GetPin(name).pin;
      var pin := p as int;
      var m := BuildRequest(version, p, [d]);
      var high := if d == ON then true else if d == OFF then false else LevelOf(s.gpio, pin);
      var reply := Response(m, if high then [ON] else [OFF]);
      var s' := Next(s, sensed, None);
      && pin in s'.gpio && s'.gpio[pin].mode == PinOutput && LevelOf(s'.gpio, pin) == high
      && (forall q :: q != pin ==> LevelOf(s'.gpio, q) == LevelOf(s.gpio, q))
      && s'.output == s.output + UnoCodec.Encode(reply) + [NEWLINE]
      && Decode(UnoCodec.Encode(reply)) == Ok(reply)
      && s'.errorBlinks == s.errorBlinks
      && s'.pending == [] && s'.input == rest
  {
    Pins.TablePinsFitHeader();
    MenuCommandOnPin(version, Pins.GetPin(name).pin, d, garbage, rest, s, sensed);
  }
}
