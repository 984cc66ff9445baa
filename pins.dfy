/**
 * The host's pin-name table (cli/pins.go): board names of the Arduino Uno
 * mapped to TinyGo-style pin numbers, which count eight pins per port
 * starting at port B. These numbers go into the pin field of a request.
 */
module Pins {
  import opened Codec

  /** `Pin`, a `uint8`. */
  type Pin = bv8

  /** Ports B, C and D; there is no port A, so port B starts at 0 (`iota * 8`). */
  const PORT_B: Pin := 0
  const PORT_C: Pin := 8
  const PORT_D: Pin := 16

  const PB0: Pin := PORT_B + 0
  const PB1: Pin := PORT_B + 1
  const PB2: Pin := PORT_B + 2
  const PB3: Pin := PORT_B + 3
  const PB4: Pin := PORT_B + 4
  const PB5: Pin := PORT_B + 5
  const PC0: Pin := PORT_C + 0
  const PC1: Pin := PORT_C + 1
  const PC2: Pin := PORT_C + 2
  const PC3: Pin := PORT_C + 3
  const PC4: Pin := PORT_C + 4
  const PC5: Pin := PORT_C + 5
  const PC6: Pin := PORT_C + 6
  const PD0: Pin := PORT_D + 0
  const PD1: Pin := PORT_D + 1
  const PD2: Pin := PORT_D + 2
  const PD3: Pin := PORT_D + 3
  const PD4: Pin := PORT_D + 4
  const PD5: Pin := PORT_D + 5
  const PD6: Pin := PORT_D + 6
  const PD7: Pin := PORT_D + 7

  /** The `Pins` table. */
  const PINS: map<string, Pin> := map[
    "D0" := PD0, "D1" := PD1, "D2" := PD2, "D3" := PD3,
    "D4" := PD4, "D5" := PD5, "D6" := PD6, "D7" := PD7,
    "D8" := PB0, "D9" := PB1, "D10" := PB2, "D11" := PB3,
    "D12" := PB4, "D13" := PB5,
    "D14" := PC0, "D15" := PC1, "D16" := PC2, "D17" := PC3,
    "D18" := PC4, "D19" := PC5,
    "RESET" := PC6,
    "A1" := PC0, "A2" := PC1, "A3" := PC2, "A4" := PC3, "A5" := PC4, "A6" := PC5]

  /** The two results of `GetPin`: the pin, and the error if there is one. */
  datatype Lookup = Lookup(pin: Pin, error: Option<string>)

  /** `GetPin`: the table's pin for a known name; pin 0 and "Pin not found" for any other name. */
  function GetPin(name: string): (r: Lookup)
    ensures r.error.None? <==> name in PINS
    ensures r.error.None? ==> r.pin == PINS[name]
    ensures r.error.Some? ==> r.pin == 0 && r.error.value == "Pin not found"
  {
    if name in PINS then Lookup(PINS[name], None)
    else Lookup(0, Some("Pin not found"))
  }

  /** The digital pin names D0 to D19, in order. */
  const DIGITAL: seq<string> := [
    "D0", "D1", "D2", "D3", "D4", "D5", "D6", "D7", "D8", "D9",
    "D10", "D11", "D12", "D13", "D14", "D15", "D16", "D17", "D18", "D19"]

  /** The analog pin names as the table spells them, A1 to A6. */
  const ANALOG: seq<string> := ["A1", "A2", "A3", "A4", "A5", "A6"]

  /**
   * The Uno's wiring of digital pin `k` to the ATmega328P: D0-D7 are port D
   * bits 0-7, D8-D13 port B bits 0-5, D14-D19 port C bits 0-5.
   */
  function UnoDigitalPin(k: nat): (p: Pin)
    requires k < 20
    ensures p < 24
  {
    var (port, bit) := if k < 8 then (PORT_D, k) else if k < 14 then (PORT_B, k - 8) else (PORT_C, k - 14);
    ByteOfValue(bit);
    port + ByteOf(bit)
  }

  /** The table wires every digital name as the Uno does. */
  lemma DigitalNamesFollowWiring()
    ensures forall k :: 0 <= k < 20 ==> DIGITAL[k] in PINS && PINS[DIGITAL[k]] == UnoDigitalPin(k)
  {
    forall k | 0 <= k < 20
      ensures DIGITAL[k] in PINS && PINS[DIGITAL[k]] == UnoDigitalPin(k)
    {
      DigitalName(k);
    }
  }

  /** One digital name at a time, so each case stays small. */
  lemma DigitalName(k: nat)
    requires k < 20
    ensures DIGITAL[k] in PINS && PINS[DIGITAL[k]] == UnoDigitalPin(k)
  {
    if k < 4 {
      PortDLowNames(k);
    } else if k < 8 {
      PortDHighNames(k);
    } else if k < 14 {
      PortBNames(k);
    } else {
      PortCNames(k);
    }
  }

  /** Part of `DigitalName`, split off so each case stays small: D0 to D3. */
  lemma PortDLowNames(k: nat)
    requires k < 4
    ensures DIGITAL[k] in PINS && PINS[DIGITAL[k]] == UnoDigitalPin(k)
  {
    assert k == 0 || k == 1 || k == 2 || k == 3;
  }

  /** Part of `DigitalName`, split off so each case stays small: D4 to D7. */
  lemma PortDHighNames(k: nat)
    requires 4 <= k < 8
    ensures DIGITAL[k] in PINS && PINS[DIGITAL[k]] == UnoDigitalPin(k)
  {
    assert k == 4 || k == 5 || k == 6 || k == 7;
  }

  /** Part of `DigitalName`, split off so each case stays small: D8 to D13. */
  lemma PortBNames(k: nat)
    requires 8 <= k < 14
    ensures DIGITAL[k] in PINS && PINS[DIGITAL[k]] == UnoDigitalPin(k)
  {
    assert k == 8 || k == 9 || k == 10 || k == 11 || k == 12 || k == 13;
  }

  /** Part of `DigitalName`, split off so each case stays small: D14 to D19. */
  lemma PortCNames(k: nat)
    requires 14 <= k < 20
    ensures DIGITAL[k] in PINS && PINS[DIGITAL[k]] == UnoDigitalPin(k)
  {
    assert k == 14 || k == 15 || k == 16 || k == 17 || k == 18 || k == 19;
  }

  /** A1 to A6 are aliases of D14 to D19 (port C bits 0-5); RESET is port C bit 6. */
  lemma AnalogNamesAlias()
    ensures forall k :: 0 <= k < 6 ==> ANALOG[k] in PINS && PINS[ANALOG[k]] == PINS[DIGITAL[14 + k]]
    ensures PINS["RESET"] == PC6 == 14
  {
    forall k | 0 <= k < 6
      ensures ANALOG[k] in PINS && PINS[ANALOG[k]] == PINS[DIGITAL[14 + k]]
    {
      assert k == 0 || k == 1 || k == 2 || k == 3 || k == 4 || k == 5;
    }
  }

  /**
   * The board labels port C bits 0-5 A0 to A5; the table calls them A1 to A6.
   * So "A0" is not found, and "A6" names port C bit 5, the board's A5.
   */
  lemma AnalogNamesShifted()
    ensures GetPin("A0") == Lookup(0, Some("Pin not found"))
    ensures GetPin("A6") == Lookup(PC5, None) && PC5 == PORT_C + 5
  {
  }

  /** The aliases the table spells out: D13 is 5, D14 and A1 are 8, RESET is 14. */
  lemma NamedAliases()
    ensures GetPin("D13") == Lookup(5, None)
    ensures GetPin("D14") == Lookup(8, None) && GetPin("A1") == Lookup(8, None)
    ensures GetPin("RESET") == Lookup(14, None)
  {
  }

  /** Every pin in the table is below 24, so it fits the header's five pin bits. */
  lemma TablePinsFitHeader()
    ensures forall n :: n in PINS ==> PINS[n] < 24
  {
  }

  /** Packed with a version below 8, every pin of the table comes back out of the first header byte. */
  lemma TablePinsRoundTripHeader()
    ensures forall n, v: bv8 :: n in PINS && v < 8 ==>
      (Header1(v, PINS[n]) & PIN_MASK == PINS[n] && (Header1(v, PINS[n]) & VERSION_MASK) >> VERSION_SHIFT == v)
  {
    TablePinsFitHeader();
    forall n, v: bv8 | n in PINS && v < 8
      ensures Header1(v, PINS[n]) & PIN_MASK == PINS[n] && (Header1(v, PINS[n]) & VERSION_MASK) >> VERSION_SHIFT == v
    {
      Header1Unpacks(v, PINS[n]);
    }
  }
}
