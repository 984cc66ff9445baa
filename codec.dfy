/**
 * The frame codec of the kern GPIO protocol, as written in the host-side
 * library (bluekern/message.go, named masks and shifts).
 *
 * A frame is
 *   STX | (version << 5) | (pin & 0x1F) | (io << 7) | (rw << 6) | (length & 0x3F)
 *       | data... | checksum | ETX
 * where the checksum is the mod-256 sum of the UNPACKED fields
 * version, pin, io, rw, length followed by the data bytes.
 *
 * Every Go `byte` is a `bv8`, so shifts drop the bits that leave the byte
 * and masks are the same bit operations as in Go.
 */
module Codec {

  // ---------------------------------------------------------------------
  // Protocol constants
  // ---------------------------------------------------------------------

  const STX: bv8 := 0x02
  const ETX: bv8 := 0x03

  /** Values of the IO and RW flags (Go types `IO byte` and `RW byte`). */
  const INPUT: bv8 := 0x00
  const OUTPUT: bv8 := 0x01
  const READ: bv8 := 0x00
  const WRITE: bv8 := 0x01

  /** First header byte: version in bits 7-5, pin in bits 4-0. */
  const VERSION_MASK: bv8 := 0xE0
  const VERSION_SHIFT: nat := 5
  const PIN_MASK: bv8 := 0x1F

  /** Second header byte: io in bit 7, rw in bit 6, length in bits 5-0. */
  const IO_MASK: bv8 := 0x80
  const IO_SHIFT: nat := 7
  const RW_MASK: bv8 := 0x40
  const RW_SHIFT: nat := 6
  const LENGTH_MASK: bv8 := 0x3F

  // ---------------------------------------------------------------------
  // Data model
  // ---------------------------------------------------------------------

  /** The Go struct `Message`: every field is a byte, `Data` a byte slice. */
  datatype Message = Message(
    stx: bv8,
    version: bv8,
    pin: bv8,
    io: bv8,
    rw: bv8,
    length: bv8,
    data: seq<bv8>,
    checksum: bv8,
    etx: bv8)

  /** The error values `Decode` returns, with their `Error()` text below. */
  datatype DecodeError = TooShort | InvalidStx | InvalidEtx | ChecksumMismatch

  datatype Result<T> = Ok(value: T) | Err(error: DecodeError)

  /** A computation that either returns or hits a Go runtime panic. */
  datatype Run<T> = Returns(value: T) | Panics

  datatype Option<T> = None | Some(value: T)

  /** The text of each error, as `err.Error()` yields it. */
  function ErrorText(e: DecodeError): (t: string)
    ensures 0 < |t| < 64
    ensures forall i :: 0 <= i < |t| ==> t[i] as int < 128
  {
    match e
    case TooShort => "message too short"
    case InvalidStx => "invalid STX"
    case InvalidEtx => "invalid ETX"
    case ChecksumMismatch => "checksum mismatch"
  }

  /**
   * The message invariants the protocol relies on: every field fits its
   * bit width, the length field is the data length, and the markers are set.
   */
  predicate WellFormed(m: Message)
  {
    && m.stx == STX && m.etx == ETX
    && m.version < 8 && m.pin < 32
    && m.io <= 1 && m.rw <= 1
    && m.length < 64 && |m.data| == m.length as int
  }

  // ---------------------------------------------------------------------
  // Checksum
  // ---------------------------------------------------------------------

  /** The plain integer sum of a byte sequence. */
  function Sum(s: seq<bv8>): int
  {
    if s == [] then 0 else Sum(s[..|s| - 1]) + s[|s| - 1] as int
  }

  /**
   * `byte(n)` for a number that fits a byte, counted up from zero. It is
   * written as a recursion rather than as the conversion `n as bv8`, whose
   * integer-to-bit-vector reasoning is far more costly for the verifier;
   * `ByteOfValue` states that the two agree on value.
   */
  function ByteOf(n: nat): bv8
    requires n < 256
  {
    if n == 0 then 0 else ByteOf(n - 1) + 1
  }

  /** The byte `ByteOf(n)` has the value `n`. */
  lemma {:induction false} ByteOfValue(n: nat)
    requires n < 256
    ensures ByteOf(n) as int == n
  {
    if n > 0 {
      ByteOfValue(n - 1);
    }
  }

  /** The additive checksum: the sum of the bytes, wrapped to one byte. */
  function Checksum(s: seq<bv8>): bv8
  {
    ByteOf(Sum(s) % 256)
  }

  /** The checksum's value is the sum of the bytes modulo 256. */
  lemma ChecksumValue(s: seq<bv8>)
    ensures Checksum(s) as int == Sum(s) % 256
  {
    ByteOfValue(Sum(s) % 256);
  }

  /**
   * `calculateChecksum`: accumulates the bytes into a byte-wide `sum`, so
   * every addition wraps around at 256; an empty input gives 0.
   */
  method CalculateChecksum(msg: seq<bv8>) returns (c: bv8)
    ensures c == Checksum(msg)
  {
    var sum := 0;
    var i := 0;
    while i < |msg|
      invariant 0 <= i <= |msg|
      invariant sum == Sum(msg[..i]) % 256
    {
      SumStep(msg, i, sum);
      sum := (sum + msg[i] as int) % 256;  // `sum += b` on a byte
      i := i + 1;
    }
    assert msg[..i] == msg;
    c := ByteOf(sum);
  }

  /** One more byte into a byte-wide running sum keeps it the wrapped sum of the prefix. */
  lemma SumStep(msg: seq<bv8>, i: nat, sum: int)
    requires i < |msg| && sum == Sum(msg[..i]) % 256
    ensures (sum + msg[i] as int) % 256 == Sum(msg[..i + 1]) % 256
  {
    assert msg[..i + 1][..i] == msg[..i];
    assert Sum(msg[..i + 1]) == Sum(msg[..i]) + msg[i] as int;
    ResidueOfSum(Sum(msg[..i]), msg[i] as int);
  }

  /** Adding to a number or to its residue gives the same residue. */
  lemma ResidueOfSum(a: int, x: int)
    ensures (a % 256 + x) % 256 == (a + x) % 256
  {
    var q := a / 256;
    assert a + x == 256 * q + (a % 256 + x);
  }

  /** `checksumData`: the unpacked header fields followed by the data. */
  function ChecksumData(m: Message): (s: seq<bv8>)
    ensures |s| == 5 + |m.data|
    ensures s[5..] == m.data
  {
    [m.version, m.pin, m.io, m.rw, m.length] + m.data
  }

  /** The checksum a message should carry. */
  function ChecksumOf(m: Message): bv8
  {
    Checksum(ChecksumData(m))
  }

  /** The stored checksum field plays no part in the checksum a message should carry. */
  lemma ChecksumIgnoresStored(m: Message, c: bv8)
    ensures ChecksumOf(m.(checksum := c)) == ChecksumOf(m)
  {
    assert ChecksumData(m.(checksum := c)) == ChecksumData(m);
  }

  /** The sum of two sequences joined is the sum of their sums. */
  lemma {:induction false} SumConcat(a: seq<bv8>, b: seq<bv8>)
    ensures Sum(a + b) == Sum(a) + Sum(b)
    decreases |b|
  {
    if b != [] {
      var k := |b| - 1;
      assert (a + b)[..|a + b| - 1] == a + b[..k];
      SumConcat(a, b[..k]);
    } else {
      assert a + b == a;
    }
  }

  /**
   * The checksum a message should carry is the wrapped sum of its unpacked
   * fields version, pin, io, rw and length and of its data bytes; the packed
   * header bytes and the stored checksum play no part.
   */
  lemma ChecksumOfFields(m: Message)
    ensures ChecksumOf(m) as int
      == (m.version as int + m.pin as int + m.io as int + m.rw as int + m.length as int + Sum(m.data)) % 256
  {
    var head := [m.version, m.pin, m.io, m.rw, m.length];
    assert ChecksumData(m) == head + m.data;
    SumConcat(head, m.data);
    SumOfFive(m.version, m.pin, m.io, m.rw, m.length);
    ByteOfValue(Sum(ChecksumData(m)) % 256);
  }

  // ---------------------------------------------------------------------
  // Encode
  // ---------------------------------------------------------------------

  /** First header byte. */
  function Header1(version: bv8, pin: bv8): bv8
  {
    (version << VERSION_SHIFT) | (pin & PIN_MASK)
  }

  /** Second header byte. */
  function Header2(io: bv8, rw: bv8, length: bv8): bv8
  {
    (io << IO_SHIFT) | (rw << RW_SHIFT) | (length & LENGTH_MASK)
  }

  /** `Message.Encode`: never fails; out-of-range fields are masked or shifted out. */
  function Encode(m: Message): (b: seq<bv8>)
    ensures |b| == |m.data| + 5
    ensures b[0] == m.stx && b[|b| - 1] == m.etx
    ensures b[3..3 + |m.data|] == m.data
    ensures b[3 + |m.data|] == ChecksumOf(m)
  {
    [m.stx, Header1(m.version, m.pin), Header2(m.io, m.rw, m.length)]
      + m.data + [ChecksumOf(m), m.etx]
  }

  /** Unpacking the first header byte recovers a version below 8 and a pin below 32. */
  lemma Header1Unpacks(version: bv8, pin: bv8)
    requires version < 8 && pin < 32
    ensures (Header1(version, pin) & VERSION_MASK) >> VERSION_SHIFT == version
    ensures Header1(version, pin) & PIN_MASK == pin
  {
  }

  /** Unpacking the second header byte recovers one-bit flags and a length below 64. */
  lemma Header2Unpacks(io: bv8, rw: bv8, length: bv8)
    requires io <= 1 && rw <= 1 && length < 64
    ensures (Header2(io, rw, length) & IO_MASK) >> IO_SHIFT == io
    ensures (Header2(io, rw, length) & RW_MASK) >> RW_SHIFT == rw
    ensures Header2(io, rw, length) & LENGTH_MASK == length
  {
  }

  /** Packing the unpacked fields of any byte gives the byte back. */
  lemma HeadersRepack(b1: bv8, b2: bv8)
    ensures Header1((b1 & VERSION_MASK) >> VERSION_SHIFT, b1 & PIN_MASK) == b1
    ensures Header2((b2 & IO_MASK) >> IO_SHIFT, (b2 & RW_MASK) >> RW_SHIFT, b2 & LENGTH_MASK) == b2
  {
  }

  // ---------------------------------------------------------------------
  // Decode
  // ---------------------------------------------------------------------

  /** The fields `Decode` unpacks from the two header bytes, with the given data. */
  function Unpack(b1: bv8, b2: bv8, data: seq<bv8>): (m: Message)
    ensures m.version < 8 && m.pin < 32 && m.io <= 1 && m.rw <= 1 && m.length < 64
  {
    Message(STX,
      (b1 & VERSION_MASK) >> VERSION_SHIFT,
      b1 & PIN_MASK,
      (b2 & IO_MASK) >> IO_SHIFT,
      (b2 & RW_MASK) >> RW_SHIFT,
      b2 & LENGTH_MASK,
      data, 0, ETX)
  }

  /**
   * The bytes `b` carry message `m`: its markers, both header bytes, its data
   * at offset 3 and its checksum right after the data, with ETX last.
   */
  predicate FrameOf(b: seq<bv8>, m: Message)
  {
    && |m.data| + 4 <= |b|
    && b[0] == STX && b[|b| - 1] == ETX
    && b[1] == Header1(m.version, m.pin)
    && b[2] == Header2(m.io, m.rw, m.length)
    && b[3..3 + |m.data|] == m.data
    && b[3 + |m.data|] == m.checksum
  }

  /** The length field of a buffer's second header byte, as a number. */
  function DeclaredLength(b: seq<bv8>): nat
    requires |b| >= 3
  {
    (b[2] & LENGTH_MASK) as int
  }

  /** Packing an unpacked message's fields gives back both header bytes. */
  lemma UnpackRepacks(b1: bv8, b2: bv8, data: seq<bv8>)
    ensures var m := Unpack(b1, b2, data);
      Header1(m.version, m.pin) == b1 && Header2(m.io, m.rw, m.length) == b2
  {
    HeadersRepack(b1, b2);
  }

  /**
   * `Decode`, with one check the Go code lacks: where Go would index the
   * checksum at `3 + length` past the end of the buffer (and panic), the
   * model reports `TooShort`. Bytes between the checksum and the final
   * ETX are ignored, as in the source.
   */
  function Decode(b: seq<bv8>): (r: Result<Message>)
    ensures |b| < 4 ==> r == Err(TooShort)
    ensures |b| >= 4 && b[0] != STX ==> r == Err(InvalidStx)
    ensures |b| >= 4 && b[0] == STX && b[|b| - 1] != ETX ==> r == Err(InvalidEtx)
    ensures |b| >= 4 && b[0] == STX && b[|b| - 1] == ETX && |b| <= 3 + DeclaredLength(b) ==> r == Err(TooShort)
    ensures r.Ok? ==> WellFormed(r.value) && r.value.checksum == ChecksumOf(r.value)
    ensures r.Ok? ==> FrameOf(b, r.value)
  {
    if |b| < 4 then Err(TooShort)
    else if b[0] != STX then Err(InvalidStx)
    else if b[|b| - 1] != ETX then Err(InvalidEtx)
    else
      var length := DeclaredLength(b);
      if |b| <= 3 + length then Err(TooShort)
      else
        var m := Unpack(b[1], b[2], b[3..3 + length]);
        var sum := ChecksumOf(m);
        if b[3 + length] != sum then Err(ChecksumMismatch)
        else
          UnpackedFrame(b);
          Ok(m.(checksum := sum))
  }

  /** A marked buffer whose checksum matches is the frame of the message unpacked from it. */
  lemma UnpackedFrame(b: seq<bv8>)
    requires |b| >= 4 && b[0] == STX && b[|b| - 1] == ETX && 3 + DeclaredLength(b) < |b|
    requires b[3 + DeclaredLength(b)] == ChecksumOf(Unpack(b[1], b[2], b[3..3 + DeclaredLength(b)]))
    ensures var m := Unpack(b[1], b[2], b[3..3 + DeclaredLength(b)]);
      var r := m.(checksum := ChecksumOf(m));
      WellFormed(r) && r.checksum == ChecksumOf(r) && FrameOf(b, r)
  {
    var n := DeclaredLength(b);
    var m := Unpack(b[1], b[2], b[3..3 + n]);
    UnpackRepacks(b[1], b[2], b[3..3 + n]);
    ChecksumIgnoresStored(m, ChecksumOf(m));
  }

  /**
   * `Decode` exactly as written: the checksum index panics when `3 + length`
   * is not inside the buffer.
   */
  function DecodeAsWritten(b: seq<bv8>): (r: Run<Result<Message>>)
    ensures r.Panics? <==> |b| >= 4 && b[0] == STX && b[|b| - 1] == ETX && |b| <= 3 + DeclaredLength(b)
  {
    if |b| < 4 then Returns(Err(TooShort))
    else if b[0] != STX then Returns(Err(InvalidStx))
    else if b[|b| - 1] != ETX then Returns(Err(InvalidEtx))
    else
      var length := DeclaredLength(b);
      // `encoded[3+length]` is out of range (the data slice just before it
      // may already have panicked, if it reaches past the slice's capacity)
      if 3 + length >= |b| then Panics
      else
        var m := Unpack(b[1], b[2], b[3..3 + length]);
        var sum := ChecksumOf(m);
        if b[3 + length] != sum then Returns(Err(ChecksumMismatch))
        else Returns(Ok(m.(checksum := sum)))
  }

  /** Wherever the source does not panic, the corrected decoder agrees with it. */
  lemma DecodeAgreesWhereSourceReturns(b: seq<bv8>)
    ensures DecodeAsWritten(b).Returns? ==> DecodeAsWritten(b).value == Decode(b)
    ensures DecodeAsWritten(b).Panics? ==> Decode(b) == Err(TooShort)
  {
  }

  /** A four-byte buffer declaring one data byte makes the source index past its end. */
  lemma DecodeAsWrittenPanics()
    ensures DecodeAsWritten([STX, 0x20, 0x01, ETX]) == Panics
    ensures Decode([STX, 0x20, 0x01, ETX]) == Err(TooShort)
  {
  }

  // ---------------------------------------------------------------------
  // Round trips
  // ---------------------------------------------------------------------

  /** The header bytes of an encoded well-formed message unpack to its own fields. */
  lemma EncodedHeadersUnpack(m: Message)
    requires WellFormed(m)
    ensures DeclaredLength(Encode(m)) == |m.data|
    ensures Unpack(Encode(m)[1], Encode(m)[2], m.data) == m.(checksum := 0)
  {
    Header1Unpacks(m.version, m.pin);
    Header2Unpacks(m.io, m.rw, m.length);
  }

  /** The length bits of an encoded well-formed message count its data. */
  lemma EncodedLength(m: Message)
    requires WellFormed(m)
    ensures DeclaredLength(Encode(m)) == |m.data|
  {
    Header2Unpacks(m.io, m.rw, m.length);
  }

  /** Decoding an encoded well-formed message gives it back, with its checksum recomputed. */
  lemma DecodeEncode(m: Message)
    requires WellFormed(m)
    ensures Decode(Encode(m)) == Ok(m.(checksum := ChecksumOf(m)))
  {
    var b := Encode(m);
    EncodedHeadersUnpack(m);
    assert b[3..3 + DeclaredLength(b)] == m.data;
    ChecksumIgnoresStored(m, 0);
  }

  /** A message whose checksum field is already consistent survives the round trip unchanged. */
  lemma DecodeEncodeConsistent(m: Message)
    requires WellFormed(m) && m.checksum == ChecksumOf(m)
    ensures Decode(Encode(m)) == Ok(m)
  {
    DecodeEncode(m);
    assert m.(checksum := ChecksumOf(m)) == m;
  }

  /** A buffer that decodes and holds no bytes after its checksum and ETX is the encoding of its result. */
  lemma EncodeDecode(b: seq<bv8>)
    requires Decode(b).Ok? && |b| == |Decode(b).value.data| + 5
    ensures Encode(Decode(b).value) == b
  {
    EncodingOfFrame(b, Decode(b).value);
  }

  /** Bytes that frame a message with its own checksum, and nothing more, are its encoding. */
  lemma EncodingOfFrame(b: seq<bv8>, m: Message)
    requires FrameOf(b, m) && |b| == |m.data| + 5
    requires m.stx == STX && m.etx == ETX && m.checksum == ChecksumOf(m)
    ensures Encode(m) == b
  {
    var e := Encode(m);
    var n := |m.data|;
    forall k | 0 <= k < |b| ensures e[k] == b[k] {
      if 3 <= k < 3 + n {
        assert e[k] == e[3..3 + n][k - 3];
        assert b[k] == b[3..3 + n][k - 3];
      }
    }
  }

  /**
   * A buffer one byte short of a full frame still decodes when its ETX
   * happens to equal the checksum: the source reads the end marker as the
   * checksum byte. Version 1, pin 2, input, read, no data sums to 3.
   */
  lemma EndMarkerReadAsChecksum()
    ensures Decode([STX, 0x22, 0x00, ETX]) == Ok(Message(STX, 1, 2, INPUT, READ, 0, [], ETX, ETX))
  {
    var b: seq<bv8> := [STX, 0x22, 0x00, ETX];
    var m := Message(STX, 1, 2, INPUT, READ, 0, [], 0, ETX);
    assert Unpack(0x22, 0x00, []) == m;
    assert b[3..3 + DeclaredLength(b)] == [];
    assert ChecksumData(m) == [0x01, 0x02, 0x00, 0x00, 0x00];
    SumOfFive(0x01, 0x02, 0x00, 0x00, 0x00);
    ChecksumOfSum(m, 3);
    DecodeAcceptsGoodChecksum(b, m);
  }

  /**
   * A frame that is one data byte short of its declared length still
   * decodes when the bytes happen to sum right: `02 20 02 31 CF 03` declares
   * two data bytes but carries one, so its checksum byte 0xCF is read as
   * data and its ETX as the checksum (1 + 2 + 0x31 + 0xCF wraps to 3).
   */
  lemma ShortFrameDecodes()
    ensures Decode([STX, 0x20, 0x02, 0x31, 0xCF, ETX])
      == Ok(Message(STX, 1, 0, INPUT, READ, 2, [0x31, 0xCF], ETX, ETX))
  {
    var b: seq<bv8> := [STX, 0x20, 0x02, 0x31, 0xCF, ETX];
    var m := Message(STX, 1, 0, INPUT, READ, 2, [0x31, 0xCF], 0, ETX);
    assert Unpack(0x20, 0x02, [0x31, 0xCF]) == m;
    assert b[3..3 + DeclaredLength(b)] == [0x31, 0xCF];
    ShortFrameChecksum();
    DecodeAcceptsGoodChecksum(b, m);
  }

  /** The fields of the short frame above sum to 3 modulo 256, which is ETX. */
  lemma ShortFrameChecksum()
    ensures ChecksumOf(Message(STX, 1, 0, INPUT, READ, 2, [0x31, 0xCF], 0, ETX)) == ETX
  {
    var m := Message(STX, 1, 0, INPUT, READ, 2, [0x31, 0xCF], 0, ETX);
    ChecksumOfFields(m);
    assert Sum([0x31, 0xCF]) == 0x31 + 0xCF by {
      assert [0x31, 0xCF][..1] == [0x31];
      assert [0x31 as bv8][..0] == [];
    }
    ByteOfValue(3);
  }

  /**
   * The same short frame with other bytes is rejected as a checksum
   * mismatch, not as too short: `02 20 02 31 00 03` sums to 0x34.
   */
  lemma ShortFrameMismatches()
    ensures Decode([STX, 0x20, 0x02, 0x31, 0x00, ETX]) == Err(ChecksumMismatch)
  {
    var b: seq<bv8> := [STX, 0x20, 0x02, 0x31, 0x00, ETX];
    var m := Message(STX, 1, 0, INPUT, READ, 2, [0x31, 0x00], 0, ETX);
    assert Unpack(0x20, 0x02, [0x31, 0x00]) == m;
    assert b[3..3 + DeclaredLength(b)] == [0x31, 0x00];
    ChecksumOfFields(m);
    assert Sum([0x31, 0x00]) == 0x31 by {
      assert [0x31, 0x00][..1] == [0x31];
      assert [0x31 as bv8][..0] == [];
    }
    ByteOfValue(0x34);
    DecodeRejectsBadChecksum(b, m);
  }

  // ---------------------------------------------------------------------
  // Checksum sensitivity
  // ---------------------------------------------------------------------

  /** A message whose checksum data sums to `n` below 256 carries the checksum `n`. */
  lemma ChecksumOfSum(m: Message, n: nat)
    requires n < 256 && Sum(ChecksumData(m)) == n
    ensures ChecksumOf(m) as int == n
  {
    assert n % 256 == n;
    assert ChecksumOf(m) == ByteOf(n);
    ByteOfValue(n);
  }

  /** The sum of five bytes, spelled out. */
  lemma SumOfFive(a: bv8, b: bv8, c: bv8, d: bv8, e: bv8)
    ensures Sum([a, b, c, d, e]) == a as int + b as int + c as int + d as int + e as int
  {
    assert [a][..0] == [];
    assert Sum([a]) == a as int;
    assert [a, b][..1] == [a];
    assert Sum([a, b]) == Sum([a]) + b as int;
    assert [a, b, c][..2] == [a, b];
    assert Sum([a, b, c]) == Sum([a, b]) + c as int;
    assert [a, b, c, d][..3] == [a, b, c];
    assert Sum([a, b, c, d]) == Sum([a, b, c]) + d as int;
    assert [a, b, c, d, e][..4] == [a, b, c, d];
  }

  /** Changing one byte changes the plain sum by exactly the difference. */
  lemma {:induction false} SumUpdate(s: seq<bv8>, i: nat, y: bv8)
    requires i < |s|
    ensures Sum(s[i := y]) == Sum(s) - s[i] as int + y as int
    decreases |s|
  {
    var t := s[i := y];
    var k := |s| - 1;
    assert t[..k] == if i == k then s[..k] else s[..k][i := y];
    if i < k {
      SumUpdate(s[..k], i, y);
    }
  }

  /** Changing any single byte of a checksummed sequence changes its checksum. */
  lemma ChecksumDetectsOneByte(s: seq<bv8>, i: nat, y: bv8)
    requires i < |s| && y != s[i]
    ensures Checksum(s[i := y]) != Checksum(s)
  {
    SumUpdate(s, i, y);
    ShiftChangesResidue(Sum(s), y as int - s[i] as int);
    ByteOfValue(Sum(s) % 256);
    ByteOfValue(Sum(s[i := y]) % 256);
  }

  /** Adding a non-zero amount smaller than 256 changes the residue modulo 256. */
  lemma ShiftChangesResidue(x: int, d: int)
    requires -256 < d < 256 && d != 0
    ensures (x + d) % 256 != x % 256
  {
  }

  /** A marked buffer whose checksum byte agrees with its unpacked contents decodes to them. */
  lemma DecodeAcceptsGoodChecksum(b: seq<bv8>, m: Message)
    requires |b| >= 4 && b[0] == STX && b[|b| - 1] == ETX && 3 + DeclaredLength(b) < |b|
    requires m == Unpack(b[1], b[2], b[3..3 + DeclaredLength(b)])
    requires b[3 + DeclaredLength(b)] == ChecksumOf(m)
    ensures Decode(b) == Ok(m.(checksum := ChecksumOf(m)))
  {
  }

  /** A marked buffer whose checksum byte disagrees with its unpacked contents is a checksum mismatch. */
  lemma DecodeRejectsBadChecksum(b: seq<bv8>, m: Message)
    requires |b| >= 4 && b[0] == STX && b[|b| - 1] == ETX && 3 + DeclaredLength(b) < |b|
    requires m == Unpack(b[1], b[2], b[3..3 + DeclaredLength(b)])
    requires b[3 + DeclaredLength(b)] != ChecksumOf(m)
    ensures Decode(b) == Err(ChecksumMismatch)
  {
  }

  /** A frame with one data byte replaced keeps its markers, header and checksum byte. */
  lemma DataCorruptedFrame(m: Message, i: nat, y: bv8)
    requires WellFormed(m) && 3 <= i < 3 + |m.data|
    ensures var c := Encode(m)[i := y];
      && c[0] == STX && c[|c| - 1] == ETX
      && DeclaredLength(c) == |m.data|
      && c[3..3 + |m.data|] == m.data[i - 3 := y]
      && c[3 + |m.data|] == ChecksumOf(m)
      && Unpack(c[1], c[2], m.data[i - 3 := y]) == m.(checksum := 0, data := m.data[i - 3 := y])
  {
    var b := Encode(m);
    var c := b[i := y];
    var n := |m.data|;
    EncodedHeadersUnpack(m);
    assert c[1] == b[1] && c[2] == b[2];
    assert DeclaredLength(c) == n;
    var got, want := c[3..3 + n], m.data[i - 3 := y];
    forall k | 0 <= k < n ensures got[k] == want[k] {
      assert c[3 + k] == if 3 + k == i then y else b[3 + k];
    }
    assert got == want;
  }

  /** Replacing one data byte by a different value changes the checksum of a message. */
  lemma DataChangeChangesChecksum(m: Message, j: nat, y: bv8)
    requires j < |m.data| && y != m.data[j]
    ensures ChecksumOf(m.(checksum := 0, data := m.data[j := y])) != ChecksumOf(m)
  {
    assert ChecksumData(m.(checksum := 0, data := m.data[j := y])) == ChecksumData(m)[j + 5 := y];
    ChecksumDetectsOneByte(ChecksumData(m), j + 5, y);
  }

  /** Corrupting one data byte of a well-formed frame makes `Decode` report a checksum mismatch. */
  lemma DecodeDetectsDataCorruption(m: Message, i: nat, y: bv8)
    requires WellFormed(m) && 3 <= i < 3 + |m.data| && y != Encode(m)[i]
    ensures Decode(Encode(m)[i := y]) == Err(ChecksumMismatch)
  {
    DataCorruptedFrame(m, i, y);
    DataChangeChangesChecksum(m, i - 3, y);
    DecodeRejectsBadChecksum(Encode(m)[i := y], m.(checksum := 0, data := m.data[i - 3 := y]));
  }

  /** Corrupting the checksum byte of a well-formed frame makes `Decode` report a checksum mismatch. */
  lemma DecodeDetectsChecksumCorruption(m: Message, y: bv8)
    requires WellFormed(m) && y != ChecksumOf(m)
    ensures Decode(Encode(m)[3 + |m.data| := y]) == Err(ChecksumMismatch)
  {
    ChecksumCorruptedFrame(m, y);
    ChecksumIgnoresStored(m, 0);
    DecodeRejectsBadChecksum(Encode(m)[3 + |m.data| := y], m.(checksum := 0));
  }

  /** A frame with its checksum byte replaced keeps its markers, header and data. */
  lemma ChecksumCorruptedFrame(m: Message, y: bv8)
    requires WellFormed(m)
    ensures var c := Encode(m)[3 + |m.data| := y];
      && |c| >= 4 && c[0] == STX && c[|c| - 1] == ETX
      && DeclaredLength(c) == |m.data|
      && c[3 + |m.data|] == y
      && Unpack(c[1], c[2], c[3..3 + |m.data|]) == m.(checksum := 0)
  {
    var b := Encode(m);
    var n := |m.data|;
    var c := b[3 + n := y];
    EncodedHeadersUnpack(m);
    assert c[1] == b[1] && c[2] == b[2];
    assert c[3..3 + n] == m.data;
  }

  /**
   * A frame with one header byte replaced by the same byte of another
   * well-formed message `h` of the same length and data keeps its markers,
   * its length and its checksum byte. A change in the length bits is not of
   * this kind: it moves the checksum index instead.
   */
  lemma HeaderCorruptedFrame(m: Message, h: Message, i: nat)
    requires WellFormed(m) && WellFormed(h) && (i == 1 || i == 2)
    requires h.length == m.length && h.data == m.data
    requires Encode(h)[3 - i] == Encode(m)[3 - i]
    ensures var c := Encode(m)[i := Encode(h)[i]];
      && |c| >= 4 && c[0] == STX && c[|c| - 1] == ETX
      && DeclaredLength(c) == |m.data| && 3 + |m.data| < |c|
      && c[3 + |m.data|] == ChecksumOf(m)
  {
    var b, e := Encode(m), Encode(h);
    ReplacedHeaderByte(b, i, e[i], |m.data|);
    EncodedLength(h);
    assert b[i := e[i]][2] == e[2];
  }

  /** The same frame unpacks to `h`. */
  lemma HeaderCorruptedUnpack(m: Message, h: Message, i: nat)
    requires WellFormed(m) && WellFormed(h) && (i == 1 || i == 2)
    requires h.length == m.length && h.data == m.data
    requires Encode(h)[3 - i] == Encode(m)[3 - i]
    ensures var c := Encode(m)[i := Encode(h)[i]];
      Unpack(c[1], c[2], c[3..3 + |m.data|]) == h.(checksum := 0)
  {
    var b, e := Encode(m), Encode(h);
    ReplacedHeaderByte(b, i, e[i], |m.data|);
    EncodedHeadersUnpack(h);
  }

  /** Replacing byte 1 or 2 of a buffer leaves the markers, the data and the checksum byte where they were. */
  lemma ReplacedHeaderByte(b: seq<bv8>, i: nat, x: bv8, n: nat)
    requires (i == 1 || i == 2) && 3 + n < |b|
    ensures var c := b[i := x];
      && |c| == |b| && c[0] == b[0] && c[|c| - 1] == b[|b| - 1]
      && c[i] == x && c[3 - i] == b[3 - i]
      && c[3..3 + n] == b[3..3 + n] && c[3 + n] == b[3 + n]
  {
  }

  /**
   * Replacing a header byte of a well-formed frame by the one of a message
   * whose checksum differs makes `Decode` report a checksum mismatch.
   */
  lemma DecodeDetectsHeaderCorruption(m: Message, h: Message, i: nat)
    requires WellFormed(m) && WellFormed(h) && (i == 1 || i == 2)
    requires h.length == m.length && h.data == m.data
    requires Encode(h)[3 - i] == Encode(m)[3 - i]
    requires ChecksumOf(h) != ChecksumOf(m)
    ensures Decode(Encode(m)[i := Encode(h)[i]]) == Err(ChecksumMismatch)
  {
    HeaderCorruptedFrame(m, h, i);
    HeaderCorruptedUnpack(m, h, i);
    ChecksumIgnoresStored(h, 0);
    DecodeRejectsBadChecksum(Encode(m)[i := Encode(h)[i]], h.(checksum := 0));
  }

  /** Changing the version bits of a well-formed frame is detected. */
  lemma DecodeDetectsVersionCorruption(m: Message, y: bv8)
    requires WellFormed(m) && y < 8 && y != m.version
    ensures Decode(Encode(m)[1 := Header1(y, m.pin)]) == Err(ChecksumMismatch)
  {
    var h := m.(version := y);
    assert ChecksumData(h) == ChecksumData(m)[0 := y];
    ChecksumDetectsOneByte(ChecksumData(m), 0, y);
    DecodeDetectsHeaderCorruption(m, h, 1);
  }

  /** Changing the pin bits of a well-formed frame is detected. */
  lemma DecodeDetectsPinCorruption(m: Message, y: bv8)
    requires WellFormed(m) && y < 32 && y != m.pin
    ensures Decode(Encode(m)[1 := Header1(m.version, y)]) == Err(ChecksumMismatch)
  {
    var h := m.(pin := y);
    assert ChecksumData(h) == ChecksumData(m)[1 := y];
    ChecksumDetectsOneByte(ChecksumData(m), 1, y);
    DecodeDetectsHeaderCorruption(m, h, 1);
  }

  /** Flipping the io bit of a well-formed frame is detected. */
  lemma DecodeDetectsIoCorruption(m: Message, y: bv8)
    requires WellFormed(m) && y <= 1 && y != m.io
    ensures Decode(Encode(m)[2 := Header2(y, m.rw, m.length)]) == Err(ChecksumMismatch)
  {
    var h := m.(io := y);
    assert ChecksumData(h) == ChecksumData(m)[2 := y];
    ChecksumDetectsOneByte(ChecksumData(m), 2, y);
    DecodeDetectsHeaderCorruption(m, h, 2);
  }

  /** Flipping the rw bit of a well-formed frame is detected. */
  lemma DecodeDetectsRwCorruption(m: Message, y: bv8)
    requires WellFormed(m) && y <= 1 && y != m.rw
    ensures Decode(Encode(m)[2 := Header2(m.io, y, m.length)]) == Err(ChecksumMismatch)
  {
    var h := m.(rw := y);
    assert ChecksumData(h) == ChecksumData(m)[3 := y];
    ChecksumDetectsOneByte(ChecksumData(m), 3, y);
    DecodeDetectsHeaderCorruption(m, h, 2);
  }

  /**
   * The additive checksum cannot see a change that moves one unit from the
   * pin to the version: version 1 pin 5 and version 2 pin 4 carry the same
   * checksum, so a frame corrupted from one header to the other decodes.
   */
  lemma HeaderSwapGoesUndetected()
    ensures Decode([STX, 0x25, 0x80, 0x07, ETX]) == Ok(Message(STX, 1, 5, OUTPUT, READ, 0, [], 7, ETX))
    ensures Decode([STX, 0x44, 0x80, 0x07, ETX]) == Ok(Message(STX, 2, 4, OUTPUT, READ, 0, [], 7, ETX))
  {
    DecodeVersionOnePinFive();
    DecodeVersionTwoPinFour();
  }

  /** 02 25 80 07 03 decodes to version 1, pin 5, output, read, no data. */
  lemma DecodeVersionOnePinFive()
    ensures Decode([STX, 0x25, 0x80, 0x07, ETX]) == Ok(Message(STX, 1, 5, OUTPUT, READ, 0, [], 7, ETX))
  {
    var m := Message(STX, 1, 5, OUTPUT, READ, 0, [], 0, ETX);
    var b: seq<bv8> := [STX, 0x25, 0x80, 0x07, ETX];
    assert Unpack(0x25, 0x80, []) == m;
    assert b[3..3 + DeclaredLength(b)] == [];
    assert ChecksumData(m) == [0x01, 0x05, 0x01, 0x00, 0x00];
    SumOfFive(0x01, 0x05, 0x01, 0x00, 0x00);
    ChecksumOfSum(m, 7);
    DecodeAcceptsGoodChecksum(b, m);
  }

  /** 02 44 80 07 03 decodes to version 2, pin 4, output, read, no data. */
  lemma DecodeVersionTwoPinFour()
    ensures Decode([STX, 0x44, 0x80, 0x07, ETX]) == Ok(Message(STX, 2, 4, OUTPUT, READ, 0, [], 7, ETX))
  {
    var m := Message(STX, 2, 4, OUTPUT, READ, 0, [], 0, ETX);
    var b: seq<bv8> := [STX, 0x44, 0x80, 0x07, ETX];
    assert Unpack(0x44, 0x80, []) == m;
    assert b[3..3 + DeclaredLength(b)] == [];
    assert ChecksumData(m) == [0x02, 0x04, 0x01, 0x00, 0x00];
    SumOfFive(0x02, 0x04, 0x01, 0x00, 0x00);
    ChecksumOfSum(m, 7);
    DecodeAcceptsGoodChecksum(b, m);
  }

  /** Version 1, pin 5, output, read, no data encodes to 02 25 80 07 03. */
  lemma EncodeReadExample()
    ensures Encode(Message(STX, 1, 5, OUTPUT, READ, 0, [], 0, ETX)) == [0x02, 0x25, 0x80, 0x07, 0x03]
  {
    var m := Message(STX, 1, 5, OUTPUT, READ, 0, [], 0, ETX);
    assert ChecksumData(m) == [0x01, 0x05, 0x01, 0x00, 0x00];
    SumOfFive(0x01, 0x05, 0x01, 0x00, 0x00);
    ChecksumOfSum(m, 7);
    assert Header1(1, 5) == 0x25 && Header2(OUTPUT, READ, 0) == 0x80;
  }

  /** Writing '1' to pin 0, version 1, output, encodes to 02 20 C1 31 35 03. */
  lemma EncodeWriteExample()
    ensures Encode(Message(STX, 1, 0, OUTPUT, WRITE, 1, [0x31], 0, ETX)) == [0x02, 0x20, 0xC1, 0x31, 0x35, 0x03]
  {
    var m := Message(STX, 1, 0, OUTPUT, WRITE, 1, [0x31], 0, ETX);
    assert ChecksumData(m) == [0x01, 0x00, 0x01, 0x01, 0x01] + [0x31];
    SumOfFive(0x01, 0x00, 0x01, 0x01, 0x01);
    assert ([0x01, 0x00, 0x01, 0x01, 0x01] + [0x31])[..5] == [0x01, 0x00, 0x01, 0x01, 0x01];
    assert Sum(ChecksumData(m)) == 0x35;
    ByteOfValue(0x35);
    assert Header1(1, 0) == 0x20 && Header2(OUTPUT, WRITE, 1) == 0xC1;
  }
}
