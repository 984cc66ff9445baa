/**
 * The second copy of the frame codec, compiled into the Arduino Uno
 * firmware (arduino-uno/message.go). It spells the masks and shifts as
 * literals and its `Decode` does not store the checksum in the result.
 * The message type, the checksum and `checksumData` are textually the same
 * as in the host library, so they are taken from `Codec`.
 */
module UnoCodec {
  import opened Codec

  /** `Message.Encode` with literal masks. */
  function Encode(m: Message): (b: seq<bv8>)
    ensures |b| == |m.data| + 5
  {
    [m.stx, (m.version << 5) | (m.pin & 0x1F), (m.io << 7) | (m.rw << 6) | (m.length & 0x3F)]
      + m.data + [ChecksumOf(m), m.etx]
  }

  /** The message this copy's `Decode` builds from the header bytes and the data. */
  function UnpackLiteral(b1: bv8, b2: bv8, data: seq<bv8>): Message
  {
    Message(STX, (b1 & 0xE0) >> 5, b1 & 0x1F, (b2 & 0x80) >> 7, (b2 & 0x40) >> 6, b2 & 0x3F, data, 0, ETX)
  }

  /**
   * `Decode` with literal masks; on success the checksum field keeps its
   * zero value. As in `Codec.Decode`, a checksum index past the end of the
   * buffer is reported as `TooShort` where the Go code would panic.
   */
  function Decode(b: seq<bv8>): (r: Result<Message>)
    ensures |b| < 4 ==> r == Err(TooShort)
    ensures |b| >= 4 && b[0] != STX ==> r == Err(InvalidStx)
    ensures |b| >= 4 && b[0] == STX && b[|b| - 1] != ETX ==> r == Err(InvalidEtx)
    ensures r.Ok? ==> r.value.checksum == 0
  {
    if |b| < 4 then Err(TooShort)
    else if b[0] != STX then Err(InvalidStx)
    else if b[|b| - 1] != ETX then Err(InvalidEtx)
    else
      var length := (b[2] & 0x3F) as int;
      if |b| <= 3 + length then Err(TooShort)
      else
        var m := UnpackLiteral(b[1], b[2], b[3..3 + length]);
        if b[3 + length] != ChecksumOf(m) then Err(ChecksumMismatch)
        else Ok(m)
  }

  /** Both copies of `Encode` produce the same bytes for every message. */
  lemma EncodeAgrees(m: Message)
    ensures Encode(m) == Codec.Encode(m)
  {
  }

  /** The literal masks of this copy unpack the same fields as the named ones. */
  lemma LiteralMasksUnpack(b1: bv8, b2: bv8, data: seq<bv8>)
    ensures UnpackLiteral(b1, b2, data) == Unpack(b1, b2, data)
  {
  }

  /** On a marked buffer long enough to hold its checksum, this copy returns the unpacked message or a mismatch. */
  lemma DecodeMarkedBuffer(b: seq<bv8>)
    requires |b| >= 4 && b[0] == STX && b[|b| - 1] == ETX && 3 + DeclaredLength(b) < |b|
    ensures var m := Unpack(b[1], b[2], b[3..3 + DeclaredLength(b)]);
      Decode(b) == if b[3 + DeclaredLength(b)] == ChecksumOf(m) then Ok(m) else Err(ChecksumMismatch)
  {
    var n := DeclaredLength(b);
    assert (b[2] & 0x3F) as int == n;
    LiteralMasksUnpack(b[1], b[2], b[3..3 + n]);
  }

  /** On a marked buffer long enough to hold its checksum, both copies unpack the same message. */
  lemma DecodeAgreesOnMarkedBuffer(b: seq<bv8>)
    requires |b| >= 4 && b[0] == STX && b[|b| - 1] == ETX && 3 + DeclaredLength(b) < |b|
    ensures Decode(b).Err? <==> Codec.Decode(b).Err?
    ensures Decode(b).Err? ==> Decode(b).error == Codec.Decode(b).error
    ensures Decode(b).Ok? ==> Decode(b).value == Codec.Decode(b).value.(checksum := 0)
  {
    var m := Unpack(b[1], b[2], b[3..3 + DeclaredLength(b)]);
    DecodeMarkedBuffer(b);
    if b[3 + DeclaredLength(b)] == ChecksumOf(m) {
      Codec.DecodeAcceptsGoodChecksum(b, m);
    } else {
      Codec.DecodeRejectsBadChecksum(b, m);
    }
  }

  /**
   * Both copies of `Decode` accept and reject the same buffers, with the same
   * error; on success they return the same message except that this copy
   * leaves the checksum at 0.
   */
  lemma DecodeAgrees(b: seq<bv8>)
    ensures Decode(b).Err? <==> Codec.Decode(b).Err?
    ensures Decode(b).Err? ==> Decode(b).error == Codec.Decode(b).error
    ensures Decode(b).Ok? ==> Decode(b).value == Codec.Decode(b).value.(checksum := 0)
  {
    if |b| >= 4 && b[0] == STX && b[|b| - 1] == ETX && 3 + DeclaredLength(b) < |b| {
      DecodeAgreesOnMarkedBuffer(b);
    }
  }

  /** Round trip through this copy: a well-formed message comes back with checksum 0. */
  lemma DecodeEncode(m: Message)
    requires WellFormed(m)
    ensures Decode(Encode(m)) == Ok(m.(checksum := 0))
  {
    EncodeAgrees(m);
    Codec.DecodeEncode(m);
    DecodeAgrees(Encode(m));
  }
}
