/**
 * Whole frames: how the sender seals one, with or without an authentication
 * tag, what the byte parser accepts, and what the data link decodes.
 */
module Frame {
  import opened Base
  import opened Crc
  import opened Wire

  const CRC_SIZE := 2
  const MAX_FRAME_SIZE := 2048

  datatype Frame = Frame(header: Header, exts: Bytes, payload: Bytes)

  // ---- Sealing ----

  function Flagged(flags: byte, extra: byte, extended: bool): byte {
    if extended then flags | extra | FLAG_HAS_EXTENSIONS else flags | extra
  }

  /** The header as it goes on the wire: version, lengths and flags filled in. */
  function WireHeader(f: Frame, extLen: nat, extra: byte): Header
    requires BASE_HEADER_SIZE + extLen < 256
  {
    f.header.(version := VERSION, headerLen := LenByte(BASE_HEADER_SIZE + extLen),
              flags := Flagged(f.header.flags, extra, extLen > 0), payloadLen := |f.payload| % TWO_16)
  }

  function Seal(body: Bytes): Bytes {
    body + Trailer(Divide(INITIAL, body))
  }

  function Body(f: Frame): Bytes
    requires BASE_HEADER_SIZE + |f.exts| < 256
  {
    EncodeHeader(WireHeader(f, |f.exts|, 0)) + f.exts + f.payload
  }

  function SerializeStatus(f: Frame, size: nat): Status {
    if |f.exts| > 255 - BASE_HEADER_SIZE then BufferTooSmall
    else if size < BASE_HEADER_SIZE + |f.exts| + |f.payload| + CRC_SIZE then BufferTooSmall
    else if !Valid(WireHeader(f, |f.exts|, 0)) then InvalidParam
    else Ok
  }

  /** Serializes into a buffer: header, extensions, payload, then the checksum of all of it. */
  method Serialize(buffer: array<byte>, f: Frame) returns (status: Status, written: nat)
    modifies buffer
    ensures status == SerializeStatus(f, buffer.Length)
    ensures if status.Ok? then written <= buffer.Length && buffer[..] == Over(old(buffer[..]), 0, Seal(Body(f)))
            else buffer[..] == old(buffer[..])
    ensures status.Ok? ==> written == |Seal(Body(f))|
  {
    if |f.exts| > 255 - BASE_HEADER_SIZE {
      return BufferTooSmall, 0;
    }
    var offset := BASE_HEADER_SIZE + |f.exts|;
    if buffer.Length < offset + |f.payload| + CRC_SIZE {
      return BufferTooSmall, 0;
    }
    hide Valid, EncodeHeader, WireHeader, Seal, Over;
    ghost var was := buffer[..];
    var h := WireHeader(f, |f.exts|, 0);
    status := WriteHeader(buffer, h);
    if !status.Ok? {
      return status, 0;
    }
    WriteAt(buffer, BASE_HEADER_SIZE, f.exts);
    OverTwice(was, 0, EncodeHeader(h), f.exts);
    WriteAt(buffer, offset, f.payload);
    OverTwice(was, 0, EncodeHeader(h) + f.exts, f.payload);
    written := AppendCrc(buffer, offset + |f.payload|, was, Body(f));
    return Ok, written;
  }

  /** Checksums what has been written so far and appends the result. */
  method AppendCrc(buffer: array<byte>, offset: nat, ghost was: Bytes, ghost body: Bytes) returns (written: nat)
    requires |was| == buffer.Length && |body| == offset && offset + CRC_SIZE <= buffer.Length
    requires buffer[..] == Over(was, 0, body)
    modifies buffer
    ensures written == offset + CRC_SIZE == |Seal(body)| && buffer[..] == Over(was, 0, Seal(body))
  {
    OverFront(was, body);
    assert buffer[..offset] == body;
    hide Over, Divide, Trailer;
    var crc := Crc16(buffer[..offset]);
    WriteAt(buffer, offset, Trailer(crc));
    OverTwice(was, 0, body, Trailer(crc));
    return offset + CRC_SIZE;
  }

  // ---- What the parser accepts ----

  predicate Authenticated(h: Header) {
    h.flags & FLAG_AUTHENTICATED != 0
  }

  /** The tag length the parser expects; None rejects. Without extensions it does not look at the flags. */
  function ExpectedTag(h: Header, exts: Bytes): Option<nat> {
    if exts == [] then Some(0)
    else match ParseExts(exts)
      case None => None
      case Some(es) =>
        match TagLen(es, 0)
        case None => None
        case Some(t) => if Authenticated(h) && t == 0 then None else Some(t)
  }

  function HeaderOf(b: Bytes): Header
    requires |b| >= BASE_HEADER_SIZE
  {
    Fields(b)
  }

  function HeaderLen(b: Bytes): nat
    requires |b| >= BASE_HEADER_SIZE
  {
    Len(HeaderOf(b).headerLen)
  }

  function PayloadLen(b: Bytes): nat
    requires |b| >= BASE_HEADER_SIZE
  {
    HeaderOf(b).payloadLen
  }

  /** The header decodes, the extensions are well formed, and the lengths add up. */
  predicate LengthsAgree(b: Bytes) {
    && |b| >= BASE_HEADER_SIZE && DecodeHeader(b).Decoded?
    && HeaderLen(b) <= |b|
    && ExpectedTag(HeaderOf(b), b[BASE_HEADER_SIZE..HeaderLen(b)]).Some?
    && |b| == HeaderLen(b) + PayloadLen(b) + ExpectedTag(HeaderOf(b), b[BASE_HEADER_SIZE..HeaderLen(b)]).value + CRC_SIZE
  }

  /** A complete frame from first to last byte. */
  predicate Accepts(b: Bytes) {
    LengthsAgree(b) && Intact(b)
  }

  lemma DecodedIsLong(b: Bytes)
    requires |b| >= 24 && DecodeHeader(b).Decoded?
    ensures HeaderLen(b) >= BASE_HEADER_SIZE && b[0] == MAGIC_0 && b[1] == MAGIC_1
  {
    hide HeaderCrc, Trailer;
  }

  lemma HeaderOfEncoded(b: Bytes, h: Header)
    requires Valid(h) && |b| >= 24 && b[..24] == EncodeHeader(h)
    ensures DecodeHeader(b) == Decoded(h) && HeaderOf(b) == h
  {
    DecodesIff(b, h);
    hide EncodeHeader, Valid;
  }

  /** A header with its extensions, payload and tag. */
  function Joined(h: Header, exts: Bytes, payload: Bytes, tag: Bytes): Bytes {
    EncodeHeader(h) + exts + payload + tag
  }

  lemma JoinedParts(h: Header, exts: Bytes, payload: Bytes, tag: Bytes, b: Bytes)
    requires b == Seal(Joined(h, exts, payload, tag))
    ensures |b| == 24 + |exts| + |payload| + |tag| + 2
    ensures b[..24] == EncodeHeader(h) && b[24..24 + |exts|] == exts
    ensures b[24 + |exts|..24 + |exts| + |payload|] == payload
    ensures b[24 + |exts| + |payload|..|b| - 2] == tag
  {
    hide EncodeHeader, Divide, Trailer;
    var e, t := EncodeHeader(h), Trailer(Divide(INITIAL, Joined(h, exts, payload, tag)));
    assert |t| == 2 by { TrailerLength(Divide(INITIAL, Joined(h, exts, payload, tag))); }
    assert b == e + exts + payload + tag + t;
  }

  lemma TrailerLength(c: bv16)
    ensures |Trailer(c)| == 2
  {
  }

  /** A sealed frame whose header states its own lengths is accepted exactly when the announced tag length is the real one. */
  lemma JoinedAcceptsIff(h: Header, exts: Bytes, payload: Bytes, tag: Bytes)
    requires Valid(h) && Len(h.headerLen) == 24 + |exts| && h.payloadLen == |payload|
    ensures Accepts(Seal(Joined(h, exts, payload, tag))) <==> ExpectedTag(h, exts) == Some(|tag|)
    ensures HeaderOf(Seal(Joined(h, exts, payload, tag))) == h
  {
    var b := Seal(Joined(h, exts, payload, tag));
    SealedIsIntact(Joined(h, exts, payload, tag));
    JoinedParts(h, exts, payload, tag, b);
    HeaderOfEncoded(b, h);
    hide EncodeHeader, Valid, DecodeHeader, HeaderOf, ExpectedTag, Intact, Seal, Len;
  }

  lemma WireHeaderLengths(f: Frame, extLen: nat, extra: byte)
    requires BASE_HEADER_SIZE + extLen < 256 && |f.payload| < TWO_16
    ensures var h := WireHeader(f, extLen, extra); Len(h.headerLen) == 24 + extLen && h.payloadLen == |f.payload|
  {
    LenOf(24 + extLen);
  }

  /** A plain frame is accepted exactly when its extensions are well formed and announce no tag. */
  lemma SerializedAcceptsIff(f: Frame, size: nat)
    requires SerializeStatus(f, size) == Ok && |f.payload| < TWO_16
    ensures Accepts(Seal(Body(f))) <==> ExpectedTag(WireHeader(f, |f.exts|, 0), f.exts) == Some(0)
    ensures HeaderOf(Seal(Body(f))) == WireHeader(f, |f.exts|, 0)
  {
    var h := WireHeader(f, |f.exts|, 0);
    WireHeaderLengths(f, |f.exts|, 0);
    assert Joined(h, f.exts, f.payload, []) == Body(f);
    hide Accepts, WireHeader, EncodeHeader, Valid, HeaderOf, ExpectedTag, Body, Seal, Len;
    JoinedAcceptsIff(h, f.exts, f.payload, []);
  }
}
