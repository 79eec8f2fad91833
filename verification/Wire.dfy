/**
 * The wire format: the fixed 24-byte header with its own checksum, and the
 * type-length-value extensions behind it.
 */
module Wire {
  import opened Base
  import opened Crc

  // ---- Bytes and little-endian integers ----

  /** A byte as a number, and back. */
  function Len(b: byte): (n: nat)
    ensures n < 256
  {
    b as int
  }

  function LenByte(n: nat): byte
    requires n < 256
  {
    n as byte
  }

  lemma LenOf(n: nat)
    requires n < 256
    ensures Len(LenByte(n)) == n
  {
    SmallFits(n);
  }

  function Counted(n: nat): byte {
    if n == 0 then 0 else Counted(n - 1) + 1
  }

  lemma NextByte(b: byte)
    requires b as int < 255
    ensures (b + 1) as int == b as int + 1
  {
  }

  lemma BackToByte(b: byte, n: nat)
    requires b as int == n
    ensures n as byte == b
  {
  }

  lemma {:induction false} CountedIs(n: nat)
    requires n < 256
    ensures Counted(n) as int == n
  {
    if n > 0 {
      CountedIs(n - 1);
      NextByte(Counted(n - 1));
    }
  }

  /** A number below 256 survives being stored in a byte. */
  lemma SmallFits(n: nat)
    requires n < 256
    ensures (n as byte) as int == n
  {
    CountedIs(n);
    BackToByte(Counted(n), n);
  }

  lemma LenByteOf(b: byte)
    ensures LenByte(Len(b)) == b
  {
  }

  function Put16(n: u16): (r: Bytes)
    ensures |r| == 2
  {
    [LenByte(n % 256), LenByte(n / 256)]
  }

  function Get16(b: Bytes): u16
    requires |b| == 2
  {
    Len(b[0]) + 256 * Len(b[1])
  }

  function Put32(n: u32): (r: Bytes)
    ensures |r| == 4
  {
    [LenByte(n % 256), LenByte(n / 256 % 256), LenByte(n / 65536 % 256), LenByte(n / 16777216)]
  }

  function Get32(b: Bytes): u32
    requires |b| == 4
  {
    Len(b[0]) + 256 * Len(b[1]) + 65536 * Len(b[2]) + 16777216 * Len(b[3])
  }

  lemma Digits(a: nat, b: nat, c: nat, d: nat)
    requires a < 256 && b < 256 && c < 256 && d < 256
    ensures
      var n := a + 256 * b + 65536 * c + 16777216 * d;
      n % 256 == a && n / 256 % 256 == b && n / 65536 % 256 == c && n / 16777216 == d
  {
    var n := a + 256 * b + 65536 * c + 16777216 * d;
    assert n / 256 == b + 256 * c + 65536 * d;
    assert n / 65536 == c + 256 * d;
  }

  lemma Sum(n: u32)
    ensures n % 256 + 256 * (n / 256 % 256) + 65536 * (n / 65536 % 256) + 16777216 * (n / 16777216) == n
  {
    assert n / 65536 == n / 256 / 256 && n / 16777216 == n / 65536 / 256;
  }

  lemma GetPut16(n: u16)
    ensures Get16(Put16(n)) == n
  {
    LenOf(n % 256);
    LenOf(n / 256);
    hide Len, LenByte;
  }

  lemma PutDigits16(x: nat, y: nat)
    requires x < 256 && y < 256
    ensures Put16(x + 256 * y) == [LenByte(x), LenByte(y)]
  {
    hide LenByte;
    var n := x + 256 * y;
    assert n % 256 == x && n / 256 == y;
  }

  lemma PutGet16(b: Bytes)
    requires |b| == 2
    ensures Put16(Get16(b)) == b
  {
    PutDigits16(Len(b[0]), Len(b[1]));
    LenByteOf(b[0]);
    LenByteOf(b[1]);
    hide Put16, Len, LenByte;
    assert b == [b[0], b[1]];
  }

  lemma GetPut32(n: u32)
    ensures Get32(Put32(n)) == n
  {
    Sum(n);
    LenOf(n % 256);
    LenOf(n / 256 % 256);
    LenOf(n / 65536 % 256);
    LenOf(n / 16777216);
    hide Len, LenByte;
  }

  lemma PutDigits32(a: nat, b: nat, c: nat, d: nat)
    requires a < 256 && b < 256 && c < 256 && d < 256
    ensures Put32(a + 256 * b + 65536 * c + 16777216 * d) == [LenByte(a), LenByte(b), LenByte(c), LenByte(d)]
  {
    hide LenByte;
    Digits(a, b, c, d);
  }

  lemma PutGet32(b: Bytes)
    requires |b| == 4
    ensures Put32(Get32(b)) == b
  {
    PutDigits32(Len(b[0]), Len(b[1]), Len(b[2]), Len(b[3]));
    LenByteOf(b[0]);
    LenByteOf(b[1]);
    LenByteOf(b[2]);
    LenByteOf(b[3]);
    hide Put32, Len, LenByte;
    assert b == [b[0], b[1], b[2], b[3]];
  }

  /** Reading and writing an integer undo each other. */
  lemma Reads16(b: Bytes, n: u16)
    requires |b| == 2
    ensures Get16(b) == n <==> b == Put16(n)
  {
    GetPut16(n);
    PutGet16(b);
    hide Get16, Put16;
  }

  lemma Reads32(b: Bytes, n: u32)
    requires |b| == 4
    ensures Get32(b) == n <==> b == Put32(n)
  {
    GetPut32(n);
    PutGet32(b);
    hide Get32, Put32;
  }

  // ---- The header ----

  const MAGIC_0: byte := 0xA5
  const MAGIC_1: byte := 0x5A
  const VERSION: byte := 2
  const BASE_HEADER_SIZE := 24
  const PACKET_TYPE_CLOSE: byte := 7

  const FLAG_HAS_EXTENSIONS: byte := 0x02
  const FLAG_AUTHENTICATED: byte := 0x10

  datatype Header = Header(version: byte, headerLen: byte, packetType: byte, flags: byte, ttl: byte,
                           trafficClass: byte, source: u16, target: u16, connection: u32,
                           packetNumber: u32, payloadLen: u16)

  predicate Valid(h: Header) {
    h.version == VERSION && Len(h.headerLen) >= BASE_HEADER_SIZE && 0 < h.packetType <= PACKET_TYPE_CLOSE && h.source != 0 && h.target != 0
  }

  /** The header without its checksum. */
  function Raw(h: Header): (r: Bytes)
    ensures |r| == 22
  {
    [MAGIC_0, MAGIC_1, h.version, h.headerLen, h.packetType, h.flags, h.ttl, h.trafficClass]
    + Put16(h.source) + Put16(h.target) + Put32(h.connection) + Put32(h.packetNumber) + Put16(h.payloadLen)
  }

  function Fields(b: Bytes): Header
    requires |b| >= 22
  {
    Header(b[2], b[3], b[4], b[5], b[6], b[7], Get16(b[8..10]), Get16(b[10..12]),
           Get32(b[12..16]), Get32(b[16..20]), Get16(b[20..22]))
  }

  /** The checksum covers the header with its own two bytes read as 0. */
  function HeaderCrc(raw: Bytes): bv16
    requires |raw| == 22
  {
    Divide(INITIAL, raw + [0, 0])
  }

  function EncodeHeader(h: Header): (r: Bytes)
    ensures |r| == BASE_HEADER_SIZE
  {
    Raw(h) + Trailer(HeaderCrc(Raw(h)))
  }

  datatype Decoded = Decoded(header: Header) | Bad(status: Status)

  function DecodeHeader(b: Bytes): Decoded {
    if |b| < BASE_HEADER_SIZE then Bad(BufferTooSmall)
    else if b[0] != MAGIC_0 || b[1] != MAGIC_1 then Bad(InvalidFrame)
    else if Trailer(HeaderCrc(b[..22])) != b[22..24] then Bad(CrcFailed)
    else if !Valid(Fields(b)) then Bad(InvalidFrame)
    else Decoded(Fields(b))
  }

  /** The same bytes, field by field. */
  lemma FieldsIff(b: Bytes, h: Header)
    requires |b| >= 22 && b[0] == MAGIC_0 && b[1] == MAGIC_1
    ensures Fields(b) == h <==> b[..22] == Raw(h)
  {
    Reads16(b[8..10], h.source);
    Reads16(b[10..12], h.target);
    Reads32(b[12..16], h.connection);
    Reads32(b[16..20], h.packetNumber);
    Reads16(b[20..22], h.payloadLen);
    SlicesIff(b, h);
    FirstEight(b, h);
    hide Get16, Get32, Put16, Put32, Raw;
  }

  lemma FirstEight(b: Bytes, h: Header)
    requires |b| >= 8
    ensures b[..8] == [MAGIC_0, MAGIC_1, h.version, h.headerLen, h.packetType, h.flags, h.ttl, h.trafficClass] <==>
      b[0] == MAGIC_0 && b[1] == MAGIC_1 && b[2] == h.version && b[3] == h.headerLen && b[4] == h.packetType
      && b[5] == h.flags && b[6] == h.ttl && b[7] == h.trafficClass
  {
    var c := b[..8];
    assert forall i :: 0 <= i < 8 ==> c[i] == b[i];
    assert c == [c[0], c[1], c[2], c[3], c[4], c[5], c[6], c[7]];
  }

  lemma SlicesIff(b: Bytes, h: Header)
    requires |b| >= 22
    ensures b[..22] == Raw(h) <==>
      && b[..8] == [MAGIC_0, MAGIC_1, h.version, h.headerLen, h.packetType, h.flags, h.ttl, h.trafficClass]
      && b[8..10] == Put16(h.source) && b[10..12] == Put16(h.target) && b[12..16] == Put32(h.connection)
      && b[16..20] == Put32(h.packetNumber) && b[20..22] == Put16(h.payloadLen)
  {
    hide Put16, Put32;
    var r, c := Raw(h), b[..22];
    assert r[8..10] == Put16(h.source) && r[10..12] == Put16(h.target) && r[12..16] == Put32(h.connection)
      && r[16..20] == Put32(h.packetNumber) && r[20..22] == Put16(h.payloadLen);
    assert c[8..10] == b[8..10] && c[10..12] == b[10..12] && c[12..16] == b[12..16] && c[16..20] == b[16..20]
      && c[20..22] == b[20..22] && c[..8] == b[..8];
    assert c == c[..8] + c[8..10] + c[10..12] + c[12..16] + c[16..20] + c[20..22];
  }

  /**
   * The header codec is a bijection: a buffer decodes to `h` exactly when `h` is
   * valid and the buffer starts with its encoding.
   */
  lemma DecodesIff(b: Bytes, h: Header)
    ensures DecodeHeader(b) == Decoded(h) <==> Valid(h) && |b| >= 24 && b[..24] == EncodeHeader(h)
  {
    if |b| >= 24 {
      EncodedIff(b, h);
      RawMagic(h);
      if b[0] == MAGIC_0 && b[1] == MAGIC_1 {
        FieldsIff(b, h);
      }
      hide Raw, Fields, HeaderCrc, Trailer, Valid, EncodeHeader;
    }
  }

  lemma RawMagic(h: Header)
    ensures Raw(h)[0] == MAGIC_0 && Raw(h)[1] == MAGIC_1
  {
  }

  lemma EncodedIff(b: Bytes, h: Header)
    requires |b| >= 24
    ensures b[..24] == EncodeHeader(h) <==> b[..22] == Raw(h) && b[22..24] == Trailer(HeaderCrc(Raw(h)))
    ensures b[..22] == Raw(h) ==> b[0] == Raw(h)[0] && b[1] == Raw(h)[1]
  {
    hide Raw, HeaderCrc, Trailer;
    var e, c := EncodeHeader(h), b[..24];
    assert e[..22] == Raw(h) && e[22..24] == Trailer(HeaderCrc(Raw(h)));
    assert c[..22] == b[..22] && c[22..24] == b[22..24] && c == c[..22] + c[22..24];
    if b[..22] == Raw(h) {
      assert b[0] == b[..22][0] && b[1] == b[..22][1];
    }
  }

  /** A buffer with `data` written over it at `offset`. */
  function Over(b: Bytes, offset: nat, data: Bytes): (r: Bytes)
    requires offset + |data| <= |b|
    ensures |r| == |b|
  {
    b[..offset] + data + b[offset + |data|..]
  }

  lemma OverTwice(b: Bytes, offset: nat, first: Bytes, second: Bytes)
    requires offset + |first| + |second| <= |b|
    ensures Over(Over(b, offset, first), offset + |first|, second) == Over(b, offset, first + second)
  {
    var o := Over(b, offset, first);
    assert o[..offset + |first|] == b[..offset] + first;
    assert o[offset + |first| + |second|..] == b[offset + |first| + |second|..];
  }

  lemma OverNothing(b: Bytes, offset: nat)
    requires offset <= |b|
    ensures Over(b, offset, []) == b
  {
  }

  lemma OverFront(b: Bytes, data: Bytes)
    requires |data| <= |b|
    ensures Over(b, 0, data) == data + b[|data|..]
  {
  }

  /** Overwrites a stretch of a buffer. */
  method WriteAt(buffer: array<byte>, offset: nat, data: Bytes)
    requires offset + |data| <= buffer.Length
    modifies buffer
    ensures buffer[..] == Over(old(buffer[..]), offset, data)
  {
    var i := 0;
    while i < |data|
      invariant 0 <= i <= |data|
      invariant buffer[..offset] == old(buffer[..offset])
      invariant buffer[offset..offset + i] == data[..i] && buffer[offset + i..] == old(buffer[offset + i..])
    {
      buffer[offset + i] := data[i];
      i := i + 1;
    }
  }

  /** Writes a header at the start of a buffer. */
  method WriteHeader(buffer: array<byte>, h: Header) returns (status: Status)
    modifies buffer
    ensures status == if buffer.Length < BASE_HEADER_SIZE then BufferTooSmall else if !Valid(h) then InvalidParam else Ok
    ensures buffer[..] == if status.Ok? then Over(old(buffer[..]), 0, EncodeHeader(h)) else old(buffer[..])
  {
    if buffer.Length < BASE_HEADER_SIZE {
      return BufferTooSmall;
    }
    if !Valid(h) {
      return InvalidParam;
    }
    hide Valid, Trailer, Divide, Put16, Put32, Raw, Over;
    ghost var was := buffer[..];
    var raw := Raw(h);
    WriteAt(buffer, 0, raw + [0, 0]);
    OverFront(was, raw + [0, 0]);
    assert buffer[..24] == raw + [0, 0];
    var crc := Crc16(buffer[..24]);
    WriteAt(buffer, 22, Trailer(crc));
    OverHeader(was, raw, Trailer(crc));
    return Ok;
  }

  /** Zeroing the checksum and then writing it comes to writing it once. */
  lemma OverHeader(b: Bytes, raw: Bytes, crc: Bytes)
    requires |raw| == 22 && |crc| == 2 && |b| >= 24
    ensures Over(Over(b, 0, raw + [0, 0]), 22, crc) == Over(b, 0, raw + crc)
  {
    var o := Over(b, 0, raw + [0, 0]);
    assert o[..22] == raw && o[24..] == b[24..];
  }

  // ---- Extensions ----

  const EXT_SESSION: byte := 1
  const EXT_SECURITY: byte := 5
  const SECURITY_VALUE_SIZE := 13
  const SESSION_VALUE_SIZE := 12

  datatype Ext = Ext(kind: byte, value: Bytes)

  predicate ValidExt(e: Ext) {
    e.kind != 0 && |e.value| <= 255
  }

  function EncodeExt(e: Ext): Bytes
    requires ValidExt(e)
  {
    [e.kind, LenByte(|e.value|)] + e.value
  }

  predicate AllValidExts(es: seq<Ext>) {
    forall i :: 0 <= i < |es| ==> ValidExt(es[i])
  }

  function EncodeExts(es: seq<Ext>): Bytes
    requires AllValidExts(es)
  {
    if es == [] then [] else EncodeExt(es[0]) + EncodeExts(es[1..])
  }

  /** One cursor step: the extension at the front and the rest, or None if there is no well-formed one. */
  function FirstExt(b: Bytes): (r: Option<(Ext, Bytes)>)
    ensures r.Some? ==> |r.value.1| < |b| && ValidExt(r.value.0)
  {
    if |b| < 2 || b[0] == 0 || 2 + Len(b[1]) > |b| then None
    else Some((Ext(b[0], b[2..2 + Len(b[1])]), b[2 + Len(b[1])..]))
  }

  function ParseExts(b: Bytes): (r: Option<seq<Ext>>)
    ensures r.Some? ==> AllValidExts(r.value)
    decreases |b|
  {
    if b == [] then Some([])
    else match FirstExt(b)
      case None => None
      case Some((e, rest)) =>
        match ParseExts(rest)
        case None => None
        case Some(es) => Some([e] + es)
  }

  lemma FirstOfEncoded(e: Ext, rest: Bytes)
    requires ValidExt(e)
    ensures FirstExt(EncodeExt(e) + rest) == Some((e, rest)) && EncodeExt(e) + rest != []
  {
    var b := EncodeExt(e) + rest;
    var n := |e.value|;
    LenOf(n);
    hide Len, LenByte;
    assert b[0] == e.kind && b[1] == LenByte(n);
    assert b[2..2 + n] == e.value && b[2 + n..] == rest;
  }

  /** What was encoded is what is parsed. */
  lemma {:induction false} ParseOfEncoded(es: seq<Ext>)
    requires AllValidExts(es)
    ensures ParseExts(EncodeExts(es)) == Some(es)
  {
    if es != [] {
      assert es == [es[0]] + es[1..];
      FirstOfEncoded(es[0], EncodeExts(es[1..]));
      hide FirstExt, EncodeExt, ValidExt;
      ParseOfEncoded(es[1..]);
    }
  }

  lemma FirstReencodes(b: Bytes)
    requires FirstExt(b).Some?
    ensures EncodeExt(FirstExt(b).value.0) + FirstExt(b).value.1 == b
  {
    LenByteOf(b[1]);
    hide Len, LenByte;
    ThreeParts(b, Len(b[1]));
  }

  lemma ThreeParts(b: Bytes, n: nat)
    requires 2 + n <= |b|
    ensures b == [b[0], b[1]] + b[2..2 + n] + b[2 + n..]
  {
  }

  /** And what parses is the encoding of the result: there is one way to write it. */
  lemma {:induction false} EncodeOfParsed(b: Bytes)
    requires ParseExts(b).Some?
    ensures EncodeExts(ParseExts(b).value) == b
    decreases |b|
  {
    if b != [] {
      var (e, rest) := FirstExt(b).value;
      FirstReencodes(b);
      hide FirstExt, EncodeExt, ValidExt;
      EncodeOfParsed(rest);
      var es := ParseExts(rest).value;
      assert ([e] + es)[1..] == es;
    }
  }

  /** The cursor over the extension bytes of a frame. */
  class Cursor {
    const bytes: Bytes
    var offset: nat

    ghost predicate Inside()
      reads this
    {
      offset <= |bytes|
    }

    constructor (bytes: Bytes)
      ensures this.bytes == bytes && offset == 0
    {
      this.bytes, offset := bytes, 0;
    }

    /** NotFound at the end, InvalidFrame on a malformed extension; neither moves the cursor. */
    method Next() returns (ext: Option<Ext>, status: Status)
      requires Inside()
      modifies this
      ensures Inside() && (status.Ok? <==> ext.Some?)
      ensures var left := bytes[old(offset)..];
        if left == [] then status == NotFound && offset == old(offset)
        else if FirstExt(left).None? then status == InvalidFrame && offset == old(offset)
        else status == Ok && (ext.value, bytes[offset..]) == FirstExt(left).value
    {
      hide Len;
      if offset == |bytes| {
        return None, NotFound;
      }
      if |bytes| - offset < 2 {
        return None, InvalidFrame;
      }
      var kind, len := bytes[offset], Len(bytes[offset + 1]);
      if kind == 0 || 2 + len > |bytes| - offset {
        return None, InvalidFrame;
      }
      ghost var left := bytes[offset..];
      assert left[0] == kind && left[1] == bytes[offset + 1] && left[2..2 + len] == bytes[offset + 2..offset + 2 + len];
      ext := Some(Ext(kind, bytes[offset + 2..offset + 2 + len]));
      offset := offset + 2 + len;
      assert bytes[offset..] == left[2 + len..];
      return ext, Ok;
    }
  }

  // ---- The security extension ----

  /** The tag length a security extension announces; None if its value is malformed. */
  function SecurityTag(e: Ext): Option<nat> {
    if |e.value| != SECURITY_VALUE_SIZE || e.value[12] == 0 then None else Some(Len(e.value[12]))
  }

  /** The tag length the extensions announce: the last security extension wins. */
  function TagLen(es: seq<Ext>, tag: nat): Option<nat> {
    if es == [] then Some(tag)
    else if es[0].kind != EXT_SECURITY then TagLen(es[1..], tag)
    else match SecurityTag(es[0])
      case None => None
      case Some(t) => TagLen(es[1..], t)
  }
}
