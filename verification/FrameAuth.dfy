/**
 * Authenticated frames: the security extension, the canonical bytes that are
 * signed, and the tag. Signing and verifying are abstract functions.
 */
module FrameAuth {
  import opened Base
  import opened Crc
  import opened Frame
  import opened Wire

  const TAG_MAX_LEN := 32
  const SECURITY_EXT_SIZE := 15

  datatype Provider = Provider(tagLen: nat, sign: (u32, Bytes, Bytes) -> Bytes, verify: (u32, Bytes, Bytes, Bytes) -> bool)

  /** What a provider promises: tags of its own length, which it verifies. */
  ghost predicate Sound(p: Provider) {
    forall key, aad, payload :: |p.sign(key, aad, payload)| == p.tagLen && p.verify(key, aad, payload, p.sign(key, aad, payload))
  }

  /** The signed form of a header and its extensions: hop limit and header checksum read as 0. */
  function Canonical(aad: Bytes): (r: Bytes)
    ensures |r| == |aad|
  {
    if |aad| >= BASE_HEADER_SIZE && aad[0] == MAGIC_0 && aad[1] == MAGIC_1 then
      aad[6 := 0][22 := 0][23 := 0]
    else aad
  }

  function SecurityValue(key: u32, nonce: u32, tagLen: nat): (r: Bytes)
    requires tagLen < 256
    ensures |r| == SECURITY_VALUE_SIZE
  {
    Put32(key) + Put32(nonce) + [0, 0, 0, 0] + [LenByte(tagLen)]
  }

  function SecurityExt(key: u32, nonce: u32, tagLen: nat): (e: Ext)
    requires tagLen < 256
    ensures ValidExt(e)
  {
    Ext(EXT_SECURITY, SecurityValue(key, nonce, tagLen))
  }

  /** The key a security extension names. */
  function SecurityKey(e: Ext): u32
    requires |e.value| == SECURITY_VALUE_SIZE
  {
    Get32(e.value[..4])
  }

  /** The extensions of an authenticated frame: the caller's, then the security extension. */
  function AuthExts(f: Frame, key: u32, tagLen: nat): Bytes
    requires tagLen < 256
  {
    f.exts + EncodeExt(SecurityExt(key, f.header.packetNumber, tagLen))
  }

  lemma AuthExtsLength(f: Frame, key: u32, tagLen: nat)
    requires tagLen < 256
    ensures |AuthExts(f, key, tagLen)| == |f.exts| + SECURITY_EXT_SIZE
  {
  }

  function AuthHeader(f: Frame): Header
    requires BASE_HEADER_SIZE + |f.exts| + SECURITY_EXT_SIZE < 256
  {
    WireHeader(f, |f.exts| + SECURITY_EXT_SIZE, FLAG_AUTHENTICATED)
  }

  /** Header and extensions together: what the tag covers besides the payload. */
  function Aad(f: Frame, key: u32, tagLen: nat): Bytes
    requires tagLen < 256 && BASE_HEADER_SIZE + |f.exts| + SECURITY_EXT_SIZE < 256
  {
    EncodeHeader(AuthHeader(f)) + AuthExts(f, key, tagLen)
  }

  function Tag(f: Frame, key: u32, p: Provider): Bytes
    requires p.tagLen < 256 && BASE_HEADER_SIZE + |f.exts| + SECURITY_EXT_SIZE < 256
  {
    p.sign(key, Canonical(Aad(f, key, p.tagLen)), f.payload)
  }

  function AuthFrame(f: Frame, key: u32, p: Provider): Bytes
    requires p.tagLen < 256 && BASE_HEADER_SIZE + |f.exts| + SECURITY_EXT_SIZE < 256
  {
    Seal(Joined(AuthHeader(f), AuthExts(f, key, p.tagLen), f.payload, Tag(f, key, p)))
  }

  function SerializeAuthStatus(f: Frame, key: u32, p: Provider, size: nat): Status {
    if |f.payload| >= TWO_16 then BufferTooSmall
    else if p.tagLen == 0 || p.tagLen > TAG_MAX_LEN then InvalidParam
    else if |f.exts| > 255 - BASE_HEADER_SIZE || size < BASE_HEADER_SIZE + |f.exts| + SECURITY_EXT_SIZE then BufferTooSmall
    else if BASE_HEADER_SIZE + |f.exts| + SECURITY_EXT_SIZE > 255 then BufferTooSmall
    else if !Valid(AuthHeader(f)) then InvalidParam
    else if size < BASE_HEADER_SIZE + |f.exts| + SECURITY_EXT_SIZE + |f.payload| + p.tagLen + CRC_SIZE then BufferTooSmall
    else if |Tag(f, key, p)| != p.tagLen then InvalidFrame
    else Ok
  }

  /** Serializes an authenticated frame; after a failure the buffer holds no promise. */
  method SerializeAuthenticated(buffer: array<byte>, f: Frame, key: u32, p: Provider) returns (status: Status, written: nat)
    modifies buffer
    ensures status == SerializeAuthStatus(f, key, p, buffer.Length)
    ensures status.Ok? ==> written == |AuthFrame(f, key, p)| <= buffer.Length
    ensures status.Ok? ==> buffer[..] == Over(old(buffer[..]), 0, AuthFrame(f, key, p))
  {
    if |f.payload| >= TWO_16 {
      return BufferTooSmall, 0;
    }
    if p.tagLen == 0 || p.tagLen > TAG_MAX_LEN {
      return InvalidParam, 0;
    }
    if |f.exts| > 255 - BASE_HEADER_SIZE || buffer.Length < BASE_HEADER_SIZE + |f.exts| + SECURITY_EXT_SIZE {
      return BufferTooSmall, 0;
    }
    if BASE_HEADER_SIZE + |f.exts| + SECURITY_EXT_SIZE > 255 {
      return BufferTooSmall, 0;
    }
    hide Valid, WireHeader, AuthExts, Tag, AuthFrame, AuthHeader, Over, Canonical;
    ghost var was := buffer[..];
    AuthExtsLength(f, key, p.tagLen);
    var headerLen := BASE_HEADER_SIZE + |f.exts| + SECURITY_EXT_SIZE;
    status := WriteHeader(buffer, AuthHeader(f));
    if !status.Ok? {
      return status, 0;
    }
    WriteAt(buffer, BASE_HEADER_SIZE, AuthExts(f, key, p.tagLen));
    OverTwice(was, 0, EncodeHeader(AuthHeader(f)), AuthExts(f, key, p.tagLen));
    if buffer.Length < headerLen + |f.payload| + p.tagLen + CRC_SIZE {
      return BufferTooSmall, 0;
    }
    status, written := SignAndSeal(buffer, f, key, p, was);
  }

  /** Payload, tag and checksum behind the written header. */
  method SignAndSeal(buffer: array<byte>, f: Frame, key: u32, p: Provider, ghost was: Bytes) returns (status: Status, written: nat)
    requires p.tagLen < 256 && BASE_HEADER_SIZE + |f.exts| + SECURITY_EXT_SIZE < 256 && |was| == buffer.Length
    requires |Aad(f, key, p.tagLen)| == BASE_HEADER_SIZE + |f.exts| + SECURITY_EXT_SIZE
    requires buffer.Length >= |Aad(f, key, p.tagLen)| + |f.payload| + p.tagLen + CRC_SIZE
    requires buffer[..] == Over(was, 0, Aad(f, key, p.tagLen))
    modifies buffer
    ensures status == if |Tag(f, key, p)| != p.tagLen then InvalidFrame else Ok
    ensures status.Ok? ==> written == |AuthFrame(f, key, p)| <= buffer.Length
    ensures status.Ok? ==> buffer[..] == Over(was, 0, AuthFrame(f, key, p))
  {
    ghost var aad := Aad(f, key, p.tagLen);
    var headerLen := BASE_HEADER_SIZE + |f.exts| + SECURITY_EXT_SIZE;
    JoinedIs(f, key, p);
    OverFront(was, aad);
    assert buffer[..headerLen] == aad;
    hide Aad, Joined, Seal, Over, Canonical;
    var tag := p.sign(key, Canonical(buffer[..headerLen]), f.payload);
    if |tag| != p.tagLen {
      return InvalidFrame, 0;
    }
    WriteAt(buffer, headerLen, f.payload);
    OverTwice(was, 0, aad, f.payload);
    WriteAt(buffer, headerLen + |f.payload|, tag);
    OverTwice(was, 0, aad + f.payload, tag);
    written := AppendCrc(buffer, headerLen + |f.payload| + |tag|, was, aad + f.payload + tag);
    return Ok, written;
  }

  lemma JoinedIs(f: Frame, key: u32, p: Provider)
    requires p.tagLen < 256 && BASE_HEADER_SIZE + |f.exts| + SECURITY_EXT_SIZE < 256
    ensures AuthFrame(f, key, p) == Seal(Aad(f, key, p.tagLen) + f.payload + Tag(f, key, p))
  {
  }

  // ---- Verification ----

  /** The key the last security extension names. */
  function KeyOf(es: seq<Ext>, key: u32): u32 {
    if es == [] then key
    else if es[0].kind == EXT_SECURITY && |es[0].value| == SECURITY_VALUE_SIZE then KeyOf(es[1..], SecurityKey(es[0]))
    else KeyOf(es[1..], key)
  }

  /** The tag check of a received frame, its checksum excluded. */
  function Verify(b: Bytes, key: u32, p: Provider): (r: (Status, bool))
    requires |b| >= BASE_HEADER_SIZE + CRC_SIZE && HeaderLen(b) <= |b|
  {
    var tagOffset := HeaderLen(b) + PayloadLen(b);
    if p.tagLen == 0 || p.tagLen > TAG_MAX_LEN then (InvalidParam, false)
    else if tagOffset >= |b| - CRC_SIZE then (InvalidFrame, false)
    else if |b| - CRC_SIZE - tagOffset != p.tagLen then (InvalidFrame, false)
    else (Ok, p.verify(key, Canonical(b[..HeaderLen(b)]), b[HeaderLen(b)..tagOffset], b[tagOffset..|b| - CRC_SIZE]))
  }

  lemma {:induction false} EncodeAppend(xs: seq<Ext>, ys: seq<Ext>)
    requires AllValidExts(xs) && AllValidExts(ys)
    ensures AllValidExts(xs + ys) && EncodeExts(xs + ys) == EncodeExts(xs) + EncodeExts(ys)
  {
    hide EncodeExt, ValidExt;
    if xs == [] {
      assert xs + ys == ys;
    } else {
      EncodeAppend(xs[1..], ys);
      assert (xs + ys)[1..] == xs[1..] + ys;
      assert EncodeExt(xs[0]) + (EncodeExts(xs[1..]) + EncodeExts(ys)) == EncodeExts(xs) + EncodeExts(ys);
    }
  }

  /** Adding one extension behind well-formed ones. */
  lemma ParseAppend(a: Bytes, e: Ext)
    requires ParseExts(a).Some? && ValidExt(e)
    ensures ParseExts(a + EncodeExt(e)) == Some(ParseExts(a).value + [e])
  {
    var xs := ParseExts(a).value;
    EncodeOfParsed(a);
    EncodeAppend(xs, [e]);
    assert EncodeExts([e]) == EncodeExt(e) by {
      assert [e][1..] == [] && EncodeExt(e) + [] == EncodeExt(e);
    }
    ParseOfEncoded(xs + [e]);
  }

  lemma {:induction false} LastTagWins(es: seq<Ext>, tag: nat, key: u32, e: Ext)
    requires TagLen(es, tag).Some? && e.kind == EXT_SECURITY && SecurityTag(e).Some?
    ensures TagLen(es + [e], tag) == SecurityTag(e) && KeyOf(es + [e], key) == SecurityKey(e)
  {
    hide SecurityTag, SecurityKey;
    if es == [] {
      assert es + [e] == [e] && [e][1..] == [];
      SecuritySize(e);
    } else {
      assert (es + [e])[1..] == es[1..] + [e] && (es + [e])[0] == es[0];
      if es[0].kind == EXT_SECURITY {
        SecuritySize(es[0]);
        LastTagWins(es[1..], SecurityTag(es[0]).value, SecurityKey(es[0]), e);
      } else {
        LastTagWins(es[1..], tag, key, e);
      }
    }
  }

  lemma SecuritySize(e: Ext)
    requires SecurityTag(e).Some?
    ensures |e.value| == SECURITY_VALUE_SIZE
  {
  }

  lemma SecurityExtReads(key: u32, nonce: u32, tagLen: nat)
    requires 0 < tagLen < 256
    ensures SecurityTag(SecurityExt(key, nonce, tagLen)) == Some(tagLen)
    ensures SecurityKey(SecurityExt(key, nonce, tagLen)) == key
  {
    GetPut32(key);
    LenOf(tagLen);
    NonzeroByte(tagLen);
    hide Put32, Get32, Len, LenByte;
    var v := SecurityValue(key, nonce, tagLen);
    assert v[..4] == Put32(key) && v[12] == LenByte(tagLen);
  }

  lemma NonzeroByte(n: nat)
    requires 0 < n < 256
    ensures LenByte(n) != 0
  {
    LenOf(n);
    ZeroLen();
    hide Len, LenByte;
  }

  lemma ZeroLen()
    ensures Len(0) == 0
  {
  }

  /**
   * An authenticated frame with well-formed extensions is accepted by the parser
   * and verifies under its key.
   */
  lemma AuthFrameVerifies(f: Frame, key: u32, p: Provider, size: nat)
    requires SerializeAuthStatus(f, key, p, size) == Ok && Sound(p)
    requires ParseExts(f.exts).Some? && TagLen(ParseExts(f.exts).value, 0).Some?
    ensures var b := AuthFrame(f, key, p);
      && Accepts(b)
      && KeyOf(ParseExts(f.exts).value + [SecurityExt(key, f.header.packetNumber, p.tagLen)], 0) == key
      && Verify(b, key, p) == (Ok, true)
  {
    var e := SecurityExt(key, f.header.packetNumber, p.tagLen);
    var exts := AuthExts(f, key, p.tagLen);
    var h := AuthHeader(f);
    AuthExtsLength(f, key, p.tagLen);
    WireHeaderLengths(f, |exts|, FLAG_AUTHENTICATED);
    ParseAppend(f.exts, e);
    SecurityExtReads(key, f.header.packetNumber, p.tagLen);
    LastTagWins(ParseExts(f.exts).value, 0, 0, e);
    ExpectsItsTag(h, exts, p.tagLen);
    JoinedAcceptsIff(h, exts, f.payload, Tag(f, key, p));
    TagVerifies(f, key, p);
  }

  lemma ExpectsItsTag(h: Header, exts: Bytes, tagLen: nat)
    requires exts != [] && ParseExts(exts).Some? && TagLen(ParseExts(exts).value, 0) == Some(tagLen) && tagLen > 0
    ensures ExpectedTag(h, exts) == Some(tagLen)
  {
  }

  lemma TagVerifies(f: Frame, key: u32, p: Provider)
    requires 0 < p.tagLen <= TAG_MAX_LEN && BASE_HEADER_SIZE + |f.exts| + SECURITY_EXT_SIZE < 256 && |f.payload| < TWO_16
    requires Sound(p) && Valid(AuthHeader(f))
    ensures var b := AuthFrame(f, key, p);
      |b| >= 26 && HeaderLen(b) <= |b| && Verify(b, key, p) == (Ok, true)
  {
    var exts, h := AuthExts(f, key, p.tagLen), AuthHeader(f);
    AuthExtsLength(f, key, p.tagLen);
    WireHeaderLengths(f, |exts|, FLAG_AUTHENTICATED);
    TagIsGood(f, key, p);
    hide Sound, Valid, WireHeader, AuthExts, Tag, Seal, Joined, HeaderLen, Verify, Len;
    SealedVerifies(h, exts, f.payload, Tag(f, key, p), key, p);
  }

  /** What the verifier is asked about a sealed frame. */
  lemma SealedVerifies(h: Header, exts: Bytes, payload: Bytes, tag: Bytes, key: u32, p: Provider)
    requires Valid(h) && Len(h.headerLen) == 24 + |exts| && h.payloadLen == |payload| && 0 < |tag| == p.tagLen <= TAG_MAX_LEN
    ensures var b := Seal(Joined(h, exts, payload, tag));
      && |b| >= 26 && HeaderLen(b) <= |b|
      && Verify(b, key, p) == (Ok, p.verify(key, Canonical(EncodeHeader(h) + exts), payload, tag))
  {
    var b := Seal(Joined(h, exts, payload, tag));
    hide *;
    JoinedParts(h, exts, payload, tag, b);
    HeaderOfEncoded(b, h);
    HeadParts(b, EncodeHeader(h), exts);
    VerifyParts(b, 24 + |exts|, payload, tag, key, p);
  }

  lemma VerifyParts(b: Bytes, headerLen: nat, payload: Bytes, tag: Bytes, key: u32, p: Provider)
    requires headerLen >= 24 && |b| == headerLen + |payload| + |tag| + 2 && 0 < |tag| == p.tagLen <= TAG_MAX_LEN
    requires Len(HeaderOf(b).headerLen) == headerLen && HeaderOf(b).payloadLen == |payload|
    requires b[headerLen..headerLen + |payload|] == payload && b[headerLen + |payload|..|b| - 2] == tag
    ensures HeaderLen(b) == headerLen && Verify(b, key, p) == (Ok, p.verify(key, Canonical(b[..headerLen]), payload, tag))
  {
    hide HeaderOf, Len, Canonical;
  }

  lemma TagIsGood(f: Frame, key: u32, p: Provider)
    requires p.tagLen < 256 && BASE_HEADER_SIZE + |f.exts| + SECURITY_EXT_SIZE < 256 && Sound(p)
    ensures var aad := EncodeHeader(AuthHeader(f)) + AuthExts(f, key, p.tagLen);
      |Tag(f, key, p)| == p.tagLen && p.verify(key, Canonical(aad), f.payload, Tag(f, key, p))
  {
  }

  lemma HeadParts(b: Bytes, head: Bytes, exts: Bytes)
    requires |b| >= 24 + |exts| && b[..24] == head && b[24..24 + |exts|] == exts
    ensures b[..24 + |exts|] == head + exts
  {
    assert b[..24 + |exts|] == b[..24] + b[24..24 + |exts|];
  }
}
