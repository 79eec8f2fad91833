/**
 * What the planner, the serializers and the decoders answer to every input, in
 * plain numbers: which check fails first, and what is asked of the caller.
 */
module Answers {
  import opened Base
  import opened Wire
  import opened Frame
  import opened FrameAuth
  import opened DataLink
  import AckCodec
  import Crc
  import Fragmentation
  import Layout

  // ---- The send plan ----

  /** Header, checksum and, for signed frames, security extension and tag. */
  function Fixed(tagLen: nat): nat {
    if tagLen > 0 then 26 + 15 + tagLen else 26
  }

  function Limit(c: Fragmentation.Context): u16 {
    match c.routeMax
    case None => c.maxFrame
    case Some(m) => if m < c.maxFrame then m else c.maxFrame
  }

  /**
   * A message goes out whole whenever it fits; otherwise in pieces as large as fit
   * beside a fragment extension of 14 bytes, as few of them as possible. Both kinds
   * carry 3 bytes for a data type other than 0.
   */
  lemma PlanAnswer(c: Fragmentation.Context, dataType: u8, len: nat)
    requires len > 0
    ensures var r := Fragmentation.BuildPlan(c, dataType, len);
      var app := if dataType == 0 then 0 else 3; var room := Limit(c) - Fixed(c.tagLen) - app;
      if Limit(c) < Fixed(c.tagLen) then r == Fragmentation.Refused(InvalidParam)
      else if room >= 0 && len <= room then r == Fragmentation.Planned(Fragmentation.Plan(Limit(c), app, room, 1, false))
      else if !c.fragmentation || room <= 14 then r == Fragmentation.Refused(BufferTooSmall)
      else && r.Planned? && r.plan == Fragmentation.Plan(Limit(c), app + 14, room - 14, r.plan.count, true)
           && (r.plan.count - 1) * (room - 14) < len <= r.plan.count * (room - 14)
  {
    var room := Limit(c) - Fixed(c.tagLen) - (if dataType == 0 then 0 else 3);
    if room > 14 {
      FewPieces(len, room - 14);
    }
  }

  lemma FewPieces(len: nat, b: nat)
    requires b > 0 && len > 0
    ensures var n := (len + b - 1) / b; (n - 1) * b < len <= n * b
  {
    var n := (len + b - 1) / b;
    Fragmentation.DivBounds(len + b - 1, b);
    assert (n - 1) * b == n * b - b;
  }

  // ---- Serializers ----

  /** What a receiver will insist on in the caller's part of a header. */
  predicate Sendable(h: Header) {
    1 <= h.packetType as int <= 7 && h.source > 0 && h.target > 0
  }

  lemma WireValid(f: Frame, extLen: nat, extra: byte)
    requires 24 + extLen < 256
    ensures Valid(WireHeader(f, extLen, extra)) <==> Sendable(f.header)
  {
    Layout.ValidIs(WireHeader(f, extLen, extra));
    Layout.LengthByte(24 + extLen);
    hide Valid, LenByte;
  }

  lemma SerializeAnswer(f: Frame, size: nat)
    ensures SerializeStatus(f, size) ==
      if |f.exts| > 231 || size < 26 + |f.exts| + |f.payload| then BufferTooSmall
      else if !Sendable(f.header) then InvalidParam else Ok
  {
    if |f.exts| <= 231 {
      WireValid(f, |f.exts|, 0);
    }
    hide Valid, WireHeader, Sendable;
  }

  /** The order in which signing refuses: payload, tag length, extensions, header, room, provider. */
  lemma SerializeAuthAnswer(f: Frame, key: u32, p: Provider, size: nat)
    ensures SerializeAuthStatus(f, key, p, size) ==
      if |f.payload| > 65535 then BufferTooSmall
      else if p.tagLen < 1 || p.tagLen > 32 then InvalidParam
      else if |f.exts| > 216 || size < 39 + |f.exts| then BufferTooSmall
      else if !Sendable(f.header) then InvalidParam
      else if size < 41 + |f.exts| + |f.payload| + p.tagLen then BufferTooSmall
      else if |Tag(f, key, p)| != p.tagLen then InvalidFrame else Ok
  {
    if |f.exts| <= 216 {
      WireValid(f, |f.exts| + 15, FLAG_AUTHENTICATED);
    }
    hide Valid, WireHeader, Sendable, Tag;
  }

  /** `s` is what is signed of a frame `b` whose header and extensions take `n` bytes. */
  predicate SignedPart(b: Bytes, n: nat, s: Bytes) {
    && 24 <= n == |s| <= |b| && s[6] == 0 && s[22] == 0 && s[23] == 0
    && forall i :: 0 <= i < n && i != 6 && i != 22 && i != 23 ==> s[i] == b[i]
  }

  /** The tag is the provider's signature, under the key, of the frame's signed part and its payload. */
  lemma TagSigns(f: Frame, key: u32, p: Provider, size: nat) returns (signed: Bytes)
    requires SerializeAuthStatus(f, key, p, size) == Ok
    ensures SignedPart(AuthFrame(f, key, p), 39 + |f.exts|, signed)
    ensures var b, at := AuthFrame(f, key, p), 39 + |f.exts| + |f.payload|;
      |b| == at + p.tagLen + 2 && b[at..at + p.tagLen] == p.sign(key, signed, f.payload)
  {
    var h, exts, tag := AuthHeader(f), AuthExts(f, key, p.tagLen), Tag(f, key, p);
    var b := AuthFrame(f, key, p);
    AuthExtsLength(f, key, p.tagLen);
    JoinedParts(h, exts, f.payload, tag, b);
    var aad := Aad(f, key, p.tagLen);
    signed := Canonical(aad);
    RawStarts(h);
    Layout.SignedForm(aad);
    assert aad == b[..39 + |f.exts|] by {
      FrontOf(b, EncodeHeader(h), exts);
    }
    TagIs(f, key, p);
    hide Canonical, AuthExts, EncodeHeader, AuthHeader, AuthFrame, Tag, Aad, SerializeAuthStatus;
  }

  lemma TagIs(f: Frame, key: u32, p: Provider)
    requires p.tagLen < 256 && 39 + |f.exts| < 256
    ensures Tag(f, key, p) == p.sign(key, Canonical(Aad(f, key, p.tagLen)), f.payload)
  {
  }

  lemma FrontOf(b: Bytes, h: Bytes, exts: Bytes)
    requires |h| == 24 && |b| >= 24 + |exts| && b[..24] == h && b[24..24 + |exts|] == exts
    ensures h + exts == b[..24 + |exts|]
  {
    assert b[..24 + |exts|] == b[..24] + b[24..24 + |exts|];
  }

  lemma RawStarts(h: Header)
    ensures EncodeHeader(h)[0] == 0xA5 && EncodeHeader(h)[1] == 0x5A
  {
    Layout.HeaderLayout(h);
    hide EncodeHeader, Layout.Little, Layout.Word, Crc.Divide;
  }

  /**
   * A received frame verifies exactly when the tag length is 1 to 32, the frame has
   * room for just that tag, and the provider takes it for the signature of the
   * frame's signed part and payload.
   */
  lemma VerifyAnswer(b: Bytes, key: u32, p: Provider) returns (signed: Bytes)
    requires |b| >= 26 && DecodeHeader(b).Decoded? && HeaderLen(b) <= |b|
    ensures SignedPart(b, HeaderLen(b), signed)
    ensures var at := HeaderLen(b) + HeaderOf(b).payloadLen; var r := Verify(b, key, p);
      if p.tagLen < 1 || p.tagLen > 32 then r == (InvalidParam, false)
      else if |b| != at + p.tagLen + 2 then r == (InvalidFrame, false)
      else r == (Ok, p.verify(key, signed, b[HeaderLen(b)..at], b[at..at + p.tagLen]))
  {
    hide Canonical, DecodeHeader, HeaderOf, HeaderLen, Verify, SignedPart;
    DecodedIsLong(b);
    var n := HeaderLen(b);
    signed := Canonical(b[..n]);
    CanonicalSigns(b, n);
    VerifyIs(b, n, HeaderOf(b).payloadLen, key, p);
  }

  lemma CanonicalSigns(b: Bytes, n: nat)
    requires 24 <= n <= |b| && b[0] == 0xA5 && b[1] == 0x5A
    ensures SignedPart(b, n, Canonical(b[..n]))
  {
    Layout.SignedForm(b[..n]);
    hide Canonical;
  }

  lemma VerifyIs(b: Bytes, n: nat, len: nat, key: u32, p: Provider)
    requires |b| >= 26 && n <= |b| && HeaderLen(b) == n && HeaderOf(b).payloadLen == len
    ensures var at := n + len; var r := Verify(b, key, p);
      if p.tagLen < 1 || p.tagLen > 32 then r == (InvalidParam, false)
      else if |b| != at + p.tagLen + 2 then r == (InvalidFrame, false)
      else r == (Ok, p.verify(key, Canonical(b[..n]), b[n..at], b[at..at + p.tagLen]))
  {
    hide Canonical, HeaderOf;
  }

  // ---- Decoders ----

  /** The checks on a header, in their order. */
  lemma HeaderAnswer(b: Bytes)
    ensures DecodeHeader(b).Bad? ==> DecodeHeader(b) == Bad(
      if |b| < 24 then BufferTooSmall
      else if b[0] != 0xA5 || b[1] != 0x5A then InvalidFrame
      else if Layout.Word(b[22], b[23]) != Crc.Divide(0xFFFF, b[..22] + [0, 0]) then CrcFailed
      else InvalidFrame)
    ensures DecodeHeader(b).Decoded? <==>
      && |b| >= 24 && b[0] == 0xA5 && b[1] == 0x5A
      && Layout.Word(b[22], b[23]) == Crc.Divide(0xFFFF, b[..22] + [0, 0])
      && b[2] == 2 && b[3] as int >= 24 && 1 <= b[4] as int <= 7 && Layout.Little(b[8..10]) > 0 && Layout.Little(b[10..12]) > 0
    ensures DecodeHeader(b).Decoded? ==>
      var h := DecodeHeader(b).header;
      && h.version == b[2] && h.headerLen == b[3] && h.packetType == b[4] && h.flags == b[5] && h.ttl == b[6] && h.trafficClass == b[7]
      && h.source == Layout.Little(b[8..10]) && h.target == Layout.Little(b[10..12]) && h.connection == Layout.Little(b[12..16])
      && h.packetNumber == Layout.Little(b[16..20]) && h.payloadLen == Layout.Little(b[20..22])
  {
    if |b| >= 24 {
      ReadsFields(b);
      Layout.ValidIs(Fields(b));
      TrailerIs(Crc.Divide(0xFFFF, b[..22] + [0, 0]), b[22], b[23]);
      assert b[22..24] == [b[22], b[23]];
      assert HeaderCrc(b[..22]) == Crc.Divide(0xFFFF, b[..22] + [0, 0]);
      hide Valid, Fields, HeaderCrc, Crc.Divide, Crc.Trailer, Layout.Word, Layout.Little;
    }
  }

  lemma TrailerIs(c: bv16, low: byte, high: byte)
    ensures Crc.Trailer(c) == [low, high] <==> Layout.Word(low, high) == c
  {
    Layout.TrailerLayout(c);
    TrailerOfWord(low, high);
    hide Crc.Trailer, Layout.Word;
  }

  lemma TrailerOfWord(low: byte, high: byte)
    ensures Crc.Trailer(Layout.Word(low, high)) == [low, high]
  {
  }

  lemma ReadsFields(b: Bytes)
    requires |b| >= 24
    ensures var h := Fields(b);
      && h.version == b[2] && h.headerLen == b[3] && h.packetType == b[4] && h.flags == b[5] && h.ttl == b[6] && h.trafficClass == b[7]
      && h.source == Layout.Little(b[8..10]) && h.target == Layout.Little(b[10..12]) && h.connection == Layout.Little(b[12..16])
      && h.packetNumber == Layout.Little(b[16..20]) && h.payloadLen == Layout.Little(b[20..22])
  {
    Layout.Get16IsLittle(b[8..10]);
    Layout.Get16IsLittle(b[10..12]);
    Layout.Get32IsLittle(b[12..16]);
    Layout.Get32IsLittle(b[16..20]);
    Layout.Get16IsLittle(b[20..22]);
    hide Get16, Get32, Layout.Little;
  }

  /** The extensions of a frame are a well-formed list the data link takes. */
  predicate ExtsTaken(exts: Bytes, authRequired: bool, key: u32) {
    && ParseExts(exts).Some? && TagLen(ParseExts(exts).value, 0).Some?
    && SessionsOk(ParseExts(exts).value) && KeysOk(ParseExts(exts).value, authRequired, key)
  }

  predicate HasSecurity(es: seq<Ext>) {
    exists e :: e in es && e.kind == 5
  }

  /**
   * The data link's checks, in their order: 26 to 2048 bytes, the two magic bytes,
   * the header, the extensions, the checksum, the total length. A checksum that
   * fails and a header that does not decode are one answer, everything else another.
   */
  lemma DataLinkAnswer(b: Bytes, authRequired: bool, key: u32)
    requires HasItsHeader(b)
    ensures var r := DecodeRx(b, authRequired, key);
      if |b| < 26 || |b| > 2048 || b[0] != 0xA5 || b[1] != 0x5A then r == RxBad(InvalidFrame)
      else if DecodeHeader(b).Bad? then r == RxBad(CrcFailed)
      else
        && 24 <= HeaderLen(b) <= |b|
        && var exts := b[24..HeaderLen(b)];
           if !ExtsTaken(exts, authRequired, key) then r == RxBad(InvalidFrame)
           else if !Crc.Intact(b) then r == RxBad(CrcFailed)
           else if |b| != HeaderLen(b) + HeaderOf(b).payloadLen + TagLen(ParseExts(exts).value, 0).value + 2 then r == RxBad(InvalidFrame)
           else r.RxOk?
    ensures DecodeRx(b, authRequired, key).RxOk? ==>
      24 <= HeaderLen(b) <= |b| && ExtsTaken(b[24..HeaderLen(b)], authRequired, key)
      && MetadataOf(b, ParseExts(b[24..HeaderLen(b)]).value, DecodeRx(b, authRequired, key).metadata)
  {
    if |b| >= 24 && DecodeHeader(b).Decoded? {
      DecodedIsLong(b);
      var exts := b[24..HeaderLen(b)];
      ScanIff(exts, NO_SCAN, authRequired, key);
      if ScanExts(exts, NO_SCAN, authRequired, key).Some? {
        FindsSecurity(exts, NO_SCAN, authRequired, key);
      }
      hide DecodeHeader, ParseExts, ScanExts, Crc.Intact, TagLen, SessionsOk, KeysOk, KeyOf, EpochOf, Fields, HasSecurity;
    }
  }

  /**
   * The tag length a list of extensions announces, and the key it names, read from
   * its end: the last security extension wins, one with a wrong size or a tag length
   * of 0 spoils the list, and any other extension says nothing.
   */
  lemma {:induction false} TagAnswer(es: seq<Ext>, e: Ext, tag: nat, key: u32)
    ensures TagLen([], tag) == Some(tag) && KeyOf([], key) == key
    ensures TagLen(es + [e], tag) ==
      if TagLen(es, tag).None? || (e.kind == 5 && (|e.value| != 13 || e.value[12] == 0)) then None
      else if e.kind == 5 then Some(e.value[12] as int)
      else TagLen(es, tag)
    ensures TagLen(es + [e], tag).Some? ==>
      KeyOf(es + [e], key) == if e.kind == 5 then Layout.Little(e.value[..4]) else KeyOf(es, key)
  {
    Layout.SecurityReads(e);
    hide SecurityTag, SecurityKey, Layout.Little;
    if es == [] {
      assert es + [e] == [e] && [e][1..] == [];
    } else {
      var x := es[0];
      Layout.SecurityReads(x);
      assert (es + [e])[1..] == es[1..] + [e] && (es + [e])[0] == x;
      if x.kind == EXT_SECURITY && SecurityTag(x).Some? {
        TagAnswer(es[1..], e, SecurityTag(x).value, SecurityKey(x));
      } else {
        TagAnswer(es[1..], e, tag, key);
      }
    }
  }

  /**
   * The parser takes a whole frame for one exactly when its header decodes, its
   * extensions are well formed and, for a signed frame that has any, announce a tag,
   * the lengths add up, and the checksum is right.
   */
  lemma AcceptsAnswer(b: Bytes)
    ensures Accepts(b) <==>
      && |b| >= 24 && DecodeHeader(b).Decoded? && 24 <= HeaderLen(b) <= |b| && Crc.Intact(b)
      && var exts := b[24..HeaderLen(b)];
         && ParseExts(exts).Some? && TagLen(ParseExts(exts).value, 0).Some?
         && var tag := TagLen(ParseExts(exts).value, 0).value;
            (exts != [] && HeaderOf(b).flags & 0x10 != 0 ==> tag > 0) && |b| == HeaderLen(b) + HeaderOf(b).payloadLen + tag + 2
  {
    if |b| >= 24 && DecodeHeader(b).Decoded? {
      DecodedIsLong(b);
      TagWithoutExts(HeaderOf(b));
      hide DecodeHeader, ParseExts, Crc.Intact, TagLen, Fields;
    }
  }

  /** What the data link tells the layers above about a frame: the signed ones, and those that carry a tag, are to be verified. */
  predicate MetadataOf(b: Bytes, es: seq<Ext>, m: Metadata)
    requires |b| >= 24
  {
    && m.header == HeaderOf(b) && m.payloadLen == HeaderOf(b).payloadLen
    && m.authenticated == (HeaderOf(b).flags & 0x10 != 0) && m.shouldVerify == (m.authenticated || HasSecurity(es))
    && Some(m.scan.tagLen) == TagLen(es, 0) && m.scan.key == KeyOf(es, 0) && m.scan.epoch == EpochOf(es, 0)
    && m.scan.hasSecurity == HasSecurity(es)
  }

  lemma {:induction false} FindsSecurity(b: Bytes, s: Scan, authRequired: bool, key: u32)
    requires ScanExts(b, s, authRequired, key).Some?
    ensures ParseExts(b).Some? && ScanExts(b, s, authRequired, key).value.hasSecurity == (s.hasSecurity || HasSecurity(ParseExts(b).value))
    decreases |b|
  {
    hide FirstExt;
    if b != [] {
      var (e, rest) := FirstExt(b).value;
      FindsSecurity(rest, ScanExt(e, s, authRequired, key).value, authRequired, key);
      SecurityCons(e, ParseExts(rest).value);
      hide HasSecurity, SecurityTag, SecurityKey;
    }
  }

  lemma SecurityCons(e: Ext, es: seq<Ext>)
    ensures HasSecurity([e] + es) <==> e.kind == 5 || HasSecurity(es)
  {
    if HasSecurity(es) {
      var x :| x in es && x.kind == 5;
      assert x in [e] + es;
    }
    if e.kind == 5 {
      assert e in [e] + es;
    }
  }

  // ---- ACK and SACK values ----

  /** An ACK value is refused for its length before it is refused for its number of ranges. */
  lemma AckReadAnswer(b: Bytes, capacity: nat)
    ensures var r := AckCodec.DecodeAck(b, capacity);
      if |b| < 9 || |b| != 9 + 4 * b[8] as int then r == AckCodec.AckBad(InvalidFrame)
      else if b[8] as int > capacity then r == AckCodec.AckBad(BufferTooSmall)
      else && r.AckDecoded? && r.value.largest == Layout.Little(b[..4]) && r.value.delay == Layout.Little(b[4..8])
           && |r.value.ranges| == b[8] as int
           && forall k :: 0 <= k < |r.value.ranges| ==> Layout.RangeAtIs(b, k, r.value.ranges[k])
  {
    if |b| >= 9 {
      Layout.LenInt(b[8]);
      Layout.Get32IsLittle(b[..4]);
      Layout.Get32IsLittle(b[4..8]);
      hide Len, Get32, Layout.Little, Layout.RangeAtIs, AckCodec.RangeAt;
      forall k: nat | 4 * k + 4 <= |b| - 9 ensures Layout.RangeAtIs(b, k, AckCodec.RangeAt(b[9..], k)) {
        RangeRead(b, k);
      }
    }
  }

  lemma RangeRead(b: Bytes, k: nat)
    requires |b| >= 13 + 4 * k
    ensures Layout.RangeAtIs(b, k, AckCodec.RangeAt(b[9..], k))
  {
    var rest := b[9..];
    Layout.Get16IsLittle(rest[4 * k..4 * k + 2]);
    Layout.Get16IsLittle(rest[4 * k + 2..4 * k + 4]);
    hide Get16, Layout.Little;
    assert rest[4 * k..4 * k + 2] == b[9 + 4 * k..11 + 4 * k] && rest[4 * k + 2..4 * k + 4] == b[11 + 4 * k..13 + 4 * k];
  }

  lemma SackReadAnswer(b: Bytes, capacity: nat)
    ensures var r := AckCodec.DecodeSack(b, capacity);
      if |b| < 5 || |b| != 5 + b[4] as int then r == AckCodec.SackBad(InvalidFrame)
      else if b[4] as int > capacity then r == AckCodec.SackBad(BufferTooSmall)
      else r.SackDecoded? && r.value.base == Layout.Little(b[..4]) && r.value.bitmap == b[5..]
  {
    if |b| >= 5 {
      Layout.LenInt(b[4]);
      Layout.Get32IsLittle(b[..4]);
      hide Len, Get32, Layout.Little;
    }
  }
}
