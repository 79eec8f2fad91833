/**
 * A frame's whole journey: serialized, forwarded, received byte by byte behind
 * line noise, decoded a second time by the data link, verified.
 */
module EndToEnd {
  import opened Base
  import opened Wire
  import opened Frame
  import opened FrameAuth
  import opened Parser
  import opened DataLink
  import opened Forward
  import Crc
  import Fragmentation
  import Layout

  /** What the receiver's parser reports for one frame behind some noise. */
  ghost predicate HeardAlone(gap: Bytes, b: Bytes, size: nat) {
    Listen(Heard(Reset(size), [], 0), gap + b) == Heard(Reset(size), [b], 0)
  }

  lemma HearsOne(gap: Bytes, b: Bytes, size: nat)
    requires Quiet(gap) && Accepts(b) && 26 <= |b| <= size
    ensures HeardAlone(gap, b, size)
  {
    hide Accepts, Quiet, Listen;
    var h := Heard(Reset(size), [], 0);
    ListenTwice(h, gap, b);
    IgnoresGap(h, gap, size);
    HearsFrame(h, b, size);
    assert h.frames + [b] == [b];
  }

  /** The parts of a sealed frame whose header states its lengths. */
  lemma SealedParts(h: Header, exts: Bytes, payload: Bytes, tag: Bytes, b: Bytes)
    requires Valid(h) && Len(h.headerLen) == 24 + |exts| && h.payloadLen == |payload|
    requires b == Seal(Joined(h, exts, payload, tag))
    ensures |b| == 26 + |exts| + |payload| + |tag| && HeaderOf(b) == h
    ensures HeaderLen(b) == 24 + |exts| && PayloadLen(b) == |payload|
    ensures b[24..HeaderLen(b)] == exts && b[HeaderLen(b)..HeaderLen(b) + |payload|] == payload
  {
    hide EncodeHeader, Valid, Seal, Joined, HeaderOf, Len;
    JoinedParts(h, exts, payload, tag, b);
    HeaderOfEncoded(b, h);
  }

  lemma BodyParts(f: Frame, n: nat)
    requires SerializeStatus(f, n) == Ok && |f.payload| < TWO_16
    ensures var b := Seal(Body(f));
      && |b| == 26 + |f.exts| + |f.payload|
      && HeaderOf(b) == WireHeader(f, |f.exts|, 0) && HeaderLen(b) == 24 + |f.exts| && PayloadLen(b) == |f.payload|
      && b[24..HeaderLen(b)] == f.exts && b[HeaderLen(b)..HeaderLen(b) + PayloadLen(b)] == f.payload
  {
    var h, b := WireHeader(f, |f.exts|, 0), Seal(Body(f));
    BodyIsJoined(f);
    WireHeaderLengths(f, |f.exts|, 0);
    hide Valid, Seal, Body, WireHeader, HeaderOf, Len, Joined, HeaderLen, PayloadLen;
    SealedParts(h, f.exts, f.payload, [], b);
  }

  /**
   * `h` is the caller's header on the wire: the caller's addresses, numbers, type,
   * class and hop limit, and of the frame's own only the version, the two lengths
   * and the flags for extensions and authentication.
   */
  predicate AsAsked(h: Header, f: Frame, extLen: nat, signed: bool) {
    && h.packetType == f.header.packetType && h.ttl == f.header.ttl && h.trafficClass == f.header.trafficClass
    && h.source == f.header.source && h.target == f.header.target
    && h.connection == f.header.connection && h.packetNumber == f.header.packetNumber
    && h.version == 2 && h.headerLen as int == 24 + extLen && h.payloadLen == |f.payload|
    && h.flags == f.header.flags | (if extLen > 0 then 0x02 else 0) | (if signed then 0x10 else 0)
  }

  lemma WireHeaderAsAsked(f: Frame)
    requires 24 + |f.exts| < 256 && |f.payload| < TWO_16
    ensures AsAsked(WireHeader(f, |f.exts|, 0), f, |f.exts|, false)
  {
    Layout.LengthByte(24 + |f.exts|);
  }

  lemma AuthHeaderAsAsked(f: Frame)
    requires 24 + |f.exts| + 15 < 256 && |f.payload| < TWO_16
    ensures AsAsked(AuthHeader(f), f, |f.exts| + 15, true)
  {
    Layout.LengthByte(24 + |f.exts| + 15);
    FlagOrder(f.header.flags);
  }

  lemma FlagOrder(flags: byte)
    ensures flags | FLAG_AUTHENTICATED | FLAG_HAS_EXTENSIONS == flags | 0x02 | 0x10
  {
  }

  lemma BodyIsJoined(f: Frame)
    requires BASE_HEADER_SIZE + |f.exts| < 256
    ensures Body(f) == Joined(WireHeader(f, |f.exts|, 0), f.exts, f.payload, [])
  {
    hide EncodeHeader, WireHeader;
  }

  /**
   * A plain frame whose extensions are well formed comes out of the receiver as
   * the one frame heard, and the data link reads back its header, extensions and
   * payload.
   */
  lemma PlainFrameTravels(f: Frame, es: seq<Ext>, gap: Bytes, n: nat, size: nat, authRequired: bool, key: u32)
    requires SerializeStatus(f, n) == Ok && |f.payload| < TWO_16
    requires AllValidExts(es) && f.exts == EncodeExts(es) && TagLen(es, 0) == Some(0) && SessionsOk(es)
    requires es != [] ==> !Authenticated(WireHeader(f, |f.exts|, 0))
    requires Quiet(gap) && 26 + |f.exts| + |f.payload| <= size && 26 + |f.exts| + |f.payload| <= MAX_FRAME_SIZE
    ensures var b := Seal(Body(f));
      && HeardAlone(gap, b, size) && HasItsHeader(b) && HeaderLen(b) == 24 + |f.exts|
      && DecodeRx(b, authRequired, key).RxOk? && AsAsked(DecodeRx(b, authRequired, key).metadata.header, f, |f.exts|, false)
      && ParseExts(b[24..HeaderLen(b)]) == Some(es)
      && b[HeaderLen(b)..HeaderLen(b) + |f.payload|] == f.payload
  {
    var b := Seal(Body(f));
    ParseOfEncoded(es);
    ExpectsNoTag(WireHeader(f, |f.exts|, 0), es);
    SerializedAcceptsIff(f, n);
    BodyParts(f, n);
    WireHeaderAsAsked(f);
    hide AsAsked;
    UntaggedNamesNoKey(es, 0, authRequired, key);
    hide KeysOk, NamesKey, Accepts, Quiet, Listen, Seal, Body, WireHeader, HeaderOf, HeaderLen, DecodeRx, HeardAlone, HasItsHeader, SessionsOk, TagLen, ParseExts, EncodeExts, Authenticated;
    HearsOne(gap, b, size);
    AcceptedDecodesIff(b, authRequired, key);
  }

  /** Extensions that ask for no tag hold no security extension, so no key can be wrong. */
  lemma {:induction false} UntaggedNamesNoKey(es: seq<Ext>, tag: nat, authRequired: bool, key: u32)
    requires TagLen(es, tag) == Some(0)
    ensures tag == 0 && KeysOk(es, authRequired, key)
  {
    if es != [] {
      hide NamesKey;
      assert es == [es[0]] + es[1..];
      KeysCons(es[0], es[1..], authRequired, key);
      UntaggedNamesNoKey(es[1..], if es[0].kind == EXT_SECURITY then SecurityTag(es[0]).value else tag, authRequired, key);
      ScanOne(es[0], NO_SCAN, authRequired, key);
    }
  }

  lemma ExpectsNoTag(h: Header, es: seq<Ext>)
    requires AllValidExts(es) && TagLen(es, 0) == Some(0)
    requires es != [] ==> !Authenticated(h)
    ensures ExpectedTag(h, EncodeExts(es)) == Some(0)
  {
    ParseOfEncoded(es);
    hide ParseExts, TagLen, Authenticated;
  }

  /**
   * `c` has the header `f` asked for, the hop limit lowered by the hops, carries the
   * payload behind it, verifies, and is heard whole.
   */
  ghost predicate Arrives(f: Frame, c: Bytes, hops: nat, gap: Bytes, size: nat, key: u32, p: Provider) {
    var at := 24 + |f.exts| + SECURITY_EXT_SIZE;
    && HeardAlone(gap, c, size)
    && |c| >= 24 && AsAsked(HeaderOf(c).(ttl := f.header.ttl), f, |f.exts| + 15, true)
    && HeaderOf(c).ttl as int + hops == f.header.ttl as int
    && Accepts(c) && 26 <= |c| == at + |f.payload| + p.tagLen + 2 && HeaderLen(c) == at
    && Verify(c, key, p) == (Ok, true)
    && c[at..at + |f.payload|] == f.payload
  }

  /**
   * A data link that requires the key decodes `c`, marks it for verification and
   * names the key, exactly when the sender's own extensions allow it.
   */
  ghost predicate Decodes(c: Bytes, es: seq<Ext>, key: u32) {
    && HasItsHeader(c) && |c| >= 24
    && (DecodeRx(c, true, key).RxOk? <==> SessionsOk(es) && KeysOk(es, true, key))
    && (DecodeRx(c, true, key).RxOk? ==>
          var m := DecodeRx(c, true, key).metadata;
          m.header == HeaderOf(c) && m.scan.key == key && m.authenticated && m.shouldVerify)
  }

  /**
   * An authenticated frame, forwarded any number of times short of its hop limit,
   * is still heard whole, is decoded under the required key, verifies, and carries
   * its payload.
   */
  lemma AuthFrameTravels(f: Frame, key: u32, p: Provider, hops: nat, gap: Bytes, n: nat, size: nat)
    requires SerializeAuthStatus(f, key, p, n) == Ok && FrameAuth.Sound(p)
    requires ParseExts(f.exts).Some? && TagLen(ParseExts(f.exts).value, 0).Some?
    requires |AuthFrame(f, key, p)| <= size && |AuthFrame(f, key, p)| <= MAX_FRAME_SIZE
    requires Quiet(gap) && (hops == 0 || hops < Len(f.header.ttl))
    ensures var end := AfterHops(AuthFrame(f, key, p), hops);
      end.Some? && Arrives(f, end.value, hops, gap, size, key, p) && Decodes(end.value, ParseExts(f.exts).value, key)
  {
    var b, es := AuthFrame(f, key, p), ParseExts(f.exts).value;
    AuthFrameVerifies(f, key, p, n);
    AuthParts(f, key, p, n);
    AuthHeaderAsAsked(f);
    hide AsAsked;
    ParseAppend(f.exts, SecurityExt(key, f.header.packetNumber, p.tagLen));
    SecurityExtReads(key, f.header.packetNumber, p.tagLen);
    hide SerializeAuthStatus, Sound, Quiet, ParseExts, TagLen, AuthFrame, Accepts, Arrives, HeaderOf, HeaderLen, Verify, Len, Decodes;
    HopsArrive(f, b, hops, gap, size, key, p);
    HopsDecode(b, AuthExts(f, key, p.tagLen), es, SecurityExt(key, f.header.packetNumber, p.tagLen), hops, key, p);
  }

  lemma HopsArrive(f: Frame, b: Bytes, hops: nat, gap: Bytes, size: nat, key: u32, p: Provider)
    requires Accepts(b) && |b| <= size && |b| <= MAX_FRAME_SIZE && Quiet(gap)
    requires var at := 24 + |f.exts| + SECURITY_EXT_SIZE;
      26 <= |b| == at + |f.payload| + p.tagLen + 2 && HeaderLen(b) == at && b[at..at + |f.payload|] == f.payload
    requires Verify(b, key, p) == (Ok, true)
    requires AsAsked(HeaderOf(b), f, |f.exts| + 15, true) && (hops == 0 || hops < Len(HeaderOf(b).ttl))
    ensures var end := AfterHops(b, hops); end.Some? && Arrives(f, end.value, hops, gap, size, key, p)
  {
    hide Accepts, Quiet, HeaderOf, HeaderLen, Verify, AfterHops, HeardAlone, Canonical, Len;
    HopsExactly(b, hops, key, p);
    var c := AfterHops(b, hops).value;
    HearsOne(gap, c, size);
    Layout.LenInt(HeaderOf(b).ttl);
    Layout.LenInt(HeaderOf(c).ttl);
    SamePart(b, c, HeaderLen(b), |f.payload|, |b| - 2);
  }

  lemma SamePart(b: Bytes, c: Bytes, at: nat, n: nat, end: nat)
    requires at + n <= end <= |b| && |b| == |c| && c[at..end] == b[at..end]
    ensures c[at..at + n] == b[at..at + n]
  {
    forall i | at <= i < at + n ensures c[i] == b[i] {
      assert c[at..end][i - at] == b[at..end][i - at];
    }
  }

  /** The signed form keeps the extension bytes. */
  lemma SameExtsSigned(b: Bytes, c: Bytes)
    requires |b| >= 24 && |c| == |b| && Canonical(b) == Canonical(c)
    ensures b[24..] == c[24..]
  {
    forall i | 24 <= i < |b| ensures b[i] == c[i] {
      assert Canonical(b)[i] == b[i] && Canonical(c)[i] == c[i];
    }
  }

  lemma HopsDecode(b: Bytes, exts: Bytes, es: seq<Ext>, e: Ext, hops: nat, key: u32, p: Provider)
    requires Accepts(b) && |b| <= MAX_FRAME_SIZE && AfterHops(b, hops).Some?
    requires 24 <= HeaderLen(b) <= |b| && b[24..HeaderLen(b)] == exts && ParseExts(exts) == Some(es + [e])
    requires e.kind == EXT_SECURITY && |e.value| == SECURITY_VALUE_SIZE && SecurityKey(e) == key && KeyOf(es + [e], 0) == key
    requires Authenticated(HeaderOf(b))
    ensures Decodes(AfterHops(b, hops).value, es, key)
  {
    LastExtIsFine(es, e, key);
    hide Accepts, HeaderOf, HeaderLen, Verify, AfterHops, Canonical, Len, ParseExts, KeyOf, SecurityKey, SessionsOk, KeysOk, DecodeRx, HasItsHeader;
    HopsExactly(b, hops, key, p);
    var c := AfterHops(b, hops).value;
    var h := HeaderLen(b);
    SameExtsSigned(b[..h], c[..h]);
    assert b[24..h] == b[..h][24..] && c[24..h] == c[..h][24..];
    AcceptedDecodesIff(c, true, key);
    assert ExtsOf(c) == exts;
    if DecodeRx(c, true, key).RxOk? {
      MarkedForVerifying(c, true, key);
      SameFlags(b, c);
    }
  }

  lemma SameFlags(b: Bytes, c: Bytes)
    requires |b| >= 24 && |c| >= 24 && HeaderOf(c) == HeaderOf(b).(ttl := HeaderOf(c).ttl)
    ensures Authenticated(HeaderOf(c)) == Authenticated(HeaderOf(b))
  {
    hide HeaderOf;
  }

  lemma MarkedForVerifying(c: Bytes, authRequired: bool, key: u32)
    requires HasItsHeader(c) && DecodeRx(c, authRequired, key).RxOk?
    ensures var m := DecodeRx(c, authRequired, key).metadata;
      m.authenticated == Authenticated(HeaderOf(c)) && (m.authenticated ==> m.shouldVerify)
  {
    hide HeaderOf, ScanExts, Crc.Intact, Authenticated, DecodeHeader;
  }

  lemma LastExtIsFine(es: seq<Ext>, e: Ext, key: u32)
    requires e.kind == EXT_SECURITY && |e.value| == SECURITY_VALUE_SIZE && SecurityKey(e) == key
    ensures SessionsOk(es + [e]) <==> SessionsOk(es)
    ensures KeysOk(es + [e], true, key) <==> KeysOk(es, true, key)
  {
    hide SecurityKey;
    var all := es + [e];
    assert forall i :: 0 <= i < |es| ==> all[i] == es[i];
    assert all[|es|] == e && NamesKey(e, key);
    hide NamesKey;
  }

  lemma AuthParts(f: Frame, key: u32, p: Provider, n: nat)
    requires SerializeAuthStatus(f, key, p, n) == Ok
    ensures var b := AuthFrame(f, key, p); var at := 24 + |f.exts| + SECURITY_EXT_SIZE;
      && |b| == at + |f.payload| + p.tagLen + 2 && HeaderLen(b) == at && HeaderOf(b) == AuthHeader(f)
      && HeaderOf(b).ttl == f.header.ttl && Authenticated(HeaderOf(b))
      && b[24..at] == AuthExts(f, key, p.tagLen) && b[at..at + |f.payload|] == f.payload
  {
    var h, exts := AuthHeader(f), AuthExts(f, key, p.tagLen);
    AuthExtsLength(f, key, p.tagLen);
    WireHeaderLengths(f, |exts|, FLAG_AUTHENTICATED);
    SignedIsAuthenticated(f);
    hide Canonical, AuthExts, Valid, Seal, Len, HeaderOf, Joined, Authenticated, HeaderLen, PayloadLen;
    SealedParts(h, exts, f.payload, Tag(f, key, p), AuthFrame(f, key, p));
  }

  lemma SignedIsAuthenticated(f: Frame)
    requires BASE_HEADER_SIZE + |f.exts| + SECURITY_EXT_SIZE < 256
    ensures Authenticated(AuthHeader(f)) && AuthHeader(f).ttl == f.header.ttl
  {
    KeepsFlag(f.header.flags);
  }

  lemma KeepsFlag(flags: byte)
    ensures (flags | FLAG_AUTHENTICATED | FLAG_HAS_EXTENSIONS) & FLAG_AUTHENTICATED != 0
  {
  }

  // ---- Frame sizes ----

  /** A serialized frame is as long as the sender's size formula says. */
  lemma PlainSizeIs(f: Frame, n: nat)
    requires SerializeStatus(f, n) == Ok && |f.payload| < TWO_16
    ensures |Seal(Body(f))| == Fragmentation.SerializedSize(|f.payload|, |f.exts|, 0)
  {
    BodyParts(f, n);
    hide Seal, Body;
  }

  lemma AuthSizeIs(f: Frame, key: u32, p: Provider, n: nat)
    requires SerializeAuthStatus(f, key, p, n) == Ok
    ensures |AuthFrame(f, key, p)| == Fragmentation.SerializedSize(|f.payload|, |f.exts|, p.tagLen)
  {
    AuthParts(f, key, p, n);
    hide AuthFrame, HeaderOf, Authenticated, AuthExts;
  }

  /** So the frame of every planned piece, plain or authenticated, fits the limits the plan was made for. */
  lemma PlannedFrameFits(c: Fragmentation.Context, dataType: u8, message: Bytes, i: nat, f: Frame, key: u32, p: Provider, n: nat)
    requires message != [] && Fragmentation.BuildPlan(c, dataType, |message|).Planned?
    requires i < Fragmentation.BuildPlan(c, dataType, |message|).plan.count
    requires var plan := Fragmentation.BuildPlan(c, dataType, |message|).plan;
      && plan.budget > 0 && i < Fragmentation.Count(|message|, plan.budget)
      && f.payload == Fragmentation.Piece(message, plan.budget, i) && |f.exts| == plan.extensionsLen
    ensures c.tagLen == 0 && SerializeStatus(f, n) == Ok ==>
      |Seal(Body(f))| <= c.maxFrame && (c.routeMax.Some? ==> |Seal(Body(f))| <= c.routeMax.value)
    ensures c.tagLen == p.tagLen && SerializeAuthStatus(f, key, p, n) == Ok ==>
      |AuthFrame(f, key, p)| <= c.maxFrame && (c.routeMax.Some? ==> |AuthFrame(f, key, p)| <= c.routeMax.value)
  {
    Fragmentation.PlanFits(c, dataType, message, i);
    hide Seal, Body, AuthFrame, SerializeStatus, SerializeAuthStatus, Fragmentation.BuildPlan, Fragmentation.Piece;
    if c.tagLen == 0 && SerializeStatus(f, n) == Ok {
      PlainSizeIs(f, n);
    }
    if c.tagLen == p.tagLen && SerializeAuthStatus(f, key, p, n) == Ok {
      AuthSizeIs(f, key, p, n);
    }
  }
}
