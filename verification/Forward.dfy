/**
 * Forwarding: the hop limit is rewritten in place, and nothing a receiver or a
 * verifier looks at changes with it.
 */
module Forward {
  import opened Base
  import opened Crc
  import opened DataLink
  import opened Frame
  import opened FrameAuth
  import opened Wire

  /** The header of the next hop. */
  function NextHop(h: Header): Header {
    h.(ttl := h.ttl - 1)
  }

  function Rewritten(b: Bytes, h: Header): Bytes
    requires |b| >= BASE_HEADER_SIZE + CRC_SIZE
  {
    Seal(EncodeHeader(NextHop(h)) + b[BASE_HEADER_SIZE..|b| - CRC_SIZE])
  }

  /** Copies a frame and rewrites header and checksums in the copy. */
  method Rewrite(b: Bytes, h: Header, forward: array<byte>) returns (status: Status)
    requires |b| >= BASE_HEADER_SIZE + CRC_SIZE && forward.Length == |b|
    modifies forward
    ensures status == if Valid(NextHop(h)) then Ok else InvalidFrame
    ensures status.Ok? ==> forward[..] == Rewritten(b, h)
  {
    hide Valid, EncodeHeader, Over, Seal;
    WriteAt(forward, 0, b);
    OverFront(old(forward[..]), b);
    assert forward[..] == b;
    status := WriteHeader(forward, NextHop(h));
    if !status.Ok? {
      return InvalidFrame;
    }
    ghost var body := EncodeHeader(NextHop(h)) + b[24..|b| - 2];
    HeaderOver(b, EncodeHeader(NextHop(h)));
    var written := AppendCrc(forward, |b| - CRC_SIZE, b, body);
    SealOver(b, body);
    return Ok;
  }

  lemma HeaderOver(b: Bytes, head: Bytes)
    requires |head| == 24 && |b| >= 26
    ensures Over(b, 0, head) == Over(b, 0, head + b[24..|b| - 2])
  {
    assert b[24..] == b[24..|b| - 2] + b[|b| - 2..];
  }

  lemma SealOver(b: Bytes, body: Bytes)
    requires |b| == |body| + 2
    ensures |Seal(body)| == |b| && Over(b, 0, Seal(body)) == Seal(body)
  {
    hide Divide;
  }

  datatype Forwarded = Forwarded(frame: Bytes) | Dropped(status: Status)

  /** The forwarding decision for a frame whose header is `h`. */
  function ForwardFrame(b: Bytes, h: Header, routeMax: Option<u16>, allocOk: bool, txOk: bool): Forwarded
    requires |b| >= BASE_HEADER_SIZE + CRC_SIZE
  {
    if routeMax.None? then Dropped(RouteNotFound)
    else if Len(h.ttl) <= 1 then Dropped(TtlExpired)
    else if |b| > MAX_FRAME_SIZE || |b| > routeMax.value then Dropped(BufferTooSmall)
    else if |b| > STACK_BUFFER_SIZE && !allocOk then Dropped(NoMemory)
    else if !Valid(NextHop(h)) then Dropped(InvalidFrame)
    else if !txOk then Dropped(TxFailed)
    else Forwarded(Rewritten(b, h))
  }

  const STACK_BUFFER_SIZE := 512

  /**
   * A received frame goes on exactly if its target has a route, its hop limit is at
   * least 2, it fits the link's and the route's limit, a frame over 512 bytes finds
   * memory, and the lower layer takes it; otherwise the answer names what failed
   * first.
   */
  lemma ForwardAnswer(b: Bytes, h: Header, routeMax: Option<u16>, allocOk: bool, txOk: bool)
    requires |b| >= 26 && Valid(h)
    ensures var r := ForwardFrame(b, h, routeMax, allocOk, txOk);
      && (r.Forwarded? <==> routeMax.Some? && h.ttl > 1 && |b| <= 2048 && |b| <= routeMax.value && (|b| <= 512 || allocOk) && txOk)
      && (routeMax.None? ==> r == Dropped(RouteNotFound))
      && (routeMax.Some? && h.ttl <= 1 ==> r == Dropped(TtlExpired))
      && (routeMax.Some? && h.ttl > 1 && (|b| > 2048 || |b| > routeMax.value) ==> r == Dropped(BufferTooSmall))
      && (routeMax.Some? && h.ttl > 1 && |b| <= 2048 && |b| <= routeMax.value && |b| > 512 && !allocOk ==> r == Dropped(NoMemory))
      && (routeMax.Some? && h.ttl > 1 && |b| <= 2048 && |b| <= routeMax.value && (|b| <= 512 || allocOk) && !txOk ==> r == Dropped(TxFailed))
  {
    StillValid(h);
    TtlIs(h.ttl);
    hide Valid, Len, Rewritten;
  }

  lemma TtlIs(ttl: byte)
    ensures Len(ttl) <= 1 <==> ttl <= 1
  {
  }

  // ---- What a hop preserves ----

  lemma StillValid(h: Header)
    ensures Valid(NextHop(h)) == Valid(h)
  {
  }

  lemma RawDiffers(h: Header)
    ensures forall i :: 0 <= i < 22 && i != 6 ==> Raw(NextHop(h))[i] == Raw(h)[i]
    ensures Raw(NextHop(h))[6] == h.ttl - 1 && Raw(h)[6] == h.ttl
  {
    hide Put16, Put32;
  }

  /** Only the hop limit and the two checksums change. */
  ghost predicate OnlyHopBytes(b: Bytes, r: Bytes) {
    && |r| == |b| >= 26
    && forall i :: 0 <= i < |b| && i !in {6, 22, 23, |b| - 2, |b| - 1} ==> r[i] == b[i]
  }

  lemma RewriteChanges(b: Bytes)
    requires |b| >= 26 && DecodeHeader(b).Decoded?
    ensures var r := Rewritten(b, HeaderOf(b));
      && OnlyHopBytes(b, r) && r[6] == b[6] - 1
      && DecodeHeader(r) == Decoded(NextHop(HeaderOf(b))) && HeaderOf(r) == NextHop(HeaderOf(b))
      && Intact(r)
  {
    var h := HeaderOf(b);
    var r := Rewritten(b, h);
    var mid := b[24..|b| - 2];
    DecodesIff(b, h);
    RewrittenParts(EncodeHeader(NextHop(h)), mid, r);
    SealedIsIntact(EncodeHeader(NextHop(h)) + mid);
    StillValid(h);
    HeaderOfEncoded(r, NextHop(h));
    EncodedBytes(h);
    hide EncodeHeader, Valid, DecodeHeader, HeaderOf, Intact, Rewritten;
    HopBytes(b, r, EncodeHeader(h), EncodeHeader(NextHop(h)));
  }

  lemma RewrittenParts(head: Bytes, mid: Bytes, r: Bytes)
    requires |head| == 24 && r == Seal(head + mid)
    ensures |r| == 26 + |mid| && r[..24] == head && r[24..|r| - 2] == mid
  {
    hide Divide;
  }

  lemma EncodedBytes(h: Header)
    ensures forall i :: 0 <= i < 22 && i != 6 ==> EncodeHeader(NextHop(h))[i] == EncodeHeader(h)[i]
    ensures EncodeHeader(NextHop(h))[6] == h.ttl - 1 && EncodeHeader(h)[6] == h.ttl
  {
    RawDiffers(h);
    hide Raw, HeaderCrc, Trailer;
    var a, c := EncodeHeader(h), EncodeHeader(NextHop(h));
    assert forall i :: 0 <= i < 22 ==> a[i] == Raw(h)[i] && c[i] == Raw(NextHop(h))[i];
  }

  lemma HopBytes(b: Bytes, r: Bytes, old24: Bytes, new24: Bytes)
    requires |r| == |b| >= 26 && |old24| == |new24| == 24
    requires b[..24] == old24 && r[..24] == new24 && r[24..|r| - 2] == b[24..|b| - 2]
    requires forall i :: 0 <= i < 22 && i != 6 ==> new24[i] == old24[i]
    requires new24[6] == old24[6] - 1
    ensures OnlyHopBytes(b, r) && r[6] == b[6] - 1
  {
    forall i | 0 <= i < |b| && i !in {6, 22, 23, |b| - 2, |b| - 1} ensures r[i] == b[i] {
      if i < 24 {
        assert b[i] == b[..24][i] && r[i] == r[..24][i];
      } else {
        assert r[i] == r[24..|r| - 2][i - 24] && b[i] == b[24..|b| - 2][i - 24];
      }
    }
    assert b[6] == b[..24][6] && r[6] == r[..24][6];
  }

  /** The signed form of any header prefix is the same. */
  lemma SameAad(b: Bytes, r: Bytes, n: nat)
    requires OnlyHopBytes(b, r) && 24 <= n <= |b| - 2 && b[0] == MAGIC_0 && b[1] == MAGIC_1
    ensures Canonical(r[..n]) == Canonical(b[..n])
    ensures r[n..|r| - 2] == b[n..|b| - 2]
  {
    var x, y := Canonical(b[..n]), Canonical(r[..n]);
    assert r[0] == b[0] && r[1] == b[1];
    forall i | 0 <= i < n ensures x[i] == y[i] {
    }
  }

  /**
   * One hop: the header is the same but for the hop limit, the signed bytes, the
   * payload and the tag are untouched, so parser, data link and verifier all give
   * the verdict they would have given before.
   */
  lemma HopPreserves(b: Bytes, key: u32, p: Provider)
    requires Accepts(b)
    ensures |b| >= 26 && HeaderLen(b) >= 24
    ensures var r := Rewritten(b, HeaderOf(b));
      && Accepts(r) && HeaderOf(r) == NextHop(HeaderOf(b)) && |r| == |b| && HeaderLen(r) == HeaderLen(b)
      && Canonical(r[..HeaderLen(b)]) == Canonical(b[..HeaderLen(b)])
      && r[HeaderLen(b)..|b| - 2] == b[HeaderLen(b)..|b| - 2]
      && Verify(r, key, p) == Verify(b, key, p)
  {
    DecodedIsLong(b);
    var r := Rewritten(b, HeaderOf(b));
    RewriteChanges(b);
    SameAad(b, r, HeaderLen(b));
    SameExts(b, r);
    SameTagExpected(HeaderOf(b), b[24..HeaderLen(b)]);
    hide DecodeHeader, HeaderOf, ExpectedTag, Intact, Canonical, Rewritten, OnlyHopBytes;
    VerifySame(b, r, key, p);
  }

  lemma SameExts(b: Bytes, r: Bytes)
    requires OnlyHopBytes(b, r) && 24 <= HeaderLen(b) <= |b| - 2
    ensures r[24..HeaderLen(b)] == b[24..HeaderLen(b)]
  {
    hide HeaderOf;
  }

  lemma SameTagExpected(h: Header, exts: Bytes)
    ensures ExpectedTag(NextHop(h), exts) == ExpectedTag(h, exts)
  {
    hide ParseExts, TagLen;
  }

  lemma VerifySame(b: Bytes, r: Bytes, key: u32, p: Provider)
    requires |r| == |b| >= 26 && HeaderLen(r) == HeaderLen(b) <= |b| && PayloadLen(r) == PayloadLen(b)
    requires Canonical(r[..HeaderLen(b)]) == Canonical(b[..HeaderLen(b)])
    requires HeaderLen(b) <= |b| - 2 && r[HeaderLen(b)..|b| - 2] == b[HeaderLen(b)..|b| - 2]
    ensures Verify(r, key, p) == Verify(b, key, p)
  {
    hide HeaderOf, HeaderLen, PayloadLen, Canonical;
    var n, o := HeaderLen(b), HeaderLen(b) + PayloadLen(b);
    if o <= |b| - 2 {
      assert r[n..o] == r[n..|b| - 2][..o - n] && b[n..o] == b[n..|b| - 2][..o - n];
      assert r[o..|b| - 2] == r[n..|b| - 2][o - n..] && b[o..|b| - 2] == b[n..|b| - 2][o - n..];
    }
  }

  // ---- Any number of hops ----

  /** The frame after `k` forwards over routes that take any frame; None if a node drops it. */
  function AfterHops(b: Bytes, k: nat): Option<Bytes> {
    if k == 0 then Some(b)
    else match AfterHops(b, k - 1)
      case None => None
      case Some(c) =>
        if |c| < BASE_HEADER_SIZE + CRC_SIZE then None
        else match ForwardFrame(c, HeaderOf(c), Some(0xFFFF), true, true)
          case Dropped(_) => None
          case Forwarded(r) => Some(r)
  }

  /** What the receiver of `c` sees of the frame `b` that was sent. */
  ghost predicate SameButTtl(b: Bytes, c: Bytes, hops: nat, key: u32, p: Provider)
    requires Accepts(b)
  {
    && Accepts(c) && |c| == |b| && HeaderLen(c) == HeaderLen(b)
    && HeaderOf(c) == HeaderOf(b).(ttl := HeaderOf(c).ttl) && Len(HeaderOf(c).ttl) + hops == Len(HeaderOf(b).ttl)
    && Canonical(c[..HeaderLen(b)]) == Canonical(b[..HeaderLen(b)])
    && |b| >= 26 && Verify(c, key, p) == Verify(b, key, p)
    && HeaderLen(b) <= |b| - 2 && c[HeaderLen(b)..|b| - 2] == b[HeaderLen(b)..|b| - 2]
  }

  lemma PreviousByte(b: byte)
    requires Len(b) > 0
    ensures Len(b - 1) == Len(b) - 1
  {
    BelowIs(b);
    NextByte(b - 1);
  }

  lemma BelowIs(b: byte)
    requires b as int > 0
    ensures (b - 1) + 1 == b && (b - 1) as int < 255
  {
  }

  lemma AcceptedIsForwarded(c: Bytes)
    requires Accepts(c) && |c| <= MAX_FRAME_SIZE
    ensures |c| >= 26
    ensures ForwardFrame(c, HeaderOf(c), Some(0xFFFF), true, true) ==
      if Len(HeaderOf(c).ttl) <= 1 then Dropped(TtlExpired) else Forwarded(Rewritten(c, HeaderOf(c)))
  {
    DecodedIsLong(c);
    DecodesIff(c, HeaderOf(c));
    StillValid(HeaderOf(c));
    hide EncodeHeader, Valid, HeaderOf, Rewritten, ExpectedTag, Intact;
  }

  lemma OneMoreHop(b: Bytes, c: Bytes, hops: nat, key: u32, p: Provider)
    requires Accepts(b) && SameButTtl(b, c, hops, key, p) && Len(HeaderOf(c).ttl) > 1
    ensures |c| >= 26 && SameButTtl(b, Rewritten(c, HeaderOf(c)), hops + 1, key, p)
  {
    HopPreserves(c, key, p);
    PreviousByte(HeaderOf(c).ttl);
    HeaderLenSame(b, c);
    hide Accepts, Rewritten, HeaderOf, Verify, Canonical, Len, HeaderLen;
  }

  lemma HeaderLenSame(b: Bytes, c: Bytes)
    requires |b| >= 24 && |c| >= 24 && HeaderOf(c) == HeaderOf(b).(ttl := HeaderOf(c).ttl)
    ensures HeaderLen(b) == HeaderLen(c)
  {
    hide HeaderOf;
  }

  lemma HopsStep(b: Bytes, k: nat, c: Bytes)
    requires AfterHops(b, k) == Some(c) && Accepts(c) && |c| <= MAX_FRAME_SIZE
    ensures |c| >= 26
    ensures AfterHops(b, k + 1) == if Len(HeaderOf(c).ttl) <= 1 then None else Some(Rewritten(c, HeaderOf(c)))
  {
    AcceptedIsForwarded(c);
    hide Accepts, ForwardFrame, Rewritten, HeaderOf, Len;
  }

  lemma NoHops(b: Bytes, key: u32, p: Provider)
    requires Accepts(b)
    ensures SameButTtl(b, b, 0, key, p)
  {
    AcceptedIsLong(b);
    hide Accepts, HeaderOf, Verify, Canonical, Len;
  }

  lemma AcceptedIsLong(b: Bytes)
    requires Accepts(b)
    ensures |b| >= 26
  {
    DecodedIsLong(b);
    hide HeaderOf, ExpectedTag, Intact;
  }

  /**
   * A frame is forwarded at most `ttl - 1` times, whatever loops its routes make,
   * and until then every hop leaves it as it was but for the hop limit.
   */
  lemma {:induction false} HopsExactly(b: Bytes, k: nat, key: u32, p: Provider)
    requires Accepts(b) && |b| <= MAX_FRAME_SIZE
    ensures |b| >= 26 && (AfterHops(b, k).Some? <==> k == 0 || k < Len(HeaderOf(b).ttl))
    ensures AfterHops(b, k).Some? ==> SameButTtl(b, AfterHops(b, k).value, k, key, p)
  {
    hide Accepts, Rewritten, HeaderOf, Verify, Canonical, Len, HeaderLen;
    NoHops(b, key, p);
    if k > 0 {
      HopsExactly(b, k - 1, key, p);
      if AfterHops(b, k - 1).Some? {
        var c := AfterHops(b, k - 1).value;
        HopsStep(b, k - 1, c);
        if Len(HeaderOf(c).ttl) > 1 {
          OneMoreHop(b, c, k - 1, key, p);
        }
      }
    }
  }
}
