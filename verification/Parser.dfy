/**
 * The byte-at-a-time frame parser, and the loop that drives it: what it emits
 * from an arbitrary byte stream, and that it misses no frame.
 */
module Parser {
  import opened Base
  import opened Crc
  import opened Frame
  import opened Wire

  datatype State = Magic | InHeader | InPayload | InCrc

  datatype ParseResult = Incomplete | Complete | Error

  /** The parser as a value; `cache` is the part of the buffer in use. */
  datatype Parser = Parser(size: nat, state: State, cache: Bytes, index: nat,
                           headerLen: nat, payloadLen: nat, tagLen: nat)

  function Reset(size: nat): Parser {
    Parser(size, Magic, [], 0, 0, 0, 0)
  }

  datatype Fed = Fed(parser: Parser, result: ParseResult)

  function Step(p: Parser, b: byte): Fed {
    if |p.cache| >= p.size then Fed(Reset(p.size), Error)
    else match p.state
      case Magic =>
        if b == MAGIC_0 then Fed(p.(state := InHeader, cache := [b], index := 0), Incomplete) else Fed(p, Incomplete)
      case InHeader => FeedHeader(p.(cache := p.cache + [b]), b)
      case InPayload =>
        var q := p.(cache := p.cache + [b]);
        Fed(if |q.cache| - q.headerLen >= q.payloadLen + q.tagLen then q.(state := InCrc, index := 0) else q, Incomplete)
      case InCrc => FeedCrc(p.(cache := p.cache + [b], index := p.index + 1))
  }

  function FeedHeader(q: Parser, b: byte): Fed {
    if |q.cache| == 2 && q.cache[1] != MAGIC_1 then
      Fed(if b == MAGIC_0 then q.(cache := [b]) else Reset(q.size), Incomplete)
    else if |q.cache| < BASE_HEADER_SIZE then Fed(q, Incomplete)
    else if DecodeHeader(q.cache[..BASE_HEADER_SIZE]).Bad? then Fed(Reset(q.size), Error)
    else
      var r := q.(headerLen := HeaderLen(q.cache), payloadLen := PayloadLen(q.cache));
      if |r.cache| < r.headerLen then Fed(r, Incomplete)
      else EndHeader(r)
  }

  /** The header and its extensions are complete: check them and see whether the frame fits. */
  function EndHeader(r: Parser): Fed
    requires |r.cache| >= BASE_HEADER_SIZE
  {
    var tag := ExpectedTag(HeaderOf(r.cache), r.cache[BASE_HEADER_SIZE..]);
    if tag.None? then Fed(Reset(r.size), Error)
    else if r.headerLen + r.payloadLen + tag.value + CRC_SIZE > r.size then Fed(Reset(r.size), Error)
    else
      Fed(r.(tagLen := tag.value, state := if r.payloadLen > 0 || tag.value > 0 then InPayload else InCrc), Incomplete)
  }

  function FeedCrc(q: Parser): Fed {
    if q.index < CRC_SIZE then Fed(q, Incomplete)
    else if !Intact(q.cache) then Fed(Reset(q.size), Error)
    else Fed(q, Complete)
  }

  // ---- Prefixes of frames ----

  /** The header part of a byte string, once it is long enough to have one. */
  predicate HeaderDone(bs: Bytes) {
    |bs| >= BASE_HEADER_SIZE && |bs| >= HeaderLen(bs)
  }

  function TagOf(bs: Bytes): Option<nat>
    requires HeaderDone(bs) && HeaderLen(bs) >= BASE_HEADER_SIZE
  {
    ExpectedTag(HeaderOf(bs), bs[BASE_HEADER_SIZE..HeaderLen(bs)])
  }

  predicate GoodHeader(bs: Bytes) {
    |bs| >= BASE_HEADER_SIZE ==> DecodeHeader(bs).Decoded? && HeaderLen(bs) >= BASE_HEADER_SIZE
  }

  /** A proper prefix of a frame that fits, as far as can be told from it. */
  predicate Pending(bs: Bytes, size: nat) {
    && bs != [] && |bs| <= size && bs[0] == MAGIC_0 && (|bs| >= 2 ==> bs[1] == MAGIC_1)
    && GoodHeader(bs)
    && (HeaderDone(bs) ==>
          GoodHeader(bs) && TagOf(bs).Some? && |bs| < HeaderLen(bs) + PayloadLen(bs) + TagOf(bs).value + CRC_SIZE <= size)
  }

  /** The parser's state after reading a pending prefix. */
  function StateFor(bs: Bytes, size: nat): Parser
    requires Pending(bs, size)
  {
    if |bs| < BASE_HEADER_SIZE then Parser(size, InHeader, bs, 0, 0, 0, 0)
    else if |bs| < HeaderLen(bs) then Parser(size, InHeader, bs, 0, HeaderLen(bs), PayloadLen(bs), 0)
    else
      var body := HeaderLen(bs) + PayloadLen(bs) + TagOf(bs).value;
      Parser(size, if |bs| < body then InPayload else InCrc, bs, if |bs| < body then 0 else |bs| - body,
             HeaderLen(bs), PayloadLen(bs), TagOf(bs).value)
  }

  /** Idle, or in the middle of a frame. */
  predicate ParserOk(p: Parser) {
    && p.size >= BASE_HEADER_SIZE + CRC_SIZE
    && (p == Reset(p.size) || (Pending(p.cache, p.size) && p == StateFor(p.cache, p.size)))
  }

  lemma FieldsOfPrefix(a: Bytes, b: byte)
    requires |a| >= BASE_HEADER_SIZE
    ensures (a + [b])[..24] == a[..24]
    ensures DecodeHeader(a + [b]) == DecodeHeader(a) && HeaderOf(a + [b]) == HeaderOf(a)
  {
    SameHeader(a + [b], a);
  }

  /** Only the first 24 bytes matter to the header. */
  lemma SameHeader(a: Bytes, b: Bytes)
    requires |a| >= 24 && |b| >= 24 && a[..24] == b[..24]
    ensures DecodeHeader(a) == DecodeHeader(b) && HeaderOf(a) == HeaderOf(b)
  {
    hide Valid, HeaderCrc, Trailer, Get16, Get32;
    assert forall i :: 0 <= i < 24 ==> a[i] == a[..24][i] && b[i] == b[..24][i];
    assert a[..22] == a[..24][..22] && b[..22] == b[..24][..22];
    assert a[22..24] == a[..24][22..24] && b[22..24] == b[..24][22..24];
    assert a[8..10] == b[8..10] && a[10..12] == b[10..12] && a[12..16] == b[12..16] && a[16..20] == b[16..20]
      && a[20..22] == b[20..22];
  }

  // ---- One byte at a time ----

  /** What one byte must do to a pending prefix `bs`. */
  ghost predicate RightStep(bs: Bytes, size: nat, b: byte, r: Fed) {
    var cs := bs + [b];
    if |bs| >= size then r == Fed(Reset(size), Error)
    else if Pending(cs, size) then r == Fed(StateFor(cs, size), Incomplete)
    else if Accepts(cs) then r.result == Complete && r.parser.cache == cs && r.parser.size == size
    else if |cs| == 2 then r == Fed(if b == MAGIC_0 then StateFor([b], size) else Reset(size), Incomplete)
    else r == Fed(Reset(size), Error)
  }

  lemma NotYetAccepted(cs: Bytes)
    requires |cs| < BASE_HEADER_SIZE || |cs| <= HeaderLen(cs)
    ensures !Accepts(cs)
  {
    hide HeaderOf, ExpectedTag, DecodeHeader, Intact;
  }

  lemma StepShort(bs: Bytes, size: nat, b: byte)
    requires size >= 26 && Pending(bs, size) && |bs| + 1 < BASE_HEADER_SIZE
    ensures RightStep(bs, size, b, Step(StateFor(bs, size), b))
  {
    NotYetAccepted(bs + [b]);
    hide HeaderOf, ExpectedTag, DecodeHeader, Accepts;
  }

  /** The byte that completes the fixed header or lies in the extensions. */
  lemma StepHeader(bs: Bytes, size: nat, b: byte)
    requires size >= 26 && Pending(bs, size) && |bs| < size && |bs| + 1 >= BASE_HEADER_SIZE
    requires |bs| < BASE_HEADER_SIZE || |bs| < HeaderLen(bs)
    ensures RightStep(bs, size, b, Step(StateFor(bs, size), b))
  {
    var cs := bs + [b];
    if |bs| >= BASE_HEADER_SIZE {
      FieldsOfPrefix(bs, b);
    }
    SameHeader(cs, cs[..24]);
    if DecodeHeader(cs).Decoded? {
      DecodedIsLong(cs);
      HeaderStepDecoded(bs, size, b);
    } else {
      hide DecodeHeader, HeaderOf, ExpectedTag;
      assert !GoodHeader(cs);
      BadNotAccepted(cs);
    }
  }

  lemma BadNotAccepted(cs: Bytes)
    requires |cs| >= 24 && DecodeHeader(cs).Bad?
    ensures !Accepts(cs)
  {
  }

  lemma HeaderStepDecoded(bs: Bytes, size: nat, b: byte)
    requires size >= 26 && Pending(bs, size) && |bs| < size && |bs| + 1 >= BASE_HEADER_SIZE
    requires |bs| < BASE_HEADER_SIZE || (|bs| < HeaderLen(bs) && HeaderOf(bs + [b]) == HeaderOf(bs))
    requires DecodeHeader(bs + [b]).Decoded? && DecodeHeader((bs + [b])[..24]).Decoded?
    requires HeaderLen(bs + [b]) >= BASE_HEADER_SIZE
    ensures RightStep(bs, size, b, Step(StateFor(bs, size), b))
  {
    var cs := bs + [b];
    assert |cs| <= HeaderLen(cs) && cs[0] == MAGIC_0 && cs[1] == MAGIC_1;
    NotYetAccepted(cs);
    FeedsHeader(bs, size, b);
    hide *;
    if |cs| == HeaderLen(cs) {
      EndsHeader(cs, size);
      HeaderEnds(bs, size, b, Step(StateFor(bs, size), b));
    } else {
      HeaderWaits(bs, size, b, Step(StateFor(bs, size), b));
    }
  }

  lemma HeaderWaits(bs: Bytes, size: nat, b: byte, r: Fed)
    requires Pending(bs, size) && |bs| < size && BASE_HEADER_SIZE <= |bs| + 1 < HeaderLen(bs + [b])
    requires var cs := bs + [b];
      && cs[0] == MAGIC_0 && cs[1] == MAGIC_1 && DecodeHeader(cs).Decoded?
      && r == Fed(Parser(size, InHeader, cs, 0, HeaderLen(cs), PayloadLen(cs), 0), Incomplete)
    ensures RightStep(bs, size, b, r)
  {
    hide HeaderLen, PayloadLen, DecodeHeader, HeaderOf, ExpectedTag, Accepts;
  }

  lemma HeaderEnds(bs: Bytes, size: nat, b: byte, r: Fed)
    requires Pending(bs, size) && |bs| < size && BASE_HEADER_SIZE <= |bs| + 1 == HeaderLen(bs + [b])
    requires var cs := bs + [b];
      var t := TagOf(cs);
      && cs[0] == MAGIC_0 && cs[1] == MAGIC_1 && DecodeHeader(cs).Decoded? && !Accepts(cs)
      && r == (if t.None? || HeaderLen(cs) + PayloadLen(cs) + t.value + CRC_SIZE > size then Fed(Reset(size), Error)
               else Fed(Parser(size, if PayloadLen(cs) > 0 || t.value > 0 then InPayload else InCrc, cs, 0,
                               HeaderLen(cs), PayloadLen(cs), t.value), Incomplete))
    ensures RightStep(bs, size, b, r)
  {
    hide HeaderLen, PayloadLen, DecodeHeader, HeaderOf, ExpectedTag, Accepts;
  }

  /** With a good header, the byte either waits for more of it or ends it. */
  lemma FeedsHeader(bs: Bytes, size: nat, b: byte)
    requires size >= 26 && Pending(bs, size) && |bs| < size && |bs| + 1 >= BASE_HEADER_SIZE
    requires |bs| < BASE_HEADER_SIZE || (|bs| < HeaderLen(bs) && HeaderOf(bs + [b]) == HeaderOf(bs))
    requires DecodeHeader((bs + [b])[..24]).Decoded?
    ensures var cs := bs + [b];
      var r := Parser(size, InHeader, cs, 0, HeaderLen(cs), PayloadLen(cs), 0);
      Step(StateFor(bs, size), b) == if |cs| < HeaderLen(cs) then Fed(r, Incomplete) else EndHeader(r)
  {
    hide DecodeHeader, HeaderOf, ExpectedTag, EndHeader;
  }

  lemma EndsHeader(cs: Bytes, size: nat)
    requires |cs| >= BASE_HEADER_SIZE && |cs| == HeaderLen(cs)
    ensures cs[24..] == cs[24..HeaderLen(cs)]
    ensures var t := TagOf(cs);
      EndHeader(Parser(size, InHeader, cs, 0, HeaderLen(cs), PayloadLen(cs), 0)) ==
        if t.None? || HeaderLen(cs) + PayloadLen(cs) + t.value + CRC_SIZE > size then Fed(Reset(size), Error)
        else Fed(Parser(size, if PayloadLen(cs) > 0 || t.value > 0 then InPayload else InCrc, cs, 0,
                        HeaderLen(cs), PayloadLen(cs), t.value), Incomplete)
  {
    hide DecodeHeader, HeaderOf, ExpectedTag;
    assert cs[24..] == cs[24..HeaderLen(cs)];
  }

  lemma SameTag(bs: Bytes, b: byte)
    requires HeaderDone(bs) && HeaderLen(bs) >= BASE_HEADER_SIZE
    ensures HeaderDone(bs + [b]) && HeaderLen(bs + [b]) == HeaderLen(bs) && PayloadLen(bs + [b]) == PayloadLen(bs)
    ensures TagOf(bs + [b]) == TagOf(bs)
  {
    FieldsOfPrefix(bs, b);
    hide DecodeHeader, HeaderOf, ExpectedTag;
    assert (bs + [b])[24..HeaderLen(bs)] == bs[24..HeaderLen(bs)];
  }

  lemma StepBody(bs: Bytes, size: nat, b: byte)
    requires size >= 26 && Pending(bs, size) && HeaderDone(bs)
    ensures RightStep(bs, size, b, Step(StateFor(bs, size), b))
  {
    FieldsOfPrefix(bs, b);
    SameTag(bs, b);
    FeedsBody(bs, size, b);
    hide DecodeHeader, HeaderOf, ExpectedTag, Intact, HeaderLen, PayloadLen, Step;
    var cs := bs + [b];
    var body := HeaderLen(bs) + PayloadLen(bs) + TagOf(bs).value;
    if |cs| == body + CRC_SIZE {
      assert !Pending(cs, size);
    }
  }

  lemma FeedsBody(bs: Bytes, size: nat, b: byte)
    requires size >= 26 && Pending(bs, size) && HeaderDone(bs)
    ensures
      var cs := bs + [b];
      var h, n, t := HeaderLen(bs), PayloadLen(bs), TagOf(bs).value;
      Step(StateFor(bs, size), b) ==
        if |cs| < h + n + t then Fed(Parser(size, InPayload, cs, 0, h, n, t), Incomplete)
        else if |cs| < h + n + t + 2 then Fed(Parser(size, InCrc, cs, |cs| - (h + n + t), h, n, t), Incomplete)
        else if Intact(cs) then Fed(Parser(size, InCrc, cs, 2, h, n, t), Complete)
        else Fed(Reset(size), Error)
  {
    hide DecodeHeader, HeaderOf, ExpectedTag, Intact, HeaderLen, PayloadLen;
  }

  /** The parser does on every byte what the frame format asks for. */
  lemma FeedIsRight(bs: Bytes, size: nat, b: byte)
    requires size >= 26 && Pending(bs, size)
    ensures RightStep(bs, size, b, Step(StateFor(bs, size), b))
  {
    hide RightStep, Step, DecodeHeader, HeaderOf, ExpectedTag;
    if |bs| >= size {
      StepFull(bs, size, b);
    } else if |bs| + 1 < BASE_HEADER_SIZE {
      StepShort(bs, size, b);
    } else if HeaderDone(bs) {
      StepBody(bs, size, b);
    } else {
      StepHeader(bs, size, b);
    }
  }

  lemma StepFull(bs: Bytes, size: nat, b: byte)
    requires Pending(bs, size) && |bs| >= size
    ensures RightStep(bs, size, b, Step(StateFor(bs, size), b))
  {
  }

  /** Being idle, the parser waits for the first magic byte. */
  lemma FeedIdle(size: nat, b: byte)
    requires size >= 26
    ensures Step(Reset(size), b) == Fed(if b == MAGIC_0 then StateFor([b], size) else Reset(size), Incomplete)
    ensures b == MAGIC_0 ==> Pending([b], size)
  {
  }

  /**
   * Every step keeps the parser consistent, keeps its cache inside the buffer and
   * a suffix of what was fed, and reports a frame only if the cache is one.
   */
  lemma FeedKeeps(p: Parser, b: byte)
    requires ParserOk(p)
    ensures var r := Step(p, b);
      && r.parser.size == p.size && |r.parser.cache| <= p.size
      && (r.parser.cache == p.cache + [b] || r.parser.cache == [b] || r.parser.cache == [])
      && (r.result == Complete ==> Accepts(r.parser.cache))
      && (r.result != Complete ==> ParserOk(r.parser))
  {
    hide Step, DecodeHeader, HeaderOf, ExpectedTag, Intact, Accepts;
    OneByte(p.size);
    if p == Reset(p.size) {
      FeedIdle(p.size, b);
    } else {
      FeedIsRight(p.cache, p.size, b);
      RightKeeps(p.cache, p.size, b, Step(p, b));
    }
  }

  lemma RightKeeps(bs: Bytes, size: nat, b: byte, r: Fed)
    requires size >= 26 && Pending(bs, size) && RightStep(bs, size, b, r)
    ensures r.parser.size == size && |r.parser.cache| <= size
    ensures r.parser.cache == bs + [b] || r.parser.cache == [b] || r.parser.cache == []
    ensures if r.result == Complete then Accepts(r.parser.cache) else ParserOk(r.parser)
  {
    OneByte(size);
    StateCaches(bs + [b], size);
    hide Accepts, Pending, StateFor;
  }

  lemma StateCaches(bs: Bytes, size: nat)
    ensures Pending(bs, size) ==> StateFor(bs, size).cache == bs && StateFor(bs, size).size == size
  {
  }

  lemma OneByte(size: nat)
    requires size >= 26
    ensures Pending([MAGIC_0], size) && StateFor([MAGIC_0], size).cache == [MAGIC_0] && StateFor([MAGIC_0], size).size == size
  {
  }

  // ---- Whole streams ----

  /** What the receive loop makes of a stream: it resets the parser after every frame. */
  datatype Heard = Heard(parser: Parser, frames: seq<Bytes>, errors: nat)

  function Hear(h: Heard, b: byte): Heard {
    var r := Step(h.parser, b);
    match r.result
    case Complete => Heard(Reset(r.parser.size), h.frames + [r.parser.cache], h.errors)
    case Error => Heard(r.parser, h.frames, h.errors + 1)
    case Incomplete => Heard(r.parser, h.frames, h.errors)
  }

  function Listen(h: Heard, bs: Bytes): Heard {
    if bs == [] then h else Hear(Listen(h, bs[..|bs| - 1]), bs[|bs| - 1])
  }

  /** The frames occur in the stream in this order, without overlapping. */
  ghost predicate Embeds(frames: seq<Bytes>, bs: Bytes)
    decreases |frames|
  {
    frames == [] ||
    var last := frames[|frames| - 1];
    exists k: nat :: k + |last| <= |bs| && bs[k..k + |last|] == last && Embeds(frames[..|frames| - 1], bs[..k])
  }

  lemma EmbedsLonger(frames: seq<Bytes>, bs: Bytes, more: Bytes)
    requires Embeds(frames, bs)
    ensures Embeds(frames, bs + more)
  {
    if frames != [] {
      var last := frames[|frames| - 1];
      var k: nat :| k + |last| <= |bs| && bs[k..k + |last|] == last && Embeds(frames[..|frames| - 1], bs[..k]);
      assert (bs + more)[k..k + |last|] == last && (bs + more)[..k] == bs[..k];
    }
  }

  lemma EmbedsNext(frames: seq<Bytes>, bs: Bytes, f: Bytes)
    requires Embeds(frames, bs)
    ensures Embeds(frames + [f], bs + f)
  {
    var fs := frames + [f];
    assert fs[..|fs| - 1] == frames && (bs + f)[|bs|..|bs| + |f|] == f && (bs + f)[..|bs|] == bs;
  }

  /** The stream up to where the parser's cache begins. */
  predicate EndsWith(bs: Bytes, cache: Bytes) {
    |cache| <= |bs| && bs[|bs| - |cache|..] == cache
  }

  function Before(bs: Bytes, cache: Bytes): Bytes
    requires EndsWith(bs, cache)
  {
    bs[..|bs| - |cache|]
  }

  predicate AllAccepted(frames: seq<Bytes>, size: nat) {
    forall i :: 0 <= i < |frames| ==> Accepts(frames[i]) && |frames[i]| <= size
  }

  ghost predicate HeardOk(h: Heard, bs: Bytes) {
    && ParserOk(h.parser) && EndsWith(bs, h.parser.cache)
    && AllAccepted(h.frames, h.parser.size)
    && Embeds(h.frames, Before(bs, h.parser.cache))
  }

  lemma ResetIsOk(size: nat)
    requires size >= 26
    ensures ParserOk(Reset(size))
  {
  }

  lemma AcceptedNext(frames: seq<Bytes>, f: Bytes, size: nat)
    requires AllAccepted(frames, size) && Accepts(f) && |f| <= size
    ensures AllAccepted(frames + [f], size)
  {
    hide Accepts;
  }

  lemma OkSize(p: Parser)
    requires ParserOk(p)
    ensures p.size >= 26
  {
  }

  lemma HearKeeps(h: Heard, bs: Bytes, b: byte)
    requires HeardOk(h, bs)
    ensures HeardOk(Hear(h, b), bs + [b])
  {
    FeedKeeps(h.parser, b);
    OkSize(h.parser);
    ResetIsOk(h.parser.size);
    CacheMoves(h.frames, bs, h.parser.cache, b);
    hide Step, Accepts, Embeds, EndsWith, Before, ParserOk, AllAccepted;
    var r := Step(h.parser, b);
    if r.result == Complete {
      AcceptedNext(h.frames, r.parser.cache, h.parser.size);
    }
  }

  lemma CacheMoves(frames: seq<Bytes>, bs: Bytes, cache: Bytes, b: byte)
    requires EndsWith(bs, cache) && Embeds(frames, Before(bs, cache))
    ensures EndsWith(bs + [b], cache + [b]) && Embeds(frames, Before(bs + [b], cache + [b]))
    ensures EndsWith(bs + [b], [b]) && Embeds(frames, Before(bs + [b], [b]))
    ensures EndsWith(bs + [b], []) && Embeds(frames, Before(bs + [b], []))
    ensures Embeds(frames + [cache + [b]], Before(bs + [b], []))
    ensures Embeds(frames + [[b]], Before(bs + [b], []))
    ensures Embeds(frames + [[]], Before(bs + [b], []))
  {
    var front := Before(bs, cache);
    assert bs == front + cache && bs + [b] == front + (cache + [b]);
    assert Before(bs + [b], cache + [b]) == front && Before(bs + [b], [b]) == bs && Before(bs + [b], []) == bs + [b];
    assert bs + [b] + [] == bs + [b];
    hide Embeds;
    EmbedsLonger(frames, front, cache);
    EmbedsLonger(frames, bs, [b]);
    EmbedsNext(frames, front, cache + [b]);
    EmbedsNext(frames, bs, [b]);
    EmbedsNext(frames, bs + [b], []);
  }

  /** Whatever bytes arrive, every emitted frame is a complete one that was really in the stream. */
  lemma {:induction false} ListenIsSound(size: nat, bs: Bytes)
    requires size >= 26
    ensures HeardOk(Listen(Heard(Reset(size), [], 0), bs), bs)
  {
    hide Hear, HeardOk, ParserOk;
    var h := Heard(Reset(size), [], 0);
    if bs == [] {
      NothingHeard(size);
    } else {
      var n := |bs| - 1;
      ListenIsSound(size, bs[..n]);
      HearKeeps(Listen(h, bs[..n]), bs[..n], bs[n]);
      assert bs == bs[..n] + [bs[n]];
    }
  }

  lemma NothingHeard(size: nat)
    requires size >= 26
    ensures HeardOk(Heard(Reset(size), [], 0), [])
  {
    assert Embeds([], []);
  }

  // ---- No frame is missed ----

  lemma PrefixPending(f: Bytes, size: nat, k: nat)
    requires Accepts(f) && |f| <= size && 0 < k < |f|
    ensures Pending(f[..k], size)
  {
    DecodedIsLong(f);
    var bs := f[..k];
    if k >= BASE_HEADER_SIZE {
      assert bs[..24] == f[..24];
      SameHeader(bs, f);
      hide DecodeHeader, HeaderOf, ExpectedTag, Intact;
      if k >= HeaderLen(f) {
        assert bs[24..HeaderLen(f)] == f[24..HeaderLen(f)];
      }
    }
  }

  lemma WholeIsNotPending(f: Bytes, size: nat)
    requires Accepts(f)
    ensures !Pending(f, size)
  {
    hide DecodeHeader, HeaderOf, ExpectedTag, Intact;
  }

  lemma ListenStep(h: Heard, bs: Bytes, b: byte)
    ensures Listen(h, bs + [b]) == Hear(Listen(h, bs), b)
  {
    hide Hear;
    assert (bs + [b])[..|bs + [b]| - 1] == bs;
  }

  lemma FeedPending(bs: Bytes, size: nat, b: byte)
    requires size >= 26 && Pending(bs, size) && |bs| < size && Pending(bs + [b], size)
    ensures Step(StateFor(bs, size), b) == Fed(StateFor(bs + [b], size), Incomplete)
  {
    FeedIsRight(bs, size, b);
    hide Step, Pending, Accepts, StateFor;
  }

  lemma FeedLast(bs: Bytes, size: nat, b: byte)
    requires size >= 26 && Pending(bs, size) && |bs| < size && Accepts(bs + [b]) && !Pending(bs + [b], size)
    ensures var r := Step(StateFor(bs, size), b);
      r.result == Complete && r.parser.cache == bs + [b] && r.parser.size == size
  {
    FeedIsRight(bs, size, b);
    hide Step, Pending, Accepts, StateFor;
  }

  /** Still inside the frame, nothing is reported. */
  lemma HearsNext(h: Heard, bs: Bytes, size: nat, b: byte)
    requires size >= 26 && Pending(bs, size) && |bs| < size && Pending(bs + [b], size)
    requires Listen(h, bs) == Heard(StateFor(bs, size), h.frames, h.errors)
    ensures Listen(h, bs + [b]) == Heard(StateFor(bs + [b], size), h.frames, h.errors)
  {
    hide Step, Pending, Accepts, StateFor, Listen;
    FeedPending(bs, size, b);
    ListenStep(h, bs, b);
  }

  lemma HearsFirst(h: Heard, size: nat)
    requires size >= 26 && h.parser == Reset(size)
    ensures Pending([MAGIC_0], size) && Listen(h, [MAGIC_0]) == Heard(StateFor([MAGIC_0], size), h.frames, h.errors)
  {
    FeedIdle(size, MAGIC_0);
    hide Step, Pending, StateFor;
    assert [MAGIC_0][..0] == [];
  }

  lemma {:induction false} HearsPrefix(h: Heard, f: Bytes, size: nat, k: nat)
    requires size >= 26 && Accepts(f) && |f| <= size && 0 < k < |f| && h.parser == Reset(size)
    ensures Pending(f[..k], size)
    ensures Listen(h, f[..k]) == Heard(StateFor(f[..k], size), h.frames, h.errors)
  {
    hide Step, Pending, StateFor, Accepts, Listen;
    PrefixPending(f, size, k);
    AcceptedIsLong(f);
    if k == 1 {
      HearsFirst(h, size);
      assert f[..1] == [MAGIC_0];
    } else {
      HearsPrefix(h, f, size, k - 1);
      assert f[..k - 1] + [f[k - 1]] == f[..k];
      HearsNext(h, f[..k - 1], size, f[k - 1]);
    }
  }

  lemma AcceptedIsLong(f: Bytes)
    requires Accepts(f)
    ensures |f| >= 26 && f[0] == MAGIC_0
  {
    DecodedIsLong(f);
    hide DecodeHeader, HeaderOf, ExpectedTag, Intact;
  }

  lemma HearsLast(h: Heard, bs: Bytes, size: nat, b: byte)
    requires size >= 26 && Pending(bs, size) && |bs| < size && Accepts(bs + [b]) && !Pending(bs + [b], size)
    requires Listen(h, bs) == Heard(StateFor(bs, size), h.frames, h.errors)
    ensures Listen(h, bs + [b]) == Heard(Reset(size), h.frames + [bs + [b]], h.errors)
  {
    hide Step, Pending, Accepts, StateFor, Listen;
    FeedLast(bs, size, b);
    ListenStep(h, bs, b);
  }

  /** From idle, a frame that fits is reported exactly at its last byte, with exactly its bytes. */
  lemma HearsFrame(h: Heard, f: Bytes, size: nat)
    requires size >= 26 && Accepts(f) && |f| <= size && h.parser == Reset(size)
    ensures Listen(h, f) == Heard(Reset(size), h.frames + [f], h.errors)
    ensures forall k :: 0 < k < |f| ==> Listen(h, f[..k]).frames == h.frames && Listen(h, f[..k]).errors == h.errors
  {
    hide Pending, Accepts, StateFor, Listen;
    AcceptedIsLong(f);
    var n := |f| - 1;
    HearsPrefix(h, f, size, n);
    WholeIsNotPending(f, size);
    assert f[..n] + [f[n]] == f;
    HearsLast(h, f[..n], size, f[n]);
    forall k | 0 < k < |f| ensures Listen(h, f[..k]).frames == h.frames && Listen(h, f[..k]).errors == h.errors {
      HearsPrefix(h, f, size, k);
    }
  }

  predicate Quiet(gap: Bytes) {
    forall i :: 0 <= i < |gap| ==> gap[i] != MAGIC_0
  }

  lemma {:induction false} IgnoresGap(h: Heard, gap: Bytes, size: nat)
    requires size >= 26 && h.parser == Reset(size) && Quiet(gap)
    ensures Listen(h, gap) == h
  {
    if gap != [] {
      var n := |gap| - 1;
      IgnoresGap(h, gap[..n], size);
      FeedIdle(size, gap[n]);
      hide Step;
    }
  }

  lemma {:induction false} ListenTwice(h: Heard, a: Bytes, b: Bytes)
    ensures Listen(h, a + b) == Listen(Listen(h, a), b)
  {
    hide Hear;
    if b == [] {
      assert a + b == a;
    } else {
      var n := |b| - 1;
      ListenTwice(h, a, b[..n]);
      assert (a + b)[..|a + b| - 1] == a + b[..n] && (a + b)[|a + b| - 1] == b[n];
    }
  }

  /** A stream of frames, each preceded by noise without the first magic byte. */
  datatype Chunk = Chunk(gap: Bytes, frame: Bytes)

  function Stream(chunks: seq<Chunk>): Bytes {
    if chunks == [] then []
    else Stream(chunks[..|chunks| - 1]) + (chunks[|chunks| - 1].gap + chunks[|chunks| - 1].frame)
  }

  function FramesOf(chunks: seq<Chunk>): seq<Bytes> {
    if chunks == [] then [] else FramesOf(chunks[..|chunks| - 1]) + [chunks[|chunks| - 1].frame]
  }

  /** All of them are reported, in order, and nothing else. */
  lemma {:induction false} HearsEveryFrame(size: nat, chunks: seq<Chunk>)
    requires size >= 26
    requires forall i :: 0 <= i < |chunks| ==> Quiet(chunks[i].gap) && Accepts(chunks[i].frame) && |chunks[i].frame| <= size
    ensures Listen(Heard(Reset(size), [], 0), Stream(chunks)) == Heard(Reset(size), FramesOf(chunks), 0)
  {
    hide Hear, Accepts, Quiet;
    var h := Heard(Reset(size), [], 0);
    if chunks != [] {
      var n := |chunks| - 1;
      var c := chunks[n];
      HearsEveryFrame(size, chunks[..n]);
      var mid := Listen(h, Stream(chunks[..n]));
      ListenTwice(h, Stream(chunks[..n]), c.gap + c.frame);
      ListenTwice(mid, c.gap, c.frame);
      IgnoresGap(mid, c.gap, size);
      HearsFrame(mid, c.frame, size);
    }
  }
}
