/**
 * The cached retransmission deadline of a peer, and the time until the next one
 * that the runtime reports so that its caller may sleep.
 */
module Deadline {
  import opened Base
  import opened Reliable
  import opened Sender
  import Retry
  import Sack
  import Window
  import opened AckRanges

  /** The cast of an unsigned difference to a signed one. */
  function Signed(x: u32): int {
    if x < TWO_31 then x else x - TWO_32
  }

  /** Only packets that have been sent, with a positive timeout, have a deadline. */
  predicate Armed(e: Entry) {
    e.sentAt != 0 && e.timeout > 0
  }

  function AbsDeadline(e: Entry): u32 {
    Add32(e.sentAt, e.timeout)
  }

  /** 0 stands for "no deadline". */
  function Sooner(cache: u32, e: Entry): u32 {
    if Armed(e) && (cache == 0 || Signed(Sub32(AbsDeadline(e), cache)) < 0) then AbsDeadline(e) else cache
  }

  function Earliest(q: Queue, cache: u32): u32 {
    if q == [] then cache else Earliest(q[1..], Sooner(cache, q[0]))
  }

  /** The sender together with its cached deadline. */
  datatype Timed = Timed(tx: Tx, cache: u32)

  /** What happens to a peer; `at` is the 32-bit clock reading the code takes. */
  datatype Event =
    | Sends(i: SendInput)
    | GetsAck(largest: u32, ranges: seq<AckRange>)
    | GetsSack(base: u32, bitmap: Bytes, at: u32, fails: set<u32>)
    | Ticks(at: u32, fails: set<u32>)
    | Resets

  /** A reset empties queue and window. */
  function Cleared(tx: Tx): Tx {
    tx.(win := Window.Fresh(tx.win), queue := [])
  }

  function TxAfter(tx: Tx, ev: Event): Tx {
    match ev
    case Sends(i) => Send(tx, i).tx
    case GetsAck(largest, ranges) => OnAck(tx, largest, ranges).tx
    case GetsSack(base, bitmap, at, fails) => OnSack(tx, base, bitmap, at, fails).tx
    case Ticks(at, fails) => Tick(tx, at, fails).tx
    case Resets => Cleared(tx)
  }

  /** A SACK that names nothing, a reset, and any event that fails, leave the cache as it was. */
  predicate Recomputes(tx: Tx, ev: Event) {
    match ev
    case Sends(i) => Send(tx, i).status.Ok?
    case GetsAck(largest, ranges) => OnAck(tx, largest, ranges).status.Ok?
    case GetsSack(base, bitmap, at, fails) =>
      OnSack(tx, base, bitmap, at, fails).status.Ok? && Sack.HighestBit(bitmap).Some?
    case Ticks(_, _) => true
    case Resets => false
  }

  function Happen(s: Timed, ev: Event): Timed {
    var tx := TxAfter(s.tx, ev);
    Timed(tx, if Recomputes(s.tx, ev) then Earliest(tx.queue, 0) else s.cache)
  }

  // ---- Times behind the clock readings ----

  /** Milliseconds since the stamp, as seen at time `now`; times do not wrap, readings do. */
  function Age(stamp: u32, now: nat): u32 {
    Sub32(now, stamp)
  }

  /** The time at which `e` becomes due. */
  function DueTime(e: Entry, now: nat): int {
    now - Age(e.sentAt, now) + e.timeout
  }

  /** The time the cached reading stands for: the one nearest to `now`. */
  function CacheTime(cache: u32, now: nat): int {
    now + Signed(Sub32(cache, now))
  }

  lemma WrapShift(x: int, k: int)
    ensures Wrap32(x + TWO_32 * k) == Wrap32(x)
  {
  }

  lemma WrapSub(x: int, y: int)
    ensures Sub32(Wrap32(x), Wrap32(y)) == Wrap32(x - y) && Sub32(x, Wrap32(y)) == Wrap32(x - y)
    ensures Add32(Wrap32(x), y) == Wrap32(x + y)
  {
    var j, k := x / TWO_32, y / TWO_32;
    assert Wrap32(x) == x - TWO_32 * j && Wrap32(y) == y - TWO_32 * k;
    WrapShift(x - y, k - j);
    WrapShift(x - y, k);
    WrapShift(x + y, -j);
    hide Wrap32;
  }

  lemma SubIsWrap(x: int, y: int)
    ensures Sub32(x, y) == Wrap32(x - y)
  {
  }

  lemma SubIsAdd(t: int, x: int)
    ensures Sub32(t, x) == Add32(t, -x) == Wrap32(t + -x)
  {
  }

  lemma AddIsWrap(x: int, y: int)
    ensures Add32(x, y) == Wrap32(x + y)
  {
  }

  lemma SmallWraps(x: int)
    requires 0 <= x < TWO_32
    ensures Wrap32(x) == x
  {
  }

  lemma WrapNear(x: int)
    requires -TWO_31 <= x < TWO_31
    ensures Signed(Wrap32(x)) == x
  {
  }

  /** The absolute deadline is the reading of the due time. */
  lemma DueReading(e: Entry, now: nat)
    ensures AbsDeadline(e) == Wrap32(DueTime(e, now))
  {
    var age := Age(e.sentAt, now);
    SubIsWrap(now, e.sentAt);
    WrapSub(now + e.timeout, now - e.sentAt);
    SubIsWrap(now + e.timeout, age);
    AddIsWrap(e.sentAt, e.timeout);
    hide Wrap32, Sub32, Add32;
    assert now + e.timeout - (now - e.sentAt) == e.sentAt + e.timeout;
    assert DueTime(e, now) == now + e.timeout - age;
  }

  /** Readings compare like the times behind them, as long as those are close. */
  lemma ReadingsCompare(x: int, y: int)
    requires -TWO_31 <= x - y < TWO_31
    ensures Signed(Sub32(Wrap32(x), Wrap32(y))) == x - y
  {
    WrapSub(x, y);
    WrapNear(x - y);
  }

  // ---- Exactly when recomputing the cache finds the earliest deadline ----

  function Lower(a: Option<int>, t: int): Option<int> {
    if a.None? || t < a.value then Some(t) else a
  }

  /** The earliest due time in a queue, if any entry is armed. */
  function Least(q: Queue, now: nat): Option<int> {
    if q == [] then None
    else
      var last := q[|q| - 1];
      var rest := Least(q[..|q| - 1], now);
      if Armed(last) then Lower(rest, DueTime(last, now)) else rest
  }

  lemma {:induction false} LeastIs(q: Queue, now: nat)
    ensures forall e :: e in q && Armed(e) ==> Least(q, now).Some? && Least(q, now).value <= DueTime(e, now)
    ensures Least(q, now).Some? ==> exists e :: e in q && Armed(e) && DueTime(e, now) == Least(q, now).value
  {
    if q != [] {
      var n := |q| - 1;
      LeastIs(q[..n], now);
      assert q == q[..n] + [q[n]];
      hide Armed, DueTime;
      if Least(q, now).Some? && !(Armed(q[n]) && DueTime(q[n], now) == Least(q, now).value) {
        var e :| e in q[..n] && Armed(e) && DueTime(e, now) == Least(q[..n], now).value;
        assert e in q;
      }
    }
  }

  /** No two due times are 2^31 ms or more apart. */
  predicate Close(q: Queue, now: nat) {
    Spread(q, now, TWO_31 - 1)
  }

  predicate Spread(q: Queue, now: nat, s: int) {
    forall e, f :: e in q && f in q && Armed(e) && Armed(f) ==> DueTime(f, now) - DueTime(e, now) <= s
  }

  /** The cached reading is that of the earliest due time, and 0 only when there is none. */
  predicate CacheRight(q: Queue, now: nat, cache: u32) {
    match Least(q, now)
    case None => cache == 0
    case Some(t) => cache != 0 && cache == Wrap32(t)
  }

  /** The reading 0 stands for "no deadline", so an earliest deadline must not fall on it. */
  predicate Readable(q: Queue, now: nat) {
    match Least(q, now)
    case None => true
    case Some(t) => Wrap32(t) != 0
  }

  /** What the fold has found in `q`: the earliest due time, or a later one once it has met a reading of 0. */
  predicate Found(q: Queue, now: nat, cache: u32) {
    match Least(q, now)
    case None => cache == 0
    case Some(t) =>
      if cache == 0 then Wrap32(t) == 0
      else exists e :: e in q && Armed(e) && cache == AbsDeadline(e) && (DueTime(e, now) == t || Wrap32(t) == 0)
  }

  lemma FoundNext(q: Queue, e: Entry, now: nat, cache: u32)
    requires Found(q, now, cache) && Close(q + [e], now)
    ensures Found(q + [e], now, Sooner(cache, e))
  {
    var all := q + [e];
    assert all[..|all| - 1] == q && e in all && forall f :: f in q ==> f in all;
    DueReading(e, now);
    if Armed(e) {
      if cache != 0 {
        var f :| f in q && Armed(f) && cache == AbsDeadline(f)
          && (DueTime(f, now) == Least(q, now).value || Wrap32(Least(q, now).value) == 0);
        DueReading(f, now);
        assert f in all;
        hide DueTime, Armed, AbsDeadline, Close;
        LeastIs(q, now);
        CloseEnds(all, now, e, f);
        ReadingsCompare(DueTime(e, now), DueTime(f, now));
      }
    } else if cache != 0 {
      var f :| f in q && Armed(f) && cache == AbsDeadline(f)
        && (DueTime(f, now) == Least(q, now).value || Wrap32(Least(q, now).value) == 0);
      assert f in all;
    }
  }

  lemma CloseEnds(q: Queue, now: nat, e: Entry, f: Entry)
    requires Close(q, now) && e in q && f in q && Armed(e) && Armed(f)
    ensures -TWO_31 < DueTime(e, now) - DueTime(f, now) < TWO_31
  {
  }

  lemma {:induction false} FoundAll(p: Queue, q: Queue, now: nat, cache: u32)
    requires Found(p, now, cache) && Close(p + q, now)
    ensures Found(p + q, now, Earliest(q, cache))
    decreases |q|
  {
    if q == [] {
      assert p + q == p;
    } else {
      var p' := p + [q[0]];
      assert p' + q[1..] == p + q;
      assert forall e :: e in p' ==> e in p + q;
      FoundNext(p, q[0], now, cache);
      FoundAll(p', q[1..], now, Sooner(cache, q[0]));
    }
  }

  /**
   * With due times less than 2^31 ms apart, the recomputed cache is the earliest
   * deadline if and only if that deadline does not read 0.
   */
  lemma EarliestRightIff(q: Queue, now: nat)
    requires Close(q, now)
    ensures CacheRight(q, now, Earliest(q, 0)) <==> Readable(q, now)
  {
    assert [] + q == q;
    FoundAll([], q, now, 0);
    LeastIs(q, now);
    var c := Earliest(q, 0);
    if Least(q, now).Some? && c != 0 {
      var e :| e in q && Armed(e) && c == AbsDeadline(e)
        && (DueTime(e, now) == Least(q, now).value || Wrap32(Least(q, now).value) == 0);
      DueReading(e, now);
    }
  }

  // ---- When the cache is recomputed, and what it then is ----

  /** `t` is the earliest time at which a packet of the queue becomes due. */
  predicate IsEarliest(q: Queue, now: nat, t: int) {
    && (exists e :: e in q && e.sentAt != 0 && e.timeout > 0 && DueTime(e, now) == t)
    && forall e :: e in q && e.sentAt != 0 && e.timeout > 0 ==> t <= DueTime(e, now)
  }

  /** A reset starts the session over: nothing queued, nothing acknowledged, numbers from 0, the same window size. */
  lemma ResetAnswer(tx: Tx)
    ensures var r := TxAfter(tx, Resets);
      && r.queue == [] && r.win.base == 0 && r.win.next == 0 && r.maxRetry == tx.maxRetry
      && |r.win.acks| == |tx.win.acks| && forall p: u32 :: !Window.Acked(r.win, p)
  {
  }

  /** The events that leave the cache alone: failures, resets, and a SACK without a set bit. */
  ghost predicate Idle(tx: Tx, ev: Event) {
    match ev
    case Sends(i) => Send(tx, i).status != Ok
    case GetsAck(largest, ranges) => OnAck(tx, largest, ranges).status != Ok
    case GetsSack(base, bitmap, at, fails) =>
      OnSack(tx, base, bitmap, at, fails).status != Ok || forall k: nat :: !Sack.BitIsSet(bitmap, k)
    case Ticks(_, _) => false
    case Resets => true
  }

  /**
   * An idle event leaves the cache as it was. After any other event it is 0 when no
   * queued packet has a deadline, and otherwise the reading of the earliest one,
   * whenever that is not 0 and the due times are less than 2^31 ms apart.
   */
  lemma EventRefreshes(s: Timed, ev: Event, now: nat)
    ensures Idle(s.tx, ev) ==> Happen(s, ev).cache == s.cache
    ensures var r := Happen(s, ev);
      !Idle(s.tx, ev) && (forall e :: e in r.tx.queue ==> e.sentAt == 0 || e.timeout <= 0) ==> r.cache == 0
    ensures var r := Happen(s, ev); forall t: int | IsEarliest(r.tx.queue, now, t) ::
      !Idle(s.tx, ev) && Close(r.tx.queue, now) && Wrap32(t) != 0 ==> r.cache == Wrap32(t)
  {
    IdleIff(s.tx, ev);
    var r := Happen(s, ev);
    hide Idle, Recomputes, TxAfter, DueTime, Close;
    if !Idle(s.tx, ev) {
      NoneArmed(r.tx.queue, 0);
      forall t: int | IsEarliest(r.tx.queue, now, t) && Close(r.tx.queue, now) && Wrap32(t) != 0 ensures r.cache == Wrap32(t) {
        LeastIs(r.tx.queue, now);
        EarliestRightIff(r.tx.queue, now);
      }
    }
  }

  lemma IdleIff(tx: Tx, ev: Event)
    ensures Idle(tx, ev) <==> !Recomputes(tx, ev)
  {
    hide Sack.BitIsSet, Send, OnAck, OnSack;
    if ev.GetsSack? && Sack.HighestBit(ev.bitmap).None? {
      NoBitAtAll(ev.bitmap);
    }
  }

  lemma NoBitAtAll(bitmap: Bytes)
    requires Sack.HighestBit(bitmap).None?
    ensures forall k: nat :: !Sack.BitIsSet(bitmap, k)
  {
  }

  lemma {:induction false} NoneArmed(q: Queue, cache: u32)
    ensures (forall e :: e in q ==> e.sentAt == 0 || e.timeout <= 0) ==> Earliest(q, cache) == cache
  {
    if q != [] && forall e :: e in q ==> e.sentAt == 0 || e.timeout <= 0 {
      assert q[0] in q;
      NoneArmed(q[1..], cache);
    }
  }

  /** Two packets with the same timeout, the second stamped `gap` ms after the first, at reading 1. */
  function Pair(gap: u32): Queue
    requires 1 + gap < TWO_32
  {
    [Entry(0, [], 0, 1, 1000, 1000), Entry(1, [], 0, 1 + gap, 1000, 1000)]
  }

  lemma PairTimes(gap: u32)
    requires TWO_31 <= gap && 1 + gap + 1000 < TWO_32
    ensures var q, now := Pair(gap), 1 + gap;
      && |q| == 2
      && Armed(q[0]) && DueTime(q[0], now) == 1001 == AbsDeadline(q[0])
      && Armed(q[1]) && DueTime(q[1], now) == 1001 + gap == AbsDeadline(q[1])
      && Sooner(0, q[0]) == 1001 && Sooner(1001, q[1]) == 1001 + gap
  {
  }

  lemma LeastOfOne(a: Entry, now: nat)
    requires Armed(a)
    ensures Least([a], now) == Some(DueTime(a, now))
  {
    hide Armed, DueTime;
    assert [a][..0] == [] && Least([], now) == None;
  }

  lemma LeastOfTwo(a: Entry, b: Entry, now: nat)
    requires Armed(a) && Armed(b) && DueTime(a, now) <= DueTime(b, now)
    ensures Least([a, b], now) == Some(DueTime(a, now))
  {
    LeastOfOne(a, now);
    hide Armed, DueTime;
    assert [a, b][..1] == [a];
  }

  lemma EarliestOfTwo(a: Entry, b: Entry)
    ensures Earliest([a, b], 0) == Sooner(Sooner(0, a), b)
  {
    hide Sooner;
    assert [a, b][1..] == [b] && [b][1..] == [];
    assert Earliest([b], Sooner(0, a)) == Earliest([b][1..], Sooner(Sooner(0, a), b));
  }

  lemma SpreadOfTwo(a: Entry, b: Entry, now: nat, s: int)
    requires 0 <= DueTime(b, now) - DueTime(a, now) <= s
    ensures Spread([a, b], now, s)
  {
    hide Armed, DueTime;
  }

  lemma PairFails(gap: u32)
    requires TWO_31 <= gap && 1 + gap + 1000 < TWO_32
    ensures Spread(Pair(gap), 1 + gap, gap) && Readable(Pair(gap), 1 + gap)
    ensures Earliest(Pair(gap), 0) == 1001 + gap && !CacheRight(Pair(gap), 1 + gap, Earliest(Pair(gap), 0))
  {
    PairTimes(gap);
    var q, now := Pair(gap), 1 + gap;
    assert Wrap32(1001) == 1001;
    hide *;
    assert q == [q[0], q[1]];
    LeastOfTwo(q[0], q[1], now);
    EarliestOfTwo(q[0], q[1]);
    SpreadOfTwo(q[0], q[1], now, gap);
    WrongCache(q, now, 1001, 1001 + gap);
  }

  lemma WrongCache(q: Queue, now: nat, t: u32, cache: u32)
    requires Least(q, now) == Some(t) && 0 < t != cache
    ensures Readable(q, now) && !CacheRight(q, now, cache)
  {
    hide Least;
  }

  /** The failing input: packets stamped 1 and 0x8000_1388, the later one is taken for the earlier. */
  lemma LateTakenForEarly()
    ensures Earliest(Pair(0x8000_1387), 0) == AbsDeadline(Pair(0x8000_1387)[1]) > AbsDeadline(Pair(0x8000_1387)[0])
  {
    PairFails(0x8000_1387);
  }

  /** 2^31 - 1 ms is exactly the spread of due times up to which recomputing is right for every queue. */
  lemma SpreadIsExact(s: nat)
    ensures (forall q: Queue, now: nat :: Spread(q, now, s) && Readable(q, now) ==> CacheRight(q, now, Earliest(q, 0)))
       <==> s < TWO_31
  {
    if s < TWO_31 {
      forall q: Queue, now: nat | Spread(q, now, s) && Readable(q, now) ensures CacheRight(q, now, Earliest(q, 0)) {
        assert Close(q, now);
        EarliestRightIff(q, now);
      }
    } else {
      PairFails(TWO_31);
      assert Spread(Pair(TWO_31), 1 + TWO_31, s);
    }
  }

  // ---- The packets and the clock the promise is made for ----

  /** How long ago a queued packet may have been stamped. */
  const MAX_AGE := TWO_31 - 1

  /** Above this, the code's doubling would leave its signed integers. */
  const TIMEOUT_LIMIT := 0x4000_0000

  predicate EntryFits(e: Entry, now: nat) {
    && 0 < e.initial < TIMEOUT_LIMIT
    && e.timeout == Backoff(e.initial, e.retries)
    && (e.sentAt != 0 ==> Age(e.sentAt, now) <= MAX_AGE)
  }

  predicate AllFit(q: Queue, now: nat) {
    forall e :: e in q ==> EntryFits(e, now)
  }

  /** The cache is not later than the due time of `f`. */
  predicate EarlyFor(cache: u32, f: Entry, at: nat) {
    Armed(f) ==> cache != 0 && CacheTime(cache, at) <= DueTime(f, at)
  }

  predicate NotLater(cache: u32, q: Queue, now: nat) {
    forall e :: e in q ==> EarlyFor(cache, e, now)
  }

  predicate TimedInv(s: Timed, now: nat) {
    AllFit(s.tx.queue, now) && NotLater(s.cache, s.tx.queue, now)
  }

  /** Nothing in the queue, and no deadline in the cache, is forgotten for 2^31 ms on the way from `now` to `at`. */
  predicate Tended(s: Timed, now: nat, at: nat) {
    && now <= at
    && forall e :: e in s.tx.queue && e.sentAt != 0 ==>
      Age(e.sentAt, now) + (at - now) <= MAX_AGE && at <= CacheTime(s.cache, now) + TWO_31
  }

  /** The readings are those of the time `at`, and timeouts stay below the limit. */
  predicate EventTimed(ev: Event, at: nat) {
    && (ev.Sends? ==> ev.i.now == Wrap32(at) && 0 < ev.i.timeout < TIMEOUT_LIMIT)
    && (ev.GetsSack? || ev.Ticks? ==> ev.at == Wrap32(at))
  }

  // ---- What a SACK sends again ----

  /** The queued numbers `base + j`, `i <= j <= last`, with a clear bit, up to the first that is refused. */
  function WalkResends(q: Queue, base: u32, bitmap: Bytes, i: nat, last: nat, fails: set<u32>): set<u32>
    decreases last + 1 - i
  {
    if i > last then {}
    else
      var pn := Add32(base, i);
      if !Has(q, pn) || Sack.BitIsSet(bitmap, i) then WalkResends(q, base, bitmap, i + 1, last, fails)
      else if pn in fails then {}
      else {pn} + WalkResends(q, base, bitmap, i + 1, last, fails)
  }

  /** The queued numbers with a set bit, up to the same place. */
  function WalkNamed(q: Queue, base: u32, bitmap: Bytes, i: nat, last: nat, fails: set<u32>): set<u32>
    decreases last + 1 - i
  {
    if i > last then {}
    else
      var pn := Add32(base, i);
      if !Has(q, pn) then WalkNamed(q, base, bitmap, i + 1, last, fails)
      else if Sack.BitIsSet(bitmap, i) then {pn} + WalkNamed(q, base, bitmap, i + 1, last, fails)
      else if pn in fails then {}
      else WalkNamed(q, base, bitmap, i + 1, last, fails)
  }

  function SackResends(q: Queue, base: u32, bitmap: Bytes, fails: set<u32>): set<u32> {
    if |bitmap| == 0 || |bitmap| > Sack.SACK_DECODE_CAPACITY then {}
    else match Sack.HighestBit(bitmap)
      case None => if Has(q, base) && base !in fails then {base} else {}
      case Some(last) => WalkResends(q, base, bitmap, 0, last, fails)
  }

  /** The cache is early enough for `e` sent again at `at`. */
  predicate Covered(cache: u32, e: Entry, at: nat) {
    var timeout := Backoff(e.initial, (e.retries + 1) % 256);
    Wrap32(at) != 0 && timeout > 0 ==> cache != 0 && CacheTime(cache, at) <= at + timeout
  }

  predicate AllCovered(cache: u32, q: Queue, resent: set<u32>, at: nat) {
    forall e :: e in q && e.pn in resent ==> Covered(cache, e, at)
  }

  lemma {:induction false} WalkMembers(q: Queue, base: u32, bitmap: Bytes, i: nat, last: nat, fails: set<u32>)
    ensures forall p :: p in WalkResends(q, base, bitmap, i, last, fails) ==>
      exists j: nat :: i <= j <= last && p == Add32(base, j) && !Sack.BitIsSet(bitmap, j)
    ensures forall p :: p in WalkNamed(q, base, bitmap, i, last, fails) ==>
      exists j: nat :: i <= j <= last && p == Add32(base, j) && Sack.BitIsSet(bitmap, j)
    decreases last + 1 - i
  {
    if i <= last {
      hide Sack.BitIsSet, Has, Add32;
      WalkMembers(q, base, bitmap, i + 1, last, fails);
    }
  }

  lemma WrapsApart(base: u32, i: nat, j: nat)
    requires i < j < TWO_32
    ensures Add32(base, i) != Add32(base, j)
  {
  }

  lemma WalkApart(q: Queue, base: u32, bitmap: Bytes, i: nat, last: nat, fails: set<u32>)
    requires last < TWO_32
    ensures forall p :: p in WalkResends(q, base, bitmap, i, last, fails) ==> p !in WalkNamed(q, base, bitmap, i, last, fails)
    ensures i > 0 ==> Add32(base, i - 1) !in WalkResends(q, base, bitmap, i, last, fails)
  {
    WalkMembers(q, base, bitmap, i, last, fails);
    hide WalkResends, WalkNamed, Sack.BitIsSet, Add32;
    forall j: nat, k: nat | j < k <= last ensures Add32(base, j) != Add32(base, k) {
      WrapsApart(base, j, k);
    }
  }

  /** The walk asks only about the numbers still ahead of it. */
  lemma {:induction false} WalkSame(q: Queue, r: Queue, base: u32, bitmap: Bytes, i: nat, last: nat, fails: set<u32>)
    requires forall j: nat :: i <= j <= last ==> (Has(q, Add32(base, j)) <==> Has(r, Add32(base, j)))
    ensures WalkResends(q, base, bitmap, i, last, fails) == WalkResends(r, base, bitmap, i, last, fails)
    ensures WalkNamed(q, base, bitmap, i, last, fails) == WalkNamed(r, base, bitmap, i, last, fails)
    decreases last + 1 - i
  {
    if i <= last {
      hide Sack.BitIsSet, Has, Add32;
      WalkSame(q, r, base, bitmap, i + 1, last, fails);
    }
  }

  lemma AheadSame(q: Queue, base: u32, i: nat, last: nat, at: u32)
    requires last < TWO_32
    ensures forall j: nat :: i < j <= last ==> (Has(Without(q, {Add32(base, i)}), Add32(base, j)) <==> Has(q, Add32(base, j)))
    ensures forall j: nat :: i < j <= last ==> (Has(Touch(q, {Add32(base, i)}, at), Add32(base, j)) <==> Has(q, Add32(base, j)))
  {
    forall j: nat | i < j <= last
      ensures Has(Without(q, {Add32(base, i)}), Add32(base, j)) <==> Has(q, Add32(base, j))
      ensures Has(Touch(q, {Add32(base, i)}, at), Add32(base, j)) <==> Has(q, Add32(base, j))
    {
      WrapsApart(base, i, j);
      TouchedHas(q, Add32(base, i), Add32(base, j), at);
      hide Add32;
    }
  }

  lemma TouchedHas(q: Queue, touched: u32, pn: u32, at: u32)
    ensures Has(Touch(q, {touched}, at), pn) <==> Has(q, pn)
  {
    var t := Touch(q, {touched}, at);
    if Has(q, pn) {
      var e :| e in q && e.pn == pn;
      var k :| 0 <= k < |q| && q[k] == e;
      assert t[k] in t;
    }
    if Has(t, pn) {
      var e :| e in t && e.pn == pn;
      var k :| 0 <= k < |t| && t[k] == e;
      assert q[k] in q;
    }
  }

  /** What the walk leaves of the queue, whether or not it is stopped by a refusal. */
  function AfterWalk(q: Queue, base: u32, bitmap: Bytes, i: nat, last: nat, at: u32, fails: set<u32>): Queue {
    Touch(Without(q, WalkNamed(q, base, bitmap, i, last, fails)), WalkResends(q, base, bitmap, i, last, fails), at)
  }

  lemma WalkedStops(q: Queue, base: u32, bitmap: Bytes, i: nat, last: nat, at: u32, fails: set<u32>)
    requires i > last || (Has(q, Add32(base, i)) && !Sack.BitIsSet(bitmap, i) && Add32(base, i) in fails)
    ensures AfterWalk(q, base, bitmap, i, last, at, fails) == q
  {
    WithoutNone(q, {});
    TouchNone(q, at);
    hide Sack.BitIsSet, Has, Touch, Without;
  }

  lemma WalkedSkips(q: Queue, base: u32, bitmap: Bytes, i: nat, last: nat, at: u32, fails: set<u32>)
    requires i <= last && !Has(q, Add32(base, i))
    ensures AfterWalk(q, base, bitmap, i, last, at, fails) == AfterWalk(q, base, bitmap, i + 1, last, at, fails)
  {
    hide Sack.BitIsSet, Has, Touch, Without;
  }

  lemma WalkedNames(q: Queue, base: u32, bitmap: Bytes, i: nat, last: nat, at: u32, fails: set<u32>)
    requires i <= last < TWO_32 && Has(q, Add32(base, i)) && Sack.BitIsSet(bitmap, i)
    ensures AfterWalk(q, base, bitmap, i, last, at, fails)
      == AfterWalk(Without(q, {Add32(base, i)}), base, bitmap, i + 1, last, at, fails)
  {
    AheadSame(q, base, i, last, at);
    WalkSame(Without(q, {Add32(base, i)}), q, base, bitmap, i + 1, last, fails);
    WithoutTwice(q, {Add32(base, i)}, WalkNamed(q, base, bitmap, i + 1, last, fails));
    hide Sack.BitIsSet, Has, Touch, Without, Add32;
  }

  lemma WalkedResends(q: Queue, base: u32, bitmap: Bytes, i: nat, last: nat, at: u32, fails: set<u32>)
    requires i <= last < TWO_32 && Has(q, Add32(base, i)) && !Sack.BitIsSet(bitmap, i) && Add32(base, i) !in fails
    ensures AfterWalk(q, base, bitmap, i, last, at, fails)
      == AfterWalk(Touch(q, {Add32(base, i)}, at), base, bitmap, i + 1, last, at, fails)
  {
    AheadSame(q, base, i, last, at);
    WalkSame(Touch(q, {Add32(base, i)}, at), q, base, bitmap, i + 1, last, fails);
    WalkApart(q, base, bitmap, i + 1, last, fails);
    MissingQueue(q, Add32(base, i), WalkNamed(q, base, bitmap, i + 1, last, fails), WalkResends(q, base, bitmap, i + 1, last, fails), at);
    hide Sack.BitIsSet, Has, Touch, Without, Add32;
  }

  lemma {:induction false} WalkQueue(tx: Tx, base: u32, bitmap: Bytes, i: nat, last: nat, at: u32, fails: set<u32>)
    requires last < TWO_32
    ensures SackFrom(tx, base, bitmap, i, last, at, fails).tx.queue == AfterWalk(tx.queue, base, bitmap, i, last, at, fails)
    decreases last + 1 - i
  {
    hide Sack.BitIsSet, Has, Touch, Without, Window.Mark, AfterWalk, Add32;
    var q, pn := tx.queue, Add32(base, i);
    if i > last {
      WalkedStops(q, base, bitmap, i, last, at, fails);
    } else if !Has(q, pn) {
      WalkedSkips(q, base, bitmap, i, last, at, fails);
      WalkQueue(tx, base, bitmap, i + 1, last, at, fails);
    } else if Sack.BitIsSet(bitmap, i) {
      WalkedNames(q, base, bitmap, i, last, at, fails);
      WalkQueue(tx.(win := Window.Mark(tx.win, pn), queue := Without(q, {pn})), base, bitmap, i + 1, last, at, fails);
    } else if pn in fails {
      WalkedStops(q, base, bitmap, i, last, at, fails);
    } else {
      WalkedResends(q, base, bitmap, i, last, at, fails);
      WalkQueue(tx.(queue := Touch(q, {pn}, at)), base, bitmap, i + 1, last, at, fails);
    }
  }

  /** A SACK only removes and sends again, and never both to one packet. */
  lemma SackQueue(tx: Tx, base: u32, bitmap: Bytes, at: u32, fails: set<u32>) returns (named: set<u32>)
    ensures OnSack(tx, base, bitmap, at, fails).tx.queue
      == Touch(Without(tx.queue, named), SackResends(tx.queue, base, bitmap, fails), at)
    ensures forall p :: p in SackResends(tx.queue, base, bitmap, fails) ==> p !in named
  {
    named := {};
    WithoutNone(tx.queue, {});
    TouchNone(tx.queue, at);
    hide Sack.BitIsSet, Sack.HighestBit, Has, Touch, Without, Window.Advance, SackFrom, WalkNamed, WalkResends;
    if 0 < |bitmap| <= Sack.SACK_DECODE_CAPACITY && Sack.HighestBit(bitmap).Some? {
      var last := Sack.HighestBit(bitmap).value;
      HighestFits(bitmap);
      named := WalkNamed(tx.queue, base, bitmap, 0, last, fails);
      WalkQueue(tx, base, bitmap, 0, last, at, fails);
      WalkApart(tx.queue, base, bitmap, 0, last, fails);
    }
  }

  lemma HighestFits(bitmap: Bytes)
    requires |bitmap| <= Sack.SACK_DECODE_CAPACITY
    ensures Sack.HighestBit(bitmap).Some? ==> Sack.HighestBit(bitmap).value < 512
  {
  }

  lemma ResentDue(e: Entry, at: nat)
    ensures DueTime(Resent(e, Wrap32(at)), at) == at + Backoff(e.initial, (e.retries + 1) % 256)
  {
    WrapSub(at, at);
    SmallWraps(0);
    hide Wrap32, Backoff;
  }

  lemma EarlyForResentIff(cache: u32, e: Entry, at: nat)
    ensures EarlyFor(cache, Resent(e, Wrap32(at)), at) <==> Covered(cache, e, at)
  {
    ResentDue(e, at);
    hide DueTime, CacheTime, Backoff, Wrap32;
  }

  /** Where the cache is left alone, it stays early enough exactly when it covers what was sent again. */
  lemma TouchedNotLaterIff(cache: u32, q: Queue, named: set<u32>, resent: set<u32>, at: nat)
    requires NotLater(cache, q, at) && forall p :: p in resent ==> p !in named
    ensures NotLater(cache, Touch(Without(q, named), resent, Wrap32(at)), at) <==> AllCovered(cache, q, resent, at)
  {
    var w := Without(q, named);
    var t := Touch(w, resent, Wrap32(at));
    hide EarlyFor, Covered, Wrap32, Resent;
    forall i | 0 <= i < |w| ensures EarlyFor(cache, t[i], at) <==> (w[i].pn in resent ==> Covered(cache, w[i], at)) {
      EarlyForResentIff(cache, w[i], at);
      assert w[i] in q;
    }
    if AllCovered(cache, q, resent, at) {
      forall i | 0 <= i < |t| ensures EarlyFor(cache, t[i], at) {
        assert w[i] in q;
      }
    }
    if forall i :: 0 <= i < |t| ==> EarlyFor(cache, t[i], at) {
      forall e | e in q && e.pn in resent ensures Covered(cache, e, at) {
        assert e in w;
        var i :| 0 <= i < |w| && w[i] == e;
        assert EarlyFor(cache, t[i], at);
      }
    }
  }

  /**
   * A cache that was early enough before a SACK, and is not recomputed, is early
   * enough after it if and only if it covers every packet the SACK sent again, up
   * to the first resend the lower layer refused.
   */
  lemma SackKeepsCacheIff(s: Timed, base: u32, bitmap: Bytes, at: nat, fails: set<u32>)
    requires NotLater(s.cache, s.tx.queue, at) && !Recomputes(s.tx, GetsSack(base, bitmap, Wrap32(at), fails))
    ensures var after := Happen(s, GetsSack(base, bitmap, Wrap32(at), fails));
      after.cache == s.cache
      && (NotLater(after.cache, after.tx.queue, at)
          <==> AllCovered(s.cache, s.tx.queue, SackResends(s.tx.queue, base, bitmap, fails), at))
  {
    var named := SackQueue(s.tx, base, bitmap, Wrap32(at), fails);
    hide OnSack, SackResends, NotLater, AllCovered, Touch, Without, Recomputes, Earliest;
    TouchedNotLaterIff(s.cache, s.tx.queue, named, SackResends(s.tx.queue, base, bitmap, fails), at);
  }

  // ---- Recomputing ----

  lemma TimeoutRange(initial: int, k: nat)
    requires 0 < initial < TIMEOUT_LIMIT
    ensures 0 < Backoff(initial, k) < TIMEOUT_LIMIT
  {
    if k > 0 {
      Retry.RetriedTimeout(initial, k);
    }
  }

  lemma DueRange(e: Entry, now: nat)
    requires EntryFits(e, now)
    ensures 0 < e.timeout < TIMEOUT_LIMIT && (e.sentAt != 0 <==> Armed(e))
    ensures Armed(e) ==> now - MAX_AGE < DueTime(e, now) < now + TIMEOUT_LIMIT
  {
    TimeoutRange(e.initial, e.retries);
  }

  /** Timeouts of at most 30 seconds and ages of at most 2^31 - 30001 ms are close enough. */
  lemma ShortTimeoutsAreClose(q: Queue, now: nat)
    requires AllFit(q, now)
    requires forall e :: e in q && e.sentAt != 0 ==> e.timeout <= BACKOFF_CAP && Age(e.sentAt, now) <= TWO_31 - 1 - BACKOFF_CAP
    ensures Close(q, now)
  {
    forall e, f | e in q && f in q && Armed(e) && Armed(f) ensures DueTime(f, now) - DueTime(e, now) <= TWO_31 - 1 {
      DueRange(e, now);
      DueRange(f, now);
    }
  }

  /** A recomputed cache is early enough exactly when the earliest deadline does not read 0. */
  lemma RecomputedNotLaterIff(q: Queue, now: nat)
    requires AllFit(q, now) && Close(q, now)
    ensures NotLater(Earliest(q, 0), q, now) <==> Readable(q, now)
  {
    EarliestRightIff(q, now);
    EarliestFound(q, now);
    LeastIs(q, now);
    hide DueTime, Least, Earliest, Close, CacheTime, AbsDeadline, Wrap32, EntryFits;
    if Least(q, now).Some? {
      var e :| e in q && Armed(e) && DueTime(e, now) == Least(q, now).value;
      DueRange(e, now);
      CacheTimeOf(DueTime(e, now), now);
      if Earliest(q, 0) != 0 {
        var f :| f in q && Armed(f) && Earliest(q, 0) == AbsDeadline(f);
        DueRange(f, now);
        DueReading(f, now);
        CacheTimeOf(DueTime(f, now), now);
      }
    }
  }

  /** The fold answers 0 or the deadline of some armed entry. */
  lemma EarliestFound(q: Queue, now: nat)
    requires Close(q, now)
    ensures Earliest(q, 0) != 0 ==> exists f :: f in q && Armed(f) && Earliest(q, 0) == AbsDeadline(f)
  {
    assert [] + q == q;
    FoundAll([], q, now, 0);
  }

  lemma CacheTimeOf(x: int, now: nat)
    requires -TWO_31 <= x - now < TWO_31
    ensures CacheTime(Wrap32(x), now) == x
  {
    WrapTwice(x, now);
    WrapNear(x - now);
    hide Wrap32, Signed, Sub32;
    assert Sub32(x, now) == Wrap32(x - now) by { SubIsWrap(x, now); }
  }

  lemma WrapTwice(t: int, x: int)
    ensures Sub32(Wrap32(t), x) == Sub32(t, x)
  {
    WrapSub(t, -x);
    SubIsAdd(Wrap32(t), x);
    SubIsAdd(t, x);
    hide Wrap32, Sub32, Add32;
  }

  // ---- Keeping the cache early enough ----

  lemma AgeGrows(stamp: u32, now: nat, at: nat)
    requires now <= at && Age(stamp, now) + (at - now) < TWO_32
    ensures Age(stamp, at) == Age(stamp, now) + (at - now)
  {
    WrapSub(now - stamp, at - now);
    SubIsWrap(now, stamp);
    SubIsWrap(at, stamp);
    SmallWraps(Age(stamp, now) + (at - now));
    SubIsAdd(Wrap32(now - stamp), now - at);
    hide Wrap32, Sub32, Add32;
    AddIsWrap(Wrap32(now - stamp), at - now);
  }

  /** A cached reading keeps its meaning exactly until its time is 2^31 ms past. */
  lemma CacheTimeStaysIff(cache: u32, now: nat, at: nat)
    requires now <= at
    ensures CacheTime(cache, at) == CacheTime(cache, now) <==> at <= CacheTime(cache, now) + TWO_31
  {
    var d := Signed(Sub32(cache, now));
    assert Wrap32(d) == Sub32(cache, now);
    assert Sub32(cache, at) == Wrap32(d - (at - now));
    if at <= CacheTime(cache, now) + TWO_31 {
      WrapNear(d - (at - now));
    }
  }

  /** Time passing changes nothing, as long as nothing is forgotten. */
  lemma Later(s: Timed, now: nat, at: nat)
    requires TimedInv(s, now) && Tended(s, now, at)
    ensures TimedInv(s, at)
  {
    forall e | e in s.tx.queue
      ensures EntryFits(e, at) && EarlyFor(s.cache, e, at)
    {
      assert EarlyFor(s.cache, e, now);
      if e.sentAt != 0 {
        DueRange(e, now);
        AgeGrows(e.sentAt, now, at);
        CacheTimeStaysIff(s.cache, now, at);
      }
    }
  }

  lemma ResentFits(e: Entry, at: nat)
    requires EntryFits(e, at)
    ensures EntryFits(Resent(e, Wrap32(at)), at)
  {
    WrapSub(at, at);
    hide Backoff;
  }

  lemma TouchFits(q: Queue, touched: set<u32>, at: nat)
    requires AllFit(q, at)
    ensures AllFit(Touch(q, touched, Wrap32(at)), at)
  {
    var t := Touch(q, touched, Wrap32(at));
    forall e | e in t ensures EntryFits(e, at) {
      var i :| 0 <= i < |t| && t[i] == e;
      assert q[i] in q;
      ResentFits(q[i], at);
    }
  }

  lemma WithoutFits(q: Queue, gone: set<u32>, cache: u32, at: nat)
    requires AllFit(q, at)
    ensures AllFit(Without(q, gone), at)
    ensures NotLater(cache, q, at) ==> NotLater(cache, Without(q, gone), at)
  {
  }

  lemma {:induction false} TickFits(q: Queue, maxRetry: u8, at: nat, fails: set<u32>)
    requires AllFit(q, at)
    ensures AllFit(Retry.TickQueue(q, Wrap32(at), maxRetry, fails), at)
  {
    if q != [] {
      assert forall e :: e in q[1..] ==> e in q;
      TickFits(q[1..], maxRetry, at, fails);
      assert q[0] in q;
      ResentFits(q[0], at);
    }
  }

  lemma EventFitsQueue(s: Timed, ev: Event, at: nat)
    requires TimedInv(s, at) && EventTimed(ev, at)
    ensures AllFit(TxAfter(s.tx, ev).queue, at)
  {
    match ev
    case Sends(i) =>
      WrapSub(at, at);
    case GetsAck(largest, ranges) =>
      WithoutFits(s.tx.queue, Acknowledged(largest, ranges), s.cache, at);
    case GetsSack(base, bitmap, _, fails) =>
      var named := SackQueue(s.tx, base, bitmap, Wrap32(at), fails);
      WithoutFits(s.tx.queue, named, s.cache, at);
      TouchFits(Without(s.tx.queue, named), SackResends(s.tx.queue, base, bitmap, fails), at);
    case Ticks(_, fails) =>
      TickFits(s.tx.queue, s.tx.maxRetry, at, fails);
    case Resets =>
  }

  /**
   * A recomputed earliest deadline does not read 0; a SACK that leaves the cache
   * alone sends again only what the cache covers.
   */
  predicate Keeps(s: Timed, ev: Event, at: nat) {
    if Recomputes(s.tx, ev) then Readable(TxAfter(s.tx, ev).queue, at)
    else ev.GetsSack? ==> AllCovered(s.cache, s.tx.queue, SackResends(s.tx.queue, ev.base, ev.bitmap, ev.fails), at)
  }

  lemma UnchangedKeeps(s: Timed, ev: Event, at: nat)
    requires NotLater(s.cache, s.tx.queue, at) && !Recomputes(s.tx, ev) && !ev.GetsSack?
    ensures NotLater(s.cache, TxAfter(s.tx, ev).queue, at)
  {
  }

  /**
   * After an event the cached deadline is not later than any real one, if and only
   * if the recomputed deadline can be told from "none", or what was sent again
   * without recomputing was covered.
   */
  lemma EventKeepsCacheIff(s: Timed, ev: Event, now: nat, at: nat)
    requires TimedInv(s, now) && Tended(s, now, at) && EventTimed(ev, at)
    requires Recomputes(s.tx, ev) ==> Close(TxAfter(s.tx, ev).queue, at)
    ensures TimedInv(Happen(s, ev), at) <==> Keeps(s, ev, at)
  {
    Later(s, now, at);
    EventFitsQueue(s, ev, at);
    hide TxAfter, AllFit, NotLater, Earliest, Readable, Tended, Recomputes, AllCovered, SackResends, Close;
    if Recomputes(s.tx, ev) {
      RecomputedNotLaterIff(TxAfter(s.tx, ev).queue, at);
    } else if ev.GetsSack? {
      SackKeepsCacheIff(s, ev.base, ev.bitmap, at, ev.fails);
    } else {
      UnchangedKeeps(s, ev, at);
    }
  }

  /** What a run must respect at each event. */
  predicate EventFits(s: Timed, ev: Event, at: nat) {
    && EventTimed(ev, at)
    && (Recomputes(s.tx, ev) ==> Close(TxAfter(s.tx, ev).queue, at))
    && Keeps(s, ev, at)
  }

  /** An event and the time it happens. */
  datatype Moment = Moment(ev: Event, at: nat)

  predicate Fits(s: Timed, now: nat, run: seq<Moment>)
    decreases |run|
  {
    run == [] || (Tended(s, now, run[0].at) && EventFits(s, run[0].ev, run[0].at) && Fits(Happen(s, run[0].ev), run[0].at, run[1..]))
  }

  function After(s: Timed, run: seq<Moment>): Timed
    decreases |run|
  {
    if run == [] then s else After(Happen(s, run[0].ev), run[1..])
  }

  function EndOf(now: nat, run: seq<Moment>): nat {
    if run == [] then now else run[|run| - 1].at
  }

  lemma {:induction false} RunKeepsCache(s: Timed, now: nat, run: seq<Moment>)
    requires TimedInv(s, now) && Fits(s, now, run)
    ensures TimedInv(After(s, run), EndOf(now, run))
    decreases |run|
  {
    if run != [] {
      EventKeepsCacheIff(s, run[0].ev, now, run[0].at);
      RunKeepsCache(Happen(s, run[0].ev), run[0].at, run[1..]);
    }
  }

  function InitialTimed(window: u8, maxRetry: u8): Timed {
    Timed(Tx(Window.State(0, 0, Window.Falses(window)), [], maxRetry), 0)
  }

  /** Over any run of sends, ACKs, SACKs, ticks and resets from a fresh peer, started at any time. */
  lemma RunFromStart(window: u8, maxRetry: u8, start: nat, run: seq<Moment>)
    requires Fits(InitialTimed(window, maxRetry), start, run)
    ensures TimedInv(After(InitialTimed(window, maxRetry), run), EndOf(start, run))
  {
    RunKeepsCache(InitialTimed(window, maxRetry), start, run);
  }

  // ---- Where the promise ends ----

  /** A deadline that falls on reading 0 is taken for none: the cache says 0 while the packet is waiting. */
  lemma ZeroDeadlineIsLost()
    ensures var e := Entry(0, [], 0, 0xFFFF_FC18, 1000, 1000);
      Earliest([e], 0) == 0 && Retry.Due(e, 0)
  {
  }

  /** The entry a successful send leaves at the end of the queue. */
  function SentEntry(tx: Tx, i: SendInput): Entry {
    Entry(tx.win.next, i.data, 0, i.now, i.timeout, i.timeout)
  }

  /**
   * A packet sent while the clock reads 0 stays queued through every run of ticks,
   * which neither retransmit nor report it; sent at any other reading, some tick
   * does.
   */
  lemma SentAtZeroRests(tx: Tx, i: SendInput, ticks: seq<Retry.TickInput>, t: Retry.TickInput)
    requires Send(tx, i).status.Ok?
    ensures i.now == 0 ==>
      var q := Retry.RunTicks(Send(tx, i).tx.queue, tx.maxRetry, ticks); var e := SentEntry(tx, i);
      e in q && e !in Retry.TickResent(q, t.now, tx.maxRetry, t.fails) && e !in Retry.TickDropped(q, t.now, tx.maxRetry)
    ensures i.now != 0 ==>
      exists run: seq<Retry.TickInput> :: Retry.Acts(Retry.Follow(SentEntry(tx, i), tx.maxRetry, run)) > 0
  {
    var e := SentEntry(tx, i);
    assert e in Send(tx, i).tx.queue;
    if i.now == 0 {
      Retry.UnstampedStays(Send(tx, i).tx.queue, e, tx.maxRetry, ticks, t);
    } else {
      Retry.ActsSometimeIff(e, tx.maxRetry);
    }
  }

  lemma BareSack(q: Queue, e: Entry, bitmap: Bytes)
    requires q == [e] && 0 < |bitmap| <= Sack.SACK_DECODE_CAPACITY && Sack.HighestBit(bitmap).None?
    ensures SackResends(q, e.pn, bitmap, {}) == {e.pn} && e in q
  {
    hide Sack.HighestBit;
    assert q[0] in q;
    assert Has(q, e.pn);
  }

  /** A single packet sent again without being covered: the cache is then too late for it. */
  lemma UncoveredIsLost(tx: Tx, cache: u32, e: Entry, bitmap: Bytes, at: u32)
    requires tx.queue == [e] && 0 < |bitmap| <= Sack.SACK_DECODE_CAPACITY && Sack.HighestBit(bitmap).None?
    requires NotLater(cache, tx.queue, at) && !Covered(cache, e, at)
    ensures var s := Happen(Timed(tx, cache), GetsSack(e.pn, bitmap, at, {})); s.cache == cache && !NotLater(cache, s.tx.queue, at)
  {
    BareSack(tx.queue, e, bitmap);
    SmallWraps(at);
    assert !Recomputes(tx, GetsSack(e.pn, bitmap, at, {}));
    hide Sack.HighestBit, OnSack, NotLater, Covered, Happen, SackResends, Recomputes, Wrap32;
    SackKeepsCacheIff(Timed(tx, cache), e.pn, bitmap, at, {});
  }

  /** A packet stamped 0 is armed by the resend without the cache knowing. */
  lemma StampZeroSackIsLost(tx: Tx, bitmap: Bytes, at: u32)
    requires 0 < |bitmap| <= Sack.SACK_DECODE_CAPACITY && Sack.HighestBit(bitmap).None? && 0 < at
    requires tx.queue == [Entry(7, [], 0, 0, 1000, 1000)]
    ensures var s := Happen(Timed(tx, 0), GetsSack(7, bitmap, at, {})); s.cache == 0 && !NotLater(0, s.tx.queue, at)
  {
    Retry.RetriedTimeout(1000, 1);
    UncoveredIsLost(tx, 0, tx.queue[0], bitmap, at);
  }

  /** A timeout above 30000 ms is cut by the resend, and the cache is then too late. */
  lemma LongTimeoutSackIsLost(tx: Tx, bitmap: Bytes)
    requires 0 < |bitmap| <= Sack.SACK_DECODE_CAPACITY && Sack.HighestBit(bitmap).None?
    requires tx.queue == [Entry(7, [], 0, 1, 60000, 60000)]
    ensures Earliest(tx.queue, 0) == 60001
    ensures var s := Happen(Timed(tx, 60001), GetsSack(7, bitmap, 2, {})); s.cache == 60001 && !NotLater(60001, s.tx.queue, 2)
  {
    assert tx.queue[1..] == [];
    Retry.CappedAtOnce(60000, 1);
    UncoveredIsLost(tx, 60001, tx.queue[0], bitmap, 2);
  }

  /** So is the timeout of a packet whose 8-bit retry count wraps to 0. */
  lemma RetryWrapSackIsLost(tx: Tx, bitmap: Bytes)
    requires 0 < |bitmap| <= Sack.SACK_DECODE_CAPACITY && Sack.HighestBit(bitmap).None?
    requires tx.queue == [Entry(7, [], 255, 1, 30000, 1000)]
    ensures Earliest(tx.queue, 0) == 30001
    ensures var s := Happen(Timed(tx, 30001), GetsSack(7, bitmap, 2, {})); s.cache == 30001 && !NotLater(30001, s.tx.queue, 2)
  {
    assert tx.queue[1..] == [];
    UncoveredIsLost(tx, 30001, tx.queue[0], bitmap, 2);
  }

  // ---- How long the caller may sleep ----

  const NO_DEADLINE: u32 := 0xFFFF_FFFF

  /** A message being reassembled: when its first fragment came, and its timeout. */
  datatype Waiting = Waiting(first: u32, timeout: u32)

  predicate ReassemblyExpires(w: Waiting, t: u32) {
    w.first != 0 && Sub32(t, w.first) >= w.timeout
  }

  /** What the collector looks at. */
  predicate Counts(w: Waiting) {
    w.first != 0 && w.timeout != 0
  }

  function TakeMin(deadline: u32, candidate: u32): u32 {
    if candidate < deadline then candidate else deadline
  }

  function RemainingMs(cache: u32, now: u32): u32 {
    var r := Signed(Sub32(cache, now));
    if r <= 0 then 0 else r
  }

  function DeltaMs(now: u32, start: u32, timeout: u32): u32 {
    if Sub32(now, start) >= timeout then 0 else timeout - Sub32(now, start)
  }

  /** `d` is the least remaining time of the first `n` peers and `m` reassemblies, or "none". */
  predicate LeastOf(caches: seq<u32>, n: nat, waiting: seq<Waiting>, m: nat, now: u32, d: u32)
    requires n <= |caches| && m <= |waiting|
  {
    && (forall k :: 0 <= k < n && caches[k] != 0 ==> d <= RemainingMs(caches[k], now))
    && (forall k :: 0 <= k < m && Counts(waiting[k]) ==> d <= DeltaMs(now, waiting[k].first, waiting[k].timeout))
    && (d == 0xFFFF_FFFF
        || (exists k :: 0 <= k < n && caches[k] != 0 && d == RemainingMs(caches[k], now))
        || (exists k :: 0 <= k < m && Counts(waiting[k]) && d == DeltaMs(now, waiting[k].first, waiting[k].timeout)))
  }

  predicate NextDeadline(caches: seq<u32>, waiting: seq<Waiting>, now: u32, d: u32) {
    LeastOf(caches, |caches|, waiting, |waiting|, now, d)
  }

  /**
   * The runtime's query: one pass over the peers, one over the reassembly list.
   * The result is the least remaining time, and it is attained.
   */
  method NextDeadlineMs(caches: seq<u32>, waiting: seq<Waiting>, now: u32) returns (deadline: u32)
    ensures NextDeadline(caches, waiting, now, deadline)
    ensures (forall k :: 0 <= k < |caches| ==> caches[k] == 0) && (forall k :: 0 <= k < |waiting| ==> !Counts(waiting[k]))
      ==> deadline == 0xFFFF_FFFF
  {
    hide RemainingMs, DeltaMs, Counts;
    deadline := NO_DEADLINE;
    for i := 0 to |caches|
      invariant LeastOf(caches, i, waiting, 0, now, deadline)
    {
      if caches[i] == 0 {
        continue;
      }
      deadline := TakeMin(deadline, RemainingMs(caches[i], now));
    }
    for i := 0 to |waiting|
      invariant LeastOf(caches, |caches|, waiting, i, now, deadline)
    {
      if waiting[i].first == 0 || waiting[i].timeout == 0 {
        Skipped(waiting[i]);
        continue;
      }
      Counted(waiting[i]);
      deadline := TakeMin(deadline, DeltaMs(now, waiting[i].first, waiting[i].timeout));
    }
  }

  lemma Skipped(w: Waiting)
    requires w.first == 0 || w.timeout == 0
    ensures !Counts(w)
  {
  }

  lemma Counted(w: Waiting)
    requires w.first != 0 && w.timeout != 0
    ensures Counts(w)
  {
  }

  /** With no entry due, a tick changes nothing and sends nothing. */
  lemma {:induction false} IdleTick(q: Queue, t: u32, maxRetry: u8, fails: set<u32>)
    requires forall e :: e in q ==> !Retry.Due(e, t)
    ensures Retry.TickQueue(q, t, maxRetry, fails) == q
    ensures Retry.TickResent(q, t, maxRetry, fails) == [] && Retry.TickDropped(q, t, maxRetry) == []
  {
    if q != [] {
      assert q[0] in q;
      IdleTick(q[1..], t, maxRetry, fails);
    }
  }

  /** Before its due time a packet is not due. */
  lemma NotDueBefore(e: Entry, now: nat, t: nat)
    requires EntryFits(e, now) && now <= t && (e.sentAt != 0 ==> t < DueTime(e, now))
    ensures !Retry.Due(e, Wrap32(t))
  {
    DueRange(e, now);
    if e.sentAt != 0 {
      AgeGrows(e.sentAt, now, t);
      WrapTwice(t, e.sentAt);
      SmallWraps(e.timeout);
      hide Wrap32, Sub32;
    }
  }

  /** A stamped packet is due exactly from its due time on. */
  lemma DueIff(e: Entry, now: nat, t: nat)
    requires EntryFits(e, now) && e.sentAt != 0 && now <= t && Age(e.sentAt, now) + (t - now) < TWO_32
    ensures Retry.Due(e, Wrap32(t)) <==> t >= DueTime(e, now)
  {
    DueRange(e, now);
    AgeGrows(e.sentAt, now, t);
    WrapTwice(t, e.sentAt);
    SmallWraps(e.timeout);
    hide Wrap32, Sub32;
  }

  /**
   * The reported time is not too early either: where the cache was recomputed, a
   * tick at the reported deadline finds a packet due, and sends it again, gives it
   * up, or is refused by the lower layer.
   */
  lemma DeadlineIsReached(q: Queue, now: nat, d: u32, maxRetry: u8, fails: set<u32>)
    requires AllFit(q, now) && Close(q, now) && Readable(q, now) && (exists e :: e in q && Armed(e))
    requires d == RemainingMs(Earliest(q, 0), Wrap32(now))
    ensures var t := Wrap32(now + d);
      exists e :: e in q && Retry.Due(e, t)
        && (e in Retry.TickResent(q, t, maxRetry, fails) || e in Retry.TickDropped(q, t, maxRetry) || (e.pn in fails && e.retries < maxRetry))
  {
    EarliestRightIff(q, now);
    LeastIs(q, now);
    var e :| e in q && Armed(e) && DueTime(e, now) == Least(q, now).value;
    DueRange(e, now);
    hide DueTime, Least, Earliest, Close, Wrap32, EntryFits, AllFit, Readable, CacheTime;
    CacheTimeOf(DueTime(e, now), now);
    RemainingReaches(Earliest(q, 0), now);
    AgeSmall(e, now);
    DueIff(e, now, now + d);
    assert Retry.Due(e, Wrap32(now + d));
  }

  lemma AgeSmall(e: Entry, now: nat)
    requires EntryFits(e, now) && e.sentAt != 0
    ensures Age(e.sentAt, now) < TWO_31
  {
  }

  lemma RemainingReaches(cache: u32, now: nat)
    ensures RemainingMs(cache, Wrap32(now)) < TWO_31
    ensures now + RemainingMs(cache, Wrap32(now)) >= CacheTime(cache, now)
  {
    WrapSub(cache, now);
    SmallWraps(cache);
    SubIsWrap(cache, now);
    hide Wrap32, Sub32;
  }

  lemma RemainingIsEarly(cache: u32, now: nat, t: nat)
    requires now <= t < now + RemainingMs(cache, Wrap32(now))
    ensures t < CacheTime(cache, now)
  {
    WrapSub(cache, now);
  }

  lemma NotExpiredBefore(w: Waiting, now: nat, t: nat)
    requires w.first != 0 && now <= t < now + DeltaMs(Wrap32(now), w.first, w.timeout)
    ensures !ReassemblyExpires(w, Wrap32(t))
  {
    WrapTwice(now, w.first);
    WrapTwice(t, w.first);
    AgeGrows(w.first, now, t);
  }

  /** A peer sleeps through every tick before the reported time. */
  lemma PeerSleeps(s: Timed, last: nat, now: nat, t: nat, d: u32, fails: set<u32>)
    requires TimedInv(s, last) && Tended(s, last, now) && now <= t < now + d
    requires s.cache != 0 ==> d <= RemainingMs(s.cache, Wrap32(now))
    ensures Tick(s.tx, Wrap32(t), fails) == TxOut(s.tx, [], Ok)
    ensures Retry.TickDropped(s.tx.queue, Wrap32(t), s.tx.maxRetry) == []
  {
    Later(s, last, now);
    forall e | e in s.tx.queue ensures !Retry.Due(e, Wrap32(t)) {
      DueRange(e, now);
      if e.sentAt != 0 {
        RemainingIsEarly(s.cache, now, t);
      }
      NotDueBefore(e, now, t);
    }
    IdleTick(s.tx.queue, Wrap32(t), s.tx.maxRetry, fails);
  }

  /**
   * Sleeping for less than the reported time is safe: for every peer whose cache
   * the events above maintained, and every reassembly with a positive timeout, no
   * tick before the reported deadline retransmits, gives up or expires anything.
   */
  lemma SleepIsSafe(peers: seq<Timed>, last: seq<nat>, caches: seq<u32>, waiting: seq<Waiting>, now: nat, d: u32, t: nat, fails: set<u32>)
    requires |caches| == |peers| == |last| && forall k :: 0 <= k < |peers| ==> caches[k] == peers[k].cache
    requires forall k :: 0 <= k < |peers| ==> TimedInv(peers[k], last[k]) && Tended(peers[k], last[k], now)
    requires forall k :: 0 <= k < |waiting| ==> waiting[k].timeout > 0
    requires NextDeadline(caches, waiting, Wrap32(now), d) && now <= t < now + d
    ensures forall k :: 0 <= k < |peers| ==>
      Tick(peers[k].tx, Wrap32(t), fails) == TxOut(peers[k].tx, [], Ok)
      && Retry.TickDropped(peers[k].tx.queue, Wrap32(t), peers[k].tx.maxRetry) == []
    ensures forall k :: 0 <= k < |waiting| ==> !ReassemblyExpires(waiting[k], Wrap32(t))
  {
    hide TimedInv, Tended, RemainingMs, DeltaMs, ReassemblyExpires;
    forall k | 0 <= k < |peers|
      ensures Tick(peers[k].tx, Wrap32(t), fails) == TxOut(peers[k].tx, [], Ok)
        && Retry.TickDropped(peers[k].tx.queue, Wrap32(t), peers[k].tx.maxRetry) == []
    {
      PeerSleeps(peers[k], last[k], now, t, d, fails);
    }
    forall k | 0 <= k < |waiting| ensures !ReassemblyExpires(waiting[k], Wrap32(t)) {
      if waiting[k].first != 0 {
        NotExpiredBefore(waiting[k], now, t);
      } else {
        Untimed(waiting[k], Wrap32(t));
      }
    }
  }

  lemma Untimed(w: Waiting, t: u32)
    requires w.first == 0
    ensures !ReassemblyExpires(w, t)
  {
  }

  /**
   * The reassembly collector skips a timeout of 0, but the reassembly tick does
   * not: the reported time is safe for the reassemblies if and only if it is 0 or
   * every running one has a positive timeout.
   */
  lemma ReassemblySleepSafeIff(caches: seq<u32>, waiting: seq<Waiting>, now: nat, d: u32)
    requires NextDeadline(caches, waiting, Wrap32(now), d)
    ensures (forall t: nat, k :: now <= t < now + d && 0 <= k < |waiting| ==> !ReassemblyExpires(waiting[k], Wrap32(t)))
       <==> d == 0 || forall k :: 0 <= k < |waiting| && waiting[k].first != 0 ==> waiting[k].timeout > 0
  {
    hide DeltaMs, RemainingMs;
    forall t: nat, k | now <= t < now + d && 0 <= k < |waiting| && waiting[k].timeout > 0
      ensures !ReassemblyExpires(waiting[k], Wrap32(t))
    {
      if waiting[k].first != 0 {
        NotExpiredBefore(waiting[k], now, t);
      }
    }
    if d > 0 {
      forall k | 0 <= k < |waiting| && waiting[k].first != 0 && waiting[k].timeout == 0
        ensures ReassemblyExpires(waiting[k], Wrap32(now))
      {
      }
    }
  }
}
