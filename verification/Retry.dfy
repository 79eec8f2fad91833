/**
 * The timeout walk over the wait-ACK queue: which entries are retransmitted,
 * which have run out of retries, and how the timeout grows.
 */
module Retry {
  import opened Base
  import opened Reliable

  /** The cast the timeout comparison makes: a negative timeout reads as a huge one. */
  function AsUnsigned(timeout: int): int {
    Wrap32(timeout)
  }

  /** An entry with timestamp 0 has not been sent yet and never times out. */
  predicate Due(e: Entry, now: u32) {
    e.sentAt != 0 && Sub32(now, e.sentAt) >= AsUnsigned(e.timeout)
  }

  predicate Exhausted(e: Entry, now: u32, maxRetry: u8) {
    Due(e, now) && e.retries >= maxRetry
  }

  /** `fails` holds the numbers whose retransmission the lower layer refuses. */
  predicate Resends(e: Entry, now: u32, maxRetry: u8, fails: set<u32>) {
    Due(e, now) && e.retries < maxRetry && e.pn !in fails
  }

  function TickQueue(q: Queue, now: u32, maxRetry: u8, fails: set<u32>): (r: Queue)
  {
    if q == [] then []
    else if Exhausted(q[0], now, maxRetry) then TickQueue(q[1..], now, maxRetry, fails)
    else [if Resends(q[0], now, maxRetry, fails) then Resent(q[0], now) else q[0]]
         + TickQueue(q[1..], now, maxRetry, fails)
  }

  function TickResent(q: Queue, now: u32, maxRetry: u8, fails: set<u32>): (r: Queue)
    ensures forall e :: e in r <==> e in q && Resends(e, now, maxRetry, fails)
  {
    if q == [] then []
    else (if Resends(q[0], now, maxRetry, fails) then [q[0]] else []) + TickResent(q[1..], now, maxRetry, fails)
  }

  function TickDropped(q: Queue, now: u32, maxRetry: u8): (r: Queue)
    ensures forall e :: e in r <==> e in q && Exhausted(e, now, maxRetry)
  {
    if q == [] then []
    else (if Exhausted(q[0], now, maxRetry) then [q[0]] else []) + TickDropped(q[1..], now, maxRetry)
  }

  /** What a tick leaves: the survivors, with only their retransmission state changed. */
  lemma {:induction false} TickKeeps(q: Queue, now: u32, maxRetry: u8, fails: set<u32>)
    ensures forall e :: e in TickQueue(q, now, maxRetry, fails) ==>
              exists o :: o in q && !Exhausted(o, now, maxRetry) && e.pn == o.pn && e.data == o.data
    ensures forall o :: o in q && !Exhausted(o, now, maxRetry) ==> Has(TickQueue(q, now, maxRetry, fails), o.pn)
  {
    if q != [] {
      TickKeeps(q[1..], now, maxRetry, fails);
      var t := TickQueue(q[1..], now, maxRetry, fails);
      var r := TickQueue(q, now, maxRetry, fails);
      forall e | e in r
        ensures exists o :: o in q && !Exhausted(o, now, maxRetry) && e.pn == o.pn && e.data == o.data
      {
        if e in t {
          var o :| o in q[1..] && !Exhausted(o, now, maxRetry) && e.pn == o.pn && e.data == o.data;
          assert o in q;
        } else {
          assert q[0] in q;
        }
      }
      forall o | o in q && !Exhausted(o, now, maxRetry) ensures Has(r, o.pn) {
        if o in q[1..] {
          var e :| e in t && e.pn == o.pn;
          assert e in r;
        } else {
          assert o == q[0] && r[0] in r;
        }
      }
    }
  }

  lemma ConsAscending(e: Entry, q: Queue)
    requires Ascending(q) && forall f :: f in q ==> e.pn < f.pn
    ensures Ascending([e] + q)
  {
  }

  lemma {:induction false} TickAscending(q: Queue, now: u32, maxRetry: u8, fails: set<u32>)
    requires Ascending(q)
    ensures Ascending(TickQueue(q, now, maxRetry, fails))
  {
    if q != [] {
      TickAscending(q[1..], now, maxRetry, fails);
      TickKeeps(q[1..], now, maxRetry, fails);
      var t := TickQueue(q[1..], now, maxRetry, fails);
      forall e | e in t ensures q[0].pn < e.pn {
        var o :| o in q[1..] && !Exhausted(o, now, maxRetry) && e.pn == o.pn && e.data == o.data;
      }
      hide Ascending, Exhausted, Resends;
      ConsAscending(q[0], t);
      ConsAscending(Resent(q[0], now), t);
    }
  }

  // ---- Bounded retry ----

  /**
   * Retransmissions an entry has left, plus its final report. SACK-driven
   * retransmission ignores the limit, so `retries` may already exceed it.
   */
  function Remaining(e: Entry, maxRetry: u8): nat {
    if e.retries >= maxRetry then 1 else maxRetry - e.retries + 1
  }

  function Budget(q: Queue, maxRetry: u8): nat {
    if q == [] then 0 else Remaining(q[0], maxRetry) + Budget(q[1..], maxRetry)
  }

  function TickWork(q: Queue, t: TickInput, maxRetry: u8): nat {
    |TickResent(q, t.now, maxRetry, t.fails)| + |TickDropped(q, t.now, maxRetry)|
  }

  /**
   * Every retransmission and every retry-exhausted report is paid for by exactly
   * one unit of the budget, so without new packets the two can never outnumber it.
   */
  lemma {:induction false} TickSpendsBudget(q: Queue, t: TickInput, maxRetry: u8)
    ensures Budget(TickQueue(q, t.now, maxRetry, t.fails), maxRetry) + TickWork(q, t, maxRetry)
         == Budget(q, maxRetry)
  {
    if q != [] {
      TickSpendsBudget(q[1..], t, maxRetry);
      var rest := TickQueue(q[1..], t.now, maxRetry, t.fails);
      var r := TickQueue(q, t.now, maxRetry, t.fails);
      if Exhausted(q[0], t.now, maxRetry) {
        assert r == rest;
      } else {
        assert r[1..] == rest;
      }
    }
  }

  datatype TickInput = TickInput(now: u32, fails: set<u32>)

  function RunTicks(q: Queue, maxRetry: u8, ticks: seq<TickInput>): Queue
    decreases |ticks|
  {
    if ticks == [] then q
    else RunTicks(TickQueue(q, ticks[0].now, maxRetry, ticks[0].fails), maxRetry, ticks[1..])
  }

  /** Retransmissions and reports over a run of ticks. */
  function RunWork(q: Queue, maxRetry: u8, ticks: seq<TickInput>): nat
    decreases |ticks|
  {
    if ticks == [] then 0
    else TickWork(q, ticks[0], maxRetry)
         + RunWork(TickQueue(q, ticks[0].now, maxRetry, ticks[0].fails), maxRetry, ticks[1..])
  }

  /** Conservation over any run of ticks, whatever the times and send failures. */
  lemma {:induction false} RunSpendsBudget(q: Queue, maxRetry: u8, ticks: seq<TickInput>)
    ensures RunWork(q, maxRetry, ticks) + Budget(RunTicks(q, maxRetry, ticks), maxRetry) == Budget(q, maxRetry)
    decreases |ticks|
  {
    if ticks != [] {
      TickSpendsBudget(q, ticks[0], maxRetry);
      RunSpendsBudget(TickQueue(q, ticks[0].now, maxRetry, ticks[0].fails), maxRetry, ticks[1..]);
    }
  }

  /** The backoff loop: double up to ten times, stop at the cap. */
  method CalcBackoff(initial: int, retries: u8) returns (backoff: int)
    ensures backoff == Backoff(initial, retries)
  {
    backoff := initial;
    var n := if retries > 10 then 10 else retries;
    var i := 0;
    while i < n
      invariant 0 <= i <= n && Doubled(initial, n) == Doubled(backoff, n - i)
    {
      backoff := 2 * backoff;
      if backoff > BACKOFF_CAP {
        backoff := BACKOFF_CAP;
        break;
      }
      i := i + 1;
    }
  }

  /** Some doubling of the loop leaves the signed 32-bit range. */
  predicate Overflows(timeout: int, n: nat)
    decreases n
  {
    n > 0 && (!(-TWO_31 <= 2 * timeout < TWO_31) || (2 * timeout <= BACKOFF_CAP && Overflows(2 * timeout, n - 1)))
  }

  /** The loop stays within the code's signed integers exactly for timeouts below 2^30 and not too far below 0. */
  lemma {:induction false} OverflowsIff(timeout: int, n: nat)
    ensures Overflows(timeout, n) <==> n > 0 && (timeout >= 0x4000_0000 || timeout * Pow2(n) < -TWO_31)
    decreases n
  {
    if n > 0 {
      ScaleStep(timeout, n);
      OverflowsIff(2 * timeout, n - 1);
      ScaleSign(2 * timeout, n - 1);
      assert Pow2(0) == 1;
    }
  }

  lemma ScaleSign(timeout: int, n: nat)
    ensures timeout >= 0 ==> timeout * Pow2(n) >= 0
    ensures timeout <= 0 ==> timeout * Pow2(n) <= timeout
  {
    PowPositive(n);
    var p := Pow2(n);
    if timeout <= 0 {
      assert timeout * p == timeout + timeout * (p - 1);
      assert timeout * (p - 1) <= 0;
    }
  }

  // ---- The life of one packet under ticks alone ----

  datatype Life = Life(alive: bool, last: Entry, resends: nat, reports: nat)

  function Follow(e: Entry, maxRetry: u8, ticks: seq<TickInput>): Life
    decreases |ticks|
  {
    if ticks == [] then Life(true, e, 0, 0)
    else if Exhausted(e, ticks[0].now, maxRetry) then Life(false, e, 0, 1)
    else if Resends(e, ticks[0].now, maxRetry, ticks[0].fails) then
      var l := Follow(Resent(e, ticks[0].now), maxRetry, ticks[1..]);
      l.(resends := l.resends + 1)
    else Follow(e, maxRetry, ticks[1..])
  }

  /** The queue after a run of ticks is what following each entry on its own predicts. */
  function Survivors(q: Queue, maxRetry: u8, ticks: seq<TickInput>): Queue {
    if q == [] then []
    else (if Follow(q[0], maxRetry, ticks).alive then [Follow(q[0], maxRetry, ticks).last] else [])
         + Survivors(q[1..], maxRetry, ticks)
  }

  lemma {:induction false} SurvivorsStep(q: Queue, maxRetry: u8, ticks: seq<TickInput>)
    requires ticks != []
    ensures Survivors(q, maxRetry, ticks)
         == Survivors(TickQueue(q, ticks[0].now, maxRetry, ticks[0].fails), maxRetry, ticks[1..])
  {
    if q != [] {
      SurvivorsStep(q[1..], maxRetry, ticks);
      var t := ticks[0];
      var rest := TickQueue(q[1..], t.now, maxRetry, t.fails);
      var r := TickQueue(q, t.now, maxRetry, t.fails);
      if Exhausted(q[0], t.now, maxRetry) {
        assert r == rest;
      } else {
        assert r[1..] == rest;
      }
    }
  }

  lemma {:induction false} SurvivorsOfNone(q: Queue, maxRetry: u8)
    ensures Survivors(q, maxRetry, []) == q
  {
    if q != [] {
      SurvivorsOfNone(q[1..], maxRetry);
    }
  }

  lemma {:induction false} RunFollowsEachPacket(q: Queue, maxRetry: u8, ticks: seq<TickInput>)
    ensures RunTicks(q, maxRetry, ticks) == Survivors(q, maxRetry, ticks)
    decreases |ticks|
  {
    if ticks == [] {
      SurvivorsOfNone(q, maxRetry);
    } else {
      SurvivorsStep(q, maxRetry, ticks);
      RunFollowsEachPacket(TickQueue(q, ticks[0].now, maxRetry, ticks[0].fails), maxRetry, ticks[1..]);
    }
  }

  function Pow2(n: nat): nat {
    if n == 0 then 1 else 2 * Pow2(n - 1)
  }

  function Min(a: int, b: int): int {
    if a < b then a else b
  }

  /** Halving the exponent's last step: both sides are `timeout * 2^n`. */
  lemma ScaleStep(timeout: int, n: nat)
    requires n > 0
    ensures timeout * Pow2(n) == (2 * timeout) * Pow2(n - 1)
  {
    var p := Pow2(n - 1);
    assert timeout * (2 * p) == (2 * timeout) * p;
  }

  lemma ScaleGrows(timeout: int, n: nat)
    requires 0 < timeout
    ensures timeout * Pow2(n) >= timeout
  {
    PowPositive(n);
    var p := Pow2(n);
    assert timeout * (p - 1) >= 0;
  }

  lemma {:induction false} DoubledIs(timeout: int, n: nat)
    requires 0 < timeout <= BACKOFF_CAP
    ensures Doubled(timeout, n) == Min(BACKOFF_CAP, timeout * Pow2(n))
    decreases n
  {
    if n > 0 {
      ScaleStep(timeout, n);
      if 2 * timeout > BACKOFF_CAP {
        ScaleGrows(2 * timeout, n - 1);
      } else {
        DoubledIs(2 * timeout, n - 1);
      }
    }
  }

  lemma {:induction false} PowPositive(n: nat)
    ensures Pow2(n) >= 1
  {
    if n > 0 { PowPositive(n - 1); }
  }

  lemma CappedGrows(initial: int, n: nat)
    requires 0 < initial
    ensures Min(BACKOFF_CAP, initial * Pow2(n)) <= Min(BACKOFF_CAP, initial * Pow2(n + 1))
  {
    ScaleGrows(initial, n);
    var p := Pow2(n);
    assert initial * (2 * p) == 2 * (initial * p);
  }

  /** The timeout after `k` retransmissions: exponential up to 30 seconds, never shrinking. */
  lemma BackoffIs(initial: int, k: nat)
    requires 0 < initial <= BACKOFF_CAP
    ensures Backoff(initial, k) == Min(BACKOFF_CAP, initial * Pow2(Min(k, 10)))
    ensures Backoff(initial, k) <= Backoff(initial, k + 1) <= BACKOFF_CAP
  {
    hide Pow2, Doubled;
    DoubledIs(initial, Min(k, 10));
    DoubledIs(initial, Min(k + 1, 10));
    CappedGrows(initial, Min(k, 10));
  }

  /**
   * The send interface takes any timeout; the timeout never shrinks if and only if
   * it starts at 30 seconds or less, since the first retransmission cuts it there.
   */
  lemma NeverShrinksIff(initial: int)
    requires 0 < initial
    ensures (forall k: nat :: Backoff(initial, k) <= Backoff(initial, k + 1)) <==> initial <= BACKOFF_CAP
  {
    if initial <= BACKOFF_CAP {
      forall k: nat ensures Backoff(initial, k) <= Backoff(initial, k + 1) {
        BackoffIs(initial, k);
      }
    } else {
      assert Backoff(initial, 0) == initial && Backoff(initial, 0 + 1) == BACKOFF_CAP;
    }
  }

  /** Above the cap the first retransmission, and every later one, waits the cap. */
  lemma CappedAtOnce(initial: int, k: nat)
    requires initial > BACKOFF_CAP && k > 0
    ensures Backoff(initial, 0) == initial && Backoff(initial, k) == BACKOFF_CAP
  {
  }

  lemma RetriedTimeout(initial: int, k: nat)
    requires 0 < initial && k > 0
    ensures 0 < Backoff(initial, k) <= BACKOFF_CAP
  {
    if initial <= BACKOFF_CAP {
      BackoffIs(initial, k);
      ScaleGrows(initial, Min(k, 10));
    } else {
      CappedAtOnce(initial, k);
    }
  }

  /**
   * Under ticks alone a packet is retransmitted at most `maxRetry - retries`
   * times; if it is dropped it is reported exactly once, after using all of them;
   * and its current timeout is always the backoff of its retry count.
   */
  lemma {:induction false} PacketLife(e: Entry, maxRetry: u8, ticks: seq<TickInput>)
    requires e.retries <= maxRetry && e.timeout == Backoff(e.initial, e.retries)
    ensures var l := Follow(e, maxRetry, ticks);
            && l.resends <= maxRetry - e.retries
            && l.reports == (if l.alive then 0 else 1)
            && (!l.alive ==> l.resends == maxRetry - e.retries)
            && l.last.retries == e.retries + l.resends
            && l.last.timeout == Backoff(e.initial, e.retries + l.resends)
            && l.last.(retries := e.retries, timeout := e.timeout, sentAt := e.sentAt) == e
    decreases |ticks|
  {
    if ticks != [] {
      var t := ticks[0];
      if Exhausted(e, t.now, maxRetry) {
      } else if Resends(e, t.now, maxRetry, t.fails) {
        PacketLife(Resent(e, t.now), maxRetry, ticks[1..]);
      } else {
        PacketLife(e, maxRetry, ticks[1..]);
      }
    }
  }

  // ---- When a packet becomes due, and what then becomes of it ----

  /** A packet becomes due at some clock reading if and only if it was not stamped at reading 0. */
  lemma DueSometimeIff(e: Entry)
    ensures (exists t: u32 :: Due(e, t)) <==> e.sentAt != 0
  {
    if e.sentAt != 0 {
      var t := Add32(e.sentAt, AsUnsigned(e.timeout));
      ElapsedIs(e.sentAt, AsUnsigned(e.timeout));
      assert Due(e, t);
    }
  }

  lemma ElapsedIs(stamp: u32, n: u32)
    ensures Sub32(Add32(stamp, n), stamp) == n
  {
  }

  function Acts(l: Life): nat {
    l.resends + l.reports
  }

  /** Some run of ticks retransmits or reports a packet if and only if it was not stamped at reading 0. */
  lemma ActsSometimeIff(e: Entry, maxRetry: u8)
    ensures (exists ticks: seq<TickInput> :: Acts(Follow(e, maxRetry, ticks)) > 0) <==> e.sentAt != 0
  {
    if e.sentAt == 0 {
      forall ticks: seq<TickInput> ensures Acts(Follow(e, maxRetry, ticks)) == 0 {
        UnstampedRests(e, maxRetry, ticks);
      }
    } else {
      DueSometimeIff(e);
      var t: u32 :| Due(e, t);
      var ticks := [TickInput(t, {})];
      assert Acts(Follow(e, maxRetry, ticks)) > 0;
    }
  }

  lemma {:induction false} UnstampedRests(e: Entry, maxRetry: u8, ticks: seq<TickInput>)
    requires e.sentAt == 0
    ensures Follow(e, maxRetry, ticks) == Life(true, e, 0, 0)
    decreases |ticks|
  {
    if ticks != [] {
      UnstampedRests(e, maxRetry, ticks[1..]);
    }
  }

  /**
   * A packet queued with stamp 0 is in the queue unchanged after every run of
   * ticks, and the next tick neither retransmits nor reports it.
   */
  lemma {:induction false} UnstampedStays(q: Queue, e: Entry, maxRetry: u8, ticks: seq<TickInput>, t: TickInput)
    requires e in q && e.sentAt == 0
    ensures var r := RunTicks(q, maxRetry, ticks);
      e in r && e !in TickResent(r, t.now, maxRetry, t.fails) && e !in TickDropped(r, t.now, maxRetry)
    decreases |ticks|
  {
    if ticks != [] {
      UnstampedInTick(q, e, maxRetry, ticks[0]);
      UnstampedStays(TickQueue(q, ticks[0].now, maxRetry, ticks[0].fails), e, maxRetry, ticks[1..], t);
    }
  }

  lemma {:induction false} UnstampedInTick(q: Queue, e: Entry, maxRetry: u8, t: TickInput)
    requires e in q && e.sentAt == 0
    ensures e in TickQueue(q, t.now, maxRetry, t.fails)
  {
    if q[0] != e {
      assert e in q[1..];
      UnstampedInTick(q[1..], e, maxRetry, t);
    }
  }

  // ---- Every packet ends ----

  /** The clock reads at least the packet's timeout past its stamp. */
  predicate Reached(e: Entry, now: u32) {
    e.sentAt != 0 && Sub32(now, e.sentAt) >= Wrap32(e.timeout)
  }

  /** At how many of the ticks the timeout of the moment is reached. */
  function Fires(e: Entry, ticks: seq<TickInput>): nat
    decreases |ticks|
  {
    if ticks == [] then 0
    else if Reached(e, ticks[0].now) then 1 + Fires(Resent(e, ticks[0].now), ticks[1..])
    else Fires(e, ticks[1..])
  }

  predicate Takes(pn: u32, ticks: seq<TickInput>) {
    forall k :: 0 <= k < |ticks| ==> pn !in ticks[k].fails
  }

  /** Retransmissions the retry limit leaves a packet. */
  function Left(e: Entry, maxRetry: u8): nat {
    if e.retries >= maxRetry then 0 else maxRetry - e.retries
  }

  /**
   * With the lower layer taking every retransmission, a packet is sent again at
   * each tick that reaches its timeout of the moment, as often as the limit allows,
   * and is removed and reported once at the next such tick, and at no other.
   */
  lemma {:induction false} PacketEndsIff(e: Entry, maxRetry: u8, ticks: seq<TickInput>)
    requires Takes(e.pn, ticks)
    ensures var l, fires := Follow(e, maxRetry, ticks), Fires(e, ticks);
      && (!l.alive <==> fires > Left(e, maxRetry))
      && l.resends == (if fires > Left(e, maxRetry) then Left(e, maxRetry) else fires)
      && l.reports == (if fires > Left(e, maxRetry) then 1 else 0)
    decreases |ticks|
  {
    if ticks != [] {
      assert e.pn !in ticks[0].fails;
      var more := if Reached(e, ticks[0].now) && e.retries < maxRetry then Resent(e, ticks[0].now) else e;
      assert Takes(more.pn, ticks[1..]);
      PacketEndsIff(more, maxRetry, ticks[1..]);
    }
  }

  /** Every tick comes when the packet's own timeout of the moment is over, and never at reading 0. */
  predicate Paced(e: Entry, ticks: seq<TickInput>)
    decreases |ticks|
  {
    ticks != [] ==>
      ticks[0].now != 0 && Sub32(ticks[0].now, e.sentAt) >= Wrap32(e.timeout) && Paced(Resent(e, ticks[0].now), ticks[1..])
  }

  lemma {:induction false} PacedFires(e: Entry, ticks: seq<TickInput>)
    requires e.sentAt != 0 && Paced(e, ticks)
    ensures Fires(e, ticks) == |ticks|
    decreases |ticks|
  {
    if ticks != [] {
      PacedFires(Resent(e, ticks[0].now), ticks[1..]);
    }
  }

  /** Ticks in the packet's own pace of backoff, one more than the limit allows resends, end it. */
  lemma PacketEnds(e: Entry, maxRetry: u8, ticks: seq<TickInput>)
    requires e.sentAt != 0 && Paced(e, ticks) && Takes(e.pn, ticks) && |ticks| > Left(e, maxRetry)
    ensures var l := Follow(e, maxRetry, ticks); !l.alive && l.reports == 1 && l.resends == Left(e, maxRetry)
  {
    PacedFires(e, ticks);
    PacketEndsIff(e, maxRetry, ticks);
  }

  /**
   * A retransmission is stamped with its tick and counted in 8 bits. The `k`-th
   * resend waits `min(30000, initial * 2^k)`, no further doubling after the tenth;
   * a timeout above 30 seconds is cut to that at once, and a count that wraps to 0
   * starts over.
   */
  lemma ResentIs(e: Entry, now: u32)
    ensures var r := Resent(e, now);
      && r.pn == e.pn && r.data == e.data && r.initial == e.initial && r.sentAt == now && r.retries == (e.retries + 1) % 256
      && (e.retries == 255 ==> r.timeout == e.initial)
      && (e.retries < 255 && e.initial > 30000 ==> r.timeout == 30000)
      && (e.retries < 255 && 0 < e.initial <= 30000 ==> r.timeout == Min(30000, e.initial * Pow2(Min(e.retries + 1, 10))))
  {
    hide Backoff, Pow2, Doubled;
    BackoffOfNone(e.initial);
    if e.retries < 255 && e.initial > 30000 {
      CappedAtOnce(e.initial, e.retries + 1);
    }
    if e.retries < 255 && 0 < e.initial <= 30000 {
      BackoffIs(e.initial, e.retries + 1);
    }
  }

  lemma BackoffOfNone(initial: int)
    ensures Backoff(initial, 0) == initial
  {
  }

  predicate AllTaken(q: Queue, ticks: seq<TickInput>) {
    forall e :: e in q ==> Takes(e.pn, ticks)
  }

  function Limits(q: Queue, maxRetry: u8): nat {
    if q == [] then 0 else Left(q[0], maxRetry) + Limits(q[1..], maxRetry)
  }

  lemma {:induction false} BudgetIsLimits(q: Queue, maxRetry: u8)
    ensures Budget(q, maxRetry) == Limits(q, maxRetry) + |q|
  {
    if q != [] {
      BudgetIsLimits(q[1..], maxRetry);
    }
  }

  lemma {:induction false} NoneSurviveIff(q: Queue, maxRetry: u8, ticks: seq<TickInput>)
    requires AllTaken(q, ticks)
    ensures Survivors(q, maxRetry, ticks) == [] <==> forall e :: e in q ==> Fires(e, ticks) > Left(e, maxRetry)
  {
    if q != [] {
      assert q[0] in q && forall e :: e in q <==> e == q[0] || e in q[1..];
      PacketEndsIff(q[0], maxRetry, ticks);
      NoneSurviveIff(q[1..], maxRetry, ticks);
    }
  }

  /**
   * Ticks alone empty the queue exactly when each packet's timeout of the moment is
   * reached once more than the limit allows it resends; then every allowed
   * retransmission was made and every packet reported once.
   */
  lemma QueueEndsIff(q: Queue, maxRetry: u8, ticks: seq<TickInput>)
    requires AllTaken(q, ticks)
    ensures RunTicks(q, maxRetry, ticks) == [] <==> forall e :: e in q ==> Fires(e, ticks) > Left(e, maxRetry)
    ensures RunTicks(q, maxRetry, ticks) == [] ==> RunWork(q, maxRetry, ticks) == Limits(q, maxRetry) + |q|
  {
    NoneSurviveIff(q, maxRetry, ticks);
    RunFollowsEachPacket(q, maxRetry, ticks);
    RunSpendsBudget(q, maxRetry, ticks);
    BudgetIsLimits(q, maxRetry);
  }
}
