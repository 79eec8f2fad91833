/**
 * The wait-ACK queue as a value: one entry per committed packet that has been
 * neither acknowledged nor given up, oldest first.
 */
module Reliable {
  import opened Base

  const BACKOFF_CAP := 30000

  datatype Entry = Entry(pn: u32, data: Bytes, retries: u8, sentAt: u32, timeout: int, initial: int)

  type Queue = seq<Entry>

  ghost predicate Ascending(q: Queue) {
    forall i, j :: 0 <= i < j < |q| ==> q[i].pn < q[j].pn
  }

  predicate Has(q: Queue, pn: u32) {
    exists e :: e in q && e.pn == pn
  }

  /** The first entry carrying a number. */
  function Lookup(q: Queue, pn: u32): (e: Entry)
    requires Has(q, pn)
    ensures e in q && e.pn == pn
  {
    if q[0].pn == pn then q[0] else
      assert Has(q[1..], pn) by {
        var e :| e in q && e.pn == pn;
        assert q == [q[0]] + q[1..];
        assert e in q[1..];
      }
      Lookup(q[1..], pn)
  }

  function Without(q: Queue, gone: set<u32>): (r: Queue)
    ensures forall e :: e in r <==> e in q && e.pn !in gone
  {
    if q == [] then []
    else if q[0].pn in gone then Without(q[1..], gone)
    else [q[0]] + Without(q[1..], gone)
  }

  function Only(q: Queue, kept: set<u32>): (r: Queue)
    ensures forall e :: e in r <==> e in q && e.pn in kept
  {
    if q == [] then []
    else if q[0].pn in kept then [q[0]] + Only(q[1..], kept)
    else Only(q[1..], kept)
  }

  /** Doubles `n` times; the first value above the cap is replaced by the cap. */
  function Doubled(timeout: int, n: nat): int
    decreases n
  {
    if n == 0 then timeout
    else if 2 * timeout > BACKOFF_CAP then BACKOFF_CAP
    else Doubled(2 * timeout, n - 1)
  }

  function Backoff(initial: int, retries: nat): int {
    Doubled(initial, if retries > 10 then 10 else retries)
  }

  /** The retransmission state after one more transmission at `now`. */
  function Resent(e: Entry, now: u32): Entry {
    var n := (e.retries + 1) % 256;
    e.(retries := n, timeout := Backoff(e.initial, n), sentAt := now)
  }

  function Touch(q: Queue, touched: set<u32>, now: u32): (r: Queue)
    ensures |r| == |q|
    ensures forall i :: 0 <= i < |q| ==> r[i] == if q[i].pn in touched then Resent(q[i], now) else q[i]
  {
    if q == [] then []
    else [if q[0].pn in touched then Resent(q[0], now) else q[0]] + Touch(q[1..], touched, now)
  }

  // ---- Algebra of the three queue operations ----

  lemma {:induction false} WithoutTail(q: Queue, gone: set<u32>)
    requires Ascending(q)
    ensures Ascending(Without(q, gone))
    ensures |Without(q, gone)| <= |q|
  {
    if q != [] {
      WithoutTail(q[1..], gone);
      var r := Without(q[1..], gone);
      if q[0].pn !in gone {
        var s := [q[0]] + r;
        forall i, j | 0 <= i < j < |s| ensures s[i].pn < s[j].pn {
          assert s[j] in r;
          assert s[j] in q[1..];
        }
      }
    }
  }

  lemma TouchAscending(q: Queue, touched: set<u32>, now: u32)
    requires Ascending(q)
    ensures Ascending(Touch(q, touched, now))
  {
  }

  lemma {:induction false} WithoutTwice(q: Queue, a: set<u32>, b: set<u32>)
    ensures Without(Without(q, a), b) == Without(q, a + b)
  {
    if q != [] {
      WithoutTwice(q[1..], a, b);
      var r := Without(q[1..], a);
      if q[0].pn !in a {
        assert ([q[0]] + r)[1..] == r;
      }
    }
  }

  lemma {:induction false} WithoutNone(q: Queue, gone: set<u32>)
    requires forall e :: e in q ==> e.pn !in gone
    ensures Without(q, gone) == q
  {
    if q != [] {
      WithoutNone(q[1..], gone);
    }
  }

  lemma {:induction false} OnlyWithout(q: Queue, gone: set<u32>, kept: set<u32>)
    requires gone !! kept
    ensures Only(Without(q, gone), kept) == Only(q, kept)
  {
    if q != [] {
      OnlyWithout(q[1..], gone, kept);
      if q[0].pn !in gone {
        assert Without(q, gone)[1..] == Without(q[1..], gone);
      }
    }
  }

  /** Removal and retransmission of different numbers commute. */
  lemma {:induction false} WithoutTouch(q: Queue, gone: set<u32>, touched: set<u32>, now: u32)
    ensures Without(Touch(q, touched, now), gone) == Touch(Without(q, gone), touched, now)
  {
    if q != [] {
      WithoutTouch(q[1..], gone, touched, now);
      assert Touch(q, touched, now)[1..] == Touch(q[1..], touched, now);
      if q[0].pn !in gone {
        assert Without(q, gone)[1..] == Without(q[1..], gone);
      }
    }
  }

  lemma {:induction false} TouchTwice(q: Queue, a: set<u32>, b: set<u32>, now: u32)
    requires a !! b
    ensures Touch(Touch(q, a, now), b, now) == Touch(q, a + b, now)
  {
  }

  /** Restriction ignores retransmission of numbers it leaves out. */
  lemma {:induction false} OnlyTouch(q: Queue, touched: set<u32>, kept: set<u32>, now: u32)
    requires touched !! kept
    ensures Only(Touch(q, touched, now), kept) == Only(q, kept)
  {
    if q != [] {
      OnlyTouch(q[1..], touched, kept, now);
      assert Touch(q, touched, now)[1..] == Touch(q[1..], touched, now);
    }
  }

  /** The smallest kept number comes first. */
  lemma {:induction false} OnlyLeast(q: Queue, pn: u32, more: set<u32>)
    requires Ascending(q) && Has(q, pn)
    requires forall m :: m in more ==> pn < m
    ensures Only(q, {pn} + more) == [Lookup(q, pn)] + Only(q, more)
  {
    if q[0].pn == pn {
      OnlySame(q[1..], pn, more);
    } else {
      var e := Lookup(q, pn);
      assert q[0].pn < pn by {
        var i :| 0 <= i < |q| && q[i] == e;
      }
      assert e in q[1..];
      OnlyLeast(q[1..], pn, more);
    }
  }

  lemma {:induction false} OnlySame(q: Queue, pn: u32, more: set<u32>)
    requires forall e :: e in q ==> e.pn != pn
    ensures Only(q, {pn} + more) == Only(q, more)
  {
    if q != [] {
      OnlySame(q[1..], pn, more);
    }
  }

  lemma LookupUnique(q: Queue, e: Entry)
    requires Ascending(q) && e in q
    ensures Lookup(q, e.pn) == e
  {
    var f := Lookup(q, e.pn);
    var i :| 0 <= i < |q| && q[i] == e;
    var j :| 0 <= j < |q| && q[j] == f;
  }
}
