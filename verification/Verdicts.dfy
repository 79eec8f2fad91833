/**
 * The replay check as an observer of the arrivals would state it: over whole runs,
 * from nothing but the numbers that came before.
 */
module Verdicts {
  import opened Base
  import opened Replay

  /** The keys that get a window: the first 16 different ones whose source is not 0. */
  ghost function Admitted(arrivals: seq<Arrival>): set<Key> {
    if arrivals == [] then {}
    else
      var n := |arrivals| - 1;
      var rest := Admitted(arrivals[..n]);
      if arrivals[n].key.source != 0 && |rest| < 16 then rest + {arrivals[n].key} else rest
  }

  lemma {:induction false} AtMostSixteen(arrivals: seq<Arrival>)
    ensures |Admitted(arrivals)| <= 16
  {
    if arrivals != [] {
      AtMostSixteen(arrivals[..|arrivals| - 1]);
    }
  }

  /** Windows are taken from the front of the table. */
  predicate TakenUpTo(t: Table, n: nat) {
    |t| == 16 && n <= 16 && forall i :: 0 <= i < 16 ==> (t[i].Some? <==> i < n)
  }

  /** Everything recorded came, and everything that came and is not too old is recorded. */
  ghost predicate Records(arrivals: seq<Arrival>, seen: map<Key, set<u32>>) {
    && seen.Keys == Admitted(arrivals)
    && (forall key, pn :: key in seen && pn in seen[key] ==> Arrival(key, pn) in arrivals)
    && (forall a :: a in arrivals && a.key in seen && Recent(arrivals, a) ==> a.pn in seen[a.key])
  }

  /** Fewer than 64 behind the largest number of its key. */
  predicate Recent(arrivals: seq<Arrival>, a: Arrival) {
    Highest(arrivals, a.key).Some? && Highest(arrivals, a.key).value - a.pn < 64
  }

  lemma FreeIs(t: Table, n: nat)
    requires TakenUpTo(t, n)
    ensures FreeSlot(t) == n
  {
    var f := FreeSlot(t);
    assert f < |t| ==> t[f].None?;
    assert n < 16 ==> t[n].None?;
  }

  lemma HeldIff(t: Table, seen: map<Key, set<u32>>, key: Key)
    requires TableOk(t, seen)
    ensures key in seen <==> SlotOf(t, key) < |t|
  {
    hide Tracks;
    if SlotOf(t, key) < |t| {
      assert Holds(t[SlotOf(t, key)], key);
    }
  }

  /** What the table answers, from what is recorded. */
  lemma TableAnswers(t: Table, seen: map<Key, set<u32>>, n: nat, key: Key, pn: u32, highest: Option<u32>)
    requires TableOk(t, seen) && TakenUpTo(t, n) && LargestRight(t, highest, key)
    requires key in seen ==> seen[key] != {}
    ensures var r := CheckTable(t, key, pn);
      && TakenUpTo(r.table, if key !in seen && key.source != 0 && n < 16 then n + 1 else n)
      && (key in seen ==> highest.Some? && r.verdict == (if pn > highest.value then New else if highest.value - pn >= 64 then Reject
                                                         else if pn in seen[key] then Duplicate else New))
      && (key !in seen ==> r.verdict == if key.source != 0 && n < 16 then New else Reject)
  {
    HeldIff(t, seen, key);
    FreeIs(t, n);
    TableRefines(t, seen, key, pn);
    hide Check, TableOk, SlotOf, FreeSlot;
  }

  lemma SeenNonempty(t: Table, seen: map<Key, set<u32>>, key: Key, highest: Option<u32>)
    requires TableOk(t, seen) && key in seen && LargestRight(t, highest, key)
    ensures seen[key] != {}
  {
    HeldIff(t, seen, key);
    var i := SlotOf(t, key);
    assert t[i].Some? && t[i].value.key == key && t[i].value.hasLargest;
    hide BitAt, SlotOf;
  }

  lemma {:induction false} RunRecords(arrivals: seq<Arrival>)
    ensures TakenUpTo(TableAfter(EmptyTable(), arrivals), |Admitted(arrivals)|)
    ensures Records(arrivals, SeenAfter(EmptyTable(), arrivals))
  {
    hide CheckTable, Highest, Recorded, Recent;
    if arrivals != [] {
      var n := |arrivals| - 1;
      RunRecords(arrivals[..n]);
      hide TakenUpTo, Records, Admitted;
      AnswersAfter(arrivals[..n], arrivals[n]);
      NewKeyIsFirst(arrivals[..n], arrivals[n].key);
      var t, seen := TableAfter(EmptyTable(), arrivals[..n]), SeenAfter(EmptyTable(), arrivals[..n]);
      RecordsStep(arrivals[..n], arrivals[n], seen, CheckTable(t, arrivals[n].key, arrivals[n].pn).verdict);
      assert arrivals[..n] + [arrivals[n]] == arrivals;
    }
  }

  /** The answer to one more arrival, from the largest number of its key and what is recorded. */
  ghost predicate AnswersFrom(front: seq<Arrival>, a: Arrival, seen: map<Key, set<u32>>, verdict: Verdict) {
    if a.key !in seen then verdict == if a.key.source != 0 && |Admitted(front)| < 16 then New else Reject
    else
      && Highest(front, a.key).Some?
      && var top := Highest(front, a.key).value;
         verdict == if a.pn > top then New else if top - a.pn >= 64 then Reject else if a.pn in seen[a.key] then Duplicate else New
  }

  lemma AnswersAfter(front: seq<Arrival>, a: Arrival)
    requires TakenUpTo(TableAfter(EmptyTable(), front), |Admitted(front)|) && Records(front, SeenAfter(EmptyTable(), front))
    ensures var r := CheckTable(TableAfter(EmptyTable(), front), a.key, a.pn); var seen := SeenAfter(EmptyTable(), front);
      && TakenUpTo(r.table, |Admitted(front + [a])|)
      && AnswersFrom(front, a, seen, r.verdict)
  {
    var t, seen := TableAfter(EmptyTable(), front), SeenAfter(EmptyTable(), front);
    RunTracks(front);
    RunLargest(front, a.key);
    AtMostSixteen(front);
    AdmitsOne(front, a);
    if a.key in seen { SeenNonempty(t, seen, a.key, Highest(front, a.key)); }
    assert seen.Keys == Admitted(front);
    hide CheckTable, TableOk, LargestRight, Highest, TakenUpTo, Records, TableAfter, SeenAfter;
    TableAnswers(t, seen, |Admitted(front)|, a.key, a.pn, Highest(front, a.key));
  }

  lemma AdmitsOne(front: seq<Arrival>, a: Arrival)
    ensures Admitted(front + [a]) == if a.key.source != 0 && |Admitted(front)| < 16 then Admitted(front) + {a.key} else Admitted(front)
    ensures a.key in Admitted(front) ==> Admitted(front + [a]) == Admitted(front)
    ensures a.key !in Admitted(front) && a.key.source != 0 && |Admitted(front)| < 16 ==> |Admitted(front + [a])| == |Admitted(front)| + 1
  {
    assert (front + [a])[..|front|] == front;
  }

  lemma HighestNext(front: seq<Arrival>, a: Arrival, key: Key)
    ensures Highest(front + [a], key) ==
      if a.key != key then Highest(front, key)
      else Some(if Highest(front, key).Some? then Max(Highest(front, key).value, a.pn) else a.pn)
  {
    assert (front + [a])[..|front|] == front;
  }

  lemma RecordsStep(front: seq<Arrival>, a: Arrival, seen: map<Key, set<u32>>, verdict: Verdict)
    requires Records(front, seen)
    requires AnswersFrom(front, a, seen, verdict)
    requires a.key !in seen && a.key.source != 0 && |Admitted(front)| < 16 ==> Highest(front, a.key).None?
    ensures Records(front + [a], Recorded(seen, a.key, a.pn, verdict))
  {
    var all, now := front + [a], Recorded(seen, a.key, a.pn, verdict);
    AdmitsOne(front, a);
    hide Highest, Admitted, Recent;
    assert now.Keys == Admitted(all);
    forall key, pn | key in now && pn in now[key] ensures Arrival(key, pn) in all {
      RecordedCame(front, a, seen, verdict, key, pn);
    }
    forall b | b in all && b.key in now && Recent(all, b) ensures b.pn in now[b.key] {
      RecentRecorded(front, a, seen, verdict, b);
    }
  }

  lemma RecordedCame(front: seq<Arrival>, a: Arrival, seen: map<Key, set<u32>>, verdict: Verdict, key: Key, pn: u32)
    requires Records(front, seen)
    requires var now := Recorded(seen, a.key, a.pn, verdict); key in now && pn in now[key]
    ensures Arrival(key, pn) in front + [a]
  {
    hide Highest, Admitted, Recent;
    if !(key in seen && pn in seen[key]) {
      assert (front + [a])[|front|] == a && a == Arrival(key, pn);
    }
  }

  lemma RecentRecorded(front: seq<Arrival>, a: Arrival, seen: map<Key, set<u32>>, verdict: Verdict, b: Arrival)
    requires Records(front, seen) && AnswersFrom(front, a, seen, verdict)
    requires a.key !in seen && a.key.source != 0 && |Admitted(front)| < 16 ==> Highest(front, a.key).None?
    requires b in front + [a] && b.key in Recorded(seen, a.key, a.pn, verdict) && Recent(front + [a], b)
    ensures b.pn in Recorded(seen, a.key, a.pn, verdict)[b.key]
  {
    hide Highest, Admitted, Recent;
    RecentBefore(front, a, b);
    if b != a {
      assert b in front;
      NoneBefore(front, b);
    }
  }

  lemma RecentBefore(front: seq<Arrival>, a: Arrival, b: Arrival)
    requires Recent(front + [a], b)
    ensures b in front ==> Recent(front, b)
    ensures b == a && Highest(front, a.key).Some? ==> Highest(front, a.key).value - a.pn < 64
  {
    HighestNext(front, a, b.key);
    if b in front {
      NoneBefore(front, b);
    }
  }

  lemma NoneBefore(front: seq<Arrival>, b: Arrival)
    requires b in front
    ensures Highest(front, b.key).Some?
  {
    var i :| 0 <= i < |front| && front[i] == b;
    HighestIs(front, i);
  }

  /**
   * Over any run, arrival `k` is answered by these rules alone: a sender's session
   * without a window is rejected; a number above all before it is new; one 64 or more
   * below the largest is rejected; otherwise it is a duplicate if it came before, and
   * new if it did not.
   */
  lemma VerdictIs(arrivals: seq<Arrival>, k: nat)
    requires k < |arrivals|
    ensures var before, a := arrivals[..k], arrivals[k]; var top := Highest(before, a.key);
      VerdictAt(EmptyTable(), arrivals, k) ==
        if a.key !in Admitted(before + [a]) then Reject
        else if top.None? || a.pn > top.value then New
        else if top.value - a.pn >= 64 then Reject
        else if a in before then Duplicate
        else New
  {
    var before, a := arrivals[..k], arrivals[k];
    var t, seen := TableAfter(EmptyTable(), before), SeenAfter(EmptyTable(), before);
    RunRecords(before);
    AnswersAfter(before, a);
    AdmitsOne(before, a);
    NewKeyIsFirst(before, a.key);
    hide CheckTable, TableOk, LargestRight, Highest, TakenUpTo, TableAfter, SeenAfter, Admitted;
  }

  lemma NewKeyIsFirst(front: seq<Arrival>, key: Key)
    requires TakenUpTo(TableAfter(EmptyTable(), front), |Admitted(front)|)
    ensures key !in SeenAfter(EmptyTable(), front) && key.source != 0 && |Admitted(front)| < 16 ==> Highest(front, key).None?
  {
    var t, seen := TableAfter(EmptyTable(), front), SeenAfter(EmptyTable(), front);
    RunTracks(front);
    RunLargest(front, key);
    HeldIff(t, seen, key);
    FreeIs(t, |Admitted(front)|);
    hide CheckTable, TableOk, Highest, TakenUpTo, TableAfter, SeenAfter, Admitted, Records;
  }
}
