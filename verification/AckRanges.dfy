/**
 * What a list of ACK ranges acknowledges. `WalkSet` is the set of numbers the
 * descending walk visits; `Layout` is the declarative reading of the same list:
 * counting down from `largest`, the first range is acknowledged, and every later
 * non-empty range is preceded by `gap` unacknowledged numbers.
 */
module AckRanges {
  import opened Base

  datatype AckRange = AckRange(gap: u16, length: u16)

  function Span(low: nat, high: int): (s: set<nat>)
    ensures forall x :: x in s <==> low <= x <= high
    decreases high - low
  {
    if high < low then {} else {high} + Span(low, high - 1)
  }

  /** The upper end of block `i`; negative when the walk runs out of numbers. */
  function High(nextHigh: nat, r: AckRange, i: nat): int {
    if i > 0 then nextHigh - (r.gap + 1) else nextHigh
  }

  function Low(high: nat, r: AckRange): nat {
    if high + 1 > r.length then high - r.length + 1 else 0
  }

  function WalkSet(nextHigh: nat, ranges: seq<AckRange>, i: nat): set<nat>
    decreases |ranges| - i
  {
    if i >= |ranges| then {}
    else if ranges[i].length == 0 then WalkSet(nextHigh, ranges, i + 1)
    else
      var high := High(nextHigh, ranges[i], i);
      if high < 0 then {}
      else Span(Low(high, ranges[i]), high) + WalkSet(Low(high, ranges[i]), ranges, i + 1)
  }

  function AckSet(largest: u32, ranges: seq<AckRange>): set<nat> {
    WalkSet(largest, ranges, 0)
  }

  function Repeat(b: bool, n: nat): (s: seq<bool>)
    ensures |s| == n && forall k :: 0 <= k < n ==> s[k] == b
  {
    seq(n, _ => b)
  }

  function LaterLayout(ranges: seq<AckRange>, i: nat): seq<bool>
    decreases |ranges| - i
  {
    if i >= |ranges| then []
    else if ranges[i].length == 0 then LaterLayout(ranges, i + 1)
    else Repeat(false, ranges[i].gap) + Repeat(true, ranges[i].length) + LaterLayout(ranges, i + 1)
  }

  /** An empty first range still uses up the position of `largest`, unacknowledged. */
  function Layout(ranges: seq<AckRange>): seq<bool> {
    if ranges == [] then []
    else if ranges[0].length == 0 then [false] + LaterLayout(ranges, 1)
    else Repeat(true, ranges[0].length) + LaterLayout(ranges, 1)
  }

  /** The number `down` places below the top of a layout is acknowledged. */
  predicate Marked(layout: seq<bool>, down: int) {
    0 <= down < |layout| && layout[down]
  }

  /** One later block on its own, in the coordinates of the layout. */
  lemma BlockIsLayout(low: nat, r: AckRange, i: nat, x: nat)
    requires i > 0 && r.length > 0
    ensures var high := High(low, r, i);
      (high >= 0 && Low(high, r) <= x <= high) <==> (x < low && r.gap <= low - 1 - x < r.gap + r.length)
  {
  }

  lemma WalkUnfolds(nextHigh: nat, ranges: seq<AckRange>, i: nat, x: nat)
    requires i < |ranges| && ranges[i].length > 0
    ensures var high := High(nextHigh, ranges[i], i);
      x in WalkSet(nextHigh, ranges, i) <==>
        (high >= 0 && (Low(high, ranges[i]) <= x <= high || x in WalkSet(Low(high, ranges[i]), ranges, i + 1)))
  {
  }

  lemma {:induction false} LaterWalk(low: nat, ranges: seq<AckRange>, i: nat, x: nat)
    requires i > 0
    ensures x in WalkSet(low, ranges, i) <==> x < low && Marked(LaterLayout(ranges, i), low - 1 - x)
    decreases |ranges| - i
  {
    if i < |ranges| {
      var r := ranges[i];
      if r.length == 0 {
        LaterWalk(low, ranges, i + 1, x);
      } else {
        var high := High(low, r, i);
        WalkUnfolds(low, ranges, i, x);
        BlockIsLayout(low, r, i, x);
        MarkedSplit(r, LaterLayout(ranges, i + 1), low - 1 - x);
        if high >= 0 {
          LaterWalk(Low(high, r), ranges, i + 1, x);
        }
      }
    }
  }

  lemma MarkedSplit(r: AckRange, rest: seq<bool>, d: int)
    ensures Marked(Repeat(false, r.gap) + Repeat(true, r.length) + rest, d)
       <==> (r.gap <= d < r.gap + r.length || Marked(rest, d - r.gap - r.length))
  {
    var l := Repeat(false, r.gap) + Repeat(true, r.length) + rest;
    if r.gap + r.length <= d < |l| {
      assert l[d] == rest[d - r.gap - r.length];
    }
  }

  lemma ConsMarked(rest: seq<bool>, d: int)
    ensures Marked([false] + rest, d) <==> Marked(rest, d - 1)
  {
  }

  lemma FirstMarked(n: nat, rest: seq<bool>, d: int)
    ensures Marked(Repeat(true, n) + rest, d) <==> 0 <= d < n || Marked(rest, d - n)
  {
  }

  lemma FirstBlock(largest: u32, ranges: seq<AckRange>, x: nat)
    requires ranges != [] && ranges[0].length > 0
    ensures x in AckSet(largest, ranges) <==>
              (0 <= largest - x < ranges[0].length || Marked(LaterLayout(ranges, 1), largest - x - ranges[0].length))
  {
    var low := Low(largest, ranges[0]);
    WalkUnfolds(largest, ranges, 0, x);
    LaterWalk(low, ranges, 1, x);
    hide LaterLayout, WalkSet;
  }

  /** The walk acknowledges exactly the numbers the layout marks. */
  lemma AckSetIsLayout(largest: u32, ranges: seq<AckRange>, x: nat)
    ensures x in AckSet(largest, ranges) <==> Marked(Layout(ranges), largest - x)
  {
    if ranges != [] {
      hide Repeat, Marked, LaterLayout;
      var rest := LaterLayout(ranges, 1);
      if ranges[0].length == 0 {
        LaterWalk(largest, ranges, 1, x);
        ConsMarked(rest, largest - x);
      } else {
        FirstBlock(largest, ranges, x);
        FirstMarked(ranges[0].length, rest, largest - x);
      }
    }
  }

  /** Later blocks lie strictly below the block before them, so blocks never overlap. */
  lemma {:induction false} WalkDescends(low: nat, ranges: seq<AckRange>, i: nat)
    requires i > 0
    ensures forall x :: x in WalkSet(low, ranges, i) ==> x < low
    decreases |ranges| - i
  {
    forall x | x in WalkSet(low, ranges, i) ensures x < low {
      LaterWalk(low, ranges, i, x);
    }
  }

  /** The receiver's own ACKs name one packet. */
  lemma SingleAck(pn: u32)
    ensures AckSet(pn, [AckRange(0, 1)]) == {pn}
  {
    var rs := [AckRange(0, 1)];
    assert WalkSet(pn, rs, 1) == {};
    assert AckSet(pn, rs) == Span(pn, pn) + {};
  }
}
