/**
 * Splitting a message into frames and putting it back together: the send plan,
 * the pieces it cuts, and the proof that reassembly undoes the cut whatever the
 * order of arrival.
 */
module Fragmentation {
  import opened Base
  import opened FragmentRange
  import opened Reassembly
  import Frame
  import FrameAuth
  import Wire

  // ---- Frame sizes and the send plan ----

  const DATA_TYPE_EXT_SIZE := 3
  const FRAGMENT_EXT_SIZE := 14

  function AuthOverhead(tagLen: nat): nat {
    if tagLen > 0 then FrameAuth.SECURITY_EXT_SIZE + tagLen else 0
  }

  function SerializedSize(payloadLen: nat, extensionsLen: nat, tagLen: nat): nat {
    Wire.BASE_HEADER_SIZE + extensionsLen + AuthOverhead(tagLen) + payloadLen + Frame.CRC_SIZE
  }

  function PayloadBudget(maxFrame: nat, extensionsLen: nat, tagLen: nat): Option<nat> {
    var overhead := Wire.BASE_HEADER_SIZE + extensionsLen + AuthOverhead(tagLen) + Frame.CRC_SIZE;
    if maxFrame < overhead then None else Some(maxFrame - overhead)
  }

  /** `routeMax` is the route's own limit, if the target has a route. */
  datatype Context = Context(maxFrame: u16, routeMax: Option<u16>, tagLen: nat, fragmentation: bool)

  datatype Plan = Plan(maxFrame: u16, extensionsLen: nat, budget: nat, count: nat, fragmented: bool)

  datatype PlanResult = Planned(plan: Plan) | Refused(status: Status)

  function EffectiveMaxFrame(c: Context): u16 {
    if c.routeMax.Some? && c.routeMax.value < c.maxFrame then c.routeMax.value else c.maxFrame
  }

  function AppExtensions(dataType: u8): nat {
    if dataType != 0 then DATA_TYPE_EXT_SIZE else 0
  }

  function BuildPlan(c: Context, dataType: u8, len: nat): PlanResult {
    var max := EffectiveMaxFrame(c);
    var app := AppExtensions(dataType);
    if PayloadBudget(max, 0, c.tagLen).None? then Refused(InvalidParam)
    else match PayloadBudget(max, app, c.tagLen)
      case None => Refused(BufferTooSmall)
      case Some(budget) =>
        if len <= budget then Planned(Plan(max, app, budget, 1, false))
        else if !c.fragmentation then Refused(BufferTooSmall)
        else if budget <= FRAGMENT_EXT_SIZE then Refused(BufferTooSmall)
        else
          var b := budget - FRAGMENT_EXT_SIZE;
          Planned(Plan(max, app + FRAGMENT_EXT_SIZE, b, (len + b - 1) / b, true))
  }

  // ---- The pieces ----

  function Min(a: int, b: int): int {
    if a < b then a else b
  }

  function PieceStart(budget: nat, i: nat): nat {
    i * budget
  }

  function PieceEnd(len: nat, budget: nat, i: nat): int {
    Min(len, PieceStart(budget, i) + budget)
  }

  function Count(len: nat, budget: nat): nat
    requires budget > 0
  {
    (len + budget - 1) / budget
  }

  function Piece(message: Bytes, budget: nat, i: nat): Bytes
    requires budget > 0 && i < Count(|message|, budget)
  {
    PieceInside(|message|, budget, i);
    message[PieceStart(budget, i)..PieceEnd(|message|, budget, i)]
  }

  /** Which piece byte `x` belongs to. */
  function PieceOf(x: int, budget: nat): int
    requires budget > 0
  {
    x / budget
  }

  lemma DivBounds(a: nat, b: nat)
    requires b > 0
    ensures (a / b) * b <= a < (a / b) * b + b
  {
  }

  lemma {:induction false} MulMono(a: nat, b: nat, k: nat)
    requires a <= b
    ensures a * k <= b * k
  {
    assert (b - a) * k >= 0;
    assert b * k == a * k + (b - a) * k;
  }

  lemma PieceInside(len: nat, budget: nat, i: nat)
    requires budget > 0 && i < Count(len, budget)
    ensures 0 <= PieceStart(budget, i) < PieceEnd(len, budget, i) <= len
    ensures PieceEnd(len, budget, i) - PieceStart(budget, i) <= budget
  {
    DivBounds(len + budget - 1, budget);
    MulMono(i + 1, Count(len, budget), budget);
    assert (i + 1) * budget == i * budget + budget;
  }

  /** Byte `x` lies in piece `i` exactly when `i` is its quotient. */
  lemma InPieceIff(len: nat, budget: nat, i: nat, x: int)
    requires budget > 0 && 0 <= x < len
    ensures PieceStart(budget, i) <= x < PieceEnd(len, budget, i) <==> PieceOf(x, budget) == i
    ensures 0 <= PieceOf(x, budget) < Count(len, budget)
  {
    DivBounds(x, budget);
    var q := x / budget;
    if i < q {
      MulMono(i + 1, q, budget);
      assert (i + 1) * budget == i * budget + budget;
    } else if i > q {
      MulMono(q + 1, i, budget);
      assert (q + 1) * budget == q * budget + budget;
    }
    DivBounds(len + budget - 1, budget);
    var n := Count(len, budget);
    if q >= n {
      MulMono(n, q, budget);
    }
  }

  function Joined(message: Bytes, budget: nat, k: nat): Bytes
    requires budget > 0 && k <= Count(|message|, budget)
  {
    if k == 0 then [] else Joined(message, budget, k - 1) + Piece(message, budget, k - 1)
  }

  lemma {:induction false} JoinedIs(message: Bytes, budget: nat, k: nat)
    requires budget > 0 && k <= Count(|message|, budget)
    ensures PieceStart(budget, k) >= 0
    ensures Joined(message, budget, k) == message[..Min(|message|, PieceStart(budget, k))]
  {
    if k > 0 {
      JoinedIs(message, budget, k - 1);
      PieceInside(|message|, budget, k - 1);
      assert (k - 1) * budget + budget == k * budget;
    }
  }

  /** The pieces, in order, are the message: nothing lost, repeated or reordered. */
  lemma PiecesPartition(message: Bytes, budget: nat)
    requires budget > 0
    ensures Joined(message, budget, Count(|message|, budget)) == message
  {
    var n := Count(|message|, budget);
    JoinedIs(message, budget, n);
    DivBounds(|message| + budget - 1, budget);
  }

  /** Every frame of a plan fits both limits, so the network's own size check passes. */
  lemma PlanFits(c: Context, dataType: u8, message: Bytes, i: nat)
    requires message != [] && BuildPlan(c, dataType, |message|).Planned?
    requires i < BuildPlan(c, dataType, |message|).plan.count
    ensures var p := BuildPlan(c, dataType, |message|).plan;
      && p.budget > 0 && (!p.fragmented ==> p.count == Count(|message|, p.budget) == 1)
      && p.count == Count(|message|, p.budget)
      && 0 < |Piece(message, p.budget, i)| <= p.budget
      && SerializedSize(|Piece(message, p.budget, i)|, p.extensionsLen, c.tagLen) <= p.maxFrame <= c.maxFrame
      && (c.routeMax.Some? ==> p.maxFrame <= c.routeMax.value)
      && p.extensionsLen == AppExtensions(dataType) + (if p.fragmented then FRAGMENT_EXT_SIZE else 0)
  {
    var p := BuildPlan(c, dataType, |message|).plan;
    if !p.fragmented {
      assert |message| <= p.budget;
      DivBounds(|message| + p.budget - 1, p.budget);
      OneOnly(|message|, p.budget);
    }
    PieceInside(|message|, p.budget, i);
  }

  lemma OneOnly(len: nat, budget: nat)
    requires 0 < len <= budget
    ensures Count(len, budget) == 1
  {
    var n := Count(len, budget);
    DivBounds(len + budget - 1, budget);
    if n >= 2 {
      MulMono(2, n, budget);
    }
  }

  /** A plan exists exactly when some frame has room: for everything at once, or for a fragment of one byte. */
  lemma PlannedIff(c: Context, dataType: u8, len: nat)
    requires len > 0
    ensures BuildPlan(c, dataType, len).Planned? <==>
      || SerializedSize(len, AppExtensions(dataType), c.tagLen) <= EffectiveMaxFrame(c)
      || (c.fragmentation
          && SerializedSize(1, AppExtensions(dataType) + FRAGMENT_EXT_SIZE, c.tagLen) <= EffectiveMaxFrame(c))
  {
  }

  // ---- Reassembling the pieces ----

  /** What the receiver sees of piece `i`. */
  function FragmentOf(message: Bytes, budget: nat, key: Key, dataType: u8, i: nat): Fragment
    requires budget > 0 && |message| < TWO_32 && i < Count(|message|, budget)
  {
    PieceInside(|message|, budget, i);
    Fragment(key, dataType, PieceStart(budget, i), |message|, Piece(message, budget, i))
  }

  /** The ranges cover exactly the bytes of the pieces in `seen`. */
  ghost predicate CoversPieces(rs: seq<Range>, len: nat, budget: nat, seen: set<nat>)
    requires budget > 0
  {
    forall x: int :: Covers(rs, x) <==> 0 <= x < len && PieceOf(x, budget) in seen
  }

  /** The buffer holds exactly the pieces in `seen`. */
  ghost predicate Holds(b: Buffer, message: Bytes, budget: nat, seen: set<nat>)
    requires budget > 0
  {
    && b.size == |message| == |b.data|
    && CoversPieces(b.ranges, |message|, budget, seen)
    && (forall x: int :: Covers(b.ranges, x) ==> 0 <= x < |message| && b.data[x] == message[x])
  }

  function AllPieces(n: nat): (s: set<nat>)
    ensures forall i: nat :: i in s <==> i < n
  {
    if n == 0 then {} else AllPieces(n - 1) + {n - 1}
  }

  // ---- How many ranges the pieces make ----

  /** The number of maximal runs of neighbouring pieces among the first `k`. */
  function Runs(seen: set<nat>, k: nat): nat {
    if k == 0 then 0
    else Runs(seen, k - 1) + (if k - 1 in seen && !(k >= 2 && k - 2 in seen) then 1 else 0)
  }

  lemma {:induction false} RunsAreFew(seen: set<nat>, k: nat)
    ensures 2 * Runs(seen, k) <= if k > 0 && k - 1 in seen then k + 1 else k
  {
    if k > 0 {
      RunsAreFew(seen, k - 1);
    }
  }

  /** Pieces that arrive in order make one run, however many they are. */
  lemma {:induction false} RunsOfPrefix(i: nat, k: nat)
    ensures Runs(AllPieces(i), k) == if i > 0 && k > 0 then 1 else 0
  {
    if k > 0 {
      RunsOfPrefix(i, k - 1);
    }
  }

  lemma PiecesTouch(len: nat, budget: nat, i: nat)
    requires budget > 0 && i + 1 < Count(len, budget)
    ensures PieceEnd(len, budget, i) == PieceStart(budget, i + 1)
  {
    PieceInside(len, budget, i + 1);
    assert (i + 1) * budget == i * budget + budget;
  }

  /** One range for each run of pieces among the first `k`. */
  function RunRanges(len: nat, budget: nat, seen: set<nat>, k: nat): (rs: seq<Range>)
    requires budget > 0 && k <= Count(len, budget)
    ensures |rs| == Runs(seen, k) && (k > 0 && k - 1 in seen ==> rs != [])
  {
    if k == 0 then []
    else
      var rs := RunRanges(len, budget, seen, k - 1);
      PieceInside(len, budget, k - 1);
      if k - 1 !in seen then rs
      else if k >= 2 && k - 2 in seen then rs[..|rs| - 1] + [Range(rs[|rs| - 1].start, PieceEnd(len, budget, k - 1))]
      else rs + [Range(PieceStart(budget, k - 1), PieceEnd(len, budget, k - 1))]
  }

  /** Where the last range ends, and that nothing reaches further. */
  ghost predicate EndsAt(rs: seq<Range>, len: nat, budget: nat, seen: set<nat>, k: nat)
    requires budget > 0 && k <= Count(len, budget)
  {
    if k == 0 then rs == []
    else if k - 1 in seen then rs != [] && rs[|rs| - 1].end == PieceEnd(len, budget, k - 1)
    else forall i :: 0 <= i < |rs| ==> rs[i].end <= PieceStart(budget, k - 1)
  }

  lemma EndsEarlier(rs: seq<Range>, len: nat, budget: nat, seen: set<nat>, k: nat)
    requires budget > 0 && k < Count(len, budget) && Sorted(rs) && EndsAt(rs, len, budget, seen, k)
    ensures forall i :: 0 <= i < |rs| ==> rs[i].end <= PieceStart(budget, k)
    ensures k > 0 && k - 1 !in seen ==> forall i :: 0 <= i < |rs| ==> rs[i].end < PieceStart(budget, k)
    ensures k > 0 && k - 1 in seen ==> rs != [] && rs[|rs| - 1].end == PieceStart(budget, k)
  {
    if k > 0 {
      PiecesTouch(len, budget, k - 1);
      PieceInside(len, budget, k - 1);
      forall i | 0 <= i < |rs| ensures rs[i].end <= PieceStart(budget, k) {
        if k - 1 in seen && i < |rs| - 1 {
          assert rs[i].end < rs[|rs| - 1].start;
        }
      }
    }
  }

  lemma {:induction false} RunRangesSorted(len: nat, budget: nat, seen: set<nat>, k: nat)
    requires budget > 0 && k <= Count(len, budget)
    ensures var rs := RunRanges(len, budget, seen, k); Sorted(rs) && EndsAt(rs, len, budget, seen, k)
  {
    if k > 0 {
      var rs := RunRanges(len, budget, seen, k - 1);
      RunRangesSorted(len, budget, seen, k - 1);
      EndsEarlier(rs, len, budget, seen, k - 1);
      PieceInside(len, budget, k - 1);
      var start, end := PieceStart(budget, k - 1), PieceEnd(len, budget, k - 1);
      if k - 1 in seen {
        if k >= 2 && k - 2 in seen {
          SortedStretched(rs, end);
        } else {
          SortedAppended(rs, Range(start, end));
        }
      }
      hide PieceStart, PieceEnd, Count, Sorted;
    }
  }

  lemma SortedStretched(rs: seq<Range>, end: nat)
    requires rs != [] && Sorted(rs) && rs[|rs| - 1].end <= end
    ensures Sorted(rs[..|rs| - 1] + [Range(rs[|rs| - 1].start, end)])
  {
  }

  lemma SortedAppended(rs: seq<Range>, r: Range)
    requires Sorted(rs) && r.start < r.end && forall i :: 0 <= i < |rs| ==> rs[i].end < r.start
    ensures Sorted(rs + [r])
  {
  }

  lemma StretchedCovers(rs: seq<Range>, end: nat, x: int)
    requires rs != [] && Sorted(rs) && rs[|rs| - 1].end <= end
    ensures Covers(rs[..|rs| - 1] + [Range(rs[|rs| - 1].start, end)], x) <==> Covers(rs, x) || rs[|rs| - 1].end <= x < end
  {
    var n := |rs| - 1;
    var out := rs[..n] + [Range(rs[n].start, end)];
    assert out[n] == Range(rs[n].start, end);
    assert forall i :: 0 <= i < n ==> out[i] == rs[i];
  }

  lemma AppendedCovers(rs: seq<Range>, r: Range, x: int)
    ensures Covers(rs + [r], x) <==> Covers(rs, x) || r.start <= x < r.end
  {
    var out := rs + [r];
    assert out[|rs|] == r && forall i :: 0 <= i < |rs| ==> out[i] == rs[i];
  }

  lemma {:induction false} RunRangesCover(len: nat, budget: nat, seen: set<nat>, k: nat, x: int)
    requires budget > 0 && k <= Count(len, budget)
    ensures Covers(RunRanges(len, budget, seen, k), x) <==> 0 <= x < len && PieceOf(x, budget) in seen && PieceOf(x, budget) < k
  {
    if k > 0 {
      var rs := RunRanges(len, budget, seen, k - 1);
      RunRangesCover(len, budget, seen, k - 1, x);
      RunRangesSorted(len, budget, seen, k - 1);
      EndsEarlier(rs, len, budget, seen, k - 1);
      PieceInside(len, budget, k - 1);
      if 0 <= x < len {
        InPieceIff(len, budget, k - 1, x);
      }
      hide PieceOf, PieceStart, PieceEnd, Count, Covers;
      if k - 1 in seen {
        if k >= 2 && k - 2 in seen {
          StretchedCovers(rs, PieceEnd(len, budget, k - 1), x);
        } else {
          AppendedCovers(rs, Range(PieceStart(budget, k - 1), PieceEnd(len, budget, k - 1)), x);
        }
      }
    } else if 0 <= x < len {
      InPieceIff(len, budget, 0, x);
    }
  }

  /** A sorted range list that covers exactly the pieces in `seen` has one range for each run. */
  lemma RangesAreRuns(rs: seq<Range>, len: nat, budget: nat, seen: set<nat>)
    requires budget > 0 && Sorted(rs)
    requires CoversPieces(rs, len, budget, seen)
    ensures |rs| == Runs(seen, Count(len, budget))
  {
    var n := Count(len, budget);
    var runs := RunRanges(len, budget, seen, n);
    RunRangesSorted(len, budget, seen, n);
    forall x: int ensures Covers(rs, x) <==> Covers(runs, x) {
      RunRangesCover(len, budget, seen, n, x);
      if 0 <= x < len {
        InPieceIff(len, budget, 0, x);
      }
    }
    hide Runs, RunRanges, PieceOf, Count;
    CoverageDetermines(rs, runs);
  }

  lemma OverlapIff(b: Buffer, message: Bytes, budget: nat, seen: set<nat>, i: nat)
    requires budget > 0 && i < Count(|message|, budget) && Holds(b, message, budget, seen) && Sorted(b.ranges)
    ensures 0 <= PieceStart(budget, i) <= PieceEnd(|message|, budget, i)
    ensures AnyOverlap(b.ranges, PieceStart(budget, i), PieceEnd(|message|, budget, i)) <==> i in seen
  {
    PieceInside(|message|, budget, i);
    var start, end := PieceStart(budget, i), PieceEnd(|message|, budget, i);
    if AnyOverlap(b.ranges, start, end) {
      var j :| 0 <= j < |b.ranges| && Overlaps(b.ranges[j], start, end);
      var x := if start < b.ranges[j].start then b.ranges[j].start else start;
      assert b.ranges[j].start <= x < b.ranges[j].end;
      assert Covers(b.ranges, x);
      InPieceIff(|message|, budget, i, x);
    }
    if i in seen {
      InPieceIff(|message|, budget, i, start);
      assert Covers(b.ranges, start);
      var j :| 0 <= j < |b.ranges| && b.ranges[j].start <= start < b.ranges[j].end;
      assert Overlaps(b.ranges[j], start, end);
    }
  }

  /** A piece that is already there changes nothing. */
  lemma FillDuplicate(b: Buffer, message: Bytes, budget: nat, key: Key, dataType: u8, seen: set<nat>, i: nat, time: u32)
    requires budget > 0 && |message| < TWO_32 && i < Count(|message|, budget) && i in seen
    requires Fillable(b) && b.dataType == dataType && Holds(b, message, budget, seen)
    ensures Fill(b, FragmentOf(message, budget, key, dataType, i), time) == Filled(b, Busy)
  {
    OverlapIff(b, message, budget, seen, i);
    PieceInside(|message|, budget, i);
  }

  /**
   * A missing piece is stored, and the buffer then holds one piece more, exactly
   * when the pieces then make at most 16 runs; otherwise it is refused.
   */
  lemma FillMissing(b: Buffer, message: Bytes, budget: nat, key: Key, dataType: u8, seen: set<nat>, i: nat, time: u32)
    requires budget > 0 && |message| < TWO_32 && i < Count(|message|, budget) && i !in seen
    requires Fillable(b) && b.dataType == dataType && Holds(b, message, budget, seen)
    ensures var r := Fill(b, FragmentOf(message, budget, key, dataType, i), time);
      if Runs(seen + {i}, Count(|message|, budget)) <= MAX_RANGES then
        && r.status == Ok && Holds(r.buffer, message, budget, seen + {i})
        && r.buffer.key == b.key && r.buffer.dataType == b.dataType && r.buffer.size == b.size
      else r == Filled(b, NoMemory)
  {
    var start, end := PieceStart(budget, i), PieceEnd(|message|, budget, i);
    OverlapIff(b, message, budget, seen, i);
    PieceInside(|message|, budget, i);
    MergedSorted(b.ranges, start, end, |message|);
    MergedPieces(b, message, budget, seen, i);
    RangesAreRuns(Merged(b.ranges, start, end), |message|, budget, seen + {i});
    StoredHolds(b, message, budget, seen, i);
    hide Holds, Fillable, Merged, AnyOverlap, Sorted, Below, WriteAt, PieceStart, PieceEnd, Runs, Count, Covers;
  }

  lemma MergedPieces(b: Buffer, message: Bytes, budget: nat, seen: set<nat>, i: nat)
    requires budget > 0 && i < Count(|message|, budget) && i !in seen && Sorted(b.ranges) && Holds(b, message, budget, seen)
    ensures 0 <= PieceStart(budget, i) < PieceEnd(|message|, budget, i)
    ensures CoversPieces(Merged(b.ranges, PieceStart(budget, i), PieceEnd(|message|, budget, i)), |message|, budget, seen + {i})
  {
    var start, end := PieceStart(budget, i), PieceEnd(|message|, budget, i);
    PieceInside(|message|, budget, i);
    OverlapIff(b, message, budget, seen, i);
    hide PieceOf, Count, Covers, AnyOverlap;
    forall x: int ensures Covers(Merged(b.ranges, start, end), x) <==> 0 <= x < |message| && PieceOf(x, budget) in seen + {i} {
      MergedCovers(b.ranges, start, end, x);
      if 0 <= x < |message| {
        InPieceIff(|message|, budget, i, x);
      }
    }
  }

  lemma StoredHolds(b: Buffer, message: Bytes, budget: nat, seen: set<nat>, i: nat)
    requires budget > 0 && i < Count(|message|, budget) && i !in seen && Sorted(b.ranges) && Holds(b, message, budget, seen)
    ensures 0 <= PieceStart(budget, i) < PieceEnd(|message|, budget, i)
    ensures forall c: Buffer :: (
      && c.size == b.size
      && c.ranges == Merged(b.ranges, PieceStart(budget, i), PieceEnd(|message|, budget, i))
      && c.data == WriteAt(b.data, PieceStart(budget, i), Piece(message, budget, i))
      ==> Holds(c, message, budget, seen + {i}))
  {
    var start, end := PieceStart(budget, i), PieceEnd(|message|, budget, i);
    PieceInside(|message|, budget, i);
    OverlapIff(b, message, budget, seen, i);
    MergedPieces(b, message, budget, seen, i);
    var rs := Merged(b.ranges, start, end);
    hide PieceOf, Count, Covers, AnyOverlap;
    forall x: int | Covers(rs, x)
      ensures 0 <= x < |message| && WriteAt(b.data, start, Piece(message, budget, i))[x] == message[x]
    {
      MergedCovers(b.ranges, start, end, x);
    }
  }

  /** All pieces present means every byte of the message is in the buffer. */
  lemma AllSeenIff(b: Buffer, message: Bytes, budget: nat, seen: set<nat>)
    requires budget > 0 && message != [] && Holds(b, message, budget, seen) && seen <= AllPieces(Count(|message|, budget))
    requires Sorted(b.ranges) && Below(b.ranges, b.size) && b.received == Length(b.ranges)
    ensures b.received == b.size <==> seen == AllPieces(Count(|message|, budget))
    ensures b.received == b.size ==> b.data == message
  {
    var n := Count(|message|, budget);
    FullIff(b.ranges, b.size);
    hide Sorted, Below, Length, AllPieces, Count, PieceStart, PieceEnd, Covers, PieceOf;
    if b.received == b.size {
      forall i: nat | i < n ensures i in seen {
        PieceInside(|message|, budget, i);
        var x := PieceStart(budget, i);
        InPieceIff(|message|, budget, i, x);
        assert Covers(b.ranges, x);
      }
    }
    if seen == AllPieces(n) {
      forall x | 0 <= x < b.size ensures Covers(b.ranges, x) {
        InPieceIff(|message|, budget, 0, x);
      }
    }
  }
}
