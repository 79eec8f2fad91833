/**
 * Which bytes of a message have arrived: a sorted list of disjoint byte ranges
 * that never touch, kept in an array of at most 16 entries.
 */
module FragmentRange {
  import opened Base

  const MAX_RANGES := 16

  /** `start` is inclusive, `end` exclusive. */
  datatype Range = Range(start: nat, end: nat)

  predicate Overlaps(r: Range, start: nat, end: nat) {
    start < r.end && end > r.start
  }

  predicate AnyOverlap(rs: seq<Range>, start: nat, end: nat) {
    exists i :: 0 <= i < |rs| && Overlaps(rs[i], start, end)
  }

  /** Non-empty, ascending, and with at least one missing byte between neighbours. */
  ghost predicate Sorted(rs: seq<Range>) {
    && (forall i :: 0 <= i < |rs| ==> rs[i].start < rs[i].end)
    && (forall i, j :: 0 <= i < j < |rs| ==> rs[i].end < rs[j].start)
  }

  ghost predicate Covers(rs: seq<Range>, x: int) {
    exists i :: 0 <= i < |rs| && rs[i].start <= x < rs[i].end
  }

  ghost predicate Below(rs: seq<Range>, size: nat) {
    forall i :: 0 <= i < |rs| ==> rs[i].end <= size
  }

  function Length(rs: seq<Range>): int {
    if rs == [] then 0 else rs[0].end - rs[0].start + Length(rs[1..])
  }

  /** The first range stretched to `end`, closing the gap if that reaches the second. */
  function Glued(rs: seq<Range>, end: nat): seq<Range>
    requires rs != []
  {
    if |rs| > 1 && rs[1].start == end then [Range(rs[0].start, rs[1].end)] + rs[2..]
    else [Range(rs[0].start, end)] + rs[1..]
  }

  /** The list after adding `start..end`, glued to any neighbour it touches. */
  function Merged(rs: seq<Range>, start: nat, end: nat): seq<Range> {
    if rs == [] then [Range(start, end)]
    else if rs[0].end < start then [rs[0]] + Merged(rs[1..], start, end)
    else if rs[0].end == start then Glued(rs, end)
    else if rs[0].start == end then [Range(start, rs[0].end)] + rs[1..]
    else [Range(start, end)] + rs
  }

  datatype Inserted = Inserted(ranges: seq<Range>, status: Status)

  function AfterInsert(rs: seq<Range>, start: nat, end: nat): Inserted {
    if start >= end then Inserted(rs, InvalidParam)
    else if AnyOverlap(rs, start, end) then Inserted(rs, Busy)
    else if |Merged(rs, start, end)| > MAX_RANGES then Inserted(rs, NoMemory)
    else Inserted(Merged(rs, start, end), Ok)
  }

  // ---- What merging means ----

  lemma SortedTail(rs: seq<Range>)
    requires Sorted(rs) && rs != []
    ensures Sorted(rs[1..])
    ensures forall j :: 0 <= j < |rs| - 1 ==> rs[0].end < rs[1..][j].start
  {
  }

  lemma SortedCons(r: Range, rs: seq<Range>)
    requires r.start < r.end && Sorted(rs) && (rs != [] ==> r.end < rs[0].start)
    ensures Sorted([r] + rs)
  {
    var s := [r] + rs;
    forall i, j | 0 <= i < j < |s| ensures s[i].end < s[j].start {
      assert s[j] == rs[j - 1];
      if j > 1 {
        assert rs[0].end < rs[j - 1].start;
      }
    }
  }

  lemma NoOverlapTail(rs: seq<Range>, start: nat, end: nat)
    requires rs != [] && !AnyOverlap(rs, start, end)
    ensures !AnyOverlap(rs[1..], start, end) && !Overlaps(rs[0], start, end)
  {
    forall i | 0 <= i < |rs| - 1 ensures !Overlaps(rs[1..][i], start, end) {
      assert !Overlaps(rs[i + 1], start, end);
    }
    assert !Overlaps(rs[0], start, end);
  }

  lemma GluedSorted(rs: seq<Range>, end: nat, size: nat)
    requires Sorted(rs) && Below(rs, size) && rs != [] && rs[0].end < end <= size && !AnyOverlap(rs, rs[0].end, end)
    ensures Sorted(Glued(rs, end)) && Below(Glued(rs, end), size)
    ensures Glued(rs, end) != [] && Glued(rs, end)[0].start == rs[0].start
  {
    NoOverlapTail(rs, rs[0].end, end);
    SortedTail(rs);
    if |rs| > 1 {
      NoOverlapTail(rs[1..], rs[0].end, end);
      SortedTail(rs[1..]);
      assert rs[1..][1..] == rs[2..];
    }
    hide Sorted;
    if |rs| > 1 && rs[1].start == end {
      SortedCons(Range(rs[0].start, rs[1].end), rs[2..]);
    } else {
      SortedCons(Range(rs[0].start, end), rs[1..]);
    }
  }

  /** The merged list is again sorted and stays below `size`. */
  lemma {:induction false} MergedSorted(rs: seq<Range>, start: nat, end: nat, size: nat)
    requires Sorted(rs) && Below(rs, size) && start < end <= size && !AnyOverlap(rs, start, end)
    ensures Sorted(Merged(rs, start, end)) && Below(Merged(rs, start, end), size)
    ensures Merged(rs, start, end) != []
    ensures Merged(rs, start, end)[0].start == if rs == [] || start < rs[0].start then start else rs[0].start
  {
    if rs != [] {
      NoOverlapTail(rs, start, end);
      SortedTail(rs);
      assert rs[0].start < rs[0].end;
      if rs[0].end == start {
        GluedSorted(rs, end, size);
      }
      hide Sorted, AnyOverlap, Glued;
      if rs[0].end < start {
        MergedSorted(rs[1..], start, end, size);
        SortedCons(rs[0], Merged(rs[1..], start, end));
      } else if rs[0].start == end {
        SortedCons(Range(start, rs[0].end), rs[1..]);
      } else if rs[0].end != start {
        SortedCons(Range(start, end), rs);
      }
    }
  }

  lemma CoversCons(rs: seq<Range>, x: int)
    requires rs != []
    ensures Covers(rs, x) <==> rs[0].start <= x < rs[0].end || Covers(rs[1..], x)
  {
    if Covers(rs[1..], x) {
      var i :| 0 <= i < |rs| - 1 && rs[1..][i].start <= x < rs[1..][i].end;
      assert rs[i + 1].start <= x < rs[i + 1].end;
    }
    if Covers(rs, x) && !(rs[0].start <= x < rs[0].end) {
      var i :| 0 <= i < |rs| && rs[i].start <= x < rs[i].end;
      assert rs[1..][i - 1] == rs[i];
    }
  }

  /** It covers the old bytes and the new ones, nothing else, and counts each byte once. */
  lemma {:induction false} MergedCovers(rs: seq<Range>, start: nat, end: nat, x: int)
    requires Sorted(rs) && start < end && !AnyOverlap(rs, start, end)
    ensures Covers(Merged(rs, start, end), x) <==> Covers(rs, x) || start <= x < end
    ensures Length(Merged(rs, start, end)) == Length(rs) + end - start
    ensures |Merged(rs, start, end)| <= |rs| + 1
  {
    var m := Merged(rs, start, end);
    assert !Covers([], x) && Length([]) == 0;
    if rs == [] {
      assert m[1..] == [];
      CoversCons(m, x);
    } else {
      NoOverlapTail(rs, start, end);
      SortedTail(rs);
      CoversCons(rs, x);
      CoversCons(m, x);
      if rs[0].end < start {
        MergedCovers(rs[1..], start, end, x);
        assert m[1..] == Merged(rs[1..], start, end);
      } else if rs[0].end == start {
        if |rs| > 1 && rs[1].start == end {
          NoOverlapTail(rs[1..], start, end);
          CoversCons(rs[1..], x);
          assert rs[1..][1..] == rs[2..] && m[1..] == rs[2..];
        } else {
          assert m[1..] == rs[1..];
        }
      } else if rs[0].start == end {
        assert m[1..] == rs[1..];
      } else {
        assert m[1..] == rs;
      }
    }
  }

  /**
   * What adding bytes `start..end` answers: nothing is added when there are none, when
   * one of them is there already, or when 16 ranges would not be enough; otherwise
   * exactly these bytes are added.
   */
  lemma InsertAnswer(rs: seq<Range>, start: nat, end: nat, size: nat)
    requires Sorted(rs) && Below(rs, size) && end <= size
    ensures var r := AfterInsert(rs, start, end);
      && (r.status != Ok ==> r.ranges == rs)
      && (r.status == InvalidParam <==> start >= end)
      && (r.status == Busy <==> exists x: int :: start <= x < end && Covers(rs, x))
      && (r.status == Ok || r.status == Busy || r.status == InvalidParam || r.status == NoMemory)
      && (r.status == Ok ==> Sorted(r.ranges) && Below(r.ranges, size) && |r.ranges| <= 16
                             && forall x: int :: Covers(r.ranges, x) <==> Covers(rs, x) || start <= x < end)
  {
    OverlapIff(rs, start, end);
    if start < end && !AnyOverlap(rs, start, end) {
      MergedSorted(rs, start, end, size);
      forall x: int ensures Covers(Merged(rs, start, end), x) <==> Covers(rs, x) || start <= x < end {
        MergedCovers(rs, start, end, x);
      }
    }
    hide Covers, Sorted, Below, AnyOverlap, Merged;
  }

  lemma OverlapIff(rs: seq<Range>, start: nat, end: nat)
    requires Sorted(rs)
    ensures start < end ==> (AnyOverlap(rs, start, end) <==> exists x: int :: start <= x < end && Covers(rs, x))
  {
    if start < end && AnyOverlap(rs, start, end) {
      var i :| 0 <= i < |rs| && Overlaps(rs[i], start, end);
      var x := if start < rs[i].start then rs[i].start else start;
      assert Covers(rs, x);
    }
  }

  /** A list that would need more than 16 ranges is refused; this many do not touch what is new. */
  lemma OutOfRanges(rs: seq<Range>, start: nat, end: nat)
    requires Sorted(rs)
    ensures AfterInsert(rs, start, end).status == NoMemory ==> |rs| >= 16
    ensures |rs| >= 16 && start < end && !Covers(rs, start - 1) && (forall x: int :: start <= x <= end ==> !Covers(rs, x))
      ==> AfterInsert(rs, start, end) == Inserted(rs, NoMemory)
  {
    if start < end && !AnyOverlap(rs, start, end) {
      MergedCovers(rs, start, end, 0);
    }
    if start < end && !Covers(rs, start - 1) && forall x: int :: start <= x <= end ==> !Covers(rs, x) {
      OverlapIff(rs, start, end);
      ApartIsLonger(rs, start, end);
    }
  }

  lemma {:induction false} ApartIsLonger(rs: seq<Range>, start: nat, end: nat)
    requires Sorted(rs) && start < end && !Covers(rs, start - 1) && forall x: int :: start <= x <= end ==> !Covers(rs, x)
    ensures |Merged(rs, start, end)| == |rs| + 1
  {
    if rs != [] {
      SortedTail(rs);
      assert !Covers(rs, end);
      assert !(rs[0].start <= start - 1 < rs[0].end) && !(rs[0].start <= end < rs[0].end);
      forall x: int | x == start - 1 || start <= x <= end ensures !Covers(rs[1..], x) {
        CoversCons(rs, x);
      }
      ApartIsLonger(rs[1..], start, end);
    }
  }

  /** A sorted list is determined by the bytes it covers, so arrival order leaves no trace. */
  lemma {:induction false} CoverageDetermines(a: seq<Range>, b: seq<Range>)
    requires Sorted(a) && Sorted(b) && forall x: int :: Covers(a, x) <==> Covers(b, x)
    ensures a == b
  {
    if a == [] || b == [] {
      if a != [] { assert Covers(a, a[0].start); }
      if b != [] { assert Covers(b, b[0].start); }
    } else {
      FirstStart(a, b);
      FirstStart(b, a);
      FirstEnd(a, b);
      FirstEnd(b, a);
      SortedTail(a);
      SortedTail(b);
      forall x: int ensures Covers(a[1..], x) <==> Covers(b[1..], x) {
        CoversCons(a, x);
        CoversCons(b, x);
        if Covers(a[1..], x) { TailLater(a, x); }
        if Covers(b[1..], x) { TailLater(b, x); }
      }
      CoverageDetermines(a[1..], b[1..]);
    }
  }

  lemma TailLater(a: seq<Range>, x: int)
    requires Sorted(a) && a != [] && Covers(a[1..], x)
    ensures x > a[0].end
  {
    var i :| 0 <= i < |a| - 1 && a[1..][i].start <= x < a[1..][i].end;
    assert a[0].end < a[i + 1].start;
  }

  lemma FirstStart(a: seq<Range>, b: seq<Range>)
    requires Sorted(a) && Sorted(b) && a != [] && b != [] && forall x: int :: Covers(a, x) ==> Covers(b, x)
    ensures b[0].start <= a[0].start
  {
    assert Covers(a, a[0].start);
    var i :| 0 <= i < |b| && b[i].start <= a[0].start < b[i].end;
    if i > 0 {
      assert b[0].end < b[i].start;
    }
  }

  lemma FirstEnd(a: seq<Range>, b: seq<Range>)
    requires Sorted(a) && Sorted(b) && a != [] && b != [] && a[0].start == b[0].start
    requires forall x: int :: Covers(a, x) ==> Covers(b, x)
    ensures a[0].end <= b[0].end
  {
    assert forall i :: 0 < i < |b| ==> b[0].end < b[i].start;
    var x := if b[0].end < a[0].end then b[0].end else a[0].end - 1;
    assert a[0].start <= x < a[0].end;
    assert Covers(a, x);
  }

  /** The byte count reaches `size` exactly when no byte below `size` is missing. */
  lemma FullIff(rs: seq<Range>, size: nat)
    requires Sorted(rs) && Below(rs, size) && size > 0
    ensures Length(rs) <= size
    ensures Length(rs) == size <==> forall x :: 0 <= x < size ==> Covers(rs, x)
    ensures Length(rs) == size <==> rs == [Range(0, size)]
  {
    LengthAtMost(rs, 0, size);
    if forall x :: 0 <= x < size ==> Covers(rs, x) {
      var whole := [Range(0, size)];
      forall x: int ensures Covers(rs, x) <==> Covers(whole, x) {
        if Covers(rs, x) {
          var i :| 0 <= i < |rs| && rs[i].start <= x < rs[i].end;
        }
        if 0 <= x < size { assert whole[0].start <= x < whole[0].end; }
      }
      CoverageDetermines(rs, whole);
    }
    if rs == [Range(0, size)] {
      assert rs[1..] == [] && rs[0] == Range(0, size);
      forall x | 0 <= x < size ensures Covers(rs, x) {
        assert rs[0].start <= x < rs[0].end;
      }
    }
  }

  lemma {:induction false} LengthAtMost(rs: seq<Range>, from: nat, size: nat)
    requires Sorted(rs) && Below(rs, size) && from <= size && (rs != [] ==> from <= rs[0].start)
    ensures Length(rs) <= size - from
    ensures Length(rs) == size - from ==> if from == size then rs == [] else rs == [Range(from, size)]
    ensures rs != [] ==> Length(rs) > 0
    decreases |rs|
  {
    if rs != [] {
      SortedTail(rs);
      LengthAtMost(rs[1..], rs[0].end, size);
      if |rs| > 1 {
        LengthAtMost(rs[1..], rs[0].end + 1, size);
      }
    }
  }

  // ---- The array that holds the list ----

  /** The merged list, written around the position `k` where the new bytes belong. */
  function MergedAround(rs: seq<Range>, k: nat, start: nat, end: nat): seq<Range>
    requires k <= |rs|
  {
    if k > 0 && rs[k - 1].end == start then rs[..k - 1] + Glued(rs[k - 1..], end)
    else if k < |rs| && rs[k].start == end then rs[..k] + [Range(start, rs[k].end)] + rs[k + 1..]
    else rs[..k] + [Range(start, end)] + rs[k..]
  }

  lemma {:induction false} MergedAt(rs: seq<Range>, k: nat, start: nat, end: nat)
    requires Sorted(rs) && start < end && !AnyOverlap(rs, start, end) && k <= |rs|
    requires (forall i :: 0 <= i < k ==> rs[i].start < start) && (k < |rs| ==> rs[k].start >= start)
    ensures Merged(rs, start, end) == MergedAround(rs, k, start, end)
  {
    if k == 0 {
      if rs != [] {
        assert !Overlaps(rs[0], start, end) && rs[0].start < rs[0].end;
      }
      AroundStart(rs, start, end);
      hide Glued, AnyOverlap, MergedAround, Sorted;
    } else {
      NoOverlapTail(rs, start, end);
      SortedTail(rs);
      if rs[0].end == start {
        assert |rs| > 1 ==> rs[0].end < rs[1].start;
        AroundFirst(rs, start, end);
        hide Glued, AnyOverlap, MergedAround, Sorted;
      } else {
        AroundTail(rs, k, start, end);
        hide Glued, AnyOverlap, MergedAround, Sorted;
        MergedAt(rs[1..], k - 1, start, end);
      }
    }
  }

  lemma AroundStart(rs: seq<Range>, start: nat, end: nat)
    ensures MergedAround(rs, 0, start, end) ==
      if rs != [] && rs[0].start == end then [Range(start, rs[0].end)] + rs[1..] else [Range(start, end)] + rs
  {
    assert [] + [Range(start, end)] + rs[0..] == [Range(start, end)] + rs;
  }

  lemma AroundFirst(rs: seq<Range>, start: nat, end: nat)
    requires rs != [] && rs[0].end == start
    ensures MergedAround(rs, 1, start, end) == Glued(rs, end)
  {
    assert rs[0..] == rs;
    assert [] + Glued(rs, end) == Glued(rs, end);
  }

  lemma AroundTail(rs: seq<Range>, k: nat, start: nat, end: nat)
    requires 0 < k <= |rs| && rs[0].end != start
    ensures MergedAround(rs, k, start, end) == [rs[0]] + MergedAround(rs[1..], k - 1, start, end)
  {
    AfterFirst(rs, k);
    hide Glued;
    var t := rs[1..];
    var a := [rs[0]];
    if k > 1 && rs[k - 1].end == start {
      assert a + (t[..k - 2] + Glued(t[k - 2..], end)) == a + t[..k - 2] + Glued(t[k - 2..], end);
    } else if k < |rs| && rs[k].start == end {
      var m := [Range(start, rs[k].end)];
      assert a + (t[..k - 1] + m + t[k..]) == a + t[..k - 1] + m + t[k..];
    } else {
      var m := [Range(start, end)];
      assert a + (t[..k - 1] + m + t[k - 1..]) == a + t[..k - 1] + m + t[k - 1..];
    }
  }

  lemma AfterFirst(rs: seq<Range>, k: nat)
    requires 0 < k <= |rs|
    ensures k < |rs| ==> rs[1..][k..] == rs[k + 1..]
    ensures rs[1..][k - 1..] == rs[k..]
    ensures [rs[0]] + rs[1..][..k - 1] == rs[..k]
    ensures k > 1 ==> rs[1..][k - 2..] == rs[k - 1..] && [rs[0]] + rs[1..][..k - 2] == rs[..k - 1]
  {
  }

  lemma RangeOpened(was: seq<Range>, now: seq<Range>, index: nat, r: Range)
    requires index <= |was| && |now| == |was| + 1 && now[index] == r
    requires forall j :: 0 <= j < index ==> now[j] == was[j]
    requires forall j :: index < j < |now| ==> now[j] == was[j - 1]
    ensures now == was[..index] + [r] + was[index..]
  {
  }

  /** The merge written around `k`, case by case; only a new range makes the list longer. */
  lemma AroundCases(rs: seq<Range>, k: nat, start: nat, end: nat)
    requires k <= |rs|
    ensures MergedAround(rs, k, start, end) ==
      if k > 0 && rs[k - 1].end == start then rs[..k - 1] + Glued(rs[k - 1..], end)
      else if k < |rs| && rs[k].start == end then rs[..k] + [Range(start, rs[k].end)] + rs[k + 1..]
      else rs[..k] + [Range(start, end)] + rs[k..]
    ensures |MergedAround(rs, k, start, end)| <=
      if (k > 0 && rs[k - 1].end == start) || (k < |rs| && rs[k].start == end) then |rs| else |rs| + 1
  {
    if k > 0 {
      GluedShorter(rs[k - 1..], end);
      hide Glued;
    }
  }

  class Received {
    const cells: array<Range>
    var count: nat

    ghost predicate Valid()
      reads this
    {
      cells.Length == MAX_RANGES && count <= MAX_RANGES
    }

    ghost function Ranges(): seq<Range>
      requires Valid()
      reads this, cells
    {
      cells[..count]
    }

    constructor ()
      ensures Valid() && fresh(cells) && Ranges() == []
    {
      cells := new Range[MAX_RANGES](_ => Range(0, 0));
      count := 0;
    }

    /** Closes the hole at `index`. */
    method RemoveAt(index: nat)
      requires Valid()
      modifies this`count, cells
      ensures Valid()
      ensures Ranges() == if index < old(count) then old(cells[..index] + cells[index + 1..count]) else old(Ranges())
    {
      if index >= count {
        return;
      }
      var i := index + 1;
      while i < count
        invariant index + 1 <= i <= count && count == old(count)
        invariant cells[..i - 1] == old(cells[..index] + cells[index + 1..i])
        invariant cells[i..] == old(cells[i..])
      {
        assert cells[i] == cells[i..][0] && old(cells[i..])[0] == old(cells[i]);
        cells[i - 1] := cells[i];
        i := i + 1;
      }
      count := count - 1;
    }

    /** Moves the ranges from `index` on one cell up. */
    method OpenAt(index: nat)
      requires cells.Length == MAX_RANGES && index <= count < MAX_RANGES
      modifies cells
      ensures forall j :: 0 <= j < index ==> cells[j] == old(cells[j])
      ensures forall j :: index < j <= count ==> cells[j] == old(cells[j - 1])
    {
      var i := count;
      while i > index
        invariant index <= i <= count
        invariant forall j :: 0 <= j <= i ==> cells[j] == old(cells[j])
        invariant forall j :: i < j <= count ==> cells[j] == old(cells[j - 1])
      {
        cells[i] := cells[i - 1];
        i := i - 1;
      }
    }

    /** Opens a hole at `index` and fills it. */
    method InsertAt(index: nat, r: Range)
      requires Valid() && index <= count < MAX_RANGES
      modifies this`count, cells
      ensures Valid() && Ranges() == old(Ranges()[..index]) + [r] + old(Ranges()[index..])
    {
      ghost var was := Ranges();
      OpenAt(index);
      cells[index] := r;
      count := count + 1;
      RangeOpened(was, Ranges(), index, r);
    }

    method OverlapsAny(start: nat, end: nat) returns (found: bool)
      requires Valid()
      ensures found <==> AnyOverlap(Ranges(), start, end)
    {
      var i := 0;
      while i < count
        invariant 0 <= i <= count
        invariant forall j :: 0 <= j < i ==> !Overlaps(cells[j], start, end)
      {
        if Overlaps(cells[i], start, end) {
          assert Ranges()[i] == cells[i];
          return true;
        }
        i := i + 1;
      }
      return false;
    }

    /** Records that `start..end` arrived. */
    method Insert(start: nat, end: nat) returns (status: Status)
      requires Valid() && Sorted(Ranges())
      modifies this`count, cells
      ensures Valid() && Inserted(Ranges(), status) == AfterInsert(old(Ranges()), start, end)
    {
      if start >= end {
        return InvalidParam;
      }
      var found := OverlapsAny(start, end);
      if found {
        return Busy;
      }
      ghost var rs := Ranges();
      var k := 0;
      while k < count && cells[k].start < start
        invariant 0 <= k <= count && forall i :: 0 <= i < k ==> rs[i].start < start
      {
        assert rs[k] == cells[k];
        k := k + 1;
      }
      MergedAt(rs, k, start, end);
      hide Sorted, AnyOverlap, Merged, Overlaps;
      status := InsertHere(k, start, end, rs);
    }

    method InsertHere(k: nat, start: nat, end: nat, ghost rs: seq<Range>) returns (status: Status)
      requires Valid() && rs == Ranges() && k <= count && start < end
      modifies this`count, cells
      ensures Valid()
      ensures |MergedAround(rs, k, start, end)| > MAX_RANGES <==> status == NoMemory
      ensures if status == NoMemory then Ranges() == rs else status == Ok && Ranges() == MergedAround(rs, k, start, end)
    {
      AroundCases(rs, k, start, end);
      hide Glued, MergedAround;
      if k > 0 && cells[k - 1].end == start {
        GlueLeft(k - 1, end);
        return Ok;
      }
      if k < count && cells[k].start == end {
        StretchDown(k, start);
        return Ok;
      }
      if count >= MAX_RANGES {
        return NoMemory;
      }
      InsertAt(k, Range(start, end));
      return Ok;
    }

    /** Stretches cell `k` down to `start`. */
    method StretchDown(k: nat, start: nat)
      requires Valid() && k < count
      modifies cells
      ensures Valid() && Ranges() == old(Ranges()[..k] + [Range(start, Ranges()[k].end)] + Ranges()[k + 1..])
    {
      ghost var rs := Ranges();
      cells[k] := cells[k].(start := start);
      assert Ranges() == rs[..k] + [Range(start, rs[k].end)] + rs[k + 1..];
    }

    /** Stretches cell `k` to `end`, swallowing its right neighbour if they touch. */
    method GlueLeft(k: nat, end: nat)
      requires Valid() && k < count
      modifies this`count, cells
      ensures Valid() && Ranges() == old(Ranges()[..k] + Glued(Ranges()[k..], end))
    {
      ghost var rs := Ranges();
      assert rs[k..][0] == rs[k];
      cells[k] := cells[k].(end := end);
      if k + 1 < count && cells[k + 1].start == end {
        cells[k] := cells[k].(end := cells[k + 1].end);
        assert rs[k..][1] == rs[k + 1];
        RemoveAt(k + 1);
      }
      GluedSlices(rs, k, end);
    }
  }

  lemma GluedShorter(rs: seq<Range>, end: nat)
    requires rs != []
    ensures |Glued(rs, end)| <= |rs|
  {
  }

  lemma GluedSlices(rs: seq<Range>, k: nat, end: nat)
    requires k < |rs|
    ensures rs[..k] + Glued(rs[k..], end) ==
      if k + 1 < |rs| && rs[k + 1].start == end then rs[..k] + [Range(rs[k].start, rs[k + 1].end)] + rs[k + 2..]
      else rs[..k] + [Range(rs[k].start, end)] + rs[k + 1..]
  {
    var t := rs[k..];
    assert t[0] == rs[k] && t[1..] == rs[k + 1..] && (|t| > 1 ==> t[1] == rs[k + 1] && t[2..] == rs[k + 2..]);
  }
}
