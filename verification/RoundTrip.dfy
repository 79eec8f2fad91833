/**
 * Reassembly undoes fragmentation: whatever order the pieces arrive in, with
 * duplicates and with other messages in between, the piece that completes the
 * message, and no other, yields it, as long as the pieces never make more than 16
 * separate runs. Messages of at most 32 pieces never do, nor do pieces in order.
 */
module RoundTrip {
  import opened Base
  import opened FragmentRange
  import opened Reassembly
  import opened Fragmentation

  /** One message on its way: how it was cut and how its pieces are labelled. */
  datatype Job = Job(message: Bytes, budget: nat, key: Key, dataType: u8)

  predicate JobOk(j: Job) {
    j.budget > 0 && 0 < |j.message| < TWO_32
  }

  function Pieces(j: Job): nat
    requires JobOk(j)
  {
    Count(|j.message|, j.budget)
  }

  /** What the manager knows of the message after the pieces in `seen`. */
  ghost predicate Progress(m: Manager, j: Job, seen: set<nat>)
    requires JobOk(j)
  {
    if seen == {} then forall b :: b in m.buffers ==> b.key != j.key
    else exists b :: b in m.buffers && Mine(b, j, seen)
  }

  ghost predicate Mine(b: Buffer, j: Job, seen: set<nat>)
    requires JobOk(j)
  {
    b.key == j.key && b.dataType == j.dataType && Holds(b, j.message, j.budget, seen)
  }

  lemma IndexIs(bs: seq<Buffer>, b: Buffer)
    requires DistinctKeys(bs) && b in bs
    ensures Index(bs, b.key) < |bs| && bs[Index(bs, b.key)] == b
  {
    var k :| 0 <= k < |bs| && bs[k] == b;
  }

  lemma IndexNone(bs: seq<Buffer>, key: Key)
    requires forall b :: b in bs ==> b.key != key
    ensures Index(bs, key) == |bs|
  {
    if bs != [] {
      assert bs[0] in bs;
      IndexNone(bs[1..], key);
    }
  }

  /** The pieces kept after piece `i`: none once the message is complete. */
  function Next(n: nat, seen: set<nat>, i: nat): set<nat> {
    if i in seen || Runs(seen + {i}, n) > MAX_RANGES then seen
    else if seen + {i} == AllPieces(n) then {}
    else seen + {i}
  }

  /** The answer to piece `i` when the pieces in `seen` are there. */
  function AnswerTo(n: nat, seen: set<nat>, i: nat): Status {
    if i in seen then Busy
    else if Runs(seen + {i}, n) > MAX_RANGES then NoMemory
    else if seen + {i} == AllPieces(n) then Ok
    else Busy
  }

  /** What a piece must do to the outcome and to the manager's knowledge. */
  ghost predicate RightOutcome(o: Outcome, j: Job, seen: set<nat>, i: nat)
    requires JobOk(j)
  {
    && o.status == AnswerTo(Pieces(j), seen, i)
    && o.message == (if o.status == Ok then Some(j.message) else None)
    && Progress(o.manager, j, Next(Pieces(j), seen, i))
  }

  lemma PutMine(bs: seq<Buffer>, k: nat, b: Buffer, j: Job, seen: set<nat>)
    requires k < |bs| && JobOk(j) && Mine(b, j, seen) && seen != {}
    ensures b in bs[k := b]
  {
    assert bs[k := b][k] == b;
  }

  lemma {:induction false} OneRun(i: nat, n: nat)
    ensures Runs({i}, n) <= 1
    ensures n <= i ==> Runs({i}, n) == 0
  {
    if n > 0 {
      OneRun(i, n - 1);
    }
  }

  lemma DepositPiece(m: Manager, k: nat, j: Job, seen: set<nat>, i: nat, time: u32)
    requires JobOk(j) && i < Pieces(j)
    requires seen <= AllPieces(Pieces(j)) && seen != AllPieces(Pieces(j))
    requires AlmostOk(m, k) && Mine(m.buffers[k], j, seen)
    requires m.buffers[k].received > 0 || seen == {}
    ensures RightOutcome(Deposit(m, k, FragmentOf(j.message, j.budget, j.key, j.dataType, i), time), j, seen, i)
  {
    var b := m.buffers[k];
    var f := FragmentOf(j.message, j.budget, j.key, j.dataType, i);
    var r := Fill(b, f, time);
    PieceInside(|j.message|, j.budget, i);
    OneRun(i, Pieces(j));
    assert seen == {} ==> seen + {i} == {i};
    assert b in m.buffers;
    if i in seen {
      FillDuplicate(b, j.message, j.budget, j.key, j.dataType, seen, i, time);
    } else {
      FillMissing(b, j.message, j.budget, j.key, j.dataType, seen, i, time);
      if Runs(seen + {i}, Pieces(j)) <= MAX_RANGES {
        assert WellFormed(f) && |f.payload| > 0;
        FillCompletesIff(b, f, time);
        AllSeenIff(r.buffer, j.message, j.budget, seen + {i});
        hide Fill, Holds, Sorted, Below, Length, Covers, AllPieces, Fillable, FragmentOf, Runs;
        if r.buffer.received == r.buffer.size {
          DropKeeps(m, k);
        } else {
          PutMine(m.buffers, k, r.buffer, j, seen + {i});
        }
      }
    }
  }

  lemma EmptyHolds(j: Job, b: Buffer)
    requires JobOk(j) && b.ranges == [] && b.size == |j.message| == |b.data|
    ensures Holds(b, j.message, j.budget, {})
  {
  }

  /** A piece of the message. */
  lemma OwnPiece(m: Manager, j: Job, seen: set<nat>, i: nat, mem: Memory, time: u32)
    requires ManagerOk(m) && JobOk(j) && i < Pieces(j)
    requires seen <= AllPieces(Pieces(j)) && seen != AllPieces(Pieces(j)) && Progress(m, j, seen)
    requires seen == {} ==> Admit(m, |j.message|, mem) == Ok
    ensures RightOutcome(Process(m, FragmentOf(j.message, j.budget, j.key, j.dataType, i), mem, time), j, seen, i)
  {
    var f := FragmentOf(j.message, j.budget, j.key, j.dataType, i);
    PieceInside(|j.message|, j.budget, i);
    assert WellFormed(f) && |f.payload| > 0 && f.messageLen == |j.message| && f.key == j.key;
    if seen == {} {
      IndexNone(m.buffers, j.key);
      OpenedAlmostOk(m, f, mem);
      var o := Opened(m, f, mem);
      EmptyHolds(j, o.buffers[|m.buffers|]);
      hide Deposit, RightOutcome, Holds, AlmostOk, Admit, ManagerOk, FragmentOf, Index, Runs;
      DepositPiece(o, |m.buffers|, j, seen, i, time);
    } else {
      var b :| b in m.buffers && Mine(b, j, seen);
      IndexIs(m.buffers, b);
      assert BufferOk(b);
      hide Deposit, RightOutcome, Holds, FragmentOf, Index, Runs;
      DepositPiece(m, Index(m.buffers, j.key), j, seen, i, time);
    }
  }

  /** A fragment touches no message but its own. */
  lemma OthersKept(m: Manager, f: Fragment, mem: Memory, time: u32)
    requires ManagerOk(m)
    ensures forall b: Buffer :: b.key != f.key ==> (b in Process(m, f, mem, time).manager.buffers <==> b in m.buffers)
  {
    if |f.payload| > 0 && WellFormed(f) {
      var i := Index(m.buffers, f.key);
      if i < |m.buffers| {
        DepositOthers(m, i, f, time);
      } else if Admit(m, f.messageLen, mem) == Ok {
        OpenedAlmostOk(m, f, mem);
        DepositOthers(Opened(m, f, mem), i, f, time);
      }
    }
  }

  lemma DepositOthers(m: Manager, i: nat, f: Fragment, time: u32)
    requires i < |m.buffers| && m.buffers[i].key == f.key && DistinctKeys(m.buffers) && m.current == Sizes(m.buffers)
    ensures forall b: Buffer :: b.key != f.key ==> (b in Deposit(m, i, f, time).manager.buffers <==> b in m.buffers)
  {
    var r := Fill(m.buffers[i], f, time);
    DropKeeps(m, i);
    FillKeepsIdentity(m.buffers[i], f, time);
    PutKeeps(m.buffers, i, r.buffer);
    hide Fill, DistinctKeys, Sizes, Dropped;
  }

  lemma OthersProgress(m: Manager, j: Job, seen: set<nat>, f: Fragment, mem: Memory, time: u32)
    requires ManagerOk(m) && JobOk(j) && Progress(m, j, seen) && f.key != j.key
    ensures Progress(Process(m, f, mem, time).manager, j, seen)
  {
    OthersKept(m, f, mem, time);
    hide Process, ManagerOk, Holds;
  }

  // ---- Runs ----

  /** A piece of the message, or any fragment of another one. */
  datatype Arrival =
    | Own(i: nat, mem: Memory, time: u32)
    | Foreign(f: Fragment, mem: Memory, time: u32)

  predicate Possible(j: Job, a: Arrival)
    requires JobOk(j)
  {
    match a
    case Own(i, _, _) => i < Pieces(j)
    case Foreign(f, _, _) => f.key != j.key
  }

  function Step(m: Manager, j: Job, a: Arrival): Outcome
    requires JobOk(j) && Possible(j, a)
  {
    match a
    case Own(i, mem, time) => Process(m, FragmentOf(j.message, j.budget, j.key, j.dataType, i), mem, time)
    case Foreign(f, mem, time) => Process(m, f, mem, time)
  }

  predicate AllPossible(j: Job, arrivals: seq<Arrival>)
    requires JobOk(j)
  {
    forall k :: 0 <= k < |arrivals| ==> Possible(j, arrivals[k])
  }

  function After(m: Manager, j: Job, arrivals: seq<Arrival>): Manager
    requires JobOk(j) && AllPossible(j, arrivals)
  {
    if arrivals == [] then m
    else
      var n := |arrivals| - 1;
      Step(After(m, j, arrivals[..n]), j, arrivals[n]).manager
  }

  /** The pieces the manager keeps after the arrivals. */
  function Kept(n: nat, arrivals: seq<Arrival>): set<nat> {
    if arrivals == [] then {}
    else
      var k := |arrivals| - 1;
      var seen := Kept(n, arrivals[..k]);
      if arrivals[k].Own? then Next(n, seen, arrivals[k].i) else seen
  }

  /** Whenever a piece has to open a buffer, the manager has room for it. */
  predicate RoomWhenNeeded(m: Manager, j: Job, arrivals: seq<Arrival>)
    requires JobOk(j) && AllPossible(j, arrivals)
  {
    forall k :: 0 <= k < |arrivals| && arrivals[k].Own? && Kept(Pieces(j), arrivals[..k]) == {} ==>
      Admit(After(m, j, arrivals[..k]), |j.message|, arrivals[k].mem) == Ok
  }

  lemma Prefix(m: Manager, j: Job, arrivals: seq<Arrival>, n: nat)
    requires JobOk(j) && AllPossible(j, arrivals) && RoomWhenNeeded(m, j, arrivals) && n < |arrivals|
    ensures AllPossible(j, arrivals[..n]) && RoomWhenNeeded(m, j, arrivals[..n])
    ensures arrivals[n].Own? && Kept(Pieces(j), arrivals[..n]) == {} ==>
      Admit(After(m, j, arrivals[..n]), |j.message|, arrivals[n].mem) == Ok
  {
    hide Kept, After, Admit, Possible;
    forall k | 0 <= k < n && arrivals[..n][k].Own? && Kept(Pieces(j), arrivals[..n][..k]) == {}
      ensures Admit(After(m, j, arrivals[..n][..k]), |j.message|, arrivals[..n][k].mem) == Ok
    {
      assert arrivals[..n][..k] == arrivals[..k];
    }
  }

  lemma NextInside(n: nat, seen: set<nat>, i: nat)
    requires seen <= AllPieces(n) && seen != AllPieces(n) && i < n
    ensures Next(n, seen, i) <= AllPieces(n) && Next(n, seen, i) != AllPieces(n)
  {
    hide Runs;
    assert 0 in AllPieces(n);
  }

  lemma {:induction false} RunKept(m: Manager, j: Job, arrivals: seq<Arrival>)
    requires ManagerOk(m) && JobOk(j) && Progress(m, j, {})
    requires AllPossible(j, arrivals) && RoomWhenNeeded(m, j, arrivals)
    ensures var seen := Kept(Pieces(j), arrivals);
      && ManagerOk(After(m, j, arrivals)) && Progress(After(m, j, arrivals), j, seen)
      && seen <= AllPieces(Pieces(j)) && seen != AllPieces(Pieces(j))
    decreases |arrivals|
  {
    if arrivals == [] {
      PieceInside(|j.message|, j.budget, 0) by { SomePiece(j); }
      assert 0 in AllPieces(Pieces(j)) by { SomePiece(j); }
    } else {
      var n := |arrivals| - 1;
      var before, a := arrivals[..n], arrivals[n];
      Prefix(m, j, arrivals, n);
      RunKept(m, j, before);
      assert Possible(j, a);
      hide ManagerOk, Progress, RoomWhenNeeded, AllPossible, Admit, Next, AnswerTo, AllPieces;
      StepKept(After(m, j, before), j, Kept(Pieces(j), before), a);
    }
  }

  lemma SomePiece(j: Job)
    requires JobOk(j)
    ensures Pieces(j) > 0
  {
    InPieceIff(|j.message|, j.budget, 0, 0);
  }

  lemma StepKept(m: Manager, j: Job, seen: set<nat>, a: Arrival)
    requires ManagerOk(m) && JobOk(j) && Possible(j, a)
    requires seen <= AllPieces(Pieces(j)) && seen != AllPieces(Pieces(j)) && Progress(m, j, seen)
    requires a.Own? && seen == {} ==> Admit(m, |j.message|, a.mem) == Ok
    ensures ManagerOk(Step(m, j, a).manager)
    ensures a.Own? ==> RightOutcome(Step(m, j, a), j, seen, a.i)
    ensures var next := if a.Own? then Next(Pieces(j), seen, a.i) else seen;
      Progress(Step(m, j, a).manager, j, next) && next <= AllPieces(Pieces(j)) && next != AllPieces(Pieces(j))
  {
    hide Runs, AllPieces, Next, AnswerTo, ManagerOk, Progress, Process;
    match a
    case Own(i, mem, time) =>
      ProcessKeeps(m, FragmentOf(j.message, j.budget, j.key, j.dataType, i), mem, time);
      OwnPiece(m, j, seen, i, mem, time);
      NextInside(Pieces(j), seen, i);
    case Foreign(f, mem, time) =>
      ProcessKeeps(m, f, mem, time);
      OthersProgress(m, j, seen, f, mem, time);
  }

  // ---- Main results ----

  /**
   * For any number of pieces, in any order, with duplicates, foreign traffic and
   * repeats after completion: the answer to every piece is determined by the
   * pieces kept so far. It completes the message exactly when it is the last one
   * missing, and is refused exactly when it would make more than 16 runs.
   */
  lemma EveryPieceAnswered(m: Manager, j: Job, arrivals: seq<Arrival>)
    requires ManagerOk(m) && JobOk(j) && Progress(m, j, {}) && arrivals != []
    requires AllPossible(j, arrivals) && RoomWhenNeeded(m, j, arrivals) && arrivals[|arrivals| - 1].Own?
    ensures var n := |arrivals| - 1;
      AllPossible(j, arrivals[..n]) && Possible(j, arrivals[n])
    ensures var n := |arrivals| - 1; var seen := Kept(Pieces(j), arrivals[..n]);
      var o := Step(After(m, j, arrivals[..n]), j, arrivals[n]);
      && ManagerOk(o.manager)
      && o.status == AnswerTo(Pieces(j), seen, arrivals[n].i)
      && o.message == (if o.status == Ok then Some(j.message) else None)
      && (o.status == Ok ==> !HasKey(o.manager.buffers, j.key))
  {
    var n := |arrivals| - 1;
    Prefix(m, j, arrivals, n);
    RunKept(m, j, arrivals[..n]);
    assert Possible(j, arrivals[n]);
    var s, seen := After(m, j, arrivals[..n]), Kept(Pieces(j), arrivals[..n]);
    hide RoomWhenNeeded, AllPossible, Step, ManagerOk, After, Kept, Runs, AllPieces, Admit;
    StepKept(s, j, seen, arrivals[n]);
    var o := Step(s, j, arrivals[n]);
    if o.status == Ok {
      IndexNone(o.manager.buffers, j.key);
    }
  }

  /** The pieces that have arrived. */
  function OwnPieces(arrivals: seq<Arrival>): set<nat> {
    if arrivals == [] then {}
    else
      var k := |arrivals| - 1;
      OwnPieces(arrivals[..k]) + (if arrivals[k].Own? then {arrivals[k].i} else {})
  }

  /** No piece makes more than 16 runs of those before it. */
  predicate NeverScattered(n: nat, arrivals: seq<Arrival>) {
    forall k :: 0 <= k < |arrivals| && arrivals[k].Own? ==> Runs(OwnPieces(arrivals[..k]) + {arrivals[k].i}, n) <= MAX_RANGES
  }

  lemma ScatteredPrefix(n: nat, arrivals: seq<Arrival>, m: nat)
    requires NeverScattered(n, arrivals) && m <= |arrivals|
    ensures NeverScattered(n, arrivals[..m])
  {
    hide Runs, OwnPieces;
    forall k | 0 <= k < m && arrivals[..m][k].Own?
      ensures Runs(OwnPieces(arrivals[..m][..k]) + {arrivals[..m][k].i}, n) <= MAX_RANGES
    {
      assert arrivals[..m][..k] == arrivals[..k];
    }
  }

  /** Until the message is complete, everything that arrived is kept. */
  lemma {:induction false} KeptIsAll(j: Job, arrivals: seq<Arrival>)
    requires JobOk(j) && AllPossible(j, arrivals) && NeverScattered(Pieces(j), arrivals)
    requires OwnPieces(arrivals) != AllPieces(Pieces(j))
    ensures Kept(Pieces(j), arrivals) == OwnPieces(arrivals) <= AllPieces(Pieces(j))
    decreases |arrivals|
  {
    if arrivals != [] {
      var n := |arrivals| - 1;
      assert Possible(j, arrivals[n]);
      ScatteredPrefix(Pieces(j), arrivals, n);
      OwnPiecesInRange(j, arrivals);
      KeptIsAll(j, arrivals[..n]);
      hide Runs, Pieces;
      if arrivals[n].Own? && arrivals[n].i in OwnPieces(arrivals[..n]) {
        assert OwnPieces(arrivals) == OwnPieces(arrivals[..n]);
      }
    }
  }

  lemma {:induction false} OwnPiecesInRange(j: Job, arrivals: seq<Arrival>)
    requires JobOk(j) && AllPossible(j, arrivals)
    ensures OwnPieces(arrivals) <= AllPieces(Pieces(j))
  {
    if arrivals != [] {
      var n := |arrivals| - 1;
      OwnPiecesInRange(j, arrivals[..n]);
      assert Possible(j, arrivals[n]);
    }
  }

  /** What reassembly promises of the last arrival, a piece of a message not complete before it. */
  ghost predicate Reassembles(m: Manager, j: Job, arrivals: seq<Arrival>)
    requires JobOk(j) && arrivals != [] && AllPossible(j, arrivals) && arrivals[|arrivals| - 1].Own?
  {
    var n := |arrivals| - 1;
    PossibleParts(j, arrivals);
    var o := Step(After(m, j, arrivals[..n]), j, arrivals[n]);
    if OwnPieces(arrivals) == AllPieces(Pieces(j)) then
      o.status == Ok && o.message == Some(j.message) && !HasKey(o.manager.buffers, j.key)
    else
      o.status == Busy && o.message == None
  }

  lemma PossibleParts(j: Job, arrivals: seq<Arrival>)
    requires JobOk(j) && arrivals != [] && AllPossible(j, arrivals)
    ensures AllPossible(j, arrivals[..|arrivals| - 1]) && Possible(j, arrivals[|arrivals| - 1])
  {
  }

  /**
   * As long as the pieces never make more than 16 runs: until they are complete
   * every piece answers Busy, and the piece that completes them answers Ok with the
   * original bytes and releases the buffer.
   */
  lemma UnscatteredReassembles(m: Manager, j: Job, arrivals: seq<Arrival>)
    requires ManagerOk(m) && JobOk(j) && Progress(m, j, {}) && arrivals != []
    requires AllPossible(j, arrivals) && RoomWhenNeeded(m, j, arrivals) && arrivals[|arrivals| - 1].Own?
    requires NeverScattered(Pieces(j), arrivals) && OwnPieces(arrivals[..|arrivals| - 1]) != AllPieces(Pieces(j))
    ensures Reassembles(m, j, arrivals)
  {
    var n := |arrivals| - 1;
    EveryPieceAnswered(m, j, arrivals);
    ScatteredPrefix(Pieces(j), arrivals, n);
    KeptIsAll(j, arrivals[..n]);
    hide Runs, Kept, Step, After, RoomWhenNeeded, AllPossible, ManagerOk, Progress, HasKey;
    if arrivals[n].i in OwnPieces(arrivals[..n]) {
      assert OwnPieces(arrivals[..n]) + {arrivals[n].i} == OwnPieces(arrivals[..n]);
    }
  }

  /** At most 32 pieces can arrive in any order. */
  lemma AnyOrderReassembles(m: Manager, j: Job, arrivals: seq<Arrival>)
    requires ManagerOk(m) && JobOk(j) && Progress(m, j, {}) && arrivals != []
    requires AllPossible(j, arrivals) && RoomWhenNeeded(m, j, arrivals) && arrivals[|arrivals| - 1].Own?
    requires Pieces(j) <= 32 && OwnPieces(arrivals[..|arrivals| - 1]) != AllPieces(Pieces(j))
    ensures Reassembles(m, j, arrivals)
  {
    hide Runs;
    forall k | 0 <= k < |arrivals| && arrivals[k].Own?
      ensures Runs(OwnPieces(arrivals[..k]) + {arrivals[k].i}, Pieces(j)) <= MAX_RANGES
    {
      RunsAreFew(OwnPieces(arrivals[..k]) + {arrivals[k].i}, Pieces(j));
    }
    UnscatteredReassembles(m, j, arrivals);
  }

  /** The pieces come as 0, 1, 2, ..., each possibly repeated. */
  predicate InOrder(arrivals: seq<Arrival>) {
    forall k :: 0 <= k < |arrivals| && arrivals[k].Own? ==>
      arrivals[k].i in OwnPieces(arrivals[..k]) || OwnPieces(arrivals[..k]) == AllPieces(arrivals[k].i)
  }

  lemma InOrderPrefix(arrivals: seq<Arrival>, m: nat)
    requires InOrder(arrivals) && m <= |arrivals|
    ensures InOrder(arrivals[..m])
  {
    hide OwnPieces, AllPieces;
    forall k | 0 <= k < m && arrivals[..m][k].Own?
      ensures arrivals[..m][k].i in OwnPieces(arrivals[..m][..k]) || OwnPieces(arrivals[..m][..k]) == AllPieces(arrivals[..m][k].i)
    {
      assert arrivals[..m][..k] == arrivals[..k];
    }
  }

  lemma {:induction false} InOrderIsPrefix(arrivals: seq<Arrival>) returns (n: nat)
    requires InOrder(arrivals)
    ensures OwnPieces(arrivals) == AllPieces(n)
    decreases |arrivals|
  {
    if arrivals == [] {
      return 0;
    }
    var k := |arrivals| - 1;
    InOrderPrefix(arrivals, k);
    n := InOrderIsPrefix(arrivals[..k]);
    if arrivals[k].Own? && arrivals[k].i !in OwnPieces(arrivals[..k]) {
      n := arrivals[k].i + 1;
    } else if arrivals[k].Own? {
      assert OwnPieces(arrivals) == OwnPieces(arrivals[..k]);
    }
  }

  lemma InOrderNeverScattered(pieces: nat, arrivals: seq<Arrival>)
    requires InOrder(arrivals)
    ensures NeverScattered(pieces, arrivals)
  {
    forall k | 0 <= k < |arrivals| && arrivals[k].Own?
      ensures Runs(OwnPieces(arrivals[..k]) + {arrivals[k].i}, pieces) <= MAX_RANGES
    {
      InOrderPrefix(arrivals, k + 1);
      var n := InOrderIsPrefix(arrivals[..k + 1]);
      assert arrivals[..k + 1][..k] == arrivals[..k];
      assert OwnPieces(arrivals[..k + 1]) == OwnPieces(arrivals[..k]) + {arrivals[k].i};
      RunsOfPrefix(n, pieces);
    }
  }

  /** In order, as the reliable transport delivers them, any number of pieces can arrive. */
  lemma InOrderReassembles(m: Manager, j: Job, arrivals: seq<Arrival>)
    requires ManagerOk(m) && JobOk(j) && Progress(m, j, {}) && arrivals != []
    requires AllPossible(j, arrivals) && RoomWhenNeeded(m, j, arrivals) && arrivals[|arrivals| - 1].Own?
    requires InOrder(arrivals) && OwnPieces(arrivals[..|arrivals| - 1]) != AllPieces(Pieces(j))
    ensures Reassembles(m, j, arrivals)
  {
    InOrderNeverScattered(Pieces(j), arrivals);
    hide NeverScattered, OwnPieces, AllPieces, Pieces;
    UnscatteredReassembles(m, j, arrivals);
  }

  // ---- How many pieces the table can take ----

  const AMPLE := Memory(true, true, [])

  /** Every second piece, `k` of them. */
  function Evens(k: nat): (r: seq<Arrival>)
    ensures |r| == k && forall i :: 0 <= i < k ==> r[i] == Own(2 * i, AMPLE, 1)
  {
    seq(k, i requires 0 <= i < k => Own(2 * i, AMPLE, 1))
  }

  function EvenSet(k: nat): (s: set<nat>)
    ensures forall i: nat :: i in s <==> i % 2 == 0 && i < 2 * k
  {
    if k == 0 then {} else EvenSet(k - 1) + {2 * (k - 1)}
  }

  lemma EvensNotEmpty(k: nat)
    ensures EvenSet(k) == {} ==> k == 0
  {
    assert k > 0 ==> 0 in EvenSet(k);
  }

  lemma {:induction false} RunsOfEvens(k: nat, p: nat)
    ensures Runs(EvenSet(k), p) == if p >= 2 * k then k else (p + 1) / 2
  {
    if p > 0 {
      RunsOfEvens(k, p - 1);
    }
  }

  lemma {:induction false} EvensKept(n: nat, k: nat)
    requires n > 32 && k <= 16
    ensures Kept(n, Evens(k)) == EvenSet(k)
  {
    if k > 0 {
      EvensKept(n, k - 1);
      assert Evens(k)[..k - 1] == Evens(k - 1);
      RunsOfEvens(k, n);
      assert EvenSet(k - 1) + {2 * (k - 1)} == EvenSet(k);
      assert 1 in AllPieces(n) && 1 !in EvenSet(k);
      hide Runs;
    }
  }

  /** Some arrival order has a piece of the message refused for want of a range. */
  ghost predicate CanOverflow(m: Manager, j: Job)
    requires JobOk(j)
  {
    exists arrivals: seq<Arrival> :: arrivals != [] && Overflows(m, j, arrivals)
  }

  /** There is room for the message, and yet its last piece to arrive is refused. */
  predicate Overflows(m: Manager, j: Job, arrivals: seq<Arrival>)
    requires JobOk(j) && arrivals != []
  {
    && AllPossible(j, arrivals) && RoomWhenNeeded(m, j, arrivals) && arrivals[|arrivals| - 1].Own?
    && (PossibleParts(j, arrivals);
        Step(After(m, j, arrivals[..|arrivals| - 1]), j, arrivals[|arrivals| - 1]).status == NoMemory)
  }

  /** Some order of arrival overflows the table exactly when there are more than 32 pieces. */
  lemma CapReachableIff(m: Manager, j: Job)
    requires ManagerOk(m) && JobOk(j) && Progress(m, j, {}) && Admit(m, |j.message|, AMPLE) == Ok
    ensures CanOverflow(m, j) <==> Pieces(j) > 32
  {
    if Pieces(j) > 32 {
      EvensOverflow(m, j);
    } else {
      forall arrivals: seq<Arrival> | arrivals != [] ensures !Overflows(m, j, arrivals) {
        if Overflows(m, j, arrivals) {
          FewNeverOverflow(m, j, arrivals);
        }
      }
    }
  }

  lemma FewNeverOverflow(m: Manager, j: Job, arrivals: seq<Arrival>)
    requires ManagerOk(m) && JobOk(j) && Progress(m, j, {}) && arrivals != []
    requires AllPossible(j, arrivals) && RoomWhenNeeded(m, j, arrivals) && arrivals[|arrivals| - 1].Own?
    requires Pieces(j) <= 32
    ensures !Overflows(m, j, arrivals)
  {
    var n := |arrivals| - 1;
    EveryPieceAnswered(m, j, arrivals);
    RunsAreFew(Kept(Pieces(j), arrivals[..n]) + {arrivals[n].i}, Pieces(j));
    hide Runs, Step, After, RoomWhenNeeded, Kept, Pieces;
  }

  lemma EvensHaveRoom(m: Manager, j: Job)
    requires JobOk(j) && Admit(m, |j.message|, AMPLE) == Ok && Pieces(j) > 32
    ensures AllPossible(j, Evens(17)) && RoomWhenNeeded(m, j, Evens(17))
  {
    var arrivals := Evens(17);
    forall k | 0 <= k < 17 && Kept(Pieces(j), arrivals[..k]) == {}
      ensures Admit(After(m, j, arrivals[..k]), |j.message|, arrivals[k].mem) == Ok
    {
      assert arrivals[..k] == Evens(k);
      EvensKept(Pieces(j), k);
      EvensNotEmpty(k);
    }
  }

  lemma EvensOverflow(m: Manager, j: Job)
    requires ManagerOk(m) && JobOk(j) && Progress(m, j, {}) && Admit(m, |j.message|, AMPLE) == Ok && Pieces(j) > 32
    ensures CanOverflow(m, j)
  {
    var arrivals := Evens(17);
    EvensHaveRoom(m, j);
    EvensKept(Pieces(j), 16);
    RunsOfEvens(17, Pieces(j));
    assert arrivals[..16] == Evens(16) && arrivals[16].i == 32;
    assert EvenSet(16) + {32} == EvenSet(17);
    hide Runs, Step, After, Kept, Evens, EvenSet, RoomWhenNeeded, AllPossible, Admit, Progress, ManagerOk;
    EveryPieceAnswered(m, j, arrivals);
    assert Overflows(m, j, arrivals);
  }
}
