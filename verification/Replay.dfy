/**
 * Replay protection: a 64-bit bitmap below the largest number seen, as a set of
 * seen numbers, and a fixed table of such windows, one per sender and session.
 */
module Replay {
  import opened Base

  // ---- Bits of a 64-bit word ----

  function Twice(m: bv64): bv64 {
    m << 1
  }

  function Eight(m: bv64): bv64 {
    m << 8
  }

  function And(m: bv64, k: bv64): bv64 {
    m & k
  }

  function Or(m: bv64, k: bv64): bv64 {
    m | k
  }

  /** `1 << i`, one place at a time. */
  function Mask(i: nat): bv64 {
    if i == 0 then 1 else Twice(Mask(i - 1))
  }

  /** `m << d`, one place at a time. */
  function Up(m: bv64, d: nat): bv64 {
    if d == 0 then m else Twice(Up(m, d - 1))
  }

  predicate BitAt(m: bv64, i: nat) {
    And(m, Mask(i)) != 0
  }

  const TOP: bv64 := 0x8000_0000_0000_0000

  lemma AndTwice(m: bv64, k: bv64)
    ensures And(Twice(m), Twice(k)) == Twice(And(m, k))
  {
  }

  lemma AndAssoc(m: bv64, k: bv64, t: bv64)
    ensures And(And(m, k), t) == And(m, And(k, t))
  {
  }

  lemma AndComm(m: bv64, k: bv64)
    ensures And(m, k) == And(k, m)
  {
  }

  lemma AndZero(m: bv64)
    ensures And(m, 0) == 0
  {
  }

  lemma AndSelf(k: bv64)
    ensures And(k, k) == k
  {
  }

  lemma LowAfterTwice(m: bv64)
    ensures And(Twice(m), 1) == 0
  {
  }

  lemma TwiceZero()
    ensures Twice(0) == 0
  {
  }

  lemma TwiceZeroIff(x: bv64)
    requires And(x, TOP) == 0
    ensures Twice(x) == 0 <==> x == 0
  {
  }

  lemma OrSets(m: bv64, k: bv64)
    ensures And(Or(m, k), k) == k
  {
  }

  lemma OrElsewhere(m: bv64, j: bv64, k: bv64)
    requires And(j, k) == 0
    ensures And(Or(m, j), k) == And(m, k)
  {
  }

  lemma EightTwices(k: bv64)
    ensures Twice(Twice(Twice(Twice(Twice(Twice(Twice(Twice(k)))))))) == Eight(k)
  {
  }

  lemma MaskNext(i: nat)
    ensures Mask(i + 1) == Twice(Mask(i))
  {
  }

  lemma MaskEight(i: nat)
    ensures Mask(i + 8) == Eight(Mask(i))
  {
    hide Twice, Mask, Eight;
    MaskNext(i);
    MaskNext(i + 1);
    MaskNext(i + 2);
    MaskNext(i + 3);
    MaskNext(i + 4);
    MaskNext(i + 5);
    MaskNext(i + 6);
    MaskNext(i + 7);
    EightTwices(Mask(i));
  }

  lemma MaskOne()
    ensures Mask(0) == 1
  {
  }

  lemma MaskTop()
    ensures Mask(63) == TOP
  {
    hide Mask;
    MaskOne();
    MaskEight(0);
    MaskEight(8);
    MaskEight(16);
    MaskEight(24);
    MaskEight(32);
    MaskEight(40);
    MaskEight(48);
    MaskNext(56);
    MaskNext(57);
    MaskNext(58);
    MaskNext(59);
    MaskNext(60);
    MaskNext(61);
    MaskNext(62);
  }

  lemma {:induction false} ZeroStays(i: nat, j: nat)
    requires i <= j && Mask(i) == 0
    ensures Mask(j) == 0
  {
    hide Twice;
    if i < j {
      ZeroStays(i, j - 1);
      TwiceZero();
    }
  }

  lemma MaskNonzero(i: nat)
    requires i < 64
    ensures Mask(i) != 0
  {
    hide Mask;
    if Mask(i) == 0 {
      ZeroStays(i, 63);
      MaskTop();
    }
  }

  lemma {:induction false} MasksApart(i: nat, j: nat)
    requires i < j
    ensures And(Mask(i), Mask(j)) == 0
  {
    hide Twice, And;
    if i == 0 {
      AndComm(1, Mask(j));
      LowAfterTwice(Mask(j - 1));
    } else {
      MasksApart(i - 1, j - 1);
      AndTwice(Mask(i - 1), Mask(j - 1));
      TwiceZero();
    }
  }

  lemma BitZero(m: bv64)
    ensures !BitAt(Twice(m), 0)
  {
    hide Twice, And;
    LowAfterTwice(m);
  }

  /** Shifting by one place moves every bit up by one. */
  lemma BitTwice(m: bv64, i: nat)
    requires i < 63
    ensures BitAt(Twice(m), i + 1) <==> BitAt(m, i)
  {
    hide Twice, And, Mask;
    MaskNext(i);
    AndTwice(m, Mask(i));
    AndAssoc(m, Mask(i), Mask(63));
    MasksApart(i, 63);
    MaskTop();
    AndZero(m);
    TwiceZeroIff(And(m, Mask(i)));
  }

  /** Shifting by `d` places moves every bit up by `d` and clears the low ones. */
  lemma {:induction false} BitUp(m: bv64, d: nat, i: nat)
    requires i < 64
    ensures BitAt(Up(m, d), i) <==> i >= d && BitAt(m, i - d)
    decreases d
  {
    hide Twice, BitAt;
    if d > 0 {
      if i == 0 {
        BitZero(Up(m, d - 1));
      } else {
        BitTwice(Up(m, d - 1), i - 1);
        BitUp(m, d - 1, i - 1);
      }
    }
  }

  /** Setting bit `j` sets that bit and no other. */
  lemma BitOr(m: bv64, j: nat, i: nat)
    requires i < 64 && j < 64
    ensures BitAt(Or(m, Mask(j)), i) <==> BitAt(m, i) || i == j
  {
    hide And, Or, Mask;
    if i == j {
      OrSets(m, Mask(i));
      MaskNonzero(i);
    } else {
      AndComm(Mask(j), Mask(i));
      MasksApart(if i < j then i else j, if i < j then j else i);
      OrElsewhere(m, Mask(j), Mask(i));
    }
  }

  lemma BitOne(i: nat)
    requires i < 64
    ensures BitAt(1, i) <==> i == 0
  {
    hide And, Mask;
    MaskOne();
    if i == 0 {
      AndSelf(1);
    } else {
      MasksApart(0, i);
    }
  }

  // ---- One window ----

  datatype Key = Key(source: u16, connection: u32, epoch: u32)

  datatype Window = Window(key: Key, size: nat, hasLargest: bool, largest: u32, bitmap: bv64)

  datatype Verdict = Reject | New | Duplicate

  datatype Checked = Checked(window: Window, verdict: Verdict)

  function Check(w: Window, key: Key, pn: u32): Checked {
    if key != w.key then Checked(w, Reject)
    else if !w.hasLargest then Checked(w.(hasLargest := true, largest := pn, bitmap := 1), New)
    else if pn > w.largest then
      var diff := pn - w.largest;
      Checked(w.(largest := pn, bitmap := if diff >= 64 then 1 else Or(Up(w.bitmap, diff), Mask(0))), New)
    else
      var offset := w.largest - pn;
      if offset >= w.size || offset >= 64 then Checked(w, Reject)
      else if BitAt(w.bitmap, offset) then Checked(w, Duplicate)
      else Checked(w.(bitmap := Or(w.bitmap, Mask(offset))), New)
  }

  // ---- The window as a set ----

  /** Which numbers have been answered New. */
  ghost predicate Tracks(w: Window, seen: set<u32>) {
    && (w.hasLargest <==> seen != {})
    && (w.hasLargest ==>
          && w.largest in seen && (forall n :: n in seen ==> n <= w.largest)
          && (forall i: nat :: i < 64 && i <= w.largest ==> (BitAt(w.bitmap, i) <==> (w.largest - i) as u32 in seen)))
  }

  /** What the documentation promises, in terms of the set alone. */
  function Answer(size: nat, seen: set<u32>, largest: u32, pn: u32): Verdict {
    if seen == {} || pn > largest then New
    else if largest - pn >= size then Reject
    else if pn in seen then Duplicate
    else New
  }

  lemma TracksUp(w: Window, seen: set<u32>, pn: u32)
    requires Tracks(w, seen) && w.hasLargest && w.largest < pn < w.largest + 64
    ensures Tracks(w.(largest := pn, bitmap := Or(Up(w.bitmap, pn - w.largest), Mask(0))), seen + {pn})
  {
    var d := pn - w.largest;
    var m := Or(Up(w.bitmap, d), Mask(0));
    hide BitAt, Up, Mask, Or;
    forall i: nat | i < 64 && i <= pn ensures BitAt(m, i) <==> (pn - i) as u32 in seen + {pn} {
      BitOr(Up(w.bitmap, d), 0, i);
      BitUp(w.bitmap, d, i);
    }
  }

  lemma TracksJump(w: Window, seen: set<u32>, pn: u32)
    requires Tracks(w, seen) && w.hasLargest && pn >= w.largest + 64
    ensures Tracks(w.(largest := pn, bitmap := 1), seen + {pn})
  {
    hide BitAt;
    forall i: nat | i < 64 && i <= pn ensures BitAt(1, i) <==> (pn - i) as u32 in seen + {pn} {
      BitOne(i);
    }
  }

  lemma TracksFirst(w: Window, pn: u32)
    requires Tracks(w, {}) && !w.hasLargest
    ensures Tracks(w.(hasLargest := true, largest := pn, bitmap := 1), {pn})
  {
    hide BitAt;
    forall i: nat | i < 64 && i <= pn ensures BitAt(1, i) <==> (pn - i) as u32 in {pn} {
      BitOne(i);
    }
  }

  lemma TracksSet(w: Window, seen: set<u32>, pn: u32)
    requires Tracks(w, seen) && w.hasLargest && pn <= w.largest < pn + 64
    ensures Tracks(w.(bitmap := Or(w.bitmap, Mask(w.largest - pn))), seen + {pn})
  {
    var m := Or(w.bitmap, Mask(w.largest - pn));
    hide BitAt, Mask, Or;
    forall i: nat | i < 64 && i <= w.largest ensures BitAt(m, i) <==> (w.largest - i) as u32 in seen + {pn} {
      BitOr(w.bitmap, w.largest - pn, i);
    }
  }

  /**
   * The bitmap decides exactly as the set of seen numbers would, and New adds the
   * number to the set; a number once answered New is never answered New again.
   */
  lemma CheckRefines(w: Window, seen: set<u32>, pn: u32)
    requires Tracks(w, seen) && w.size <= 64
    ensures var r := Check(w, w.key, pn);
      && r.verdict == Answer(w.size, seen, w.largest, pn)
      && Tracks(r.window, if r.verdict == New then seen + {pn} else seen)
      && r.window.key == w.key && r.window.size == w.size
      && (r.verdict == New ==> pn !in seen)
  {
    hide BitAt, Up, Mask, Or;
    if !w.hasLargest {
      TracksFirst(w, pn);
    } else if pn > w.largest {
      if pn - w.largest >= 64 {
        TracksJump(w, seen, pn);
      } else {
        TracksUp(w, seen, pn);
      }
    } else if w.largest - pn < 64 {
      assert w.largest - (w.largest - pn) == pn;
      TracksSet(w, seen, pn);
    }
  }

  // ---- The table of windows ----

  const WINDOW_COUNT := 16
  const WINDOW_SIZE := 64

  type Table = seq<Option<Window>>

  predicate Holds(slot: Option<Window>, key: Key) {
    slot.Some? && slot.value.key == key
  }

  /** The first slot holding a key, or the table's length. */
  function SlotOf(t: Table, key: Key): (i: nat)
    ensures i <= |t|
    ensures i < |t| ==> Holds(t[i], key)
    ensures forall j :: 0 <= j < i ==> !Holds(t[j], key)
  {
    if t == [] || Holds(t[0], key) then 0 else 1 + SlotOf(t[1..], key)
  }

  /** The first free slot, or the table's length. */
  function FreeSlot(t: Table): (i: nat)
    ensures i <= |t|
    ensures i < |t| ==> t[i].None?
    ensures forall j :: 0 <= j < i ==> t[j].Some?
  {
    if t == [] || t[0].None? then 0 else 1 + FreeSlot(t[1..])
  }

  function Fresh(key: Key): Window {
    Window(key, WINDOW_SIZE, false, 0, 0)
  }

  datatype TableChecked = TableChecked(table: Table, verdict: Verdict)

  /** Windows are never given up: a full table rejects every new sender or session. */
  function CheckTable(t: Table, key: Key, pn: u32): TableChecked {
    var i := SlotOf(t, key);
    if i < |t| then
      var r := Check(t[i].value, key, pn);
      TableChecked(t[i := Some(r.window)], r.verdict)
    else
      var f := FreeSlot(t);
      if f == |t| || key.source == 0 then TableChecked(t, Reject)
      else
        var r := Check(Fresh(key), key, pn);
        TableChecked(t[f := Some(r.window)], r.verdict)
  }

  function SeenOf(seen: map<Key, set<u32>>, key: Key): set<u32> {
    if key in seen then seen[key] else {}
  }

  ghost predicate TableOk(t: Table, seen: map<Key, set<u32>>) {
    && (forall i, j :: 0 <= i < j < |t| && t[i].Some? && t[j].Some? ==> t[i].value.key != t[j].value.key)
    && (forall i :: 0 <= i < |t| && t[i].Some? ==>
          t[i].value.key in seen && t[i].value.size == WINDOW_SIZE && Tracks(t[i].value, seen[t[i].value.key]))
    && (forall key :: key in seen ==> exists i :: 0 <= i < |t| && Holds(t[i], key))
  }

  function Recorded(seen: map<Key, set<u32>>, key: Key, pn: u32, verdict: Verdict): map<Key, set<u32>> {
    if verdict == New then seen[key := SeenOf(seen, key) + {pn}] else seen
  }

  lemma PutWindow(t: Table, seen: map<Key, set<u32>>, i: nat, w: Window, key: Key, now: set<u32>)
    requires TableOk(t, seen) && i < |t| && w.key == key && w.size == WINDOW_SIZE && Tracks(w, now)
    requires Holds(t[i], key) || (t[i].None? && key !in seen)
    ensures TableOk(t[i := Some(w)], seen[key := now])
  {
    var u, s := t[i := Some(w)], seen[key := now];
    hide Tracks;
    forall j, k | 0 <= j < k < |u| && u[j].Some? && u[k].Some? ensures u[j].value.key != u[k].value.key {
      if j == i && t[i].None? {
        assert t[k].value.key in seen;
      }
      if k == i && t[i].None? {
        assert t[j].value.key in seen;
      }
    }
    forall k | k in s ensures exists j :: 0 <= j < |u| && Holds(u[j], k) {
      if k == key {
        assert Holds(u[i], k);
      } else {
        var j :| 0 <= j < |t| && Holds(t[j], k);
        assert Holds(u[j], k);
      }
    }
  }

  lemma FreshTracks(key: Key)
    ensures Tracks(Fresh(key), {})
  {
  }

  /** One check of the table against the seen numbers of each key. */
  lemma TableRefines(t: Table, seen: map<Key, set<u32>>, key: Key, pn: u32)
    requires TableOk(t, seen)
    ensures var r := CheckTable(t, key, pn);
      && TableOk(r.table, Recorded(seen, key, pn, r.verdict)) && |r.table| == |t|
      && (r.verdict == New ==> pn !in SeenOf(seen, key))
      && (key !in seen ==> (r.verdict == New <==> key.source != 0 && FreeSlot(t) < |t|) && r.verdict != Duplicate)
      && (key in seen ==> SlotOf(t, key) < |t|)
      && (key in seen ==> r.verdict == Answer(WINDOW_SIZE, seen[key], t[SlotOf(t, key)].value.largest, pn))
  {
    var i := SlotOf(t, key);
    if i < |t| {
      var w := t[i].value;
      assert Holds(t[i], key);
      CheckRefines(w, seen[key], pn);
      var r := Check(w, key, pn);
      hide Check, Tracks, Answer;
      PutWindow(t, seen, i, r.window, key, if r.verdict == New then seen[key] + {pn} else seen[key]);
      assert r.verdict != New ==> seen[key := seen[key]] == seen;
    } else {
      assert key !in seen;
      var f := FreeSlot(t);
      if f < |t| && key.source != 0 {
        FreshTracks(key);
        CheckRefines(Fresh(key), {}, pn);
        var r := Check(Fresh(key), key, pn);
        hide Check, Tracks;
        PutWindow(t, seen, f, r.window, key, {} + {pn});
      }
    }
  }

  // ---- Runs ----

  datatype Arrival = Arrival(key: Key, pn: u32)

  function TableAfter(t: Table, arrivals: seq<Arrival>): Table {
    if arrivals == [] then t
    else
      var n := |arrivals| - 1;
      CheckTable(TableAfter(t, arrivals[..n]), arrivals[n].key, arrivals[n].pn).table
  }

  /** The answer to arrival `k`. */
  function VerdictAt(t: Table, arrivals: seq<Arrival>, k: nat): Verdict
    requires k < |arrivals|
  {
    CheckTable(TableAfter(t, arrivals[..k]), arrivals[k].key, arrivals[k].pn).verdict
  }

  ghost function SeenAfter(t: Table, arrivals: seq<Arrival>): map<Key, set<u32>> {
    if arrivals == [] then map[]
    else
      var n := |arrivals| - 1;
      Recorded(SeenAfter(t, arrivals[..n]), arrivals[n].key, arrivals[n].pn,
               CheckTable(TableAfter(t, arrivals[..n]), arrivals[n].key, arrivals[n].pn).verdict)
  }

  function EmptyTable(): (t: Table)
    ensures |t| == WINDOW_COUNT && forall i :: 0 <= i < |t| ==> t[i].None?
  {
    seq(WINDOW_COUNT, _ => None)
  }

  lemma {:induction false} RunTracks(arrivals: seq<Arrival>)
    ensures TableOk(TableAfter(EmptyTable(), arrivals), SeenAfter(EmptyTable(), arrivals))
  {
    if arrivals != [] {
      var n := |arrivals| - 1;
      hide CheckTable, Recorded, TableOk;
      RunTracks(arrivals[..n]);
      TableRefines(TableAfter(EmptyTable(), arrivals[..n]), SeenAfter(EmptyTable(), arrivals[..n]), arrivals[n].key, arrivals[n].pn);
    }
  }

  lemma {:induction false} SeenGrows(arrivals: seq<Arrival>, i: nat, key: Key)
    requires i <= |arrivals|
    ensures SeenOf(SeenAfter(EmptyTable(), arrivals[..i]), key) <= SeenOf(SeenAfter(EmptyTable(), arrivals), key)
    decreases |arrivals|
  {
    hide CheckTable, TableAfter;
    if i == |arrivals| {
      assert arrivals[..i] == arrivals;
    } else {
      var n := |arrivals| - 1;
      SeenGrows(arrivals[..n], i, key);
      assert arrivals[..n][..i] == arrivals[..i];
    }
  }

  /** A number answered New is among the seen numbers of its key from then on. */
  lemma SeenLater(arrivals: seq<Arrival>, i: nat, j: nat)
    requires i < j <= |arrivals| && VerdictAt(EmptyTable(), arrivals, i) == New
    ensures arrivals[i].pn in SeenOf(SeenAfter(EmptyTable(), arrivals[..j]), arrivals[i].key)
  {
    var a := arrivals[i];
    assert arrivals[..j][..i + 1] == arrivals[..i + 1] && arrivals[..i + 1][..i] == arrivals[..i];
    hide CheckTable;
    SeenGrows(arrivals[..j], i + 1, a.key);
    assert a.pn in SeenOf(SeenAfter(EmptyTable(), arrivals[..i + 1]), a.key);
  }

  /** Over any run, a number of a sender's session is answered New at most once. */
  lemma NewAtMostOnce(arrivals: seq<Arrival>, i: nat, j: nat)
    requires i < j < |arrivals| && arrivals[i] == arrivals[j]
    requires VerdictAt(EmptyTable(), arrivals, i) == New
    ensures VerdictAt(EmptyTable(), arrivals, j) != New
  {
    SeenLater(arrivals, i, j);
    hide CheckTable, TableOk;
    RunTracks(arrivals[..j]);
    TableRefines(TableAfter(EmptyTable(), arrivals[..j]), SeenAfter(EmptyTable(), arrivals[..j]), arrivals[i].key, arrivals[i].pn);
  }

  // ---- The largest number of a sender ----

  function Max(a: u32, b: u32): u32 {
    if a < b then b else a
  }

  /** The largest number among the arrivals of a key. */
  function Highest(arrivals: seq<Arrival>, key: Key): Option<u32> {
    if arrivals == [] then None
    else
      var n := |arrivals| - 1;
      var rest := Highest(arrivals[..n], key);
      if arrivals[n].key != key then rest
      else Some(if rest.Some? then Max(rest.value, arrivals[n].pn) else arrivals[n].pn)
  }

  /** A key's window knows its largest arrival; a key without one never came, or can never get one. */
  predicate LargestRight(t: Table, highest: Option<u32>, key: Key) {
    if SlotOf(t, key) < |t| then t[SlotOf(t, key)].value.hasLargest && highest == Some(t[SlotOf(t, key)].value.largest)
    else highest.None? || key.source == 0 || FreeSlot(t) == |t|
  }

  lemma CheckLargest(w: Window, pn: u32)
    ensures var r := Check(w, w.key, pn).window;
      r.hasLargest && r.key == w.key && r.largest == if w.hasLargest then Max(w.largest, pn) else pn
  {
    hide Up, Or, Mask;
  }

  lemma OtherSlot(t: Table, i: nat, w: Window, key: Key)
    requires i < |t| && w.key != key && !Holds(t[i], key)
    ensures var u := t[i := Some(w)];
      && SlotOf(u, key) == SlotOf(t, key)
      && (SlotOf(t, key) < |t| ==> u[SlotOf(t, key)] == t[SlotOf(t, key)])
      && (FreeSlot(t) == |t| ==> FreeSlot(u) == |t|)
  {
    var u := t[i := Some(w)];
    assert !Holds(u[i], key) && forall j :: 0 <= j < |t| && j != i ==> u[j] == t[j];
    var a, b := SlotOf(t, key), SlotOf(u, key);
    assert a < |t| ==> Holds(u[a], key);
    assert b < |t| ==> Holds(t[b], key);
  }

  lemma OwnSlot(t: Table, i: nat, w: Window, key: Key)
    requires i < |t| && w.key == key && (SlotOf(t, key) == i || SlotOf(t, key) == |t|)
    ensures SlotOf(t[i := Some(w)], key) == i
  {
    var u := t[i := Some(w)];
    assert Holds(u[i], key) && forall j :: 0 <= j < |t| && j != i ==> u[j] == t[j];
    assert forall j :: 0 <= j < i ==> !Holds(u[j], key);
  }

  lemma LargestStep(t: Table, highest: Option<u32>, key: Key, a: Arrival)
    requires LargestRight(t, highest, key)
    ensures LargestRight(CheckTable(t, a.key, a.pn).table,
      if a.key != key then highest else Some(if highest.Some? then Max(highest.value, a.pn) else a.pn), key)
  {
    var i, f := SlotOf(t, a.key), FreeSlot(t);
    hide Check, SlotOf, FreeSlot;
    if i < |t| {
      var w := t[i].value;
      CheckLargest(w, a.pn);
      if a.key == key {
        OwnSlot(t, i, Check(w, a.key, a.pn).window, key);
      } else {
        OtherSlot(t, i, Check(w, a.key, a.pn).window, key);
      }
    } else if f < |t| && a.key.source != 0 {
      CheckLargest(Fresh(a.key), a.pn);
      if a.key == key {
        OwnSlot(t, f, Check(Fresh(a.key), a.key, a.pn).window, key);
      } else {
        OtherSlot(t, f, Check(Fresh(a.key), a.key, a.pn).window, key);
      }
    }
  }

  lemma {:induction false} RunLargest(arrivals: seq<Arrival>, key: Key)
    ensures LargestRight(TableAfter(EmptyTable(), arrivals), Highest(arrivals, key), key)
  {
    if arrivals != [] {
      var n := |arrivals| - 1;
      RunLargest(arrivals[..n], key);
      hide CheckTable, LargestRight;
      LargestStep(TableAfter(EmptyTable(), arrivals[..n]), Highest(arrivals[..n], key), key, arrivals[n]);
    }
  }

  lemma {:induction false} HighestIs(arrivals: seq<Arrival>, i: nat)
    requires i < |arrivals|
    ensures Highest(arrivals, arrivals[i].key).Some? && arrivals[i].pn <= Highest(arrivals, arrivals[i].key).value
  {
    var n := |arrivals| - 1;
    if i < n {
      HighestIs(arrivals[..n], i);
      assert arrivals[..n][i] == arrivals[i];
    }
  }

  /** What the data link passes up: new frames, and duplicates that must be acknowledged again. */
  function PassesUp(verdict: Verdict, ackEliciting: bool): bool {
    verdict == New || (verdict == Duplicate && ackEliciting)
  }

  /**
   * Over any run, a frame that asks for no ACK is passed up at most once; one that
   * does is passed up again exactly while it is fewer than 64 numbers behind the
   * largest that came from its sender's session.
   */
  lemma PassesUpAgainIff(arrivals: seq<Arrival>, i: nat, j: nat, ackEliciting: bool)
    requires i < j < |arrivals| && arrivals[i] == arrivals[j]
    requires VerdictAt(EmptyTable(), arrivals, i) == New
    ensures PassesUp(VerdictAt(EmptyTable(), arrivals, i), ackEliciting)
    ensures Highest(arrivals[..j], arrivals[i].key).Some?
    ensures PassesUp(VerdictAt(EmptyTable(), arrivals, j), ackEliciting)
       <==> ackEliciting && Highest(arrivals[..j], arrivals[i].key).value - arrivals[i].pn < 64
  {
    var a, before := arrivals[i], arrivals[..j];
    var t, seen := TableAfter(EmptyTable(), before), SeenAfter(EmptyTable(), before);
    assert before[i] == a;
    HighestIs(before, i);
    SeenLater(arrivals, i, j);
    RunTracks(before);
    RunLargest(before, a.key);
    TableRefines(t, seen, a.key, a.pn);
    hide CheckTable, TableOk, TableAfter, SeenAfter, Highest, SlotOf, FreeSlot;
  }

  // ---- The window and the table in memory ----

  class ReplayWindow {
    var key: Key
    var size: nat
    var hasLargest: bool
    var largest: u32
    var bitmap: bv64

    ghost function View(): Window
      reads this
    {
      Window(key, size, hasLargest, largest, bitmap)
    }

    constructor ()
      ensures View() == Window(Key(0, 0, 0), 0, false, 0, 0)
    {
      key, size, hasLargest, largest, bitmap := Key(0, 0, 0), 0, false, 0, 0;
    }

    method Init(key: Key, size: nat) returns (status: Status)
      modifies this
      ensures status == if key.source == 0 || size == 0 || size > 64 then InvalidParam else Ok
      ensures View() == if status.Ok? then Window(key, size, false, 0, 0) else old(View())
    {
      if key.source == 0 || size == 0 || size > 64 {
        return InvalidParam;
      }
      this.key, this.size, hasLargest, largest, bitmap := key, size, false, 0, 0;
      return Ok;
    }

    method CheckNumber(key: Key, pn: u32) returns (verdict: Verdict)
      modifies this
      ensures Checked(View(), verdict) == Check(old(View()), key, pn)
    {
      hide BitAt, Up, Mask, Or;
      if key != this.key {
        return Reject;
      }
      if !hasLargest {
        largest, bitmap, hasLargest := pn, 1, true;
        return New;
      }
      if pn > largest {
        var diff := pn - largest;
        if diff >= 64 {
          bitmap := 1;
        } else {
          bitmap := Up(bitmap, diff);
          bitmap := Or(bitmap, Mask(0));
        }
        largest := pn;
        return New;
      }
      var offset := largest - pn;
      if offset >= size || offset >= 64 {
        return Reject;
      }
      if BitAt(bitmap, offset) {
        return Duplicate;
      }
      bitmap := Or(bitmap, Mask(offset));
      return New;
    }
  }

  class ReplayTable {
    const windows: array<ReplayWindow>
    const used: array<bool>

    ghost predicate Valid()
      reads windows, used
    {
      && windows.Length == used.Length == WINDOW_COUNT
      && forall i, j :: 0 <= i < j < WINDOW_COUNT ==> windows[i] != windows[j]
    }

    ghost function Slot(i: nat): Option<Window>
      requires windows.Length == used.Length == WINDOW_COUNT && i < WINDOW_COUNT
      reads windows, used, windows[i]
    {
      if used[i] then Some(windows[i].View()) else None
    }

    ghost function View(): (t: Table)
      requires windows.Length == used.Length == WINDOW_COUNT
      reads windows, used, set j | 0 <= j < windows.Length :: windows[j]
      ensures |t| == WINDOW_COUNT && forall i :: 0 <= i < WINDOW_COUNT ==> t[i] == Slot(i)
    {
      seq(WINDOW_COUNT, i requires windows.Length == used.Length == WINDOW_COUNT && 0 <= i < WINDOW_COUNT
                          reads windows, used, (set j | 0 <= j < windows.Length :: windows[j]) => Slot(i))
    }

    constructor ()
      ensures Valid() && View() == EmptyTable()
    {
      used := new bool[WINDOW_COUNT](_ => false);
      var first := new ReplayWindow();
      var ws := new ReplayWindow[WINDOW_COUNT](_ => first);
      windows := ws;
      new;
      var i := 1;
      while i < WINDOW_COUNT
        invariant 1 <= i <= WINDOW_COUNT && windows == ws && fresh(ws) && ws.Length == WINDOW_COUNT
        invariant used.Length == WINDOW_COUNT && forall j :: 0 <= j < WINDOW_COUNT ==> !used[j]
        invariant forall j, k :: 0 <= j < k < i ==> windows[j] != windows[k]
      {
        windows[i] := new ReplayWindow();
        i := i + 1;
      }
    }

    /** One pass: where the key is, or else the first free window. */
    method Search(key: Key) returns (slot: nat, free: nat)
      requires Valid()
      ensures Valid() && View() == old(View())
      ensures slot == SlotOf(View(), key) && (slot == WINDOW_COUNT ==> free == FreeSlot(View()))
    {
      ghost var t := View();
      free, slot := WINDOW_COUNT, 0;
      assert t[0..] == t;
      while slot < WINDOW_COUNT
        invariant 0 <= slot <= WINDOW_COUNT && SlotOf(t, key) == slot + SlotOf(t[slot..], key)
        invariant FreeSlot(t) == if free < WINDOW_COUNT then free else slot + FreeSlot(t[slot..])
        invariant free == WINDOW_COUNT || free < slot
      {
        assert t[slot..][0] == t[slot] && t[slot..][1..] == t[slot + 1..];
        assert t[slot] == Slot(slot);
        if !used[slot] {
          if free == WINDOW_COUNT {
            free := slot;
          }
        } else if windows[slot].key == key {
          return;
        }
        slot := slot + 1;
      }
    }

    /** Looks the key up, or gives it the first free window. */
    method CheckReplay(key: Key, pn: u32) returns (verdict: Verdict)
      requires Valid()
      modifies used, set i | 0 <= i < windows.Length :: windows[i]
      ensures Valid() && TableChecked(View(), verdict) == CheckTable(old(View()), key, pn)
    {
      hide Check, SlotOf, FreeSlot;
      var slot, free := Search(key);
      if slot < WINDOW_COUNT {
        assert View()[slot] == Slot(slot);
        verdict := CheckSlot(slot, key, pn);
        return;
      }
      if free == WINDOW_COUNT || key.source == 0 {
        return Reject;
      }
      OpenSlot(free, key);
      verdict := CheckSlot(free, key, pn);
      assert old(View())[free := View()[free]] == View();
    }

    method CheckSlot(i: nat, key: Key, pn: u32) returns (verdict: Verdict)
      requires Valid() && i < WINDOW_COUNT && used[i]
      modifies windows[i]
      ensures Valid() && View()[i].Some? && Checked(View()[i].value, verdict) == Check(old(View())[i].value, key, pn)
      ensures View() == old(View())[i := View()[i]]
    {
      hide Check;
      assert View()[i] == Slot(i);
      verdict := windows[i].CheckNumber(key, pn);
      assert View()[i] == Slot(i);
    }

    method OpenSlot(i: nat, key: Key)
      requires Valid() && i < WINDOW_COUNT && key.source != 0
      modifies used, windows[i]
      ensures Valid() && View() == old(View())[i := Some(Fresh(key))] && used[i]
    {
      var status := windows[i].Init(key, WINDOW_SIZE);
      used[i] := true;
    }
  }
}
