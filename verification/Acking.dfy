/**
 * What one ACK and one SACK do to the sender, case by case: which packets leave
 * the queue, which numbers the window takes as acknowledged, which packets go out
 * again, and every way a report is refused.
 */
module Acking {
  import opened Base
  import opened AckRanges
  import opened Reliable
  import opened Sender
  import Feedback
  import Retry
  import Sack
  import SenderInv
  import Window

  /** A window that does not cross the 32-bit wrap. */
  predicate Straight(w: Window.State) {
    0 < |w.acks| && w.base + |w.acks| < TWO_32
  }

  /** The window took the numbers in `acked` that lie inside it, and nothing else. */
  ghost predicate Took(w: Window.State, v: Window.State, acked: iset<int>) {
    && v.next == w.next && |v.acks| == |w.acks|
    && forall p: u32 :: Window.Acked(v, p) <==> Window.Acked(w, p) || (w.base <= p < w.base + |w.acks| && p in acked)
  }

  /** The base is the first number not acknowledged. */
  predicate Slid(v: Window.State) {
    !Window.Acked(v, v.base)
  }

  // ---- ACKs ----

  /** The numbers a list of ranges names, read off its layout. */
  ghost function Named(largest: u32, ranges: seq<AckRange>): iset<int> {
    iset p: int | Names(largest, ranges, p)
  }

  predicate Names(largest: u32, ranges: seq<AckRange>, p: int) {
    0 <= p && Marked(Layout(ranges), largest - p)
  }

  lemma NamedAcknowledged(largest: u32, ranges: seq<AckRange>)
    ensures forall p: u32 :: p in Acknowledged(largest, ranges) <==> p in Named(largest, ranges)
    ensures forall p: nat :: p in AckSet(largest, ranges) <==> p in Named(largest, ranges)
  {
    hide AckSet, Layout, Marked;
    forall p: nat ensures p in AckSet(largest, ranges) <==> p in Named(largest, ranges) {
      AckSetIsLayout(largest, ranges, p);
    }
  }

  lemma {:induction false} WithoutShorter(q: Queue, gone: set<u32>)
    ensures |Without(q, gone)| <= |q|
    ensures |Without(q, gone)| == |q| <==> forall e :: e in q ==> e.pn !in gone
  {
    if q != [] {
      WithoutShorter(q[1..], gone);
      assert q == [q[0]] + q[1..];
    }
  }

  lemma MarkSetTakes(w: Window.State, acked: set<nat>, p: u32)
    ensures Window.Acked(MarkSet(w, acked), p) <==> Window.Acked(w, p) || (w.base <= p < w.base + |w.acks| && p in acked)
  {
    var v := MarkSet(w, acked);
    if Window.InWindow(w, p) {
      assert v.acks[p - w.base] == (w.acks[p - w.base] || w.base + (p - w.base) in acked);
    }
  }

  lemma MarkedTakes(w: Window.State, acked: set<nat>)
    requires Straight(w)
    ensures var v := Window.Advance(MarkSet(w, acked)); Took(w, v, iset p: int | 0 <= p && p in acked) && Slid(v)
  {
    var m := MarkSet(w, acked);
    var v := Window.Advance(m);
    Window.AdvanceKeepsAcks(m, 0);
    forall p: u32 ensures Window.Acked(v, p) <==> Window.Acked(w, p) || (w.base <= p < w.base + |w.acks| && p in acked) {
      MarkSetTakes(w, acked, p);
      Window.AdvanceKeepsAcks(m, p);
    }
  }

  /**
   * Any ACK, however many ranges it has: exactly the packets it names leave the
   * queue, the window takes exactly the named numbers inside it and slides to the
   * first one missing. An ACK that names nothing queued is an error and changes nothing.
   */
  lemma AckAnswer(tx: Tx, largest: u32, ranges: seq<AckRange>)
    requires Straight(tx.win) && Ascending(tx.queue)
    ensures var r := OnAck(tx, largest, ranges); var hit := exists e :: e in tx.queue && e.pn in Named(largest, ranges);
      && r.sent == [] && r.status == (if hit then Ok else SequenceError) && r.tx.maxRetry == tx.maxRetry
      && Ascending(r.tx.queue) && (forall e :: e in r.tx.queue <==> e in tx.queue && e.pn !in Named(largest, ranges))
      && (!hit ==> r.tx == tx)
      && (hit ==> Took(tx.win, r.tx.win, Named(largest, ranges)) && Slid(r.tx.win))
  {
    NamedAcknowledged(largest, ranges);
    var acked := Acknowledged(largest, ranges);
    WithoutShorter(tx.queue, acked);
    WithoutTail(tx.queue, acked);
    WithoutNoneOf(tx.queue, acked);
    MarkedTakes(tx.win, AckSet(largest, ranges));
    hide Named, Acknowledged, Window.Advance, MarkSet, AckSet, Window.Acked, Without, Ascending;
  }

  lemma WithoutNoneOf(q: Queue, gone: set<u32>)
    ensures (forall e :: e in q ==> e.pn !in gone) ==> Without(q, gone) == q
  {
    if forall e :: e in q ==> e.pn !in gone {
      WithoutNone(q, gone);
    }
  }

  // ---- SACKs ----

  ghost predicate NoBit(bitmap: Bytes) {
    forall k: nat :: !Sack.BitIsSet(bitmap, k)
  }

  ghost predicate TopBit(bitmap: Bytes, top: nat) {
    Sack.BitIsSet(bitmap, top) && forall k: nat :: k > top ==> !Sack.BitIsSet(bitmap, k)
  }

  lemma HighestIs(bitmap: Bytes, top: nat)
    ensures NoBit(bitmap) ==> Sack.HighestBit(bitmap).None?
    ensures TopBit(bitmap, top) ==> Sack.HighestBit(bitmap) == Some(top)
  {
  }

  /**
   * A SACK that names nothing asks for its base again: that packet goes out once
   * more if it is queued and the lower layer takes it. Bitmaps that are empty or
   * longer than 64 bytes are refused before anything happens.
   */
  lemma BareSackAnswer(tx: Tx, base: u32, bitmap: Bytes, now: u32, fails: set<u32>)
    requires Ascending(tx.queue) && NoBit(bitmap)
    ensures var r := OnSack(tx, base, bitmap, now, fails);
      && r.status == (if |bitmap| > 64 then BufferTooSmall else if |bitmap| == 0 then InvalidFrame
                      else if !Has(tx.queue, base) then SequenceError else if base in fails then TxFailed else Ok)
      && (r.status != Ok ==> r.tx == tx && r.sent == [])
      && (r.status == Ok ==> r.tx == tx.(queue := r.tx.queue) && Effect(tx.queue, {}, {base}, now, r))
  {
    HighestIs(bitmap, 0);
    if Has(tx.queue, base) {
      Feedback.BaseOnly(tx, base, now);
    }
    hide NoBit, Sack.HighestBit, Effect, Touch, Lookup, Has, Ascending;
  }

  lemma LongSackRefused(tx: Tx, base: u32, bitmap: Bytes, now: u32, fails: set<u32>)
    requires |bitmap| > 64
    ensures OnSack(tx, base, bitmap, now, fails) == TxOut(tx, [], BufferTooSmall)
  {
  }

  /** Bit `i` is clear, its packet is queued, and the lower layer refuses to send it. */
  predicate Refused(q: Queue, base: u32, bitmap: Bytes, i: nat, fails: set<u32>) {
    base + i < TWO_32 && !Sack.BitIsSet(bitmap, i) && Has(q, base + i) && base + i in fails
  }

  /** The queued numbers whose bit is set. */
  ghost function Reported(q: Queue, base: u32, bitmap: Bytes, upTo: int): iset<int> {
    iset p: int | base <= p <= upTo && p < TWO_32 && Has(q, p) && BitFor(base, bitmap, p)
  }

  predicate BitFor(base: u32, bitmap: Bytes, p: int) {
    base <= p && Sack.BitIsSet(bitmap, p - base)
  }

  /** What the walk over bits `i..last` leaves of the window. */
  ghost predicate Marks(tx: Tx, base: u32, bitmap: Bytes, i: nat, last: int, r: Tx) {
    && r.win.base == tx.win.base && r.win.next == tx.win.next && |r.win.acks| == |tx.win.acks| && r.maxRetry == tx.maxRetry
    && forall p: u32 :: Window.Acked(r.win, p) <==>
                          Window.Acked(tx.win, p) || (Window.InWindow(tx.win, p) && base + i <= p && p in Reported(tx.queue, base, bitmap, base + last))
  }

  lemma MarksNothing(tx: Tx, base: u32, bitmap: Bytes, i: nat, last: int)
    requires i > last
    ensures Marks(tx, base, bitmap, i, last, tx)
  {
  }

  lemma MarksStep(tx: Tx, one: Tx, base: u32, bitmap: Bytes, i: nat, last: nat, r: Tx)
    requires i <= last && base + last < TWO_32 && Marks(one, base, bitmap, i + 1, last, r)
    requires one.win.base == tx.win.base && one.win.next == tx.win.next && |one.win.acks| == |tx.win.acks| && one.maxRetry == tx.maxRetry
    requires forall p: u32 :: p > base + i ==> (Has(one.queue, p) <==> Has(tx.queue, p))
    requires forall p: u32 :: Window.Acked(one.win, p) <==>
                                Window.Acked(tx.win, p) || (p == base + i && Window.InWindow(tx.win, p) && Has(tx.queue, p) && Sack.BitIsSet(bitmap, i))
    ensures Marks(tx, base, bitmap, i, last, r)
  {
    hide Has, Sack.BitIsSet;
    forall p: u32 ensures Window.Acked(r.win, p) <==>
                            Window.Acked(tx.win, p) || (Window.InWindow(tx.win, p) && base + i <= p && p in Reported(tx.queue, base, bitmap, base + last)) {
      hide Window.Acked;
      assert Window.InWindow(one.win, p) == Window.InWindow(tx.win, p);
    }
  }

  lemma OneMarks(tx: Tx, base: u32, bitmap: Bytes, i: nat, now: u32, fails: set<u32>)
    requires base + i < TWO_32
    ensures var one := SackOne(tx, base, bitmap, i, now, fails).tx;
      && one.win.base == tx.win.base && one.win.next == tx.win.next && |one.win.acks| == |tx.win.acks| && one.maxRetry == tx.maxRetry
      && (forall p: u32 :: p != base + i ==> (Has(one.queue, p) <==> Has(tx.queue, p)))
      && forall p: u32 :: Window.Acked(one.win, p) <==>
                            Window.Acked(tx.win, p) || (p == base + i && Window.InWindow(tx.win, p) && Has(tx.queue, p) && Sack.BitIsSet(bitmap, i))
  {
    var pn: u32 := base + i;
    assert Add32(base, i) == pn;
    hide Sack.BitIsSet, Without, Touch, Window.Acked, Has;
    forall p: u32 ensures Window.Acked(Window.Mark(tx.win, pn), p) <==> Window.Acked(tx.win, p) || (p == pn && Window.InWindow(tx.win, pn)) {
      Window.MarkAcks(tx.win, pn, p);
    }
    forall p: u32 | p != pn
      ensures Has(Without(tx.queue, {pn}), p) <==> Has(tx.queue, p)
      ensures Has(Touch(tx.queue, {pn}, now), p) <==> Has(tx.queue, p)
    {
      SenderInv.WithoutHas(tx.queue, {pn}, p);
      SenderInv.TouchSameHas(tx.queue, {pn}, now, p);
    }
  }

  lemma {:induction false} WalkMarks(tx: Tx, base: u32, bitmap: Bytes, i: nat, last: nat, now: u32, fails: set<u32>)
    requires base + last < TWO_32
    requires forall k: nat :: i <= k <= last ==> !Refused(tx.queue, base, bitmap, k, fails)
    ensures var r := SackFrom(tx, base, bitmap, i, last, now, fails); r.status == Ok && Marks(tx, base, bitmap, i, last, r.tx)
    decreases last + 1 - i
  {
    hide Sack.BitIsSet, Has, Marks, SackOne;
    if i > last {
      MarksNothing(tx, base, bitmap, i, last);
    } else {
      var one := SackOne(tx, base, bitmap, i, now, fails);
      OneMarks(tx, base, bitmap, i, now, fails);
      OneAccepted(tx, base, bitmap, i, now, fails);
      SackFromStep(tx, base, bitmap, i, last, now, fails);
      StillNotRefused(tx.queue, one.tx.queue, base, bitmap, i, last, fails);
      WalkMarks(one.tx, base, bitmap, i + 1, last, now, fails);
      hide SackFrom, Refused;
      MarksStep(tx, one.tx, base, bitmap, i, last, SackFrom(tx, base, bitmap, i, last, now, fails).tx);
    }
  }

  lemma OneAccepted(tx: Tx, base: u32, bitmap: Bytes, i: nat, now: u32, fails: set<u32>)
    requires base + i < TWO_32
    ensures SackOne(tx, base, bitmap, i, now, fails).status == (if Refused(tx.queue, base, bitmap, i, fails) then TxFailed else Ok)
    ensures Refused(tx.queue, base, bitmap, i, fails) ==> SackOne(tx, base, bitmap, i, now, fails) == TxOut(tx, [], TxFailed)
  {
    assert Add32(base, i) == base + i;
    hide Sack.BitIsSet, Has;
  }

  lemma StillNotRefused(q: Queue, one: Queue, base: u32, bitmap: Bytes, i: nat, last: nat, fails: set<u32>)
    requires base + last < TWO_32
    requires forall p: u32 :: p != base + i ==> (Has(one, p) <==> Has(q, p))
    ensures forall k: nat :: i < k <= last ==> (Refused(one, base, bitmap, k, fails) <==> Refused(q, base, bitmap, k, fails))
  {
    hide Has, Sack.BitIsSet;
  }

  /** A refused retransmission ends the walk as if the bitmap stopped before it. */
  lemma {:induction false} WalkCutShort(tx: Tx, base: u32, bitmap: Bytes, i: nat, f: nat, last: nat, now: u32, fails: set<u32>)
    requires i <= f <= last && base + last < TWO_32 && Refused(tx.queue, base, bitmap, f, fails)
    requires forall k: nat :: i <= k < f ==> !Refused(tx.queue, base, bitmap, k, fails)
    ensures SackFrom(tx, base, bitmap, i, last, now, fails)
         == (if i == f then TxOut(tx, [], TxFailed) else SackFrom(tx, base, bitmap, i, f - 1, now, fails).(status := TxFailed))
    decreases f - i
  {
    hide Sack.BitIsSet, Has, SackOne, Refused;
    var one := SackOne(tx, base, bitmap, i, now, fails);
    OneAccepted(tx, base, bitmap, i, now, fails);
    SackFromStep(tx, base, bitmap, i, last, now, fails);
    if i < f {
      OneMarks(tx, base, bitmap, i, now, fails);
      StillNotRefused(tx.queue, one.tx.queue, base, bitmap, i, last, fails);
      WalkCutShort(one.tx, base, bitmap, i + 1, f, last, now, fails);
      SackFromStep(tx, base, bitmap, i, f - 1, now, fails);
      SackFromEmpty(one.tx, base, bitmap, i + 1, now, fails);
      hide SackFrom;
    }
  }

  lemma SackFromEmpty(tx: Tx, base: u32, bitmap: Bytes, i: nat, now: u32, fails: set<u32>)
    requires i > 0
    ensures SackFrom(tx, base, bitmap, i, i - 1, now, fails) == TxOut(tx, [], Ok)
  {
  }

  /** The numbers from the base to `upTo` whose bit is clear. */
  ghost function Gaps(base: u32, bitmap: Bytes, upTo: int): set<u32> {
    set p: u32 | base <= p <= upTo && !BitFor(base, bitmap, p)
  }

  ghost function Ones(base: u32, bitmap: Bytes, upTo: int): set<u32> {
    set p: u32 | base <= p <= upTo && BitFor(base, bitmap, p)
  }

  lemma BitsAre(base: u32, bitmap: Bytes, last: nat)
    requires base + last < TWO_32
    ensures Bits(base, bitmap, 0, last, true) == Ones(base, bitmap, base + last)
    ensures Bits(base, bitmap, 0, last, false) == Gaps(base, bitmap, base + last)
  {
    hide Sack.BitIsSet, Bits;
    forall p: u32
      ensures p in Bits(base, bitmap, 0, last, true) <==> p in Ones(base, bitmap, base + last)
      ensures p in Bits(base, bitmap, 0, last, false) <==> p in Gaps(base, bitmap, base + last)
    {
      BitsMember(base, bitmap, 0, last, true, p);
      BitsMember(base, bitmap, 0, last, false, p);
    }
  }

  lemma WalkEffect(tx: Tx, base: u32, bitmap: Bytes, last: nat, now: u32, fails: set<u32>)
    requires Ascending(tx.queue) && base + last < TWO_32
    requires forall k: nat :: k <= last ==> !Refused(tx.queue, base, bitmap, k, fails)
    ensures Effect(tx.queue, Ones(base, bitmap, base + last), Gaps(base, bitmap, base + last), now,
                   SackFrom(tx, base, bitmap, 0, last, now, fails))
  {
    hide Effect, SackFrom, Sack.BitIsSet, Has, Bits;
    BitsAre(base, bitmap, last);
    forall p | p in Bits(base, bitmap, 0, last, false) && Has(tx.queue, p) ensures p !in fails {
      assert !Refused(tx.queue, base, bitmap, p - base, fails);
    }
    SackFromEffect(tx, base, bitmap, 0, last, now, fails);
  }

  /**
   * A SACK whose highest set bit is `top`, with no retransmission refused: the
   * queued numbers whose bit is set leave the queue and are taken by the window,
   * which slides to the first one missing; the queued numbers below `top` whose bit
   * is clear go out again, oldest first.
   */
  lemma SackAnswer(tx: Tx, base: u32, bitmap: Bytes, top: nat, now: u32, fails: set<u32>)
    requires Straight(tx.win) && Ascending(tx.queue) && |bitmap| <= 64 && TopBit(bitmap, top) && base + top < TWO_32
    requires forall k: nat :: k <= top ==> !Refused(tx.queue, base, bitmap, k, fails)
    ensures var r := OnSack(tx, base, bitmap, now, fails);
      && Effect(tx.queue, Ones(base, bitmap, base + top), Gaps(base, bitmap, base + top), now, r)
      && Took(tx.win, r.tx.win, Reported(tx.queue, base, bitmap, base + top)) && Slid(r.tx.win) && r.tx.maxRetry == tx.maxRetry
  {
    hide Effect, TopBit, SackFrom, Refused, Sack.BitIsSet, Has, Window.Advance, Took, Slid, Marks, Ones, Gaps, Reported, Sack.HighestBit;
    HighestIs(bitmap, top);
    WalkEffect(tx, base, bitmap, top, now, fails);
    WalkMarks(tx, base, bitmap, 0, top, now, fails);
    var w := SackFrom(tx, base, bitmap, 0, top, now, fails);
    MarksTook(tx, base, bitmap, top, w.tx);
    SlideTook(tx, base, bitmap, top, w.tx);
    SomeBytes(bitmap, top);
    EffectSame(tx.queue, Ones(base, bitmap, base + top), Gaps(base, bitmap, base + top), now, w, OnSack(tx, base, bitmap, now, fails));
  }

  lemma SomeBytes(bitmap: Bytes, top: nat)
    requires TopBit(bitmap, top)
    ensures bitmap != []
  {
  }

  lemma EffectSame(q: Queue, named: set<u32>, missing: set<u32>, now: u32, w: TxOut, r: TxOut)
    requires Effect(q, named, missing, now, w) && r.status == w.status && r.sent == w.sent && r.tx.queue == w.tx.queue
    ensures Effect(q, named, missing, now, r)
  {
  }

  lemma SlideTook(tx: Tx, base: u32, bitmap: Bytes, top: nat, r: Tx)
    requires Straight(tx.win) && Marks(tx, base, bitmap, 0, top, r)
    ensures var v := Window.Advance(r.win); Took(tx.win, v, Reported(tx.queue, base, bitmap, base + top)) && Slid(v)
  {
    hide Has, Sack.BitIsSet;
    var v := Window.Advance(r.win);
    Window.AdvanceKeepsAcks(r.win, 0);
    forall p: u32 ensures Window.Acked(v, p) <==> Window.Acked(r.win, p) {
      Window.AdvanceKeepsAcks(r.win, p);
    }
    hide Window.Acked, Window.Advance, Window.LeadingAcks;
  }

  /**
   * When `f` is the first bit whose retransmission is refused, the bits before it
   * have had their effect, the answer is the refusal, and the base does not move.
   */
  lemma SackCutShort(tx: Tx, base: u32, bitmap: Bytes, f: nat, top: nat, now: u32, fails: set<u32>)
    requires Ascending(tx.queue) && |bitmap| <= 64 && TopBit(bitmap, top) && base + top < TWO_32 && f <= top
    requires Refused(tx.queue, base, bitmap, f, fails) && forall k: nat :: k < f ==> !Refused(tx.queue, base, bitmap, k, fails)
    ensures var r := OnSack(tx, base, bitmap, now, fails);
      && r.status == TxFailed && Effect(tx.queue, Ones(base, bitmap, base + f - 1), Gaps(base, bitmap, base + f - 1), now, r.(status := Ok))
      && Took(tx.win, r.tx.win, Reported(tx.queue, base, bitmap, base + f - 1)) && r.tx.win.base == tx.win.base && r.tx.maxRetry == tx.maxRetry
  {
    hide Effect, TopBit, SackFrom, Refused, Sack.BitIsSet, Has, Window.Advance, Took, Marks, Ones, Gaps, Reported, Sack.HighestBit;
    HighestIs(bitmap, top);
    SomeBytes(bitmap, top);
    WalkCutShort(tx, base, bitmap, 0, f, top, now, fails);
    if f == 0 {
      NothingDone(tx, base, bitmap, now);
    } else {
      WalkEffect(tx, base, bitmap, f - 1, now, fails);
      WalkMarks(tx, base, bitmap, 0, f - 1, now, fails);
      var w := SackFrom(tx, base, bitmap, 0, f - 1, now, fails);
      MarksTook(tx, base, bitmap, f - 1, w.tx);
      EffectSame(tx.queue, Ones(base, bitmap, base + f - 1), Gaps(base, bitmap, base + f - 1), now, w, OnSack(tx, base, bitmap, now, fails).(status := Ok));
    }
  }

  lemma NothingDone(tx: Tx, base: u32, bitmap: Bytes, now: u32)
    ensures Effect(tx.queue, Ones(base, bitmap, base - 1), Gaps(base, bitmap, base - 1), now, TxOut(tx, [], Ok))
    ensures Took(tx.win, tx.win, Reported(tx.queue, base, bitmap, base - 1))
  {
    EffectNothing(tx, now);
    hide Effect, Sack.BitIsSet, Has;
    assert Ones(base, bitmap, base - 1) == {};
    assert Gaps(base, bitmap, base - 1) == {};
  }

  lemma MarksTook(tx: Tx, base: u32, bitmap: Bytes, last: nat, r: Tx)
    requires Marks(tx, base, bitmap, 0, last, r)
    ensures Took(tx.win, r.win, Reported(tx.queue, base, bitmap, base + last)) && r.win.base == tx.win.base && r.maxRetry == tx.maxRetry
  {
    hide Has, Sack.BitIsSet, Window.Acked;
  }

  // ---- Timeouts ----

  /** The packet's timeout is over: never for one that has not been sent, and a negative timeout reads as a huge one. */
  predicate Over(e: Entry, now: u32) {
    e.sentAt != 0 && Sub32(now, e.sentAt) >= Wrap32(e.timeout)
  }

  /** A tick sends this packet again. */
  predicate SentAgain(e: Entry, now: u32, maxRetry: u8, fails: set<u32>) {
    Over(e, now) && e.retries < maxRetry && e.pn !in fails
  }

  /** What a tick makes of a packet it keeps. */
  predicate Becomes(e: Entry, x: Entry, now: u32, maxRetry: u8, fails: set<u32>) {
    if SentAgain(e, now, maxRetry, fails) then x == Resent(e, now) else x == e && !(Over(e, now) && e.retries >= maxRetry)
  }

  /** `rest` is what a tick leaves of `q`, packet by packet. */
  ghost predicate Ticked(q: Queue, rest: Queue, now: u32, maxRetry: u8, fails: set<u32>) {
    && (forall e :: e in q && !(Over(e, now) && e.retries >= maxRetry) ==> exists x :: x in rest && Becomes(e, x, now, maxRetry, fails))
    && (forall x :: x in rest ==> exists e :: e in q && Becomes(e, x, now, maxRetry, fails))
  }

  lemma {:induction false} TickLeaves(q: Queue, now: u32, maxRetry: u8, fails: set<u32>)
    ensures Ticked(q, Retry.TickQueue(q, now, maxRetry, fails), now, maxRetry, fails)
  {
    if q != [] {
      TickLeaves(q[1..], now, maxRetry, fails);
      TickUnfolds(q, now, maxRetry, fails);
      hide Retry.TickQueue, Ticked, Over, Becomes, Resent;
      var e, rest := q[0], Retry.TickQueue(q[1..], now, maxRetry, fails);
      assert [e] + q[1..] == q;
      if Over(e, now) && e.retries >= maxRetry {
        TickedDrops(e, q[1..], rest, now, maxRetry, fails);
      } else {
        TickedKeeps(e, if SentAgain(e, now, maxRetry, fails) then Resent(e, now) else e, q[1..], rest, now, maxRetry, fails);
      }
    } else {
      assert Retry.TickQueue(q, now, maxRetry, fails) == [];
    }
  }

  lemma TickUnfolds(q: Queue, now: u32, maxRetry: u8, fails: set<u32>)
    requires q != []
    ensures var e, rest := q[0], Retry.TickQueue(q[1..], now, maxRetry, fails);
      var x := if SentAgain(e, now, maxRetry, fails) then Resent(e, now) else e;
      if Over(e, now) && e.retries >= maxRetry then Retry.TickQueue(q, now, maxRetry, fails) == rest
      else Becomes(e, x, now, maxRetry, fails) && Retry.TickQueue(q, now, maxRetry, fails) == [x] + rest
  {
    hide Resent;
  }

  lemma TickedDrops(e: Entry, q: Queue, rest: Queue, now: u32, maxRetry: u8, fails: set<u32>)
    requires Ticked(q, rest, now, maxRetry, fails) && Over(e, now) && e.retries >= maxRetry
    ensures Ticked([e] + q, rest, now, maxRetry, fails)
  {
    forall x | x in rest ensures exists f :: f in [e] + q && Becomes(f, x, now, maxRetry, fails) {
      var f :| f in q && Becomes(f, x, now, maxRetry, fails);
      assert f in [e] + q;
    }
  }

  lemma TickedKeeps(e: Entry, x: Entry, q: Queue, rest: Queue, now: u32, maxRetry: u8, fails: set<u32>)
    requires Ticked(q, rest, now, maxRetry, fails) && Becomes(e, x, now, maxRetry, fails)
    ensures Ticked([e] + q, [x] + rest, now, maxRetry, fails)
  {
    var all, left := [e] + q, [x] + rest;
    hide Becomes, Over;
    assert x in left && e in all;
    forall f | f in all && !(Over(f, now) && f.retries >= maxRetry) ensures exists y :: y in left && Becomes(f, y, now, maxRetry, fails) {
      if f in q {
        var y :| y in rest && Becomes(f, y, now, maxRetry, fails);
        assert y in left;
      }
    }
    forall y | y in left ensures exists f :: f in all && Becomes(f, y, now, maxRetry, fails) {
      if y in rest {
        var f :| f in q && Becomes(f, y, now, maxRetry, fails);
        assert f in all;
      }
    }
  }

  lemma {:induction false} ResentAscend(q: Queue, now: u32, maxRetry: u8, fails: set<u32>)
    requires Ascending(q)
    ensures Ascending(Retry.TickResent(q, now, maxRetry, fails))
  {
    if q != [] {
      ResentAscend(q[1..], now, maxRetry, fails);
      var rest := Retry.TickResent(q[1..], now, maxRetry, fails);
      forall f | f in rest ensures q[0].pn < f.pn {
        assert f in q[1..];
      }
      hide Retry.Resends;
      Retry.ConsAscending(q[0], rest) by { hide Ascending; }
    }
  }

  /**
   * A timeout pass: a packet whose timeout is over is sent again with its own bytes
   * if it has retries left and the lower layer takes it, is dropped if it has none,
   * and stays as it is otherwise; so does every other packet. Retransmissions go out
   * oldest first, and the window does not move.
   */
  lemma TickAnswer(tx: Tx, now: u32, fails: set<u32>)
    requires Ascending(tx.queue)
    ensures var r := Tick(tx, now, fails);
      && r.status == Ok && r.tx.win == tx.win && r.tx.maxRetry == tx.maxRetry
      && Ascending(r.tx.queue) && Ticked(tx.queue, r.tx.queue, now, tx.maxRetry, fails)
      && (forall m :: m in r.sent <==> exists e :: e in tx.queue && SentAgain(e, now, tx.maxRetry, fails) && m == Data(e.pn, e.data))
      && (forall i, j :: 0 <= i < j < |r.sent| && r.sent[i].Data? && r.sent[j].Data? ==> r.sent[i].pn < r.sent[j].pn)
  {
    TickLeaves(tx.queue, now, tx.maxRetry, fails);
    Retry.TickAscending(tx.queue, now, tx.maxRetry, fails);
    ResentAscend(tx.queue, now, tx.maxRetry, fails);
    var rs := Retry.TickResent(tx.queue, now, tx.maxRetry, fails);
    assert forall e :: e in rs <==> e in tx.queue && SentAgain(e, now, tx.maxRetry, fails);
    hide SentAgain, Over, Ticked, Retry.Resends, Retry.TickResent, Retry.TickQueue;
    DataMembers(rs);
  }

  lemma DataMembers(q: Queue)
    ensures forall m :: m in DataOf(q) <==> exists e :: e in q && m == Data(e.pn, e.data)
  {
    forall e | e in q ensures Data(e.pn, e.data) in DataOf(q) {
      var i :| 0 <= i < |q| && q[i] == e;
      assert DataOf(q)[i] == Data(e.pn, e.data);
    }
  }
}
