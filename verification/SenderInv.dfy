/**
 * The sender's side of the joint invariant: every committed number is in exactly
 * one of three places (queued with its original bytes, acknowledged, given up),
 * and nothing is acknowledged that the receiver does not hold.
 */
module SenderInv {
  import opened Base
  import opened AckRanges
  import opened Reliable
  import opened Sender
  import Retry
  import Sack
  import Window

  ghost predicate Shape(tx: Tx, committed: seq<Bytes>) {
    && 1 <= |tx.win.acks| <= 128
    && tx.win.base <= tx.win.next <= tx.win.base + |tx.win.acks|
    && |committed| == tx.win.next
  }

  ghost predicate QueueFaithful(q: Queue, committed: seq<Bytes>) {
    && Ascending(q)
    && forall e :: e in q ==> e.pn < |committed| && e.data == committed[e.pn]
  }

  /** Exactly one of the three fates. */
  ghost predicate OneFate(tx: Tx, abandoned: set<u32>, pn: u32) {
    && (Has(tx.queue, pn) || Window.Acked(tx.win, pn) || pn in abandoned)
    && !(Has(tx.queue, pn) && Window.Acked(tx.win, pn))
    && !(Has(tx.queue, pn) && pn in abandoned)
    && !(Window.Acked(tx.win, pn) && pn in abandoned)
  }

  ghost predicate Fates(tx: Tx, abandoned: set<u32>) {
    && (forall pn: u32 :: pn < tx.win.next ==> OneFate(tx, abandoned, pn))
    && (forall pn: u32 :: Window.Acked(tx.win, pn) ==> pn < tx.win.next)
    && (forall pn :: pn in abandoned ==> pn < tx.win.next)
  }

  /** `held` is the receiver's possession, as a set. */
  ghost predicate AcksHeld(win: Window.State, held: iset<u32>) {
    forall pn: u32 :: Window.Acked(win, pn) ==> pn in held
  }

  ghost predicate TxInv(tx: Tx, committed: seq<Bytes>, abandoned: set<u32>, held: iset<u32>) {
    && Shape(tx, committed)
    && QueueFaithful(tx.queue, committed)
    && Fates(tx, abandoned)
    && AcksHeld(tx.win, held)
  }

  ghost predicate Faithful(m: Msg, committed: seq<Bytes>) {
    m.Data? && m.pn < |committed| && m.data == committed[m.pn]
  }

  // ---- Sending ----

  lemma SendKeeps(tx: Tx, i: SendInput, committed: seq<Bytes>, abandoned: set<u32>, held: iset<u32>)
    requires TxInv(tx, committed, abandoned, held) && tx.win.next < TWO_32 - 1
    requires Send(tx, i).status.Ok?
    ensures TxInv(Send(tx, i).tx, committed + [i.data], abandoned, held)
    ensures forall m :: m in Send(tx, i).sent ==> Faithful(m, committed + [i.data])
  {
    var tx' := Send(tx, i).tx;
    var c' := committed + [i.data];
    var e := Entry(tx.win.next, i.data, 0, i.now, i.timeout, i.timeout);
    assert tx'.queue == tx.queue + [e];
    assert QueueFaithful(tx'.queue, c');
    forall pn: u32 ensures Window.Acked(tx'.win, pn) <==> Window.Acked(tx.win, pn) {
    }
    forall pn: u32 | pn < tx'.win.next ensures OneFate(tx', abandoned, pn) {
      if pn < tx.win.next {
        assert OneFate(tx, abandoned, pn);
        AppendHas(tx.queue, e, pn);
      } else {
        AppendHas(tx.queue, e, pn);
      }
    }
  }

  lemma AppendHas(q: Queue, e: Entry, pn: u32)
    ensures Has(q + [e], pn) <==> Has(q, pn) || e.pn == pn
  {
    if e.pn == pn { assert e in q + [e]; }
    if Has(q, pn) {
      var f :| f in q && f.pn == pn;
      assert f in q + [e];
    }
  }

  // ---- Acknowledging ----

  function AckOne(tx: Tx, pn: u32): Tx {
    tx.(win := Window.Mark(tx.win, pn), queue := Without(tx.queue, {pn}))
  }

  lemma WithoutHas(q: Queue, gone: set<u32>, pn: u32)
    ensures Has(Without(q, gone), pn) <==> Has(q, pn) && pn !in gone
  {
    if Has(q, pn) && pn !in gone {
      var e :| e in q && e.pn == pn;
      assert e in Without(q, gone);
    }
  }

  lemma AckOneKeeps(tx: Tx, pn: u32, committed: seq<Bytes>, abandoned: set<u32>, held: iset<u32>)
    requires TxInv(tx, committed, abandoned, held)
    requires Has(tx.queue, pn) && pn in held
    ensures TxInv(AckOne(tx, pn), committed, abandoned, held)
    ensures Window.InWindow(tx.win, pn)
  {
    var tx' := AckOne(tx, pn);
    WithoutTail(tx.queue, {pn});
    assert pn < tx.win.next;
    assert OneFate(tx, abandoned, pn);
    assert Window.InWindow(tx.win, pn);
    forall q: u32 ensures Window.Acked(tx'.win, q) <==> Window.Acked(tx.win, q) || q == pn {
      Window.MarkAcks(tx.win, pn, q);
    }
    forall q: u32 | q < tx'.win.next ensures OneFate(tx', abandoned, q) {
      assert OneFate(tx, abandoned, q);
      WithoutHas(tx.queue, {pn}, q);
    }
  }

  function Slide(tx: Tx): Tx {
    tx.(win := Window.Advance(tx.win))
  }

  lemma LeadingBelowNext(tx: Tx, committed: seq<Bytes>, abandoned: set<u32>)
    requires Shape(tx, committed) && Fates(tx, abandoned)
    ensures tx.win.base + Window.LeadingAcks(tx.win.acks) <= tx.win.next
  {
    var k := Window.LeadingAcks(tx.win.acks);
    if tx.win.base + k > tx.win.next {
      assert Window.Acked(tx.win, tx.win.next);
      assert false;
    }
  }

  lemma SlideKeeps(tx: Tx, committed: seq<Bytes>, abandoned: set<u32>, held: iset<u32>)
    requires TxInv(tx, committed, abandoned, held)
    ensures TxInv(Slide(tx), committed, abandoned, held)
  {
    LeadingBelowNext(tx, committed, abandoned);
    var tx' := Slide(tx);
    forall q: u32 ensures Window.Acked(tx'.win, q) <==> Window.Acked(tx.win, q) {
      Window.AdvanceKeepsAcks(tx.win, q);
    }
    forall q: u32 | q < tx'.win.next ensures OneFate(tx', abandoned, q) {
      assert OneFate(tx, abandoned, q);
    }
  }

  /** An ACK for one held number, as the receiver sends them. */
  lemma OnAckKeeps(tx: Tx, pn: u32, committed: seq<Bytes>, abandoned: set<u32>, held: iset<u32>)
    requires TxInv(tx, committed, abandoned, held) && pn in held
    ensures var r := OnAck(tx, pn, [AckRange(0, 1)]); TxInv(r.tx, committed, abandoned, held) && r.sent == []
  {
    SingleAck(pn);
    var acked := Acknowledged(pn, [AckRange(0, 1)]);
    assert acked == {pn} by {
      assert pn in AckSet(pn, [AckRange(0, 1)]);
    }
    if Has(tx.queue, pn) {
      AckOneKeeps(tx, pn, committed, abandoned, held);
      SlideKeeps(AckOne(tx, pn), committed, abandoned, held);
      MarkOneIsMark(tx.win, pn);
    } else {
      WithoutNone(tx.queue, {pn});
    }
  }

  lemma MarkOneIsMark(w: Window.State, pn: u32)
    requires Window.InWindow(w, pn)
    ensures MarkSet(w, {pn}) == Window.Mark(w, pn)
  {
    assert MarkSet(w, {pn}).acks == w.acks[pn - w.base := true];
  }

  // ---- Retransmitting ----

  lemma TouchKeeps(tx: Tx, touched: set<u32>, now: u32, committed: seq<Bytes>, abandoned: set<u32>, held: iset<u32>)
    requires TxInv(tx, committed, abandoned, held)
    ensures TxInv(tx.(queue := Touch(tx.queue, touched, now)), committed, abandoned, held)
  {
    var tx' := tx.(queue := Touch(tx.queue, touched, now));
    TouchFaithful(tx.queue, touched, now, committed);
    forall q: u32 | q < tx'.win.next ensures OneFate(tx', abandoned, q) {
      assert OneFate(tx, abandoned, q);
      TouchSameHas(tx.queue, touched, now, q);
    }
  }

  lemma TouchFaithful(q: Queue, touched: set<u32>, now: u32, committed: seq<Bytes>)
    requires QueueFaithful(q, committed)
    ensures QueueFaithful(Touch(q, touched, now), committed)
  {
    var t := Touch(q, touched, now);
    TouchAscending(q, touched, now);
    forall e | e in t ensures e.pn < |committed| && e.data == committed[e.pn] {
      var i :| 0 <= i < |t| && t[i] == e;
      assert q[i] in q;
    }
  }

  lemma TouchSameHas(q: Queue, touched: set<u32>, now: u32, pn: u32)
    ensures Has(Touch(q, touched, now), pn) <==> Has(q, pn)
  {
    var t := Touch(q, touched, now);
    if Has(q, pn) {
      var i :| 0 <= i < |q| && q[i].pn == pn;
      assert t[i] in t;
    }
    if Has(t, pn) {
      var i :| 0 <= i < |t| && t[i].pn == pn;
      assert q[i] in q;
    }
  }

  // ---- SACKs ----

  ghost predicate BitsHeld(base: u32, bitmap: Bytes, held: iset<u32>) {
    forall k: nat :: Sack.BitIsSet(bitmap, k) ==> base + k < TWO_32 && base + k in held
  }

  lemma BitHeld(base: u32, bitmap: Bytes, held: iset<u32>, i: nat)
    requires BitsHeld(base, bitmap, held) && Sack.BitIsSet(bitmap, i)
    ensures Add32(base, i) in held
  {
    assert Add32(base, i) == base + i;
  }

  ghost predicate Keeps(r: TxOut, committed: seq<Bytes>, abandoned: set<u32>, held: iset<u32>) {
    && TxInv(r.tx, committed, abandoned, held)
    && forall m :: m in r.sent ==> Faithful(m, committed)
  }

  lemma KeepsCons(m: Msg, r: TxOut, committed: seq<Bytes>, abandoned: set<u32>, held: iset<u32>)
    requires Keeps(r, committed, abandoned, held) && Faithful(m, committed)
    ensures Keeps(r.(sent := [m] + r.sent), committed, abandoned, held)
  {
  }

  lemma LookupFaithful(tx: Tx, pn: u32, committed: seq<Bytes>, abandoned: set<u32>, held: iset<u32>)
    requires TxInv(tx, committed, abandoned, held) && Has(tx.queue, pn)
    ensures Faithful(Data(pn, Lookup(tx.queue, pn).data), committed)
  {
  }

  lemma {:induction false} SackFromKeeps(tx: Tx, base: u32, bitmap: Bytes, i: nat, last: nat, now: u32, fails: set<u32>,
                                         committed: seq<Bytes>, abandoned: set<u32>, held: iset<u32>)
    requires TxInv(tx, committed, abandoned, held) && BitsHeld(base, bitmap, held)
    ensures Keeps(SackFrom(tx, base, bitmap, i, last, now, fails), committed, abandoned, held)
    decreases last + 1 - i
  {
    hide TxInv, BitsHeld, Faithful, Sack.BitIsSet, Has, Add32;
    if i <= last {
      var pn := Add32(base, i);
      if !Has(tx.queue, pn) {
        SackFromKeeps(tx, base, bitmap, i + 1, last, now, fails, committed, abandoned, held);
      } else if Sack.BitIsSet(bitmap, i) {
        BitHeld(base, bitmap, held, i);
        AckOneKeeps(tx, pn, committed, abandoned, held);
        SackFromKeeps(AckOne(tx, pn), base, bitmap, i + 1, last, now, fails, committed, abandoned, held);
      } else if pn !in fails {
        var tx' := tx.(queue := Touch(tx.queue, {pn}, now));
        TouchKeeps(tx, {pn}, now, committed, abandoned, held);
        SackFromKeeps(tx', base, bitmap, i + 1, last, now, fails, committed, abandoned, held);
        LookupFaithful(tx, pn, committed, abandoned, held);
        KeepsCons(Data(pn, Lookup(tx.queue, pn).data), SackFrom(tx', base, bitmap, i + 1, last, now, fails),
                  committed, abandoned, held);
      }
    }
  }

  lemma OnSackKeeps(tx: Tx, base: u32, bitmap: Bytes, now: u32, fails: set<u32>,
                    committed: seq<Bytes>, abandoned: set<u32>, held: iset<u32>)
    requires TxInv(tx, committed, abandoned, held) && BitsHeld(base, bitmap, held)
    ensures Keeps(OnSack(tx, base, bitmap, now, fails), committed, abandoned, held)
  {
    hide TxInv, BitsHeld, Faithful, Sack.BitIsSet, Sack.HighestBit;
    match Sack.HighestBit(bitmap)
    case None =>
      if Has(tx.queue, base) {
        TouchKeeps(tx, {base}, now, committed, abandoned, held);
        LookupFaithful(tx, base, committed, abandoned, held);
      }
    case Some(last) =>
      SackFromKeeps(tx, base, bitmap, 0, last, now, fails, committed, abandoned, held);
      SlideKeeps(SackFrom(tx, base, bitmap, 0, last, now, fails).tx, committed, abandoned, held);
  }

  // ---- Timeouts ----

  function DroppedNumbers(q: Queue): set<u32> {
    set e | e in q :: e.pn
  }

  function Abandons(tx: Tx, now: u32): set<u32> {
    DroppedNumbers(Retry.TickDropped(tx.queue, now, tx.maxRetry))
  }

  lemma AbandonsHas(tx: Tx, now: u32, fails: set<u32>, pn: u32)
    requires Ascending(tx.queue)
    ensures pn in Abandons(tx, now) ==> Has(tx.queue, pn)
    ensures Has(Tick(tx, now, fails).tx.queue, pn) <==> Has(tx.queue, pn) && pn !in Abandons(tx, now)
  {
    var q, q' := tx.queue, Tick(tx, now, fails).tx.queue;
    Retry.TickKeeps(q, now, tx.maxRetry, fails);
    if Has(q, pn) {
      var e :| e in q && e.pn == pn;
      if pn in Abandons(tx, now) {
        var d :| d in Retry.TickDropped(q, now, tx.maxRetry) && d.pn == pn;
        LookupUnique(q, e);
        LookupUnique(q, d);
        if Has(q', pn) {
          var e' :| e' in q' && e'.pn == pn;
          var o :| o in q && !Retry.Exhausted(o, now, tx.maxRetry) && e'.pn == o.pn && e'.data == o.data;
          LookupUnique(q, o);
          assert false;
        }
      } else {
        assert e !in Retry.TickDropped(q, now, tx.maxRetry);
      }
    }
  }

  lemma TickKeepsTx(tx: Tx, now: u32, fails: set<u32>, committed: seq<Bytes>, abandoned: set<u32>, held: iset<u32>)
    requires TxInv(tx, committed, abandoned, held)
    ensures TxInv(Tick(tx, now, fails).tx, committed, abandoned + Abandons(tx, now), held)
    ensures forall m :: m in Tick(tx, now, fails).sent ==> Faithful(m, committed)
  {
    var tx' := Tick(tx, now, fails).tx;
    Retry.TickKeeps(tx.queue, now, tx.maxRetry, fails);
    Retry.TickAscending(tx.queue, now, tx.maxRetry, fails);
    forall e | e in tx'.queue ensures e.pn < |committed| && e.data == committed[e.pn] {
      var o :| o in tx.queue && !Retry.Exhausted(o, now, tx.maxRetry) && e.pn == o.pn && e.data == o.data;
    }
    forall q: u32 | q < tx'.win.next ensures OneFate(tx', abandoned + Abandons(tx, now), q) {
      assert OneFate(tx, abandoned, q);
      AbandonsHas(tx, now, fails, q);
    }
    forall q | q in Abandons(tx, now) ensures q < tx.win.next {
      AbandonsHas(tx, now, fails, q);
    }
    var rs := Retry.TickResent(tx.queue, now, tx.maxRetry, fails);
    forall m | m in DataOf(rs) ensures Faithful(m, committed) {
      var i :| 0 <= i < |rs| && m == Data(rs[i].pn, rs[i].data);
      assert rs[i] in rs;
    }
  }
}
