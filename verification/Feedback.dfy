/**
 * What the receiver reports and what the sender makes of it: a SACK built from
 * the receive buffer, read back by the sender's walk.
 */
module Feedback {
  import opened Base
  import opened AckRanges
  import opened Reliable
  import opened Sender
  import opened Receiver
  import Sack
  import Window

  /** The bitmap that reports this receive buffer. */
  function Report(rx: Rx): Bytes {
    Sack.Build(rx.next, Numbers(rx.buf))
  }

  /** The early numbers close enough to the base to have a bit. */
  ghost function Named(rx: Rx): set<u32> {
    set p | p in Numbers(rx.buf) && rx.next <= p && p - rx.next < Sack.SACK_BITMAP_BITS
  }

  /** The numbers from the base to `top` that have not arrived. */
  ghost function Missing(rx: Rx, top: u32): set<u32> {
    set p: u32 | rx.next <= p <= top && p !in Named(rx)
  }

  ghost predicate IsTop(s: set<u32>, top: u32) {
    top in s && forall p :: p in s ==> p <= top
  }

  lemma BitIsNamed(rx: Rx, k: nat)
    ensures Sack.BitIsSet(Report(rx), k) <==> rx.next + k < TWO_32 && rx.next + k in Named(rx)
    ensures 1 <= |Report(rx)| <= 8
  {
    Sack.BuildNames(rx.next, Numbers(rx.buf), k);
    hide Sack.Build, Sack.BitIsSet;
  }

  lemma {:induction false} NamedBits(rx: Rx, i: nat, last: nat)
    requires rx.next + last < TWO_32
    ensures forall p :: p in Bits(rx.next, Report(rx), i, last, true) <==> rx.next + i <= p <= rx.next + last && p in Named(rx)
    ensures forall p :: p in Bits(rx.next, Report(rx), i, last, false) <==> rx.next + i <= p <= rx.next + last && p !in Named(rx)
  {
    hide Report, Named, Sack.BitIsSet, Bits;
    forall p: u32 | true
      ensures p in Bits(rx.next, Report(rx), i, last, true) <==> rx.next + i <= p <= rx.next + last && p in Named(rx)
      ensures p in Bits(rx.next, Report(rx), i, last, false) <==> rx.next + i <= p <= rx.next + last && p !in Named(rx)
    {
      BitsMember(rx.next, Report(rx), i, last, true, p);
      BitsMember(rx.next, Report(rx), i, last, false, p);
      if rx.next <= p {
        BitIsNamed(rx, p - rx.next);
      }
    }
  }

  /** The base itself is still missing, so its bit is never set. */
  lemma BaseBitIsClear(rx: Rx)
    requires BufferInv(rx)
    ensures !Sack.BitIsSet(Report(rx), 0)
  {
    BitIsNamed(rx, 0);
    hide Report, Sack.BitIsSet;
    forall i | 0 <= i < |rx.buf| ensures Numbers(rx.buf)[i] != rx.next {
      assert rx.buf[i] in rx.buf;
    }
  }

  /**
   * With every retransmission accepted, the sender loses from its queue exactly
   * the reported numbers and sends again exactly the queued unreported ones up to
   * the highest reported; when nothing can be reported it sends the base again,
   * if that is still queued, and is otherwise unchanged.
   */
  lemma SackRoundTrip(tx: Tx, rx: Rx, now: u32, fails: set<u32>)
    requires Ascending(tx.queue) && forall p: u32 :: Has(tx.queue, p) ==> p !in fails
    ensures var r := OnSack(tx, rx.next, Report(rx), now, fails);
      Named(rx) != {} ==> exists top :: IsTop(Named(rx), top) && Effect(tx.queue, Named(rx), Missing(rx, top), now, r)
    ensures var r := OnSack(tx, rx.next, Report(rx), now, fails);
      Named(rx) == {} && Has(tx.queue, rx.next) ==> Effect(tx.queue, {}, {rx.next}, now, r)
    ensures var r := OnSack(tx, rx.next, Report(rx), now, fails);
      Named(rx) == {} && !Has(tx.queue, rx.next) ==> r == TxOut(tx, [], SequenceError)
  {
    BitIsNamed(rx, 0);
    match Sack.HighestBit(Report(rx))
    case None =>
      NoneNamed(rx);
      if Has(tx.queue, rx.next) {
        BaseOnly(tx, rx.next, now);
        BaseAnswer(tx, rx, now, fails);
      } else {
        BaseAbsent(tx, rx, now, fails);
      }
    case Some(last) =>
      SomeNamed(tx, rx, last, now, fails);
  }

  lemma NoneNamed(rx: Rx)
    requires Sack.HighestBit(Report(rx)).None?
    ensures Named(rx) == {}
  {
    hide Report, Sack.BitIsSet;
    forall p | p in Named(rx) ensures false {
      BitIsNamed(rx, p - rx.next);
      BitInside(Report(rx), p - rx.next);
    }
  }

  lemma BitInside(bitmap: Bytes, k: nat)
    requires Sack.BitIsSet(bitmap, k)
    ensures k < 8 * |bitmap|
  {
  }

  lemma BaseAnswer(tx: Tx, rx: Rx, now: u32, fails: set<u32>)
    requires Sack.HighestBit(Report(rx)).None? && 1 <= |Report(rx)| <= 8
    requires Has(tx.queue, rx.next) && rx.next !in fails
    ensures OnSack(tx, rx.next, Report(rx), now, fails)
      == TxOut(tx.(queue := Touch(tx.queue, {rx.next}, now)), [Data(rx.next, Lookup(tx.queue, rx.next).data)], Ok)
  {
    hide Report;
  }

  lemma BaseAbsent(tx: Tx, rx: Rx, now: u32, fails: set<u32>)
    requires Sack.HighestBit(Report(rx)).None? && 1 <= |Report(rx)| <= 8 && !Has(tx.queue, rx.next)
    ensures OnSack(tx, rx.next, Report(rx), now, fails) == TxOut(tx, [], SequenceError)
  {
    hide Report;
  }

  lemma BaseOnly(tx: Tx, base: u32, now: u32)
    requires Ascending(tx.queue) && Has(tx.queue, base)
    ensures var r := TxOut(tx.(queue := Touch(tx.queue, {base}, now)), [Data(base, Lookup(tx.queue, base).data)], Ok);
      Effect(tx.queue, {}, {base}, now, r)
  {
    hide Effect, Touch, Has, Ascending;
    var t := tx.(queue := Touch(tx.queue, {base}, now));
    EffectNothing(t, now);
    EffectMissing(tx.queue, base, {}, {}, now, TxOut(t, [], Ok));
    assert {base} + {} == {base};
    assert [Data(base, Lookup(tx.queue, base).data)] + [] == [Data(base, Lookup(tx.queue, base).data)];
  }

  lemma SomeNamed(tx: Tx, rx: Rx, last: nat, now: u32, fails: set<u32>)
    requires Sack.HighestBit(Report(rx)) == Some(last) && |Report(rx)| <= 8
    requires Ascending(tx.queue) && forall p: u32 :: Has(tx.queue, p) ==> p !in fails
    ensures rx.next + last < TWO_32 && IsTop(Named(rx), rx.next + last)
    ensures Effect(tx.queue, Named(rx), Missing(rx, rx.next + last), now, OnSack(tx, rx.next, Report(rx), now, fails))
  {
    BitIsNamed(rx, last);
    NamedUpTo(rx, last);
    NamedBits(rx, 0, last);
    var b := Report(rx);
    hide Report, Sack.BitIsSet, Effect, Named, IsTop;
    assert Bits(rx.next, b, 0, last, true) == Named(rx);
    assert Bits(rx.next, b, 0, last, false) == Missing(rx, rx.next + last);
    SackFromEffect(tx, rx.next, b, 0, last, now, fails);
    OnSackWalks(tx, rx.next, b, last, now, fails);
    EffectAnyWindow(tx.queue, Named(rx), Missing(rx, rx.next + last), now,
                    SackFrom(tx, rx.next, b, 0, last, now, fails), OnSack(tx, rx.next, b, now, fails));
  }

  lemma NamedUpTo(rx: Rx, last: nat)
    requires Sack.HighestBit(Report(rx)) == Some(last)
    ensures rx.next + last < TWO_32 && IsTop(Named(rx), rx.next + last)
    ensures forall p :: p in Named(rx) ==> rx.next <= p
  {
    BitIsNamed(rx, last);
    hide Report, Sack.BitIsSet;
    forall p | p in Named(rx) ensures p <= rx.next + last {
      BitIsNamed(rx, p - rx.next);
      BitInside(Report(rx), p - rx.next);
    }
  }

  lemma OnSackWalks(tx: Tx, base: u32, bitmap: Bytes, last: nat, now: u32, fails: set<u32>)
    requires Sack.HighestBit(bitmap) == Some(last) && |bitmap| <= 8
    ensures var r, w := OnSack(tx, base, bitmap, now, fails), SackFrom(tx, base, bitmap, 0, last, now, fails);
      r.status == w.status && r.sent == w.sent && r.tx.queue == w.tx.queue
  {
    hide Sack.BitIsSet, SackFrom;
  }

  lemma EffectAnyWindow(q: Queue, named: set<u32>, missing: set<u32>, now: u32, w: TxOut, r: TxOut)
    requires Effect(q, named, missing, now, w) && r.status == w.status && r.sent == w.sent && r.tx.queue == w.tx.queue
    ensures Effect(q, named, missing, now, r)
  {
  }
}
