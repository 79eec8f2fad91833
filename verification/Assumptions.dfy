/**
 * Exactly where the transport's promises stop: packet numbers that wrap, and
 * deliveries that fail after the acknowledgement has already been sent.
 */
module Assumptions {
  import opened Base
  import opened Sender
  import opened Receiver
  import Sack

  // ---- Packet numbers wrap, the comparison does not ----

  /** The packet number on the wire of the `k`-th packet of a session. */
  function WireNumber(k: nat): u32 {
    Wrap32(k)
  }

  /**
   * The receiver compares plain unsigned numbers. For two packets less than 2^32
   * apart, that comparison agrees with sending order exactly when no wrap lies
   * between them.
   */
  lemma ComparisonAgreesIff(n: nat, k: nat)
    requires k != n && -TWO_32 < k - n < TWO_32
    ensures (WireNumber(k) < WireNumber(n) <==> k < n) <==> k / TWO_32 == n / TWO_32
  {
    assert k == TWO_32 * (k / TWO_32) + WireNumber(k);
    assert n == TWO_32 * (n / TWO_32) + WireNumber(n);
    Quotients(k / TWO_32, n / TWO_32, WireNumber(k), WireNumber(n));
  }

  lemma Quotients(a: nat, b: nat, r: u32, s: u32)
    requires -TWO_32 < (TWO_32 * a + r) - (TWO_32 * b + s) < TWO_32
    ensures a < b ==> b == a + 1 && s < r
    ensures b < a ==> a == b + 1 && r < s
  {
  }

  /** What the receiver does with a packet it takes for an old one. */
  predicate TakenAsOld(rx: Rx, pn: u32, data: Bytes, allocOk: bool, fails: set<u32>) {
    Receive(rx, pn, data, allocOk, fails) == RxOut(rx, [AckFor(pn)], [], Ok)
  }

  lemma TakenAsOldIff(rx: Rx, pn: u32, data: Bytes, allocOk: bool, fails: set<u32>)
    requires rx.started && pn != rx.next
    ensures TakenAsOld(rx, pn, data, allocOk, fails) <==> pn < rx.next
  {
    hide Cache, Drain, Sack.Build;
    if pn > rx.next {
      assert Receive(rx, pn, data, allocOk, fails).replies[0].SackMsg?;
    }
  }

  /**
   * A receiver waiting for packet `n` of the session takes a later packet `k` for
   * an old one, acknowledging it and keeping nothing, if and only if a wrap lies
   * between them.
   */
  lemma NewTakenAsOldIff(rx: Rx, n: nat, k: nat, data: Bytes, allocOk: bool, fails: set<u32>)
    requires rx.started && rx.next == WireNumber(n) && n < k < n + TWO_32
    ensures TakenAsOld(rx, WireNumber(k), data, allocOk, fails) <==> k / TWO_32 != n / TWO_32
  {
    ComparisonAgreesIff(n, k);
    DifferentNumbers(n, k);
    TakenAsOldIff(rx, WireNumber(k), data, allocOk, fails);
  }

  /** It recognises an earlier packet as old if and only if no wrap lies between them. */
  lemma OldTakenAsOldIff(rx: Rx, n: nat, k: nat, data: Bytes, allocOk: bool, fails: set<u32>)
    requires rx.started && rx.next == WireNumber(n) && k < n < k + TWO_32
    ensures TakenAsOld(rx, WireNumber(k), data, allocOk, fails) <==> k / TWO_32 == n / TWO_32
  {
    ComparisonAgreesIff(n, k);
    DifferentNumbers(k, n);
    TakenAsOldIff(rx, WireNumber(k), data, allocOk, fails);
  }

  lemma DifferentNumbers(n: nat, k: nat)
    requires n < k < n + TWO_32
    ensures WireNumber(n) != WireNumber(k)
  {
  }

  /**
   * A receiver waiting for the last number before the wrap takes the packet after
   * it for an old one: it acknowledges it and keeps nothing.
   */
  lemma WrapAcknowledgesUnseen(rx: Rx, data: Bytes, allocOk: bool, fails: set<u32>)
    requires rx.started && rx.next == TWO_32 - 1
    ensures var r := Receive(rx, WireNumber(TWO_32), data, allocOk, fails);
      r.rx == rx && r.delivered == [] && r.replies == [AckFor(0)]
  {
  }

  // ---- The ACK leaves before the delivery is known to have worked ----

  ghost predicate AcksHold(r: RxOut) {
    forall m :: m in r.replies && m.Ack? ==> Held(r.rx, m.largest)
  }

  lemma AcksHoldCons(pn: u32, data: Bytes, r: RxOut)
    requires pn < r.rx.next
    ensures AcksHold(RxOut(r.rx, [AckFor(pn)] + r.replies, [data] + r.delivered, r.status)) <==> AcksHold(r)
  {
    var all := [AckFor(pn)] + r.replies;
    assert forall m :: m in all <==> m == AckFor(pn) || m in r.replies;
  }

  predicate RunDelivers(next: int, k: nat, fails: set<u32>) {
    forall j: u32 :: next <= j < next + k ==> j !in fails
  }

  /** One drained packet: the rest of the buffer and the next expected number. */
  function Taken(rx: Rx): Rx
    requires rx.buf != []
  {
    rx.(buf := rx.buf[1..], next := Add32(rx.next, 1))
  }

  lemma TakeFront(rx: Rx)
    requires Sorted(rx.buf) && Within(rx.buf, rx.next, TWO_32 - 1) && Buffered(rx.buf, rx.next)
    ensures Position(rx.buf, rx.next) == 0 && rx.buf[0].pn == rx.next < TWO_32 - 1
  {
    hide Position, Buffered, Sorted;
    Widen(rx.buf, rx.next, TWO_32 - 1, rx.next, TWO_32);
    FrontIsNext(rx.buf, rx.next);
  }

  lemma TakeRest(rx: Rx)
    requires Sorted(rx.buf) && Within(rx.buf, rx.next, TWO_32 - 1)
    requires rx.buf != [] && rx.buf[0].pn == rx.next < TWO_32 - 1
    ensures Sorted(Taken(rx).buf) && Within(Taken(rx).buf, Taken(rx).next, TWO_32 - 1)
    ensures Taken(rx).next == rx.next + 1
    ensures RunLength(rx.buf, rx.next) == 1 + RunLength(Taken(rx).buf, Taken(rx).next)
  {
    hide Sorted, RunLength, Within;
    RestAbove(rx.buf, rx.next, TWO_32 - 1);
    RunOfRest(rx.buf, rx.next);
  }

  lemma {:induction false} DrainNext(rx: Rx, fails: set<u32>)
    requires Sorted(rx.buf) && Within(rx.buf, rx.next, TWO_32 - 1)
    ensures Drain(rx, fails).rx.next >= rx.next
    decreases |rx.buf|
  {
    if Buffered(rx.buf, rx.next) {
      TakeFront(rx);
      TakeRest(rx);
      if rx.next in fails {
        DrainFailsAt(rx, fails);
      } else {
        DrainUnfolds(rx, fails);
        hide Position, Buffered, Drain, Sorted, Within, RunLength;
        DrainNext(Taken(rx), fails);
      }
    }
  }

  lemma RunDeliversStep(next: int, k: nat, fails: set<u32>)
    requires k > 0 && 0 <= next < TWO_32
    ensures RunDelivers(next, k, fails) <==> next !in fails && RunDelivers(next + 1, k - 1, fails)
  {
  }

  lemma FailedIsUnheld(rx: Rx, r: RxOut)
    requires Sorted(rx.buf) && rx.buf != [] && rx.buf[0].pn == rx.next
    requires r == RxOut(rx.(buf := rx.buf[1..]), [AckFor(rx.next)], [], InvalidFrame)
    ensures !AcksHold(r)
  {
    assert AckFor(rx.next) in r.replies;
  }

  /** Every number a drain acknowledges is held exactly when its whole run is delivered. */
  lemma {:induction false} DrainHoldsIff(rx: Rx, fails: set<u32>)
    requires Sorted(rx.buf) && Within(rx.buf, rx.next, TWO_32 - 1)
    ensures AcksHold(Drain(rx, fails)) <==> RunDelivers(rx.next, RunLength(rx.buf, rx.next), fails)
    decreases |rx.buf|
  {
    if Buffered(rx.buf, rx.next) {
      TakeFront(rx);
      TakeRest(rx);
      RunDeliversStep(rx.next, RunLength(rx.buf, rx.next), fails);
      if rx.next in fails {
        DrainFailsAt(rx, fails);
        FailedIsUnheld(rx, Drain(rx, fails));
      } else {
        DrainUnfolds(rx, fails);
        hide Position, Buffered, Drain, Sorted, Within, RunDelivers, AcksHold, RunLength;
        DrainHoldsIff(Taken(rx), fails);
        DrainNext(Taken(rx), fails);
        AcksHoldCons(rx.next, rx.buf[0].data, Drain(Taken(rx), fails));
      }
    } else {
      NotBuffered(rx.buf, rx.next, TWO_32 - 1);
      assert RunLength(rx.buf, rx.next) == 0 by {
        if rx.buf != [] { assert rx.buf[0] in rx.buf; }
      }
    }
  }

  /**
   * For the expected packet, every number the replies acknowledge is held
   * afterwards exactly when it and the buffered run behind it all deliver; a
   * failing delivery has already been acknowledged, and its payload is gone.
   */
  lemma AckedIsHeldIff(rx: Rx, data: Bytes, allocOk: bool, fails: set<u32>)
    requires BufferInv(rx) && rx.started && Within(rx.buf, rx.next + 1, TWO_32 - 1) && rx.next < TWO_32 - 1
    ensures AcksHold(Receive(rx, rx.next, data, allocOk, fails))
       <==> RunDelivers(rx.next, 1 + RunLength(rx.buf, rx.next + 1), fails)
  {
    RunDeliversStep(rx.next, 1 + RunLength(rx.buf, rx.next + 1), fails);
    if rx.next in fails {
      UndeliveredIsUnheld(rx, data, allocOk, fails);
    } else {
      ExpectedHoldsIff(rx, data, allocOk, fails);
    }
  }

  lemma ExpectedHoldsIff(rx: Rx, data: Bytes, allocOk: bool, fails: set<u32>)
    requires BufferInv(rx) && rx.started && Within(rx.buf, rx.next + 1, TWO_32 - 1) && rx.next < TWO_32 - 1
    requires rx.next !in fails
    ensures AcksHold(Receive(rx, rx.next, data, allocOk, fails))
       <==> RunDelivers(rx.next + 1, RunLength(rx.buf, rx.next + 1), fails)
  {
    hide Drain, RunDelivers, AcksHold, RunLength, Receive, BufferInv, Within, Sorted, AckFor, Held;
    var mid := rx.(next := Add32(rx.next, 1));
    ReceiveExpected(rx, data, allocOk, fails);
    MidFits(rx);
    DrainHoldsIff(mid, fails);
    DrainNext(mid, fails);
    AcksHoldCons(rx.next, data, Drain(mid, fails));
  }

  lemma ReceiveExpected(rx: Rx, data: Bytes, allocOk: bool, fails: set<u32>)
    requires rx.started && rx.next !in fails
    ensures
      var r := Drain(rx.(next := Add32(rx.next, 1)), fails);
      Receive(rx, rx.next, data, allocOk, fails)
        == RxOut(r.rx, [AckFor(rx.next)] + r.replies, [data] + r.delivered, r.status)
  {
    hide Drain, AckFor;
  }

  lemma MidFits(rx: Rx)
    requires BufferInv(rx) && rx.started && rx.next < TWO_32 - 1
    ensures Add32(rx.next, 1) == rx.next + 1 && Sorted(rx.buf)
  {
  }

  lemma UndeliveredIsUnheld(rx: Rx, data: Bytes, allocOk: bool, fails: set<u32>)
    requires BufferInv(rx) && rx.started && rx.next in fails
    ensures !AcksHold(Receive(rx, rx.next, data, allocOk, fails))
  {
    var r := Receive(rx, rx.next, data, allocOk, fails);
    assert AckFor(rx.next) in r.replies;
    assert !Held(rx, rx.next);
  }
}
