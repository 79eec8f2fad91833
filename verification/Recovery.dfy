/**
 * When a session can still finish: from every reachable state, some continuation
 * of the run empties the window if and only if nothing was given up.
 */
module Recovery {
  import opened Base
  import opened AckRanges
  import opened Reliable
  import opened Sender
  import opened Receiver
  import opened SenderInv
  import opened Protocol
  import Retry
  import Sack
  import Window

  // ---- The base never rests on an acknowledged number for good ----

  /** An acknowledged base is still ahead of a slide: something is queued, or was given up. */
  ghost predicate Settled(s: Sys) {
    Window.Acked(s.tx.win, s.tx.win.base) ==> s.tx.queue != [] || s.abandoned != {}
  }

  lemma AdvanceUnacked(w: Window.State)
    requires 0 < |w.acks| <= 128 && w.base <= w.next
    requires var v := Window.Advance(w); v.base <= v.next <= v.base + |v.acks|
    ensures var v := Window.Advance(w); !Window.Acked(v, v.base)
  {
    if w.base + Window.LeadingAcks(w.acks) < TWO_32 {
      Window.AdvanceKeepsAcks(w, 0);
    }
  }

  lemma MarkShape(w: Window.State, pn: u32)
    ensures var v := Window.Mark(w, pn); v.base == w.base && v.next == w.next && |v.acks| == |w.acks|
  {
  }

  lemma HasIsSome(q: Queue, pn: u32)
    ensures Has(q, pn) ==> q != []
  {
  }

  lemma {:induction false} SackFromShape(tx: Tx, base: u32, bitmap: Bytes, i: nat, last: nat, now: u32, fails: set<u32>)
    ensures var r := SackFrom(tx, base, bitmap, i, last, now, fails);
      && r.tx.win.base == tx.win.base && r.tx.win.next == tx.win.next && |r.tx.win.acks| == |tx.win.acks|
      && (!r.status.Ok? ==> r.tx.queue != [])
    decreases last + 1 - i
  {
    if i <= last {
      var pn := Add32(base, i);
      MarkShape(tx.win, pn);
      hide Sack.BitIsSet, Touch, Without, Window.Mark, Add32;
      HasIsSome(tx.queue, pn);
      hide Has;
      if !Has(tx.queue, pn) {
        SackFromShape(tx, base, bitmap, i + 1, last, now, fails);
      } else if Sack.BitIsSet(bitmap, i) {
        SackFromShape(tx.(win := Window.Mark(tx.win, pn), queue := Without(tx.queue, {pn})), base, bitmap, i + 1, last, now, fails);
      } else if pn !in fails {
        SackFromShape(tx.(queue := Touch(tx.queue, {pn}, now)), base, bitmap, i + 1, last, now, fails);
      }
    }
  }

  lemma AckSettles(s: Sys, largest: u32, ranges: seq<AckRange>)
    requires Inv(s) && Settled(s) && Enabled(s, AckArrives(largest, ranges))
    ensures Settled(Apply(s, AckArrives(largest, ranges)))
  {
    AckStep(s, largest, ranges);
    hide Without, AckSet, Window.Advance, Window.Acked, Fates, AcksHeld, QueueFaithful, RxInv, NetInv;
    if OnAck(s.tx, largest, ranges).status.Ok? {
      AdvanceUnacked(MarkSet(s.tx.win, AckSet(largest, ranges)));
    }
  }

  lemma SackSettles(s: Sys, base: u32, bitmap: Bytes, now: u32, fails: set<u32>)
    requires Inv(s) && Settled(s) && Enabled(s, SackArrives(base, bitmap, now, fails))
    ensures Settled(Apply(s, SackArrives(base, bitmap, now, fails)))
  {
    SackStep(s, base, bitmap, now, fails);
    hide Sack.BitIsSet, Sack.HighestBit, SackFrom, Window.Advance, Window.Acked, Fates, AcksHeld, QueueFaithful, RxInv, NetInv;
    if 0 < |bitmap| <= Sack.SACK_DECODE_CAPACITY && Sack.HighestBit(bitmap).Some? {
      var last := Sack.HighestBit(bitmap).value;
      SackFromShape(s.tx, base, bitmap, 0, last, now, fails);
      if SackFrom(s.tx, base, bitmap, 0, last, now, fails).status.Ok? {
        AdvanceUnacked(SackFrom(s.tx, base, bitmap, 0, last, now, fails).tx.win);
      }
    }
  }

  lemma TickSettles(s: Sys, now: u32, fails: set<u32>)
    requires Inv(s) && Settled(s)
    ensures Settled(Apply(s, TimerFires(now, fails)))
  {
    var t := Apply(s, TimerFires(now, fails));
    if s.tx.queue != [] && t.tx.queue == [] {
      var pn := s.tx.queue[0].pn;
      assert s.tx.queue[0] in s.tx.queue;
      AbandonsHas(s.tx, now, fails, pn);
      assert pn in t.abandoned;
    }
  }

  lemma StepSettles(s: Sys, step: Step)
    requires Inv(s) && Settled(s) && Enabled(s, step)
    ensures Settled(Apply(s, step))
  {
    match step
    case SendData(i) =>
    case DataArrives(pn, data, allocOk) =>
    case AckArrives(largest, ranges) => AckSettles(s, largest, ranges);
    case SackArrives(base, bitmap, now, fails) => SackSettles(s, base, bitmap, now, fails);
    case TimerFires(now, fails) => TickSettles(s, now, fails);
    case Lose(m) =>
  }

  lemma {:induction false} RunSettles(s: Sys, steps: seq<Step>)
    requires Inv(s) && Settled(s) && Allowed(s, steps)
    ensures Inv(Run(s, steps)) && Settled(Run(s, steps))
    decreases |steps|
  {
    if steps != [] {
      StepKeepsInv(s, steps[0]);
      StepSettles(s, steps[0]);
      hide Inv, Settled, Apply, Enabled;
      RunSettles(Apply(s, steps[0]), steps[1..]);
    }
  }

  lemma InitialSettled(txWindow: u8, rxWindow: u8, maxRetry: u8)
    requires 1 <= txWindow <= 128
    ensures Settled(Initial(txWindow, rxWindow, maxRetry))
  {
  }

  // ---- Getting one packet through ----

  /** Every queued packet has been stamped and has a retransmission left. */
  predicate Retryable(q: Queue, maxRetry: u8) {
    forall e :: e in q ==> e.sentAt != 0 && e.retries < maxRetry
  }

  /** A tick at which the lower layer refuses every packet leaves them all as they are. */
  lemma {:induction false} RefusedTick(q: Queue, now: u32, maxRetry: u8, fails: set<u32>)
    requires forall e :: e in q ==> e.retries < maxRetry && e.pn in fails
    ensures Retry.TickQueue(q, now, maxRetry, fails) == q
    ensures Retry.TickResent(q, now, maxRetry, fails) == [] && Retry.TickDropped(q, now, maxRetry) == []
  {
    if q != [] {
      assert q[0] in q && forall e :: e in q[1..] ==> e in q;
      RefusedTick(q[1..], now, maxRetry, fails);
    }
  }

  /** The numbers behind the first. */
  function Others(q: Queue): set<u32>
    requires q != []
  {
    set e | e in q[1..] :: e.pn
  }

  lemma OthersAre(q: Queue)
    requires q != [] && Ascending(q)
    ensures q[0] in q && q[0].pn !in Others(q) && forall e :: e in q[1..] ==> e in q && e.pn in Others(q)
  {
    forall e | e in q[1..] ensures e.pn != q[0].pn {
      var i :| 0 <= i < |q[1..]| && q[1..][i] == e;
      assert q[i + 1] == e;
    }
  }

  lemma ResendFirst(q: Queue, now: u32, maxRetry: u8)
    requires q != [] && Ascending(q) && Retryable(q, maxRetry) && Retry.Due(q[0], now)
    ensures Retry.TickQueue(q, now, maxRetry, Others(q)) == [Resent(q[0], now)] + q[1..]
    ensures Retry.TickResent(q, now, maxRetry, Others(q)) == [q[0]] && Retry.TickDropped(q, now, maxRetry) == []
  {
    OthersAre(q);
    hide Others, Ascending, Retry.Due;
    RefusedTick(q[1..], now, maxRetry, Others(q));
  }

  /** The state after the first packet was sent again. */
  lemma TickStep(s: Sys, now: u32)
    requires Inv(s) && s.tx.queue != [] && Retryable(s.tx.queue, s.tx.maxRetry) && Retry.Due(s.tx.queue[0], now)
    ensures var q := s.tx.queue; var t := Apply(s, TimerFires(now, Others(q)));
      && t.tx == s.tx.(queue := [Resent(q[0], now)] + q[1..]) && t.abandoned == s.abandoned && t.rx == s.rx
      && t.committed == s.committed && Data(q[0].pn, q[0].data) in t.net
  {
    var q := s.tx.queue;
    ResendFirst(q, now, s.tx.maxRetry);
    NothingDropped(s.tx, now);
    assert DataOf([q[0]])[0] == Data(q[0].pn, q[0].data);
  }

  lemma NothingDropped(tx: Tx, now: u32)
    requires Retry.TickDropped(tx.queue, now, tx.maxRetry) == []
    ensures Abandons(tx, now) == {}
  {
  }

  /** The receiver answers every number up to the expected one with its ACK. */
  lemma AnsweredWithAck(rx: Rx, pn: u32, data: Bytes, allocOk: bool)
    requires BufferInv(rx) && pn <= rx.next
    ensures AckFor(pn) in Receive(rx, pn, data, allocOk, {}).replies
  {
    hide Drain;
    if pn == rx.next {
      var r := Drain(Start(rx).(next := Add32(pn, 1)), {});
      assert ([AckFor(pn)] + r.replies)[0] == AckFor(pn);
    }
  }

  /** Nothing below the first queued number is missing at the receiver. */
  lemma FirstIsNotAhead(s: Sys)
    requires Inv(s) && s.tx.queue != [] && s.abandoned == {}
    ensures s.tx.queue[0].pn <= s.rx.next
  {
    var q := s.tx.queue;
    assert q[0] in q;
    WindowBounds(s);
    if s.rx.next < s.tx.win.next {
      AwaitedIsQueued(s);
      var e :| e in q && e.pn == s.rx.next;
      var i :| 0 <= i < |q| && q[i] == e;
    }
  }

  lemma AckFirst(tx: Tx)
    requires tx.queue != [] && Ascending(tx.queue)
    ensures var r := OnAck(tx, tx.queue[0].pn, [AckRange(0, 1)]);
      r.tx.queue == tx.queue[1..] && r.tx.maxRetry == tx.maxRetry && r.sent == []
  {
    var pn := tx.queue[0].pn;
    SingleAck(pn);
    assert Acknowledged(pn, [AckRange(0, 1)]) == {pn};
    WithoutFirst(tx.queue);
    hide Without, Window.Advance, MarkSet, AckSet, Acknowledged;
  }

  lemma WithoutFirst(q: Queue)
    requires q != [] && Ascending(q)
    ensures Without(q, {q[0].pn}) == q[1..]
  {
    forall e | e in q[1..] ensures e.pn != q[0].pn {
      var i :| 0 <= i < |q[1..]| && q[1..][i] == e;
      assert q[i + 1] == e;
    }
    WithoutNone(q[1..], {q[0].pn});
  }

  /** Send again, arrive, acknowledge: three steps that take the first packet off the queue. */
  lemma FirstThrough(s: Sys) returns (steps: seq<Step>)
    requires Inv(s) && s.tx.queue != [] && Retryable(s.tx.queue, s.tx.maxRetry) && s.abandoned == {}
    ensures Allowed(s, steps)
    ensures var t := Run(s, steps);
      && t.tx.queue == s.tx.queue[1..] && t.tx.maxRetry == s.tx.maxRetry && t.abandoned == {} && t.committed == s.committed
  {
    var q := s.tx.queue;
    assert q[0] in q;
    Retry.DueSometimeIff(q[0]);
    var now: u32 :| Retry.Due(q[0], now);
    TickStep(s, now);
    var a := TimerFires(now, Others(q));
    var s1 := Apply(s, a);
    StepKeepsInv(s, a);
    FirstIsNotAhead(s);
    var b := DataArrives(q[0].pn, q[0].data, true);
    var s2 := Apply(s1, b);
    StepKeepsInv(s1, b);
    AnsweredWithAck(s1.rx, q[0].pn, q[0].data, true);
    var c := AckArrives(q[0].pn, [AckRange(0, 1)]);
    var r := Receive(s1.rx, q[0].pn, q[0].data, true, {});
    assert Ack(q[0].pn, [AckRange(0, 1)]) in s2.net;
    assert s2.tx.queue[0] == Resent(q[0], now) && s2.tx.queue[1..] == q[1..];
    AckFirst(s2.tx);
    steps := [a, b, c];
    hide *;
    ThreeSteps(s, a, b, c);
    AfterAck(s2, q[0].pn);
  }

  lemma AfterAck(s: Sys, pn: u32)
    ensures var t := Apply(s, AckArrives(pn, [AckRange(0, 1)]));
      t.tx == OnAck(s.tx, pn, [AckRange(0, 1)]).tx && t.abandoned == s.abandoned && t.committed == s.committed
  {
  }

  lemma ThreeSteps(s: Sys, a: Step, b: Step, c: Step)
    ensures Run(s, [a, b, c]) == Apply(Apply(Apply(s, a), b), c)
    ensures Enabled(s, a) && Enabled(Apply(s, a), b) && Enabled(Apply(Apply(s, a), b), c) ==> Allowed(s, [a, b, c])
  {
    hide Apply, Enabled;
    assert [a, b, c][1..] == [b, c] && [b, c][1..] == [c] && [c][1..] == [];
    assert Run(Apply(s, a), [b, c]) == Run(Apply(Apply(s, a), b), [c]);
    assert Allowed(Apply(Apply(s, a), b), [c]) <==> Enabled(Apply(Apply(s, a), b), c);
    assert Allowed(Apply(s, a), [b, c]) <==> Enabled(Apply(s, a), b) && Allowed(Apply(Apply(s, a), b), [c]);
  }

  lemma {:induction false} RunTwice(s: Sys, a: seq<Step>, b: seq<Step>)
    ensures Run(s, a + b) == Run(Run(s, a), b)
    ensures Allowed(s, a) && Allowed(Run(s, a), b) ==> Allowed(s, a + b)
    decreases |a|
  {
    hide Apply, Enabled;
    if a == [] {
      assert a + b == b;
    } else {
      assert (a + b)[0] == a[0] && (a + b)[1..] == a[1..] + b;
      RunTwice(Apply(s, a[0]), a[1..], b);
    }
  }

  /** One packet after the other, the queue empties. */
  lemma {:induction false} AllThrough(s: Sys) returns (steps: seq<Step>)
    requires Inv(s) && Retryable(s.tx.queue, s.tx.maxRetry) && s.abandoned == {}
    ensures Allowed(s, steps)
    ensures var t := Run(s, steps); t.tx.queue == [] && t.abandoned == {} && t.committed == s.committed
    decreases |s.tx.queue|
  {
    if s.tx.queue == [] {
      return [];
    }
    var first := FirstThrough(s);
    RunKeepsInv(s, first);
    RetryableRest(s.tx.queue, s.tx.maxRetry);
    hide Inv, Retryable;
    var rest := AllThrough(Run(s, first));
    RunTwice(s, first, rest);
    steps := first + rest;
  }

  lemma RetryableRest(q: Queue, maxRetry: u8)
    requires q != [] && Retryable(q, maxRetry)
    ensures Retryable(q[1..], maxRetry)
  {
    assert forall e :: e in q[1..] ==> e in q;
  }

  // ---- Packets without a retransmission left ----

  /**
   * A packet that can still get through: it may be sent again, or its ACK is on the
   * way, or its bytes are and the receiver is not waiting for an earlier number.
   */
  predicate Savable(s: Sys, e: Entry) {
    || (e.sentAt != 0 && e.retries < s.tx.maxRetry)
    || AckFor(e.pn) in s.net
    || (Data(e.pn, e.data) in s.net && e.pn <= s.rx.next)
  }

  predicate AllSavable(s: Sys) {
    forall e :: e in s.tx.queue ==> Savable(s, e)
  }

  lemma {:induction false} WithoutShorter(q: Queue, pn: u32)
    requires Has(q, pn)
    ensures |Without(q, {pn})| < |q|
  {
    if q[0].pn == pn {
      WithoutAtMost(q[1..], pn);
    } else {
      var e :| e in q && e.pn == pn;
      assert e in q[1..];
      WithoutShorter(q[1..], pn);
    }
  }

  lemma {:induction false} WithoutAtMost(q: Queue, pn: u32)
    ensures |Without(q, {pn})| <= |q|
  {
    if q != [] {
      WithoutAtMost(q[1..], pn);
    }
  }

  /** An ACK takes its packet off the queue, wherever it stands, and changes nothing else outside the window. */
  lemma AckTakes(s: Sys, pn: u32)
    requires Has(s.tx.queue, pn)
    ensures var t := Apply(s, AckArrives(pn, [AckRange(0, 1)]));
      && t.tx.queue == Without(s.tx.queue, {pn}) && t.tx.maxRetry == s.tx.maxRetry
      && t.net == s.net && t.rx == s.rx && t.abandoned == s.abandoned && t.committed == s.committed
  {
    SingleAck(pn);
    assert Acknowledged(pn, [AckRange(0, 1)]) == {pn};
    WithoutShorter(s.tx.queue, pn);
    hide Without, Window.Advance, MarkSet, AckSet, Acknowledged, Has;
  }

  /** Data that is not ahead brings its ACK onto the network; nothing leaves it. */
  lemma DataAnswered(s: Sys, pn: u32, data: Bytes)
    requires Inv(s) && Data(pn, data) in s.net && pn <= s.rx.next
    ensures var t := Apply(s, DataArrives(pn, data, true));
      && AckFor(pn) in t.net && s.net <= t.net && t.rx.next >= s.rx.next
      && t.tx == s.tx && t.abandoned == s.abandoned && t.committed == s.committed
  {
    AnsweredWithAck(s.rx, pn, data, true);
    assert MsgOk(Data(pn, data), s.rx, s.committed);
    ReceiveHolds(s.rx, pn, data, true, s.committed);
    hide Receive, Consistent, HonestBits;
  }

  /** What a continuation must leave of the state for the others to stay savable. */
  ghost predicate Saves(s: Sys, t: Sys, pn: u32) {
    && t.tx.queue == Without(s.tx.queue, {pn}) && t.tx.maxRetry == s.tx.maxRetry
    && s.net <= t.net && s.rx.next <= t.rx.next && t.abandoned == s.abandoned && t.committed == s.committed
  }

  lemma SaveOne(s: Sys, e: Entry) returns (steps: seq<Step>)
    requires Inv(s) && e in s.tx.queue && Savable(s, e) && !(e.sentAt != 0 && e.retries < s.tx.maxRetry)
    ensures Allowed(s, steps) && Saves(s, Run(s, steps), e.pn)
  {
    var ack := AckArrives(e.pn, [AckRange(0, 1)]);
    assert Has(s.tx.queue, e.pn);
    if AckFor(e.pn) in s.net {
      AckTakes(s, e.pn);
      steps := [ack];
      assert steps[1..] == [];
    } else {
      var arrive := DataArrives(e.pn, e.data, true);
      DataAnswered(s, e.pn, e.data);
      AckTakes(Apply(s, arrive), e.pn);
      steps := [arrive, ack];
      TwoSteps(s, arrive, ack);
      hide Apply;
    }
  }

  lemma TwoSteps(s: Sys, a: Step, b: Step)
    ensures Run(s, [a, b]) == Apply(Apply(s, a), b)
    ensures Enabled(s, a) && Enabled(Apply(s, a), b) ==> Allowed(s, [a, b])
  {
    hide Apply, Enabled;
    assert [a, b][1..] == [b] && [b][1..] == [];
    assert Run(Apply(s, a), [b]) == Run(Apply(Apply(s, a), b), []);
    assert Allowed(Apply(s, a), [b]) <==> Enabled(Apply(s, a), b) && Allowed(Apply(Apply(s, a), b), []);
  }

  lemma StaysSavable(s: Sys, t: Sys, pn: u32)
    requires AllSavable(s) && Saves(s, t, pn)
    ensures AllSavable(t)
  {
  }

  /** The packets without a retransmission left are saved first. */
  lemma {:induction false} SaveAll(s: Sys) returns (steps: seq<Step>)
    requires Inv(s) && AllSavable(s) && s.abandoned == {}
    ensures Allowed(s, steps)
    ensures var t := Run(s, steps);
      Inv(t) && Retryable(t.tx.queue, t.tx.maxRetry) && t.abandoned == {} && t.committed == s.committed
    decreases |s.tx.queue|
  {
    if Retryable(s.tx.queue, s.tx.maxRetry) {
      return [];
    }
    var e :| e in s.tx.queue && !(e.sentAt != 0 && e.retries < s.tx.maxRetry);
    assert Has(s.tx.queue, e.pn);
    WithoutShorter(s.tx.queue, e.pn);
    var first := SaveOne(s, e);
    RunKeepsInv(s, first);
    StaysSavable(s, Run(s, first), e.pn);
    hide Inv, Retryable, AllSavable, Savable, Run, Allowed, Without, Has;
    var rest := SaveAll(Run(s, first));
    RunTwice(s, first, rest);
    steps := first + rest;
  }

  // ---- Main result ----

  predicate Finished(s: Sys) {
    s.tx.queue == [] && s.tx.win.base == s.tx.win.next && s.delivered == s.committed
  }

  lemma EmptyIsFinished(s: Sys)
    requires Inv(s) && Settled(s) && s.tx.queue == [] && s.abandoned == {}
    ensures Finished(s)
  {
    EmptyQueueMeansDelivered(s);
    assert s.tx.win.base < s.tx.win.next ==> OneFate(s.tx, s.abandoned, s.tx.win.base);
  }

  lemma {:induction false} AbandonedStays(s: Sys, steps: seq<Step>)
    ensures s.abandoned <= Run(s, steps).abandoned
    decreases |steps|
  {
    if steps != [] {
      StepKeepsAbandoned(s, steps[0]);
      hide Apply;
      AbandonedStays(Apply(s, steps[0]), steps[1..]);
    }
  }

  /**
   * From any reachable state whose queued packets can all still get through, some
   * continuation acknowledges everything, with every payload delivered, if and only
   * if nothing was given up.
   */
  lemma FinishesIff(txWindow: u8, rxWindow: u8, maxRetry: u8, steps: seq<Step>)
    requires 1 <= txWindow <= 128 && Allowed(Initial(txWindow, rxWindow, maxRetry), steps)
    requires AllSavable(Run(Initial(txWindow, rxWindow, maxRetry), steps))
    ensures var s := Run(Initial(txWindow, rxWindow, maxRetry), steps);
      (exists more :: Allowed(s, more) && Finished(Run(s, more)) && Run(s, more).committed == s.committed) <==> s.abandoned == {}
  {
    var s0 := Initial(txWindow, rxWindow, maxRetry);
    InitialInv(txWindow, rxWindow, maxRetry);
    InitialSettled(txWindow, rxWindow, maxRetry);
    RunSettles(s0, steps);
    var s := Run(s0, steps);
    hide Inv, Settled, Retryable, AllSavable, Initial, Run, Allowed;
    if s.abandoned == {} {
      var save := SaveAll(s);
      var rest := AllThrough(Run(s, save));
      RunTwice(s, save, rest);
      RunSettles(s, save + rest);
      EmptyIsFinished(Run(s, save + rest));
    } else {
      forall more | Allowed(s, more) ensures !Finished(Run(s, more)) {
        GivenUpBlocks(s, more);
      }
    }
  }

  /** Once a packet was given up, no continuation empties the window. */
  lemma GivenUpBlocks(s: Sys, more: seq<Step>)
    requires Inv(s) && s.abandoned != {} && Allowed(s, more)
    ensures Run(s, more).tx.win.base < Run(s, more).tx.win.next
  {
    var pn :| pn in s.abandoned;
    AbandonedStays(s, more);
    RunKeepsInv(s, more);
    AbandonedBlocksWindow(Run(s, more), pn);
    hide Run, Allowed;
  }
}
