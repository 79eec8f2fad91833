/**
 * Two peers and the network between them. The network is the set of messages in
 * flight: any of them may arrive, any number of times, in any order, or be lost.
 * One established session, unfragmented payloads, and fewer than 2^32 - 1 packets.
 */
module Protocol {
  import opened Base
  import opened AckRanges
  import opened Reliable
  import opened Sender
  import opened Receiver
  import opened SenderInv
  import Retry
  import Sack
  import Window

  /** `committed`, `delivered` and `abandoned` record the history of the run. */
  datatype Sys = Sys(tx: Tx, rx: Rx, net: set<Msg>,
                     committed: seq<Bytes>, delivered: seq<Bytes>, abandoned: set<u32>)

  datatype Step =
    | SendData(i: SendInput)
    | DataArrives(pn: u32, data: Bytes, allocOk: bool)
    | AckArrives(largest: u32, ranges: seq<AckRange>)
    | SackArrives(base: u32, bitmap: Bytes, now: u32, fails: set<u32>)
    | TimerFires(now: u32, fails: set<u32>)
    | Lose(m: Msg)

  predicate Enabled(s: Sys, step: Step) {
    match step
    case SendData(_) => s.tx.win.next < TWO_32 - 1
    case DataArrives(pn, data, _) => Data(pn, data) in s.net
    case AckArrives(largest, ranges) => Ack(largest, ranges) in s.net
    case SackArrives(base, bitmap, _, _) => SackMsg(base, bitmap) in s.net
    case TimerFires(_, _) => true
    case Lose(_) => true
  }

  function Emit(net: set<Msg>, ms: seq<Msg>): set<Msg> {
    net + set m | m in ms
  }

  function AfterTx(s: Sys, r: TxOut): Sys {
    s.(tx := r.tx, net := Emit(s.net, r.sent))
  }

  function Apply(s: Sys, step: Step): Sys {
    match step
    case SendData(i) =>
      var r := Send(s.tx, i);
      AfterTx(s, r).(committed := if r.status.Ok? then s.committed + [i.data] else s.committed)
    case DataArrives(pn, data, allocOk) =>
      var r := Receive(s.rx, pn, data, allocOk, {});
      s.(rx := r.rx, net := Emit(s.net, r.replies), delivered := s.delivered + r.delivered)
    case AckArrives(largest, ranges) =>
      AfterTx(s, OnAck(s.tx, largest, ranges))
    case SackArrives(base, bitmap, now, fails) =>
      AfterTx(s, OnSack(s.tx, base, bitmap, now, fails))
    case TimerFires(now, fails) =>
      AfterTx(s, Tick(s.tx, now, fails)).(abandoned := s.abandoned + Abandons(s.tx, now))
    case Lose(m) => s.(net := s.net - {m})
  }

  predicate Allowed(s: Sys, steps: seq<Step>)
    decreases |steps|
  {
    steps == [] || (Enabled(s, steps[0]) && Allowed(Apply(s, steps[0]), steps[1..]))
  }

  function Run(s: Sys, steps: seq<Step>): Sys
    decreases |steps|
  {
    if steps == [] then s else Run(Apply(s, steps[0]), steps[1..])
  }

  function Initial(txWindow: u8, rxWindow: u8, maxRetry: u8): Sys {
    Sys(Tx(Window.State(0, 0, Window.Falses(txWindow)), [], maxRetry),
        Rx(false, 0, [], rxWindow), {}, [], [], {})
  }

  // ---- The joint invariant ----

  ghost function HeldSet(rx: Rx): iset<u32> {
    iset pn: u32 | Held(rx, pn)
  }

  ghost predicate RxInv(rx: Rx, committed: seq<Bytes>, delivered: seq<Bytes>) {
    && BufferInv(rx)
    && Consistent(rx, committed)
    && delivered == committed[..rx.next]
  }

  ghost predicate MsgOk(m: Msg, rx: Rx, committed: seq<Bytes>) {
    Faithful(m, committed) || Honest(m, rx)
  }

  ghost predicate NetInv(net: set<Msg>, rx: Rx, committed: seq<Bytes>) {
    forall m :: m in net ==> MsgOk(m, rx, committed)
  }

  ghost predicate Inv(s: Sys) {
    && TxInv(s.tx, s.committed, s.abandoned, HeldSet(s.rx))
    && RxInv(s.rx, s.committed, s.delivered)
    && NetInv(s.net, s.rx, s.committed)
  }

  lemma InitialInv(txWindow: u8, rxWindow: u8, maxRetry: u8)
    requires 1 <= txWindow <= 128
    ensures Inv(Initial(txWindow, rxWindow, maxRetry))
  {
  }

  lemma NetStep(s: Sys, ms: seq<Msg>, rx: Rx, committed: seq<Bytes>)
    requires NetInv(s.net, s.rx, s.committed)
    requires Grows(s.rx, rx) && s.committed <= committed
    requires forall m :: m in ms ==> MsgOk(m, rx, committed)
    ensures NetInv(Emit(s.net, ms), rx, committed)
  {
    forall m | m in s.net ensures MsgOk(m, rx, committed) {
      if Honest(m, s.rx) { HonestGrows(m, s.rx, rx); }
    }
  }

  lemma TxStep(s: Sys, r: TxOut, abandoned: set<u32>)
    requires Inv(s) && Keeps(r, s.committed, abandoned, HeldSet(s.rx))
    ensures Inv(AfterTx(s, r).(abandoned := abandoned))
  {
    NetStep(s, r.sent, s.rx, s.committed);
  }

  lemma SendStep(s: Sys, i: SendInput)
    requires Inv(s) && Enabled(s, SendData(i))
    ensures Inv(Apply(s, SendData(i)))
  {
    var r := Send(s.tx, i);
    if r.status.Ok? {
      SendKeeps(s.tx, i, s.committed, s.abandoned, HeldSet(s.rx));
      NetStep(s, r.sent, s.rx, s.committed + [i.data]);
    } else {
      assert r == TxOut(s.tx, [], r.status);
      TxStep(s, r, s.abandoned);
    }
  }

  lemma HeldGrows(tx: Tx, committed: seq<Bytes>, abandoned: set<u32>, rx: Rx, rx': Rx)
    requires TxInv(tx, committed, abandoned, HeldSet(rx)) && Grows(rx, rx')
    ensures TxInv(tx, committed, abandoned, HeldSet(rx'))
  {
  }

  lemma RxStep(rx: Rx, r: RxOut, committed: seq<Bytes>, delivered: seq<Bytes>)
    requires RxInv(rx, committed, delivered) && BufferInv(r.rx) && Sound(rx, r, committed)
    ensures RxInv(r.rx, committed, delivered + r.delivered)
    ensures Grows(rx, r.rx) && forall m :: m in r.replies ==> MsgOk(m, r.rx, committed)
  {
    assert delivered + r.delivered == committed[..r.rx.next];
  }

  lemma DataStep(s: Sys, pn: u32, data: Bytes, allocOk: bool)
    requires Inv(s) && Enabled(s, DataArrives(pn, data, allocOk))
    ensures Inv(Apply(s, DataArrives(pn, data, allocOk)))
  {
    assert MsgOk(Data(pn, data), s.rx, s.committed);
    var r := Receive(s.rx, pn, data, allocOk, {});
    ReceiveKeepsBuffer(s.rx, pn, data, allocOk, {});
    ReceiveHolds(s.rx, pn, data, allocOk, s.committed);
    hide TxInv, NetInv, BufferInv, Sound, Receive, MsgOk, Grows, Held;
    RxStep(s.rx, r, s.committed, s.delivered);
    HeldGrows(s.tx, s.committed, s.abandoned, s.rx, r.rx);
    NetStep(s, r.replies, r.rx, s.committed);
  }

  lemma AckStep(s: Sys, largest: u32, ranges: seq<AckRange>)
    requires Inv(s) && Enabled(s, AckArrives(largest, ranges))
    ensures Inv(Apply(s, AckArrives(largest, ranges)))
  {
    assert MsgOk(Ack(largest, ranges), s.rx, s.committed);
    OnAckKeeps(s.tx, largest, s.committed, s.abandoned, HeldSet(s.rx));
    TxStep(s, OnAck(s.tx, largest, ranges), s.abandoned);
  }

  lemma SackStep(s: Sys, base: u32, bitmap: Bytes, now: u32, fails: set<u32>)
    requires Inv(s) && Enabled(s, SackArrives(base, bitmap, now, fails))
    ensures Inv(Apply(s, SackArrives(base, bitmap, now, fails)))
  {
    assert MsgOk(SackMsg(base, bitmap), s.rx, s.committed);
    assert HonestBits(base, bitmap, s.rx);
    assert BitsHeld(base, bitmap, HeldSet(s.rx));
    OnSackKeeps(s.tx, base, bitmap, now, fails, s.committed, s.abandoned, HeldSet(s.rx));
    TxStep(s, OnSack(s.tx, base, bitmap, now, fails), s.abandoned);
  }

  lemma TimerStep(s: Sys, now: u32, fails: set<u32>)
    requires Inv(s)
    ensures Inv(Apply(s, TimerFires(now, fails)))
  {
    TickKeepsTx(s.tx, now, fails, s.committed, s.abandoned, HeldSet(s.rx));
    TxStep(s, Tick(s.tx, now, fails), s.abandoned + Abandons(s.tx, now));
  }

  /** Every step keeps the joint invariant. */
  lemma StepKeepsInv(s: Sys, step: Step)
    requires Inv(s) && Enabled(s, step)
    ensures Inv(Apply(s, step))
  {
    match step
    case SendData(i) => SendStep(s, i);
    case DataArrives(pn, data, allocOk) => DataStep(s, pn, data, allocOk);
    case AckArrives(largest, ranges) => AckStep(s, largest, ranges);
    case SackArrives(base, bitmap, now, fails) => SackStep(s, base, bitmap, now, fails);
    case TimerFires(now, fails) => TimerStep(s, now, fails);
    case Lose(m) =>
  }

  lemma {:induction false} RunKeepsInv(s: Sys, steps: seq<Step>)
    requires Inv(s) && Allowed(s, steps)
    ensures Inv(Run(s, steps))
    decreases |steps|
  {
    if steps != [] {
      StepKeepsInv(s, steps[0]);
      RunKeepsInv(Apply(s, steps[0]), steps[1..]);
    }
  }

  // ---- Main results ----

  /**
   * Exactly-once, in-order delivery over every run: the payloads handed to the
   * application are the first `rx.next` committed payloads, in number order.
   */
  lemma DeliveryIsPrefix(txWindow: u8, rxWindow: u8, maxRetry: u8, steps: seq<Step>)
    requires 1 <= txWindow <= 128
    requires Allowed(Initial(txWindow, rxWindow, maxRetry), steps)
    ensures var s := Run(Initial(txWindow, rxWindow, maxRetry), steps);
      s.delivered <= s.committed && |s.delivered| == s.rx.next
  {
    InitialInv(txWindow, rxWindow, maxRetry);
    RunKeepsInv(Initial(txWindow, rxWindow, maxRetry), steps);
  }

  /** The window never runs ahead of the receiver, nor the sender ahead of its window. */
  lemma WindowBounds(s: Sys)
    requires Inv(s)
    ensures s.tx.win.base <= s.rx.next <= s.tx.win.next <= s.tx.win.base + |s.tx.win.acks|
  {
    assert Window.Acked(s.tx.win, s.rx.next) ==> s.rx.next in HeldSet(s.rx);
  }

  /**
   * The packet the receiver is waiting for is still queued with its original
   * bytes, unless the sender gave it up.
   */
  lemma AwaitedIsQueued(s: Sys)
    requires Inv(s) && s.rx.next < s.tx.win.next && s.rx.next !in s.abandoned
    ensures Has(s.tx.queue, s.rx.next)
    ensures Lookup(s.tx.queue, s.rx.next).data == s.committed[s.rx.next]
  {
    assert OneFate(s.tx, s.abandoned, s.rx.next);
    assert Window.Acked(s.tx.win, s.rx.next) ==> s.rx.next in HeldSet(s.rx);
  }

  /**
   * Over every run each committed number is in the queue with its original
   * bytes, or given up, or held by the receiver as delivered or buffered data.
   */
  lemma NothingIsLost(txWindow: u8, rxWindow: u8, maxRetry: u8, steps: seq<Step>, pn: u32)
    requires 1 <= txWindow <= 128
    requires Allowed(Initial(txWindow, rxWindow, maxRetry), steps)
    requires pn < |Run(Initial(txWindow, rxWindow, maxRetry), steps).committed|
    ensures var s := Run(Initial(txWindow, rxWindow, maxRetry), steps);
      !Has(s.tx.queue, pn) && pn !in s.abandoned ==>
        (pn < |s.delivered| && s.delivered[pn] == s.committed[pn]) || Cached(pn, s.committed[pn]) in s.rx.buf
    ensures var s := Run(Initial(txWindow, rxWindow, maxRetry), steps);
      Has(s.tx.queue, pn) ==> Lookup(s.tx.queue, pn).data == s.committed[pn] && pn !in s.abandoned
  {
    InitialInv(txWindow, rxWindow, maxRetry);
    RunKeepsInv(Initial(txWindow, rxWindow, maxRetry), steps);
    Accounted(Run(Initial(txWindow, rxWindow, maxRetry), steps), pn);
  }

  lemma Accounted(s: Sys, pn: u32)
    requires Inv(s) && pn < |s.committed|
    ensures !Has(s.tx.queue, pn) && pn !in s.abandoned ==>
      (pn < |s.delivered| && s.delivered[pn] == s.committed[pn]) || Cached(pn, s.committed[pn]) in s.rx.buf
    ensures Has(s.tx.queue, pn) ==> Lookup(s.tx.queue, pn).data == s.committed[pn] && pn !in s.abandoned
  {
    assert OneFate(s.tx, s.abandoned, pn);
    if Window.Acked(s.tx.win, pn) {
      assert pn in HeldSet(s.rx);
      if pn >= s.rx.next {
        BufferedIff(s.rx.buf, pn);
        var c :| c in s.rx.buf && c.pn == pn;
        assert c == Cached(pn, s.committed[pn]);
      }
    }
  }

  /** An empty queue with nothing given up means everything was delivered. */
  lemma EmptyQueueMeansDelivered(s: Sys)
    requires Inv(s) && s.tx.queue == [] && s.abandoned == {}
    ensures s.delivered == s.committed
  {
    WindowBounds(s);
    if s.rx.next < s.tx.win.next {
      AwaitedIsQueued(s);
    }
  }

  /**
   * A given-up packet leaves the queue but never moves the window base, so the
   * session can commit at most a window's worth of numbers from it on.
   */
  lemma AbandonedBlocksWindow(s: Sys, pn: u32)
    requires Inv(s) && pn in s.abandoned
    ensures s.tx.win.base <= pn && s.tx.win.next <= pn + |s.tx.win.acks| && s.rx.next <= pn + |s.tx.win.acks|
  {
    assert OneFate(s.tx, s.abandoned, pn);
    WindowBounds(s);
  }

  lemma SackFromKeepsSize(tx: Tx, base: u32, bitmap: Bytes, i: nat, last: nat, now: u32, fails: set<u32>)
    ensures |SackFrom(tx, base, bitmap, i, last, now, fails).tx.win.acks| == |tx.win.acks|
    decreases last + 1 - i
  {
  }

  lemma StepKeepsAbandoned(s: Sys, step: Step)
    ensures s.abandoned <= Apply(s, step).abandoned
    ensures |Apply(s, step).tx.win.acks| == |s.tx.win.acks|
  {
    if step.SackArrives? && Sack.HighestBit(step.bitmap).Some? {
      SackFromKeepsSize(s.tx, step.base, step.bitmap, 0, Sack.HighestBit(step.bitmap).value, step.now, step.fails);
    }
  }

  /** Once a packet is given up, no continuation of the run gets past its window. */
  lemma {:induction false} AbandonedStallsForever(s: Sys, steps: seq<Step>, pn: u32)
    requires Inv(s) && Allowed(s, steps) && pn in s.abandoned
    ensures Run(s, steps).tx.win.next <= pn + |s.tx.win.acks|
    ensures |Run(s, steps).delivered| <= pn + |s.tx.win.acks|
    decreases |steps|
  {
    if steps == [] {
      AbandonedBlocksWindow(s, pn);
    } else {
      StepKeepsInv(s, steps[0]);
      StepKeepsAbandoned(s, steps[0]);
      AbandonedStallsForever(Apply(s, steps[0]), steps[1..], pn);
    }
  }

  /** A receive window at least as large as the sender's is never found full. */
  lemma NeverWindowFull(s: Sys, pn: u32, data: Bytes, allocOk: bool)
    requires Inv(s) && Data(pn, data) in s.net && |s.tx.win.acks| <= WindowOf(s.rx)
    ensures !Receive(s.rx, pn, data, allocOk, {}).status.WindowFull?
  {
    assert MsgOk(Data(pn, data), s.rx, s.committed);
    WindowBounds(s);
    BufferNeverCountFull(s.rx);
    ReceiveStatus(s.rx, pn, data, allocOk);
  }

  lemma {:induction false} DrainStatus(rx: Rx)
    ensures Drain(rx, {}).status.Ok?
    decreases |rx.buf|
  {
    if Buffered(rx.buf, rx.next) {
      var i := Position(rx.buf, rx.next);
      DrainStatus(rx.(buf := RemoveAt(rx.buf, i), next := Add32(rx.next, 1)));
    }
  }

  lemma ReceiveStatus(rx: Rx, pn: u32, data: Bytes, allocOk: bool)
    requires BufferInv(rx)
    ensures Receive(rx, pn, data, allocOk, {}).status.WindowFull? ==>
              pn > rx.next && (pn - rx.next >= WindowOf(rx) || |rx.buf| >= WindowOf(rx))
  {
    hide Sack.Build, Insert;
    var s := Start(rx);
    if pn == s.next {
      DrainStatus(s.(next := Add32(pn, 1)));
    }
  }

  /**
   * Nothing is permanently stuck while retries last: when the awaited packet's
   * timeout fires, its retransmission makes the receiver deliver more.
   */
  lemma RetransmissionMakesProgress(s: Sys, now: u32, fails: set<u32>, allocOk: bool)
    requires Inv(s) && s.rx.next < s.tx.win.next && s.rx.next !in s.abandoned
    requires Has(s.tx.queue, s.rx.next) ==>
               Retry.Resends(Lookup(s.tx.queue, s.rx.next), now, s.tx.maxRetry, fails)
    ensures var data := s.committed[s.rx.next];
      var t := Apply(s, TimerFires(now, fails));
      && Enabled(t, DataArrives(s.rx.next, data, allocOk))
      && |Apply(t, DataArrives(s.rx.next, data, allocOk)).delivered| > |s.delivered|
  {
    AwaitedIsQueued(s);
    var e := Lookup(s.tx.queue, s.rx.next);
    var rs := Retry.TickResent(s.tx.queue, now, s.tx.maxRetry, fails);
    assert e in rs;
    var i :| 0 <= i < |rs| && rs[i] == e;
    assert DataOf(rs)[i] == Data(e.pn, e.data);
  }
}
