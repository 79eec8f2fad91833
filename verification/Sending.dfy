/**
 * What one send does, case by case, and how many sends a fresh window takes.
 */
module Sending {
  import opened Base
  import opened Reliable
  import opened Sender
  import opened SenderInv
  import Protocol
  import Window

  /** The one packet a successful send adds: the next number, the caller's bytes, no retries, stamped now. */
  predicate Queued(before: Queue, after: Queue, pn: u32, i: SendInput) {
    && |after| == |before| + 1 && after[..|before|] == before
    && var e := after[|before|];
       e.pn == pn && e.data == i.data && e.retries == 0 && e.sentAt == i.now && e.timeout == i.timeout && e.initial == i.timeout
  }

  /**
   * In every state of the protocol a send is committed exactly when it has bytes,
   * the window has a slot left, there is memory and the lower layer takes it; then
   * one packet goes out and is queued under the next number. Any refusal says which
   * of these failed first, and leaves everything as it was.
   */
  lemma SendAnswer(s: Protocol.Sys, i: SendInput)
    requires Protocol.Inv(s) && s.tx.win.next < TWO_32 - 1
    ensures var r := Send(s.tx, i);
      && r.status == (if |i.data| == 0 then InvalidParam
                      else if s.tx.win.next >= s.tx.win.base + |s.tx.win.acks| then WindowFull
                      else if !i.allocOk then NoMemory
                      else if !i.sendOk then TxFailed else Ok)
      && (r.status != Ok ==> r.tx == s.tx && r.sent == [])
      && (r.status == Ok ==>
            && r.sent == [Data(s.tx.win.next, i.data)] && Queued(s.tx.queue, r.tx.queue, s.tx.win.next, i)
            && r.tx.win.next == s.tx.win.next + 1 && r.tx.win.base == s.tx.win.base
            && r.tx.win.acks == s.tx.win.acks && r.tx.maxRetry == s.tx.maxRetry)
  {
    var w := s.tx.win;
    assert Shape(s.tx, s.committed);
    assert Sub32(w.next, w.base) == w.next - w.base;
  }

  predicate Good(i: SendInput) {
    i.data != [] && i.allocOk && i.sendOk
  }

  function SendAll(tx: Tx, inputs: seq<SendInput>): Tx {
    if inputs == [] then tx else Send(SendAll(tx, inputs[..|inputs| - 1]), inputs[|inputs| - 1]).tx
  }

  /** A fresh sender's state after `n` good sends in a row. */
  ghost predicate Sent(tx: Tx, size: u8, inputs: seq<SendInput>) {
    && tx.win.base == 0 && tx.win.next == |inputs| && |tx.win.acks| == size && |tx.queue| == |inputs|
    && forall k :: 0 <= k < |inputs| ==> tx.queue[k].pn == k && tx.queue[k].data == inputs[k].data
  }

  /** From a fresh window of `size` slots exactly `size` good sends in a row are committed, and the next finds it full. */
  lemma {:induction false} FreshWindowFills(size: u8, maxRetry: u8, inputs: seq<SendInput>, one: SendInput)
    requires 1 <= size <= 128 && |inputs| <= size && Good(one) && forall k :: 0 <= k < |inputs| ==> Good(inputs[k])
    ensures var tx := SendAll(Tx(Window.State(0, 0, Window.Falses(size)), [], maxRetry), inputs);
      && Sent(tx, size, inputs)
      && Send(tx, one).status == (if |inputs| < size then Ok else WindowFull)
  {
    hide Sent, Good, Send;
    var tx := SendAll(Tx(Window.State(0, 0, Window.Falses(size)), [], maxRetry), inputs);
    if inputs == [] {
      FreshSent(size, maxRetry);
    } else {
      var n := |inputs| - 1;
      FreshWindowFills(size, maxRetry, inputs[..n], inputs[n]);
      OneSent(SendAll(Tx(Window.State(0, 0, Window.Falses(size)), [], maxRetry), inputs[..n]), size, inputs[..n], inputs[n]);
      assert inputs[..n] + [inputs[n]] == inputs;
    }
    OneSent(tx, size, inputs, one);
  }

  lemma FreshSent(size: u8, maxRetry: u8)
    ensures Sent(Tx(Window.State(0, 0, Window.Falses(size)), [], maxRetry), size, [])
  {
  }

  lemma OneSent(tx: Tx, size: u8, inputs: seq<SendInput>, i: SendInput)
    requires 1 <= size <= 128 && |inputs| <= size && Sent(tx, size, inputs) && Good(i)
    ensures Send(tx, i).status == (if |inputs| < size then Ok else WindowFull)
    ensures |inputs| < size ==> Sent(Send(tx, i).tx, size, inputs + [i])
  {
    assert Sub32(tx.win.next, tx.win.base) == |inputs|;
  }
}
