/**
 * What one arriving packet does, case by case and in terms of numbers and bytes
 * alone, and what a window of packets does in whatever order it arrives.
 */
module Arrival {
  import opened Base
  import opened AckRanges
  import opened Sender
  import Assumptions
  import opened Receiver
  import Sack

  /** The ACK of one packet as it is sent: a single range of one number, without a gap. */
  predicate IsAckOf(m: Msg, pn: u32) {
    m == Ack(pn, [AckRange(0, 1)])
  }

  ghost predicate HasNumber(buf: Buffer, pn: u32) {
    exists c :: c in buf && c.pn == pn
  }

  /** An early packet worth keeping: some bytes, inside the window, and not there yet. */
  ghost predicate Welcome(rx: Rx, pn: u32, data: Bytes) {
    |data| > 0 && pn - rx.next < (if rx.window == 0 then 1 else rx.window) && !HasNumber(rx.buf, pn)
  }

  /** One SACK for `base`, whose bits name exactly the buffered numbers within 64 of it, as short as it can be. */
  ghost predicate IsSackOf(m: Msg, base: u32, buf: Buffer) {
    && m.SackMsg? && m.base == base && 1 <= |m.bitmap| <= 8 && (|m.bitmap| == 1 || m.bitmap[|m.bitmap| - 1] != 0)
    && forall k: nat :: Sack.BitIsSet(m.bitmap, k) <==> k < 64 && base + k < TWO_32 && HasNumber(buf, base + k)
  }

  lemma BuiltIsSack(base: u32, buf: Buffer)
    ensures IsSackOf(SackMsg(base, Sack.Build(base, Numbers(buf))), base, buf)
  {
    hide Sack.BitIsSet, Sack.Build, HasNumber, Numbers;
    var bitmap := Sack.Build(base, Numbers(buf));
    Sack.BuildNames(base, Numbers(buf), 0);
    Sack.BuildIsShort(base, Numbers(buf));
    forall k: nat ensures Sack.BitIsSet(bitmap, k) <==> k < 64 && base + k < TWO_32 && HasNumber(buf, base + k) {
      Sack.BuildNames(base, Numbers(buf), k);
      NumbersHave(buf, base + k);
    }
  }

  /** What is kept of an early packet, and the status it gets. */
  ghost predicate Keeps(rx: Rx, pn: u32, data: Bytes, allocOk: bool, after: Rx, status: Status)
    requires pn > rx.next
  {
    && after.next == rx.next && after.started == rx.started && after.window == rx.window
    && (forall c :: c in after.buf <==> c in rx.buf || (c == Cached(pn, data) && allocOk && Welcome(rx, pn, data)))
    && status == (if |data| == 0 then InvalidParam
                  else if pn - rx.next >= (if rx.window == 0 then 1 else rx.window) then WindowFull
                  else if HasNumber(rx.buf, pn) then Ok
                  else if !allocOk then NoMemory else Ok)
  }

  lemma CacheCases(rx: Rx, pn: u32, data: Bytes, allocOk: bool)
    requires BufferInv(rx) && pn > rx.next
    ensures Keeps(rx, pn, data, allocOk, Cache(rx, pn, data, allocOk).0, Cache(rx, pn, data, allocOk).1)
  {
    BufferNeverCountFull(rx);
    BufferedIff(rx.buf, pn);
    if !Buffered(rx.buf, pn) {
      InsertSorted(rx.buf, Cached(pn, data));
    }
    hide Buffered, Insert, Sorted, Within, BufferInv, HasNumber;
    assert Sub32(pn, rx.next) == pn - rx.next;
  }

  lemma EarlyIs(rx: Rx, pn: u32, data: Bytes, allocOk: bool, fails: set<u32>)
    requires rx.started && pn > rx.next
    ensures var c := Cache(rx, pn, data, allocOk);
      Receive(rx, pn, data, allocOk, fails) == RxOut(c.0, [SackMsg(rx.next, Sack.Build(rx.next, Numbers(c.0.buf)))], [], c.1)
  {
    hide Cache, Sack.Build, Numbers, Drain;
  }

  /**
   * A packet beyond the expected one: nothing is delivered; it is kept exactly if
   * it is worth keeping and there is memory, and nothing else changes; the answer
   * is one SACK for the expected number whose bits name what is kept.
   */
  lemma EarlyAnswer(rx: Rx, pn: u32, data: Bytes, allocOk: bool, fails: set<u32>)
    requires BufferInv(rx) && rx.started && pn > rx.next
    ensures var r := Receive(rx, pn, data, allocOk, fails);
      && Keeps(rx, pn, data, allocOk, r.rx, r.status) && r.delivered == []
      && |r.replies| == 1 && IsSackOf(r.replies[0], rx.next, r.rx.buf)
  {
    hide Cache, BufferInv, Receive, Keeps, IsSackOf, Sack.Build;
    CacheCases(rx, pn, data, allocOk);
    EarlyIs(rx, pn, data, allocOk, fails);
    BuiltIsSack(rx.next, Cache(rx, pn, data, allocOk).0.buf);
  }

  lemma NumbersHave(buf: Buffer, pn: nat)
    ensures pn in Numbers(buf) <==> pn < TWO_32 && HasNumber(buf, pn)
  {
    if pn in Numbers(buf) {
      var i :| 0 <= i < |buf| && Numbers(buf)[i] == pn;
      assert buf[i] in buf;
    }
    if pn < TWO_32 && HasNumber(buf, pn) {
      var c :| c in buf && c.pn == pn;
      var i :| 0 <= i < |buf| && buf[i] == c;
      assert Numbers(buf)[i] == pn;
    }
  }

  /** A packet before the expected one is acknowledged again and leaves everything as it is. */
  lemma OldAnswer(rx: Rx, pn: u32, data: Bytes, allocOk: bool, fails: set<u32>)
    requires rx.started && pn < rx.next
    ensures var r := Receive(rx, pn, data, allocOk, fails);
      r.rx == rx && r.delivered == [] && r.status == Ok && |r.replies| == 1 && IsAckOf(r.replies[0], pn)
  {
  }

  /** A receiver that has seen nothing waits for number 0. */
  lemma FirstAnswer(rx: Rx, pn: u32, data: Bytes, allocOk: bool, fails: set<u32>)
    requires !rx.started
    ensures Receive(rx, pn, data, allocOk, fails) == Receive(rx.(started := true, next := 0), pn, data, allocOk, fails)
  {
    hide Cache, Drain;
  }

  /** The `k` numbers behind the expected one are buffered, and the one after them is not. */
  ghost predicate RunBehind(rx: Rx, k: nat) {
    && rx.next + k < TWO_32
    && (forall p: u32 :: rx.next < p <= rx.next + k ==> HasNumber(rx.buf, p))
    && (rx.next + k + 1 < TWO_32 ==> !HasNumber(rx.buf, rx.next + k + 1))
  }

  ghost predicate BufferedAt(buf: Buffer, pn: int, data: Bytes) {
    0 <= pn < TWO_32 && Cached(pn, data) in buf
  }

  /**
   * The expected packet: its bytes are delivered, then those of the whole gapless
   * run behind it, each number acknowledged once and in order; the rest stays.
   */
  ghost predicate Advances(rx: Rx, data: Bytes, k: nat, r: RxOut) {
    && r.status == Ok && r.rx.next == rx.next + k + 1 && r.rx.started && r.rx.window == rx.window
    && |r.delivered| == k + 1 && r.delivered[0] == data
    && (forall i :: 1 <= i <= k ==> BufferedAt(rx.buf, rx.next + i, r.delivered[i]))
    && |r.replies| == k + 1 && (forall i :: 0 <= i <= k ==> rx.next + i < TWO_32 && IsAckOf(r.replies[i], rx.next + i))
    && (forall c :: c in r.rx.buf <==> c in rx.buf && c.pn > rx.next + k)
  }

  lemma ExpectedIs(rx: Rx, data: Bytes, allocOk: bool)
    requires rx.started && Sorted(rx.buf) && Within(rx.buf, rx.next + 1, TWO_32 - 1) && rx.next < TWO_32 - 1
    ensures var k := RunLength(rx.buf, rx.next + 1);
      Receive(rx, rx.next, data, allocOk, {}) ==
        RxOut(rx.(next := Add32(rx.next + 1, k), buf := rx.buf[k..]), [AckFor(rx.next)] + Acks(rx.buf[..k]), [data] + Payloads(rx.buf[..k]), Ok)
  {
    var mid := rx.(next := rx.next + 1);
    MidDrains(mid);
    ReceivesNext(rx, data, allocOk);
    hide Drain, AckFor, Sorted, Within, RunLength, Acks, Payloads, Receive, Add32;
  }

  lemma MidDrains(mid: Rx)
    requires Sorted(mid.buf) && Within(mid.buf, mid.next, TWO_32 - 1)
    ensures var k := RunLength(mid.buf, mid.next);
      Drain(mid, {}) == RxOut(mid.(next := Add32(mid.next, k), buf := mid.buf[k..]), Acks(mid.buf[..k]), Payloads(mid.buf[..k]), Ok)
  {
    DrainDeliversRun(mid, {});
    hide Drain, Sorted, RunLength, Acks, Payloads, Add32;
  }

  lemma ReceivesNext(rx: Rx, data: Bytes, allocOk: bool)
    requires rx.started && rx.next < TWO_32 - 1
    ensures var r := Drain(rx.(next := rx.next + 1), {});
      Receive(rx, rx.next, data, allocOk, {}) == RxOut(r.rx, [AckFor(rx.next)] + r.replies, [data] + r.delivered, r.status)
  {
    assert Add32(rx.next, 1) == rx.next + 1;
    hide Drain, AckFor, Cache, Sack.Build;
  }

  lemma ExpectedAnswer(rx: Rx, data: Bytes, allocOk: bool) returns (k: nat)
    requires BufferInv(rx) && rx.started && Within(rx.buf, rx.next + 1, TWO_32 - 1) && rx.next < TWO_32 - 1
    ensures RunBehind(rx, k) && Advances(rx, data, k, Receive(rx, rx.next, data, allocOk, {}))
  {
    hide *;
    k := RunLength(rx.buf, rx.next + 1);
    InvParts(rx);
    ExpectedIs(rx, data, allocOk);
    RunIsBehind(rx, k);
    RunFits(rx, k);
    RestIsAbove(rx, k);
    OutAdvances(rx, data, k);
  }

  lemma InvParts(rx: Rx)
    requires BufferInv(rx)
    ensures Sorted(rx.buf)
  {
  }

  lemma OutAdvances(rx: Rx, data: Bytes, k: nat)
    requires k <= |rx.buf| && rx.started && rx.next + k + 1 < TWO_32
    requires forall i :: 0 <= i < k ==> rx.buf[i].pn == rx.next + 1 + i && rx.buf[i] in rx.buf
    requires forall c :: c in rx.buf[k..] <==> c in rx.buf && c.pn > rx.next + k
    ensures Advances(rx, data, k,
      RxOut(rx.(next := Add32(rx.next + 1, k), buf := rx.buf[k..]), [AckFor(rx.next)] + Acks(rx.buf[..k]), [data] + Payloads(rx.buf[..k]), Ok))
  {
    PayloadsRun(rx, data, k);
    RepliesRun(rx, k);
    assert Add32(rx.next + 1, k) == rx.next + 1 + k;
    var d, a := Payloads(rx.buf[..k]), Acks(rx.buf[..k]);
    hide BufferedAt, IsAckOf, Payloads, Acks, AckFor, Add32;
    AdvancesParts(rx, data, k, d, a, rx.buf[k..]);
  }

  lemma AdvancesParts(rx: Rx, data: Bytes, k: nat, d: seq<Bytes>, a: seq<Msg>, rest: Buffer)
    requires rx.started && rx.next + k + 1 < TWO_32 && |d| == k && |a| == k
    requires forall i :: 1 <= i <= k ==> BufferedAt(rx.buf, rx.next + i, ([data] + d)[i])
    requires forall i :: 0 <= i <= k ==> rx.next + i < TWO_32 && IsAckOf(([AckFor(rx.next)] + a)[i], rx.next + i)
    requires forall c :: c in rest <==> c in rx.buf && c.pn > rx.next + k
    ensures Advances(rx, data, k, RxOut(rx.(next := rx.next + k + 1, buf := rest), [AckFor(rx.next)] + a, [data] + d, Ok))
  {
    hide BufferedAt, IsAckOf, AckFor;
  }

  lemma PayloadsRun(rx: Rx, data: Bytes, k: nat)
    requires k <= |rx.buf| && rx.next + k + 1 < TWO_32
    requires forall i :: 0 <= i < k ==> rx.buf[i].pn == rx.next + 1 + i && rx.buf[i] in rx.buf
    ensures |Payloads(rx.buf[..k])| == k
    ensures forall i :: 1 <= i <= k ==> BufferedAt(rx.buf, rx.next + i, ([data] + Payloads(rx.buf[..k]))[i])
  {
    var delivered := [data] + Payloads(rx.buf[..k]);
    forall i | 1 <= i <= k ensures BufferedAt(rx.buf, rx.next + i, delivered[i]) {
      assert delivered[i] == rx.buf[i - 1].data && rx.buf[i - 1] == Cached(rx.next + i, delivered[i]);
    }
  }

  lemma RepliesRun(rx: Rx, k: nat)
    requires k <= |rx.buf| && rx.next + k + 1 < TWO_32
    requires forall i :: 0 <= i < k ==> rx.buf[i].pn == rx.next + 1 + i && rx.buf[i] in rx.buf
    ensures |Acks(rx.buf[..k])| == k
    ensures forall i :: 0 <= i <= k ==> rx.next + i < TWO_32 && IsAckOf(([AckFor(rx.next)] + Acks(rx.buf[..k]))[i], rx.next + i)
  {
    var replies := [AckFor(rx.next)] + Acks(rx.buf[..k]);
    forall i | 0 <= i <= k ensures IsAckOf(replies[i], rx.next + i) {
      assert i > 0 ==> replies[i] == AckFor(rx.buf[i - 1].pn);
    }
  }

  lemma RunFits(rx: Rx, k: nat)
    requires Within(rx.buf, rx.next + 1, TWO_32 - 1) && k == RunLength(rx.buf, rx.next + 1) && rx.next < TWO_32 - 1
    ensures rx.next + k + 1 < TWO_32
    ensures forall i :: 0 <= i < k ==> rx.buf[i].pn == rx.next + 1 + i && rx.buf[i] in rx.buf
  {
    if k > 0 {
      assert rx.buf[k - 1] in rx.buf;
    }
  }

  lemma RunIsBehind(rx: Rx, k: nat)
    requires Sorted(rx.buf) && Within(rx.buf, rx.next + 1, TWO_32 - 1) && k == RunLength(rx.buf, rx.next + 1) && rx.next < TWO_32 - 1
    ensures RunBehind(rx, k)
  {
    RunFits(rx, k);
    forall p: u32 | rx.next < p <= rx.next + k ensures HasNumber(rx.buf, p) {
      assert rx.buf[p - rx.next - 1] in rx.buf;
    }
    NoneAfterRun(rx, k);
  }

  lemma NoneAfterRun(rx: Rx, k: nat)
    requires Sorted(rx.buf) && Within(rx.buf, rx.next + 1, TWO_32 - 1) && rx.next < TWO_32 - 1 && k == RunLength(rx.buf, rx.next + 1) && rx.next + k + 1 < TWO_32
    ensures !HasNumber(rx.buf, rx.next + k + 1)
  {
    NumbersAround(rx, k);
    forall i | 0 <= i < |rx.buf| ensures rx.buf[i].pn != rx.next + k + 1 {
      assert k < |rx.buf| ==> rx.buf[k].pn != rx.next + 1 + k && rx.buf[k].pn > rx.next + k;
      assert i > k ==> rx.buf[k].pn < rx.buf[i].pn;
    }
  }

  lemma RestIsAbove(rx: Rx, k: nat)
    requires Sorted(rx.buf) && Within(rx.buf, rx.next + 1, TWO_32 - 1) && k == RunLength(rx.buf, rx.next + 1) && rx.next < TWO_32 - 1
    ensures forall c :: c in rx.buf[k..] <==> c in rx.buf && c.pn > rx.next + k
  {
    RunFits(rx, k);
    NumbersAround(rx, k);
    hide Sorted, Within, RunLength;
    TailMembers(rx.buf, k, rx.next + k);
  }

  lemma TailMembers(buf: Buffer, k: nat, bound: int)
    requires k <= |buf| && forall i :: 0 <= i < |buf| ==> (i < k <==> buf[i].pn <= bound)
    ensures forall c :: c in buf[k..] <==> c in buf && c.pn > bound
  {
    forall c | c in buf && c.pn > bound ensures c in buf[k..] {
      var i :| 0 <= i < |buf| && buf[i] == c;
      assert buf[k..][i - k] == c;
    }
    forall c | c in buf[k..] ensures c in buf && c.pn > bound {
      var i :| 0 <= i < |buf| - k && buf[k..][i] == c;
      assert buf[k + i] == c;
    }
  }

  lemma NumbersAround(rx: Rx, k: nat)
    requires Sorted(rx.buf) && Within(rx.buf, rx.next + 1, TWO_32 - 1) && k == RunLength(rx.buf, rx.next + 1) && rx.next < TWO_32 - 1
    ensures forall i :: 0 <= i < |rx.buf| ==> (i < k <==> rx.buf[i].pn <= rx.next + k)
  {
    RunFits(rx, k);
    forall i | k <= i < |rx.buf| ensures rx.buf[i].pn > rx.next + k {
      assert rx.buf[i] in rx.buf;
      if k > 0 {
        assert rx.buf[k - 1].pn == rx.next + k && rx.buf[k - 1].pn < rx.buf[i].pn;
      }
    }
  }

  /** A delivery the application refuses: the ACK is out, the packet is gone, nothing else happened. */
  lemma RefusedAnswer(rx: Rx, data: Bytes, allocOk: bool, fails: set<u32>)
    requires rx.started && rx.next in fails
    ensures var r := Receive(rx, rx.next, data, allocOk, fails);
      r.rx == rx && r.delivered == [] && r.status == InvalidFrame && |r.replies| == 1 && IsAckOf(r.replies[0], rx.next)
  {
  }

  /** The first `j` of a run are delivered, the next is acknowledged and lost, and that number is still expected. */
  ghost predicate StopsAt(rx: Rx, data: Bytes, j: nat, r: RxOut) {
    && r.status == InvalidFrame && r.rx.next == rx.next + j && r.rx.started && r.rx.window == rx.window
    && |r.delivered| == j && (j > 0 ==> r.delivered[0] == data)
    && (forall i :: 1 <= i < j ==> BufferedAt(rx.buf, rx.next + i, r.delivered[i]))
    && |r.replies| == j + 1 && (forall i :: 0 <= i <= j ==> rx.next + i < TWO_32 && IsAckOf(r.replies[i], rx.next + i))
    && (forall c :: c in r.rx.buf <==> c in rx.buf && c.pn > rx.next + j)
  }

  /** A drain that delivers `j` packets of the front and loses the next. */
  function CutAt(rx: Rx, j: nat): RxOut
    requires j < |rx.buf| && rx.next + j < TWO_32
  {
    RxOut(rx.(next := rx.next + j, buf := rx.buf[j + 1..]), Acks(rx.buf[..j + 1]), Payloads(rx.buf[..j]), InvalidFrame)
  }

  /** Packet `next + j` is the first one the application refuses. */
  ghost predicate FirstRefused(next: u32, j: nat, fails: set<u32>) {
    next + j < TWO_32 && next + j in fails && forall p: u32 :: next <= p < next + j ==> p !in fails
  }

  lemma {:induction false} DrainCut(rx: Rx, fails: set<u32>, j: nat)
    requires Sorted(rx.buf) && Within(rx.buf, rx.next, TWO_32 - 1) && j < RunLength(rx.buf, rx.next)
    requires FirstRefused(rx.next, j, fails)
    ensures Drain(rx, fails) == CutAt(rx, j)
    decreases j
  {
    hide Position, Buffered, Drain, Sorted, Within, RunLength, CutAt, FirstRefused;
    FrontBuffered(rx.buf, rx.next);
    Assumptions.TakeFront(rx);
    Assumptions.TakeRest(rx);
    RefusedLater(rx.next, j, fails);
    if j == 0 {
      CutAtOnce(rx, fails);
    } else {
      DrainsOne(rx, fails);
      DrainCut(Assumptions.Taken(rx), fails, j - 1);
      CutOneMore(rx, fails, j);
    }
  }

  lemma RefusedLater(next: u32, j: nat, fails: set<u32>)
    requires FirstRefused(next, j, fails)
    ensures next + j < TWO_32 && (if j == 0 then next in fails else next !in fails && FirstRefused(next + 1, j - 1, fails))
  {
  }

  lemma FrontBuffered(buf: Buffer, next: u32)
    requires RunLength(buf, next) > 0 && Sorted(buf)
    ensures Buffered(buf, next)
  {
    assert buf[0].pn == next && buf[0] in buf;
    BufferedIff(buf, next);
    hide Buffered;
  }

  lemma CutAtOnce(rx: Rx, fails: set<u32>)
    requires Buffered(rx.buf, rx.next) && Position(rx.buf, rx.next) == 0 && rx.next in fails && rx.buf != [] && rx.buf[0].pn == rx.next
    ensures Drain(rx, fails) == CutAt(rx, 0)
  {
    DrainFailsAt(rx, fails);
    hide Drain, AckFor, Position, Buffered;
    assert Acks(rx.buf[..1]) == [AckFor(rx.next)];
  }

  lemma CutOneMore(rx: Rx, fails: set<u32>, j: nat)
    requires 0 < j < |rx.buf| && rx.buf[0].pn == rx.next < TWO_32 - 1 && Drain(rx, fails) == Prepend(AckFor(rx.next), rx.buf[0].data, Drain(Assumptions.Taken(rx), fails))
    requires var t := Assumptions.Taken(rx);
      t.next == rx.next + 1 && rx.next + j < TWO_32
      && Drain(t, fails) == CutAt(t, j - 1)
    ensures Drain(rx, fails) == CutAt(rx, j)
  {
    hide Drain, Acks, Payloads, AckFor;
    RunStep(rx.buf, j);
    RunStep(rx.buf, j + 1);
    assert rx.buf[1..][j..] == rx.buf[j + 1..];
  }

  lemma DrainsOne(rx: Rx, fails: set<u32>)
    requires Buffered(rx.buf, rx.next) && Position(rx.buf, rx.next) == 0 && rx.next !in fails
    ensures rx.buf != [] && Drain(rx, fails) == Prepend(AckFor(rx.next), rx.buf[0].data, Drain(Assumptions.Taken(rx), fails))
  {
    DrainUnfolds(rx, fails);
    hide Drain, AckFor;
  }

  lemma AroundPart(rx: Rx, j: nat)
    requires Sorted(rx.buf) && Within(rx.buf, rx.next + 1, TWO_32 - 1) && j <= RunLength(rx.buf, rx.next + 1) && rx.next < TWO_32 - 1
    ensures j <= |rx.buf| && rx.next + j + 1 < TWO_32
    ensures forall i :: 0 <= i < j ==> rx.buf[i].pn == rx.next + 1 + i && rx.buf[i] in rx.buf
    ensures forall c :: c in rx.buf[j..] <==> c in rx.buf && c.pn > rx.next + j
  {
    RunFits(rx, RunLength(rx.buf, rx.next + 1));
    forall i | j <= i < |rx.buf| ensures rx.buf[i].pn > rx.next + j {
      assert rx.buf[i] in rx.buf;
      if j > 0 {
        assert rx.buf[j - 1].pn == rx.next + j && rx.buf[j - 1].pn < rx.buf[i].pn;
      }
    }
    hide Sorted, Within, RunLength;
    TailMembers(rx.buf, j, rx.next + j);
  }

  /**
   * When the application refuses packet `j` of the run, the packets before it have
   * been delivered, it has been acknowledged and dropped, and the rest stays.
   */
  lemma RunCutShort(rx: Rx, data: Bytes, allocOk: bool, fails: set<u32>, j: nat)
    requires BufferInv(rx) && rx.started && Within(rx.buf, rx.next + 1, TWO_32 - 1) && rx.next < TWO_32 - 1
    requires 0 < j && FirstRefused(rx.next, j, fails)
    requires forall p: u32 :: rx.next < p <= rx.next + j ==> HasNumber(rx.buf, p)
    ensures StopsAt(rx, data, j, Receive(rx, rx.next, data, allocOk, fails))
  {
    InvParts(rx);
    var mid := rx.(next := rx.next + 1);
    LongEnough(rx, j);
    hide BufferInv, Receive, Drain, HasNumber, StopsAt;
    AroundPart(rx, j);
    RunCutIs(rx, data, allocOk, fails, j);
    OutStops(rx, data, j);
  }

  lemma RunCutIs(rx: Rx, data: Bytes, allocOk: bool, fails: set<u32>, j: nat)
    requires rx.started && Sorted(rx.buf) && Within(rx.buf, rx.next + 1, TWO_32 - 1) && rx.next < TWO_32 - 1
    requires 0 < j <= RunLength(rx.buf, rx.next + 1) && FirstRefused(rx.next, j, fails)
    ensures Receive(rx, rx.next, data, allocOk, fails) ==
      RxOut(rx.(next := rx.next + j, buf := rx.buf[j..]), [AckFor(rx.next)] + Acks(rx.buf[..j]), [data] + Payloads(rx.buf[..j - 1]), InvalidFrame)
  {
    RefusedLater(rx.next, j, fails);
    var mid := rx.(next := Add32(rx.next, 1));
    assert Add32(rx.next, 1) == rx.next + 1 && mid.next == rx.next + 1;
    hide Drain, Receive, Sorted, Within, RunLength, Acks, Payloads, AckFor, FirstRefused, Add32, CutAt;
    DrainCut(mid, fails, j - 1);
    Assumptions.ReceiveExpected(rx, data, allocOk, fails);
    CutIs(mid, j - 1);
  }

  lemma CutIs(mid: Rx, j: nat)
    requires j < |mid.buf| && mid.next + j < TWO_32
    ensures CutAt(mid, j) == RxOut(mid.(next := mid.next + j, buf := mid.buf[j + 1..]), Acks(mid.buf[..j + 1]), Payloads(mid.buf[..j]), InvalidFrame)
  {
  }

  lemma LongEnough(rx: Rx, j: nat)
    requires Sorted(rx.buf) && Within(rx.buf, rx.next + 1, TWO_32 - 1) && rx.next < TWO_32 - 1 && rx.next + j < TWO_32
    requires forall p: u32 :: rx.next < p <= rx.next + j ==> HasNumber(rx.buf, p)
    ensures j <= RunLength(rx.buf, rx.next + 1)
  {
    var k := RunLength(rx.buf, rx.next + 1);
    RunFits(rx, k);
    var p: u32 := if k < j then rx.next + k + 1 else 0;
    assert rx.next < p <= rx.next + j ==> HasNumber(rx.buf, p);
    NoneAfterRun(rx, k);
  }

  lemma OutStops(rx: Rx, data: Bytes, j: nat)
    requires 0 < j <= |rx.buf| && rx.started && rx.next + j + 1 < TWO_32
    requires forall i :: 0 <= i < j ==> rx.buf[i].pn == rx.next + 1 + i && rx.buf[i] in rx.buf
    requires forall c :: c in rx.buf[j..] <==> c in rx.buf && c.pn > rx.next + j
    ensures StopsAt(rx, data, j,
      RxOut(rx.(next := rx.next + j, buf := rx.buf[j..]), [AckFor(rx.next)] + Acks(rx.buf[..j]), [data] + Payloads(rx.buf[..j - 1]), InvalidFrame))
  {
    PayloadsRun(rx, data, j - 1);
    RepliesRun(rx, j);
    var d, a := Payloads(rx.buf[..j - 1]), Acks(rx.buf[..j]);
    hide BufferedAt, IsAckOf, Payloads, Acks, AckFor;
    StopsParts(rx, data, j, d, a, rx.buf[j..]);
  }

  lemma StopsParts(rx: Rx, data: Bytes, j: nat, d: seq<Bytes>, a: seq<Msg>, rest: Buffer)
    requires 0 < j && rx.started && rx.next + j + 1 < TWO_32 && |d| == j - 1 && |a| == j
    requires forall i :: 1 <= i < j ==> BufferedAt(rx.buf, rx.next + i, ([data] + d)[i])
    requires forall i :: 0 <= i <= j ==> rx.next + i < TWO_32 && IsAckOf(([AckFor(rx.next)] + a)[i], rx.next + i)
    requires forall c :: c in rest <==> c in rx.buf && c.pn > rx.next + j
    ensures StopsAt(rx, data, j, RxOut(rx.(next := rx.next + j, buf := rest), [AckFor(rx.next)] + a, [data] + d, InvalidFrame))
  {
    hide BufferedAt, IsAckOf, AckFor;
  }

  // ---- A window of packets in any order ----

  /** Packets `next + k` for the `k` in `order`, with bytes `payloads[k]`, arriving one after the other. */
  function AfterArrivals(rx: Rx, payloads: seq<Bytes>, order: seq<nat>): Rx
    requires forall i :: 0 <= i < |order| ==> 0 < order[i] < |payloads| && rx.next + order[i] < TWO_32
  {
    if order == [] then rx
    else
      var n := |order| - 1;
      Receive(AfterArrivals(rx, payloads, order[..n]), rx.next + order[n], payloads[order[n]], true, {}).rx
  }

  /** `c` is one of the packets that came. */
  predicate Came(next: u32, payloads: seq<Bytes>, order: seq<nat>, c: Cached) {
    next < c.pn < next + |payloads| && c.pn - next in order && c.data == payloads[c.pn - next]
  }

  predicate Offsets(payloads: seq<Bytes>, order: seq<nat>) {
    forall i :: 0 <= i < |order| ==> 0 < order[i] < |payloads|
  }

  predicate Fits(rx: Rx, payloads: seq<Bytes>) {
    && 0 < |payloads| <= (if rx.window == 0 then 1 else rx.window) && rx.next + |payloads| < TWO_32 - 1
    && forall k :: 0 <= k < |payloads| ==> payloads[k] != []
  }

  lemma {:induction false} ArrivalsKept(rx: Rx, payloads: seq<Bytes>, order: seq<nat>)
    requires BufferInv(rx) && rx.started && rx.buf == [] && Fits(rx, payloads) && Offsets(payloads, order)
    ensures var r := AfterArrivals(rx, payloads, order);
      && BufferInv(r) && r.started && r.next == rx.next && r.window == rx.window
      && forall c :: c in r.buf <==> Came(rx.next, payloads, order, c)
  {
    hide Receive, BufferInv, Came;
    if order == [] {
      NoneCame(rx, payloads);
    } else {
      var n := |order| - 1;
      ArrivalsKept(rx, payloads, order[..n]);
      hide AfterArrivals;
      AfterOneMore(rx, payloads, order);
      ArrivalKept(AfterArrivals(rx, payloads, order[..n]), payloads, order);
    }
  }

  lemma NoneCame(rx: Rx, payloads: seq<Bytes>)
    ensures forall c :: !Came(rx.next, payloads, [], c)
  {
  }

  lemma AfterOneMore(rx: Rx, payloads: seq<Bytes>, order: seq<nat>)
    requires order != [] && Fits(rx, payloads) && Offsets(payloads, order)
    ensures var n := |order| - 1;
      AfterArrivals(rx, payloads, order)
        == Receive(AfterArrivals(rx, payloads, order[..n]), rx.next + order[n], payloads[order[n]], true, {}).rx
  {
    hide Receive;
  }

  lemma ArrivalKept(s: Rx, payloads: seq<Bytes>, order: seq<nat>)
    requires order != [] && Offsets(payloads, order) && Fits(s, payloads) && BufferInv(s) && s.started
    requires forall c :: c in s.buf <==> Came(s.next, payloads, order[..|order| - 1], c)
    ensures var n := |order| - 1; var r := Receive(s, s.next + order[n], payloads[order[n]], true, {}).rx;
      && BufferInv(r) && r.started && r.next == s.next && r.window == s.window
      && forall c :: c in r.buf <==> Came(s.next, payloads, order, c)
  {
    hide Receive, BufferInv, IsSackOf, Keeps, Came;
    var n := |order| - 1;
    EarlyAnswer(s, s.next + order[n], payloads[order[n]], true, {});
    ReceiveKeepsBuffer(s, s.next + order[n], payloads[order[n]], true, {});
    var out := Receive(s, s.next + order[n], payloads[order[n]], true, {});
    OneMoreCame(s, out.rx, out.status, payloads, order);
  }

  lemma OneMoreCame(s: Rx, r: Rx, status: Status, payloads: seq<Bytes>, order: seq<nat>)
    requires order != [] && Offsets(payloads, order) && Fits(s, payloads)
    requires var n := |order| - 1;
      && (forall c :: c in s.buf <==> Came(s.next, payloads, order[..n], c))
      && Keeps(s, s.next + order[n], payloads[order[n]], true, r, status)
    ensures r.next == s.next && r.started == s.started && r.window == s.window
    ensures forall c :: c in r.buf <==> Came(s.next, payloads, order, c)
  {
    var n := |order| - 1;
    var one := Cached(s.next + order[n], payloads[order[n]]);
    assert order == order[..n] + [order[n]];
    if HasNumber(s.buf, one.pn) {
      var d :| d in s.buf && d.pn == one.pn;
      assert d == one;
    }
  }

  /**
   * The later packets of a window may arrive in any order and any number of times;
   * when the missing first one comes, all of them are delivered at once, in order.
   */
  lemma WindowDelivers(rx: Rx, payloads: seq<Bytes>, order: seq<nat>)
    requires BufferInv(rx) && rx.started && rx.buf == [] && Fits(rx, payloads) && Offsets(payloads, order)
    requires forall k: nat :: 0 < k < |payloads| ==> k in order
    ensures var r := Receive(AfterArrivals(rx, payloads, order), rx.next, payloads[0], true, {});
      r.delivered == payloads && r.rx.next == rx.next + |payloads| && r.rx.buf == [] && r.status == Ok
  {
    ArrivalsKept(rx, payloads, order);
    hide Receive, BufferInv, AfterArrivals, Came;
    LastDelivers(AfterArrivals(rx, payloads, order), payloads, order);
  }

  /** The missing packet, once the others are there. */
  lemma LastDelivers(s: Rx, payloads: seq<Bytes>, order: seq<nat>)
    requires BufferInv(s) && s.started && Fits(s, payloads)
    requires forall c :: c in s.buf <==> Came(s.next, payloads, order, c)
    requires forall k: nat :: 0 < k < |payloads| ==> k in order
    ensures var r := Receive(s, s.next, payloads[0], true, {});
      r.delivered == payloads && r.rx.next == s.next + |payloads| && r.rx.buf == [] && r.status == Ok
  {
    hide Receive, BufferInv, RunBehind, Advances, Within;
    forall p: u32 | s.next < p < s.next + |payloads| ensures HasNumber(s.buf, p) {
      assert p - s.next in order && Cached(p, payloads[p - s.next]) in s.buf;
    }
    CameWithin(s, payloads, order);
    hide Came, HasNumber;
    var k := ExpectedAnswer(s, payloads[0], true);
    RunIsWindow(s, payloads, order, k);
    AdvancesAll(s, payloads, order, k, Receive(s, s.next, payloads[0], true, {}));
  }

  lemma CameWithin(s: Rx, payloads: seq<Bytes>, order: seq<nat>)
    requires Fits(s, payloads) && forall c :: c in s.buf <==> Came(s.next, payloads, order, c)
    ensures Within(s.buf, s.next + 1, TWO_32 - 1)
  {
  }

  lemma AdvancesAll(s: Rx, payloads: seq<Bytes>, order: seq<nat>, k: nat, r: RxOut)
    requires Fits(s, payloads) && k + 1 == |payloads| && Advances(s, payloads[0], k, r)
    requires forall c :: c in s.buf <==> Came(s.next, payloads, order, c)
    ensures r.delivered == payloads && r.rx.next == s.next + |payloads| && r.rx.buf == [] && r.status == Ok
  {
    forall i | 0 <= i < |payloads| ensures r.delivered[i] == payloads[i] {
      if i > 0 {
        assert BufferedAt(s.buf, s.next + i, r.delivered[i]);
        assert Came(s.next, payloads, order, Cached(s.next + i, r.delivered[i]));
      }
    }
    assert forall c :: c in s.buf ==> c.pn <= s.next + k;
    SomeMember(r.rx.buf);
  }

  lemma SomeMember(buf: Buffer)
    ensures buf == [] || exists c :: c in buf
  {
    if buf != [] { assert buf[0] in buf; }
  }

  lemma RunIsWindow(s: Rx, payloads: seq<Bytes>, order: seq<nat>, k: nat)
    requires Fits(s, payloads) && RunBehind(s, k) && forall c :: c in s.buf <==> Came(s.next, payloads, order, c)
    requires forall p: u32 :: s.next < p < s.next + |payloads| ==> HasNumber(s.buf, p)
    ensures k + 1 == |payloads|
  {
    var end: u32 := s.next + |payloads|;
    assert !HasNumber(s.buf, end);
    var stop: u32 := if s.next + k + 1 < TWO_32 then s.next + k + 1 else 0;
    assert s.next < stop ==> !HasNumber(s.buf, stop);
  }
}
