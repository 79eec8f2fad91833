/**
 * The receiving half of one established peer session as a value: the next
 * expected number and the sorted buffer of packets that arrived early.
 * `fails` holds the numbers whose delivery to the application reports an error.
 */
module Receiver {
  import opened Base
  import opened AckRanges
  import opened Sender
  import Sack

  datatype Cached = Cached(pn: u32, data: Bytes)

  type Buffer = seq<Cached>

  datatype Rx = Rx(started: bool, next: u32, buf: Buffer, window: u8)

  datatype RxOut = RxOut(rx: Rx, replies: seq<Msg>, delivered: seq<Bytes>, status: Status)

  ghost predicate Sorted(buf: Buffer) {
    forall i, j :: 0 <= i < j < |buf| ==> buf[i].pn < buf[j].pn
  }

  function Numbers(buf: Buffer): (r: seq<u32>)
    ensures |r| == |buf|
    ensures forall i :: 0 <= i < |buf| ==> r[i] == buf[i].pn
  {
    seq(|buf|, i requires 0 <= i < |buf| => buf[i].pn)
  }

  function AckFor(pn: u32): Msg {
    Ack(pn, [AckRange(0, 1)])
  }

  /** The first position whose number is at least `pn`. */
  function Position(buf: Buffer, pn: u32): (i: nat)
    ensures i <= |buf|
    ensures forall j :: 0 <= j < i ==> buf[j].pn < pn
    ensures i < |buf| ==> buf[i].pn >= pn
  {
    if buf == [] || buf[0].pn >= pn then 0 else 1 + Position(buf[1..], pn)
  }

  predicate Buffered(buf: Buffer, pn: u32) {
    Position(buf, pn) < |buf| && buf[Position(buf, pn)].pn == pn
  }

  function Insert(buf: Buffer, c: Cached): Buffer {
    buf[..Position(buf, c.pn)] + [c] + buf[Position(buf, c.pn)..]
  }

  function WindowOf(rx: Rx): nat {
    if rx.window == 0 then 1 else rx.window
  }

  /** Keeps an early packet, if it is close enough, new, and there is memory. */
  function Cache(rx: Rx, pn: u32, data: Bytes, allocOk: bool): (Rx, Status) {
    if |data| == 0 then (rx, InvalidParam)
    else if Sub32(pn, rx.next) >= WindowOf(rx) then (rx, WindowFull)
    else if |rx.buf| >= WindowOf(rx) then (rx, WindowFull)
    else if Buffered(rx.buf, pn) then (rx, Ok)
    else if !allocOk then (rx, NoMemory)
    else (rx.(buf := Insert(rx.buf, Cached(pn, data))), Ok)
  }

  function RemoveAt(buf: Buffer, i: nat): Buffer
    requires i < |buf|
  {
    buf[..i] + buf[i + 1..]
  }

  /** Delivers buffered packets for as long as the expected one is present. */
  function Drain(rx: Rx, fails: set<u32>): RxOut
    decreases |rx.buf|
  {
    var i := Position(rx.buf, rx.next);
    if !Buffered(rx.buf, rx.next) then RxOut(rx, [], [], Ok)
    else
      var taken := rx.(buf := RemoveAt(rx.buf, i));
      if rx.next in fails then RxOut(taken, [AckFor(rx.next)], [], InvalidFrame)
      else
        var r := Drain(taken.(next := Add32(rx.next, 1)), fails);
        RxOut(r.rx, [AckFor(rx.next)] + r.replies, [rx.buf[i].data] + r.delivered, r.status)
  }

  function Start(rx: Rx): Rx {
    if rx.started then rx else rx.(started := true, next := 0)
  }

  /** An ACK-eliciting data packet: old, early, or exactly the expected one. */
  function Receive(rx0: Rx, pn: u32, data: Bytes, allocOk: bool, fails: set<u32>): RxOut {
    var rx := Start(rx0);
    if pn < rx.next then RxOut(rx, [AckFor(pn)], [], Ok)
    else if pn > rx.next then
      var (c, status) := Cache(rx, pn, data, allocOk);
      RxOut(c, [SackMsg(rx.next, Sack.Build(rx.next, Numbers(c.buf)))], [], status)
    else if pn in fails then RxOut(rx, [AckFor(pn)], [], InvalidFrame)
    else
      var r := Drain(rx.(next := Add32(pn, 1)), fails);
      RxOut(r.rx, [AckFor(pn)] + r.replies, [data] + r.delivered, r.status)
  }

  // ---- The buffer invariant, for any arriving numbers ----

  ghost predicate Within(buf: Buffer, low: int, high: int) {
    forall c :: c in buf ==> low <= c.pn < high
  }

  ghost predicate BufferInv(rx: Rx) {
    && Sorted(rx.buf)
    && Within(rx.buf, rx.next + 1, rx.next + WindowOf(rx))
    && (!rx.started ==> rx.next == 0 && rx.buf == [])
  }

  /** Distinct sorted numbers inside an interval cannot outnumber it. */
  lemma {:induction false} SortedFits(buf: Buffer, low: int, high: int)
    requires Sorted(buf) && low <= high && forall c :: c in buf ==> low <= c.pn < high
    ensures |buf| <= high - low
  {
    if buf != [] {
      var last := buf[|buf| - 1];
      forall c | c in buf[..|buf| - 1] ensures c.pn < last.pn {
        var i :| 0 <= i < |buf| - 1 && buf[i] == c;
      }
      SortedFits(buf[..|buf| - 1], low, last.pn);
    }
  }

  /** At most `window - 1` packets are ever buffered, so the count test never fires. */
  lemma BufferNeverCountFull(rx: Rx)
    requires BufferInv(rx)
    ensures |rx.buf| <= WindowOf(rx) - 1
  {
    SortedFits(rx.buf, rx.next + 1, rx.next + WindowOf(rx));
  }

  lemma InsertSorted(buf: Buffer, c: Cached)
    requires Sorted(buf) && !Buffered(buf, c.pn)
    ensures Sorted(Insert(buf, c))
    ensures forall d :: d in Insert(buf, c) <==> d in buf || d == c
  {
    var i := Position(buf, c.pn);
    assert buf == buf[..i] + buf[i..];
  }

  lemma BufferedIff(buf: Buffer, pn: u32)
    requires Sorted(buf)
    ensures Buffered(buf, pn) <==> exists c :: c in buf && c.pn == pn
  {
    if exists c :: c in buf && c.pn == pn {
      var c :| c in buf && c.pn == pn;
      var j :| 0 <= j < |buf| && buf[j] == c;
    }
  }

  lemma FrontIsNext(buf: Buffer, next: u32)
    requires Sorted(buf) && Within(buf, next, TWO_32) && Buffered(buf, next)
    ensures Position(buf, next) == 0 && buf[0].pn == next && buf[0] in buf
    ensures buf[..0] + buf[0 + 1..] == buf[1..]
  {
    assert buf[0] in buf;
  }

  lemma RestAbove(buf: Buffer, next: u32, high: int)
    requires Sorted(buf) && buf != [] && buf[0].pn == next && Within(buf, next, high)
    ensures Sorted(buf[1..]) && Within(buf[1..], next + 1, high)
    ensures buf[1..] != [] ==> Add32(next, 1) == next + 1
  {
    forall c | c in buf[1..] ensures next + 1 <= c.pn < high {
      var i :| 1 <= i < |buf| && buf[i] == c;
      assert buf[i] in buf;
    }
    if |buf| > 1 { assert buf[0].pn < buf[1].pn; }
  }

  lemma Widen(buf: Buffer, low: int, high: int, low': int, high': int)
    requires Within(buf, low, high)
    requires buf == [] || (low' <= low && (high <= high' || high' == TWO_32))
    ensures Within(buf, low', high')
  {
  }

  lemma DrainUnfolds(rx: Rx, fails: set<u32>)
    requires Buffered(rx.buf, rx.next) && Position(rx.buf, rx.next) == 0 && rx.next !in fails
    ensures Drain(rx, fails) ==
      (var r := Drain(rx.(buf := rx.buf[1..], next := Add32(rx.next, 1)), fails);
       RxOut(r.rx, [AckFor(rx.next)] + r.replies, [rx.buf[0].data] + r.delivered, r.status))
  {
    assert rx.buf[..0] + rx.buf[0 + 1..] == rx.buf[1..];
  }

  lemma DrainFailsAt(rx: Rx, fails: set<u32>)
    requires Buffered(rx.buf, rx.next) && Position(rx.buf, rx.next) == 0 && rx.next in fails
    ensures Drain(rx, fails) == RxOut(rx.(buf := rx.buf[1..]), [AckFor(rx.next)], [], InvalidFrame)
  {
    assert rx.buf[..0] + rx.buf[0 + 1..] == rx.buf[1..];
  }

  /** After one drained packet the rest still fits the window above the new number. */
  lemma TakenFits(rx: Rx)
    requires Sorted(rx.buf) && Within(rx.buf, rx.next, rx.next + WindowOf(rx))
    requires rx.buf != [] && rx.buf[0].pn == rx.next
    ensures Sorted(rx.buf[1..]) && Within(rx.buf[1..], rx.next + 1, rx.next + WindowOf(rx))
    ensures Within(rx.buf[1..], Add32(rx.next, 1), Add32(rx.next, 1) + WindowOf(rx))
  {
    hide Sorted, Within;
    RestAbove(rx.buf, rx.next, rx.next + WindowOf(rx));
    Widen(rx.buf[1..], rx.next + 1, rx.next + WindowOf(rx), Add32(rx.next, 1), Add32(rx.next, 1) + WindowOf(rx));
  }

  lemma InvWhenNone(rx: Rx)
    requires rx.started && Sorted(rx.buf) && Within(rx.buf, rx.next, rx.next + WindowOf(rx))
    requires !Buffered(rx.buf, rx.next)
    ensures BufferInv(rx)
  {
    NotBuffered(rx.buf, rx.next, rx.next + WindowOf(rx));
  }

  /** Draining a buffer of numbers at or above the expected one keeps the invariant. */
  lemma {:induction false} DrainKeepsBuffer(rx: Rx, fails: set<u32>)
    requires rx.started && Sorted(rx.buf) && Within(rx.buf, rx.next, rx.next + WindowOf(rx))
    ensures BufferInv(Drain(rx, fails).rx)
    ensures Drain(rx, fails).rx.window == rx.window
    decreases |rx.buf|
  {
    if Buffered(rx.buf, rx.next) {
      Widen(rx.buf, rx.next, rx.next + WindowOf(rx), rx.next, TWO_32);
      FrontIsNext(rx.buf, rx.next);
      TakenFits(rx);
      if rx.next in fails {
        DrainFailsAt(rx, fails);
      } else {
        DrainUnfolds(rx, fails);
        hide Position, Buffered, Within, BufferInv, Drain, Sorted;
        DrainKeepsBuffer(rx.(buf := rx.buf[1..], next := Add32(rx.next, 1)), fails);
      }
    } else {
      InvWhenNone(rx);
    }
  }

  lemma NotBuffered(buf: Buffer, next: u32, high: int)
    requires Sorted(buf) && !Buffered(buf, next) && Within(buf, next, high)
    ensures Within(buf, next + 1, high)
  {
    BufferedIff(buf, next);
  }

  lemma CacheKeepsBuffer(rx: Rx, pn: u32, data: Bytes, allocOk: bool)
    requires BufferInv(rx) && rx.started && pn > rx.next
    ensures BufferInv(Cache(rx, pn, data, allocOk).0)
    ensures Cache(rx, pn, data, allocOk).0.window == rx.window
  {
    if !Buffered(rx.buf, pn) {
      InsertSorted(rx.buf, Cached(pn, data));
    }
  }

  /** Whatever packet arrives, in whatever order, the buffer invariant holds after it. */
  lemma ReceiveKeepsBuffer(rx: Rx, pn: u32, data: Bytes, allocOk: bool, fails: set<u32>)
    requires BufferInv(rx)
    ensures BufferInv(Receive(rx, pn, data, allocOk, fails).rx)
    ensures Receive(rx, pn, data, allocOk, fails).rx.window == rx.window
  {
    var r := Start(rx);
    if pn > r.next {
      CacheKeepsBuffer(r, pn, data, allocOk);
    } else if pn == r.next && pn !in fails {
      DrainKeepsBuffer(r.(next := Add32(pn, 1)), fails);
    }
  }

  // ---- What draining delivers ----

  /** How many buffered packets continue `next` without a gap. */
  function RunLength(buf: Buffer, next: int): (k: nat)
    ensures k <= |buf|
    ensures forall i :: 0 <= i < k ==> buf[i].pn == next + i
    ensures k < |buf| ==> buf[k].pn != next + k
  {
    if buf == [] || buf[0].pn != next then 0 else 1 + RunLength(buf[1..], next + 1)
  }

  function Payloads(buf: Buffer): (r: seq<Bytes>)
    ensures |r| == |buf|
    ensures forall i :: 0 <= i < |buf| ==> r[i] == buf[i].data
  {
    seq(|buf|, i requires 0 <= i < |buf| => buf[i].data)
  }

  function Acks(buf: Buffer): (r: seq<Msg>)
    ensures |r| == |buf|
    ensures forall i :: 0 <= i < |buf| ==> r[i] == AckFor(buf[i].pn)
  {
    seq(|buf|, i requires 0 <= i < |buf| => AckFor(buf[i].pn))
  }

  function Drained(rx: Rx): RxOut {
    var k := RunLength(rx.buf, rx.next);
    RxOut(rx.(next := Add32(rx.next, k), buf := rx.buf[k..]), Acks(rx.buf[..k]), Payloads(rx.buf[..k]), Ok)
  }

  lemma RunStep(buf: Buffer, k: nat)
    requires 0 < k <= |buf|
    ensures Acks(buf[..k]) == [AckFor(buf[0].pn)] + Acks(buf[1..][..k - 1])
    ensures Payloads(buf[..k]) == [buf[0].data] + Payloads(buf[1..][..k - 1])
  {
  }

  lemma WrapAdd(a: int, k: int)
    ensures Add32(Add32(a, 1), k - 1) == Add32(a, k)
  {
  }

  lemma RunOfRest(buf: Buffer, next: u32)
    requires Sorted(buf) && buf != [] && buf[0].pn == next
    ensures RunLength(buf, next) == 1 + RunLength(buf[1..], Add32(next, 1))
  {
    if |buf| > 1 {
      assert buf[0].pn < buf[1].pn;
      assert Add32(next, 1) == next + 1;
    }
  }

  lemma DrainedUnfolds(rx: Rx)
    requires Sorted(rx.buf) && rx.buf != [] && rx.buf[0].pn == rx.next
    ensures Drained(rx) ==
      (var r := Drained(rx.(buf := rx.buf[1..], next := Add32(rx.next, 1)));
       RxOut(r.rx, [AckFor(rx.next)] + r.replies, [rx.buf[0].data] + r.delivered, r.status))
  {
    var k := RunLength(rx.buf, rx.next);
    RunOfRest(rx.buf, rx.next);
    WrapAdd(rx.next, k);
    RunStep(rx.buf, k);
    assert rx.buf[k..] == rx.buf[1..][k - 1..];
    hide RunLength, Acks, Payloads, AckFor;
  }

  ghost predicate NoneFail(buf: Buffer, fails: set<u32>) {
    forall i :: 0 <= i < |buf| ==> buf[i].pn !in fails
  }

  lemma DrainStops(rx: Rx, fails: set<u32>)
    requires Sorted(rx.buf) && Within(rx.buf, rx.next, TWO_32) && !Buffered(rx.buf, rx.next)
    ensures Drain(rx, fails) == Drained(rx)
  {
    NotBuffered(rx.buf, rx.next, TWO_32);
    assert RunLength(rx.buf, rx.next) == 0 by {
      if rx.buf != [] { assert rx.buf[0] in rx.buf; }
    }
    assert rx.buf[0..] == rx.buf && rx.buf[..0] == [];
  }

  /**
   * Draining delivers and acknowledges the whole gapless run at the front of the
   * buffer, in order, and stops at the first gap.
   */
  lemma {:induction false} DrainDeliversRun(rx: Rx, fails: set<u32>)
    requires Sorted(rx.buf) && Within(rx.buf, rx.next, TWO_32) && NoneFail(rx.buf, fails)
    ensures Drain(rx, fails) == Drained(rx)
    decreases |rx.buf|
  {
    if Buffered(rx.buf, rx.next) {
      FrontIsNext(rx.buf, rx.next);
      RestAbove(rx.buf, rx.next, TWO_32);
      assert NoneFail(rx.buf[1..], fails) && rx.next !in fails;
      hide Position, Buffered, Within, Drained, Drain, Sorted, NoneFail;
      DrainUnfolds(rx, fails);
      DrainedUnfolds(rx);
      var mid := rx.(buf := rx.buf[1..], next := Add32(rx.next, 1));
      Widen(mid.buf, rx.next + 1, TWO_32, mid.next, TWO_32);
      DrainDeliversRun(mid, fails);
    } else {
      DrainStops(rx, fails);
    }
  }

  // ---- Acknowledgement means possession ----

  /** The receiver has the packet: delivered already, or safe in the buffer. */
  predicate Held(rx: Rx, pn: u32) {
    pn < rx.next || exists c :: c in rx.buf && c.pn == pn
  }

  /** Everything stored is what was committed under that number. */
  ghost predicate Consistent(rx: Rx, committed: seq<Bytes>) {
    && rx.next <= |committed|
    && forall c :: c in rx.buf ==> c.pn < |committed| && c.data == committed[c.pn]
  }

  ghost predicate Honest(m: Msg, rx: Rx) {
    match m
    case Data(_, _) => false
    case Ack(largest, ranges) => ranges == [AckRange(0, 1)] && Held(rx, largest)
    case SackMsg(base, bitmap) => HonestBits(base, bitmap, rx)
  }

  ghost predicate HonestBits(base: u32, bitmap: Bytes, rx: Rx) {
    forall i: nat :: Sack.BitIsSet(bitmap, i) ==> base + i < TWO_32 && Held(rx, base + i)
  }

  ghost predicate Grows(rx: Rx, rx': Rx) {
    && rx.next <= rx'.next
    && forall pn: u32 :: Held(rx, pn) ==> Held(rx', pn)
  }

  lemma HonestGrows(m: Msg, rx: Rx, rx': Rx)
    requires Honest(m, rx) && Grows(rx, rx')
    ensures Honest(m, rx')
  {
  }

  /** The joint meaning of one receive step against the committed payloads. */
  ghost predicate Sound(rx: Rx, r: RxOut, committed: seq<Bytes>) {
    && Consistent(r.rx, committed) && Grows(rx, r.rx)
    && r.delivered == committed[rx.next..r.rx.next]
    && (forall m :: m in r.replies ==> Honest(m, r.rx))
  }

  function Prepend(m: Msg, d: Bytes, r: RxOut): RxOut {
    RxOut(r.rx, [m] + r.replies, [d] + r.delivered, r.status)
  }

  lemma SoundCons(rx: Rx, mid: Rx, r: RxOut, committed: seq<Bytes>)
    requires mid.next == rx.next + 1 <= |committed| && Grows(rx, mid) && Held(mid, rx.next)
    requires Sound(mid, r, committed)
    ensures Sound(rx, Prepend(AckFor(rx.next), committed[rx.next], r), committed)
  {
    HonestGrows(AckFor(rx.next), mid, r.rx);
  }

  lemma {:induction false} DrainHolds(rx: Rx, committed: seq<Bytes>)
    requires Sorted(rx.buf) && Within(rx.buf, rx.next, TWO_32)
    requires Consistent(rx, committed) && |committed| < TWO_32
    ensures Sound(rx, Drain(rx, {}), committed)
    decreases |rx.buf|
  {
    if Buffered(rx.buf, rx.next) {
      FrontIsNext(rx.buf, rx.next);
      DrainUnfolds(rx, {});
      RestAbove(rx.buf, rx.next, TWO_32);
      var mid := rx.(buf := rx.buf[1..], next := Add32(rx.next, 1));
      ConsistentRest(rx, mid, committed);
      hide Position, Buffered, Within, Consistent, Held, Grows, Sound;
      DrainHolds(mid, committed);
      DrainStepGrows(rx, mid);
      SoundCons(rx, mid, Drain(mid, {}), committed);
    } else {
      assert Drain(rx, {}) == RxOut(rx, [], [], Ok);
    }
  }

  lemma ConsistentRest(rx: Rx, mid: Rx, committed: seq<Bytes>)
    requires Consistent(rx, committed) && |committed| < TWO_32
    requires rx.buf != [] && rx.buf[0].pn == rx.next && rx.buf[0] in rx.buf
    requires mid == rx.(buf := rx.buf[1..], next := Add32(rx.next, 1))
    ensures mid.next == rx.next + 1 <= |committed| && Consistent(mid, committed)
    ensures rx.buf[0].data == committed[rx.next]
  {
  }

  lemma DrainStepGrows(rx: Rx, mid: Rx)
    requires rx.buf != [] && rx.buf[0].pn == rx.next && mid.buf == rx.buf[1..] && mid.next == rx.next + 1
    ensures Grows(rx, mid) && Held(mid, rx.next)
  {
    forall pn: u32 | Held(rx, pn) ensures Held(mid, pn) {
      if pn >= mid.next {
        var c :| c in rx.buf && c.pn == pn;
        assert c in rx.buf[1..];
      }
    }
  }

  lemma SackIsHonest(rx: Rx, base: u32)
    ensures HonestBits(base, Sack.Build(base, Numbers(rx.buf)), rx)
  {
    var ns := Numbers(rx.buf);
    forall i: nat | Sack.BitIsSet(Sack.Build(base, ns), i) ensures base + i < TWO_32 && Held(rx, base + i) {
      Sack.BuildNames(base, ns, i);
      var j :| 0 <= j < |ns| && ns[j] == base + i;
      assert rx.buf[j] in rx.buf;
    }
  }

  lemma CacheHolds(rx: Rx, pn: u32, data: Bytes, allocOk: bool, committed: seq<Bytes>)
    requires Sorted(rx.buf) && Consistent(rx, committed)
    requires pn < |committed| && data == committed[pn]
    ensures Consistent(Cache(rx, pn, data, allocOk).0, committed)
    ensures Grows(rx, Cache(rx, pn, data, allocOk).0)
  {
    if !Buffered(rx.buf, pn) {
      InsertSorted(rx.buf, Cached(pn, data));
    }
  }

  lemma EarlyHolds(rx: Rx, pn: u32, data: Bytes, allocOk: bool, committed: seq<Bytes>)
    requires rx.started && pn > rx.next && Sorted(rx.buf) && Consistent(rx, committed)
    requires pn < |committed| && data == committed[pn]
    ensures Sound(rx, Receive(rx, pn, data, allocOk, {}), committed)
  {
    var (c, status) := Cache(rx, pn, data, allocOk);
    CacheHolds(rx, pn, data, allocOk, committed);
    var m := SackMsg(rx.next, Sack.Build(rx.next, Numbers(c.buf)));
    assert Honest(m, c) by {
      SackIsHonest(c, rx.next);
    }
    assert Receive(rx, pn, data, allocOk, {}) == RxOut(c, [m], [], status);
    assert c.next == rx.next;
  }

  lemma ExpectedHolds(rx: Rx, data: Bytes, allocOk: bool, committed: seq<Bytes>)
    requires BufferInv(rx) && rx.started && Consistent(rx, committed) && |committed| < TWO_32
    requires rx.next < |committed| && data == committed[rx.next]
    ensures Sound(rx, Receive(rx, rx.next, data, allocOk, {}), committed)
  {
    var mid := rx.(next := Add32(rx.next, 1));
    assert mid.next == rx.next + 1;
    DrainHolds(mid, committed);
    assert Grows(rx, mid) && Held(mid, rx.next);
    SoundCons(rx, mid, Drain(mid, {}), committed);
  }

  /**
   * One arriving packet: what is delivered is exactly the next stretch of the
   * committed payloads, nothing held is lost, and every number the replies
   * acknowledge is held.
   */
  lemma ReceiveHolds(rx: Rx, pn: u32, data: Bytes, allocOk: bool, committed: seq<Bytes>)
    requires BufferInv(rx) && Consistent(rx, committed) && |committed| < TWO_32
    requires pn < |committed| && data == committed[pn]
    ensures Sound(rx, Receive(rx, pn, data, allocOk, {}), committed)
  {
    var s := Start(rx);
    assert Grows(rx, s) && s.next == rx.next && s.buf == rx.buf;
    if pn < s.next {
      var out := RxOut(s, [AckFor(pn)], [], Ok);
      assert Honest(AckFor(pn), s);
      assert Sound(rx, out, committed);
    } else if pn > s.next {
      EarlyHolds(s, pn, data, allocOk, committed);
    } else {
      ExpectedHolds(s, data, allocOk, committed);
    }
  }
}
