/**
 * The sending half of one established peer session as a value: the window, the
 * wait-ACK queue, and what each event does to them. Lower-layer refusals are
 * inputs: `fails` holds the numbers whose retransmission is refused.
 */
module Sender {
  import opened Base
  import opened AckRanges
  import opened Reliable
  import Retry
  import Sack
  import Window

  /** What crosses the network between the two peers. */
  datatype Msg =
    | Data(pn: u32, data: Bytes)
    | Ack(largest: u32, ranges: seq<AckRange>)
    | SackMsg(base: u32, bitmap: Bytes)

  datatype Tx = Tx(win: Window.State, queue: Queue, maxRetry: u8)

  datatype TxOut = TxOut(tx: Tx, sent: seq<Msg>, status: Status)

  function DataOf(q: Queue): (r: seq<Msg>)
    ensures |r| == |q|
    ensures forall i :: 0 <= i < |q| ==> r[i] == Data(q[i].pn, q[i].data)
  {
    seq(|q|, i requires 0 <= i < |q| => Data(q[i].pn, q[i].data))
  }

  // ---- Sending ----

  datatype SendInput = SendInput(data: Bytes, now: u32, timeout: int, allocOk: bool, sendOk: bool)

  /** Queue, transmit, then commit the number; a refused transmission is rolled back. */
  function Send(tx: Tx, i: SendInput): TxOut {
    if |i.data| == 0 then TxOut(tx, [], InvalidParam)
    else if !Window.CanSend(tx.win) then TxOut(tx, [], WindowFull)
    else if !i.allocOk then TxOut(tx, [], NoMemory)
    else if !i.sendOk then TxOut(tx, [], TxFailed)
    else
      var pn := tx.win.next;
      var e := Entry(pn, i.data, 0, i.now, i.timeout, i.timeout);
      TxOut(tx.(win := Window.Commit(tx.win), queue := tx.queue + [e]), [Data(pn, i.data)], Ok)
  }

  // ---- ACK ranges ----

  function MarkSet(w: Window.State, acked: set<nat>): Window.State {
    w.(acks := seq(|w.acks|, i requires 0 <= i < |w.acks| => w.acks[i] || w.base + i in acked))
  }

  function Acknowledged(largest: u32, ranges: seq<AckRange>): set<u32> {
    set x | x in AckSet(largest, ranges) && x < TWO_32 :: x as u32
  }

  /** An ACK that removes nothing is an error and leaves the window alone. */
  function OnAck(tx: Tx, largest: u32, ranges: seq<AckRange>): TxOut
  {
    var q := Without(tx.queue, Acknowledged(largest, ranges));
    if |q| == |tx.queue| then TxOut(tx, [], SequenceError)
    else TxOut(tx.(win := Window.Advance(MarkSet(tx.win, AckSet(largest, ranges))), queue := q), [], Ok)
  }

  // ---- SACK bitmaps ----

  /** Bits `i..last`: a set bit acknowledges, a clear bit retransmits if still queued. */
  function SackFrom(tx: Tx, base: u32, bitmap: Bytes, i: nat, last: nat, now: u32, fails: set<u32>): TxOut
    decreases last + 1 - i
  {
    if i > last then TxOut(tx, [], Ok)
    else
      var pn := Add32(base, i);
      if !Has(tx.queue, pn) then SackFrom(tx, base, bitmap, i + 1, last, now, fails)
      else if Sack.BitIsSet(bitmap, i) then
        SackFrom(tx.(win := Window.Mark(tx.win, pn), queue := Without(tx.queue, {pn})),
                 base, bitmap, i + 1, last, now, fails)
      else if pn in fails then TxOut(tx, [], TxFailed)
      else
        var r := SackFrom(tx.(queue := Touch(tx.queue, {pn}, now)), base, bitmap, i + 1, last, now, fails);
        r.(sent := [Data(pn, Lookup(tx.queue, pn).data)] + r.sent)
  }

  /** One bit of the walk. */
  function SackOne(tx: Tx, base: u32, bitmap: Bytes, i: nat, now: u32, fails: set<u32>): TxOut {
    var pn := Add32(base, i);
    if !Has(tx.queue, pn) then TxOut(tx, [], Ok)
    else if Sack.BitIsSet(bitmap, i) then
      TxOut(tx.(win := Window.Mark(tx.win, pn), queue := Without(tx.queue, {pn})), [], Ok)
    else if pn in fails then TxOut(tx, [], TxFailed)
    else TxOut(tx.(queue := Touch(tx.queue, {pn}, now)), [Data(pn, Lookup(tx.queue, pn).data)], Ok)
  }

  function SentBefore(sent: seq<Msg>, r: TxOut): TxOut {
    r.(sent := sent + r.sent)
  }

  lemma SackFromStep(tx: Tx, base: u32, bitmap: Bytes, i: nat, last: nat, now: u32, fails: set<u32>)
    requires i <= last
    ensures var one := SackOne(tx, base, bitmap, i, now, fails);
      SackFrom(tx, base, bitmap, i, last, now, fails) ==
        if one.status.Ok? then SentBefore(one.sent, SackFrom(one.tx, base, bitmap, i + 1, last, now, fails)) else one
  {
    hide Sack.BitIsSet, Has, Touch, Without, Window.Mark;
  }

  function OnSack(tx: Tx, base: u32, bitmap: Bytes, now: u32, fails: set<u32>): TxOut
  {
    if |bitmap| > Sack.SACK_DECODE_CAPACITY then TxOut(tx, [], BufferTooSmall)
    else if |bitmap| == 0 then TxOut(tx, [], InvalidFrame)
    else match Sack.HighestBit(bitmap)
      case None =>
        if !Has(tx.queue, base) then TxOut(tx, [], SequenceError)
        else if base in fails then TxOut(tx, [], TxFailed)
        else TxOut(tx.(queue := Touch(tx.queue, {base}, now)), [Data(base, Lookup(tx.queue, base).data)], Ok)
      case Some(last) =>
        var r := SackFrom(tx, base, bitmap, 0, last, now, fails);
        if r.status.Ok? then r.(tx := r.tx.(win := Window.Advance(r.tx.win))) else r
  }

  // ---- Timeouts ----

  function Tick(tx: Tx, now: u32, fails: set<u32>): TxOut {
    TxOut(tx.(queue := Retry.TickQueue(tx.queue, now, tx.maxRetry, fails)),
          DataOf(Retry.TickResent(tx.queue, now, tx.maxRetry, fails)), Ok)
  }

  // ---- What a SACK does, without the walk ----

  /** The numbers `base + j`, `i <= j <= last`, whose bit is `value`. */
  function Bits(base: u32, bitmap: Bytes, i: nat, last: nat, value: bool): set<u32>
    requires base + last < TWO_32
    decreases last + 1 - i
  {
    if i > last then {}
    else if Sack.BitIsSet(bitmap, i) == value then {base + i} + Bits(base, bitmap, i + 1, last, value)
    else Bits(base, bitmap, i + 1, last, value)
  }

  lemma {:induction false} BitsMember(base: u32, bitmap: Bytes, i: nat, last: nat, value: bool, p: u32)
    requires base + last < TWO_32
    ensures p in Bits(base, bitmap, i, last, value)
       <==> base + i <= p <= base + last && Sack.BitIsSet(bitmap, p - base) == value
    decreases last + 1 - i
  {
    if i <= last {
      BitsMember(base, bitmap, i + 1, last, value, p);
    }
  }

  lemma BitsAbove(base: u32, bitmap: Bytes, i: nat, last: nat, value: bool)
    requires base + last < TWO_32
    ensures forall p :: p in Bits(base, bitmap, i, last, value) ==> base + i <= p
  {
    forall p | p in Bits(base, bitmap, i, last, value) ensures base + i <= p {
      BitsMember(base, bitmap, i, last, value, p);
    }
  }

  predicate Effect(q: Queue, named: set<u32>, missing: set<u32>, now: u32, r: TxOut) {
    && r.status.Ok?
    && r.tx.queue == Touch(Without(q, named), missing, now)
    && r.sent == DataOf(Only(q, missing))
  }

  lemma EffectNothing(tx: Tx, now: u32)
    ensures Effect(tx.queue, {}, {}, now, TxOut(tx, [], Ok))
  {
    WithoutNone(tx.queue, {});
    OnlyNone(tx.queue);
    TouchNone(tx.queue, now);
  }

  lemma EffectAbsent(q: Queue, pn: u32, named: set<u32>, missing: set<u32>, now: u32, r: TxOut)
    requires !Has(q, pn) && Effect(q, named, missing, now, r)
    ensures Effect(q, {pn} + named, missing, now, r)
    ensures Effect(q, named, {pn} + missing, now, r)
  {
    SkipAbsent(q, pn, named, missing, now);
    SkipAbsentTouch(Without(q, named), pn, missing, now);
  }

  lemma EffectNamed(q: Queue, pn: u32, named: set<u32>, missing: set<u32>, now: u32, r: TxOut)
    requires pn !in missing && Effect(Without(q, {pn}), named, missing, now, r)
    ensures Effect(q, {pn} + named, missing, now, r)
  {
    WithoutTwice(q, {pn}, named);
    OnlyWithout(q, {pn}, missing);
  }

  lemma MissingQueue(q: Queue, pn: u32, named: set<u32>, missing: set<u32>, now: u32)
    requires pn !in missing
    ensures Touch(Without(Touch(q, {pn}, now), named), missing, now) == Touch(Without(q, named), {pn} + missing, now)
  {
    WithoutTouch(q, named, {pn}, now);
    TouchTwice(Without(q, named), {pn}, missing, now);
  }

  lemma MissingSent(q: Queue, pn: u32, missing: set<u32>, now: u32)
    requires Ascending(q) && Has(q, pn) && (forall m :: m in missing ==> pn < m)
    ensures DataOf(Only(q, {pn} + missing))
         == [Data(pn, Lookup(q, pn).data)] + DataOf(Only(Touch(q, {pn}, now), missing))
  {
    OnlyTouch(q, {pn}, missing, now);
    OnlyLeast(q, pn, missing);
    DataOfCons(Lookup(q, pn), Only(q, missing));
  }

  lemma DataOfCons(e: Entry, q: Queue)
    ensures DataOf([e] + q) == [Data(e.pn, e.data)] + DataOf(q)
  {
  }

  lemma EffectMissing(q: Queue, pn: u32, named: set<u32>, missing: set<u32>, now: u32, r: TxOut)
    requires Ascending(q) && Has(q, pn) && (forall m :: m in missing ==> pn < m)
    requires Effect(Touch(q, {pn}, now), named, missing, now, r)
    ensures Effect(q, named, {pn} + missing, now, r.(sent := [Data(pn, Lookup(q, pn).data)] + r.sent))
  {
    MissingQueue(q, pn, named, missing, now);
    MissingSent(q, pn, missing, now);
  }

  /**
   * With every retransmission accepted, the queue loses exactly the named
   * numbers, and exactly the still-queued unnamed numbers up to the last named
   * one are retransmitted, oldest first.
   */
  lemma {:induction false} SackFromEffect(tx: Tx, base: u32, bitmap: Bytes, i: nat, last: nat, now: u32, fails: set<u32>)
    requires Ascending(tx.queue) && base + last < TWO_32
    requires forall p :: p in Bits(base, bitmap, i, last, false) && Has(tx.queue, p) ==> p !in fails
    ensures Effect(tx.queue, Bits(base, bitmap, i, last, true), Bits(base, bitmap, i, last, false), now,
                   SackFrom(tx, base, bitmap, i, last, now, fails))
    decreases last + 1 - i
  {
    hide Effect, Sack.BitIsSet, Has, Ascending, Without, Touch, Only, Window.Mark;
    if i > last {
      EffectNothing(tx, now);
    } else {
      var pn: u32 := base + i;
      assert Add32(base, i) == pn;
      var r := SackFrom(tx, base, bitmap, i, last, now, fails);
      var named, missing := Bits(base, bitmap, i + 1, last, true), Bits(base, bitmap, i + 1, last, false);
      BitsAbove(base, bitmap, i + 1, last, false);
      if !Has(tx.queue, pn) {
        SackFromEffect(tx, base, bitmap, i + 1, last, now, fails);
        EffectAbsent(tx.queue, pn, named, missing, now, r);
      } else if Sack.BitIsSet(bitmap, i) {
        var tx' := tx.(win := Window.Mark(tx.win, pn), queue := Without(tx.queue, {pn}));
        WithoutTail(tx.queue, {pn});
        WithoutFewer(tx.queue, {pn});
        SackFromEffect(tx', base, bitmap, i + 1, last, now, fails);
        EffectNamed(tx.queue, pn, named, missing, now, r);
      } else {
        var tx' := tx.(queue := Touch(tx.queue, {pn}, now));
        TouchHas(tx.queue, pn, now);
        SackFromEffect(tx', base, bitmap, i + 1, last, now, fails);
        EffectMissing(tx.queue, pn, named, missing, now, SackFrom(tx', base, bitmap, i + 1, last, now, fails));
      }
    }
  }

  lemma WithoutFewer(q: Queue, gone: set<u32>)
    ensures forall p: u32 :: Has(Without(q, gone), p) ==> Has(q, p)
  {
  }

  lemma TouchHas(q: Queue, pn: u32, now: u32)
    requires Ascending(q)
    ensures Ascending(Touch(q, {pn}, now))
    ensures forall p: u32 :: Has(Touch(q, {pn}, now), p) ==> Has(q, p)
  {
    var t := Touch(q, {pn}, now);
    forall p: u32 | Has(t, p) ensures Has(q, p) {
      var k :| 0 <= k < |t| && t[k].pn == p;
      assert q[k] in q;
    }
  }

  lemma TouchNone(q: Queue, now: u32)
    ensures Touch(q, {}, now) == q
  {
  }

  lemma {:induction false} OnlyNone(q: Queue)
    ensures Only(q, {}) == []
  {
    if q != [] { OnlyNone(q[1..]); }
  }

  lemma SkipAbsent(q: Queue, pn: u32, named: set<u32>, missing: set<u32>, now: u32)
    requires !Has(q, pn)
    ensures Without(q, named) == Without(q, {pn} + named)
    ensures Only(q, missing) == Only(q, {pn} + missing)
  {
    WithoutNone(q, {pn});
    WithoutTwice(q, {pn}, named);
    assert forall e :: e in q ==> Has(q, e.pn);
    OnlySame(q, pn, missing);
  }

  lemma SkipAbsentTouch(q: Queue, pn: u32, missing: set<u32>, now: u32)
    requires forall e :: e in q ==> e.pn != pn
    ensures Touch(q, missing, now) == Touch(q, {pn} + missing, now)
  {
  }
}
