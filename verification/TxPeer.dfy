/**
 * The sending peer as the code keeps it: the linked and indexed wait-ACK queue
 * and the sliding window, both updated in place. Every method is proved against
 * the value-level `Sender` functions.
 */
module TxPeer {
  import opened Base
  import opened AckRanges
  import opened ReliableQueue
  import opened Sender
  import Reliable
  import opened Deadline
  import Retry
  import Sack
  import Window

  // ---- The queue's packets as entries ----

  ghost function EntryOf(p: Packet): Reliable.Entry
    reads p`retries, p`sentAt, p`timeout
  {
    Reliable.Entry(p.pn, p.data, p.retries, p.sentAt, p.timeout, p.initialTimeout)
  }

  ghost function Entries(s: seq<Packet>): (r: Reliable.Queue)
    reads SetOf(s)`retries, SetOf(s)`sentAt, SetOf(s)`timeout
    ensures |r| == |s|
    ensures forall i :: 0 <= i < |s| ==> r[i] == EntryOf(s[i])
  {
    if s == [] then [] else
      assert forall p :: p in s[1..] ==> p in s;
      [EntryOf(s[0])] + Entries(s[1..])
  }

  ghost predicate DistinctKeys(s: seq<Packet>) {
    forall i, j :: 0 <= i < j < |s| ==> s[i].pn != s[j].pn
  }

  ghost predicate AllTo(s: seq<Packet>, target: u16) {
    forall i :: 0 <= i < |s| ==> s[i].target == target
  }

  /** The packets whose number is not in `gone`. */
  ghost function Kept(s: seq<Packet>, gone: set<nat>): seq<Packet> {
    if s == [] then []
    else if s[0].pn in gone then Kept(s[1..], gone)
    else [s[0]] + Kept(s[1..], gone)
  }

  lemma {:induction false} KeptSubset(s: seq<Packet>, gone: set<nat>)
    ensures forall i :: 0 <= i < |Kept(s, gone)| ==> Kept(s, gone)[i] in s && Kept(s, gone)[i].pn !in gone
    ensures |Kept(s, gone)| <= |s|
  {
    if s != [] {
      KeptSubset(s[1..], gone);
    }
  }

  lemma ConsKeys(p: Packet, r: seq<Packet>, target: u16)
    requires DistinctKeys(r) && AllTo(r, target) && p.target == target
    requires forall i :: 0 <= i < |r| ==> r[i].pn != p.pn
    ensures DistinctKeys([p] + r) && AllTo([p] + r, target)
  {
  }

  lemma {:induction false} KeptKeys(s: seq<Packet>, gone: set<nat>, target: u16)
    requires DistinctKeys(s) && AllTo(s, target)
    ensures DistinctKeys(Kept(s, gone)) && AllTo(Kept(s, gone), target)
  {
    if s != [] {
      KeptKeys(s[1..], gone, target);
      KeptSubset(s[1..], gone);
      var r := Kept(s[1..], gone);
      forall i | 0 <= i < |r| ensures r[i].pn != s[0].pn {
        var j :| 1 <= j < |s| && s[j] == r[i];
      }
      assert s[0].target == target;
      hide DistinctKeys, AllTo;
      ConsKeys(s[0], r, target);
    }
  }

  lemma {:induction false} KeptEntries(s: seq<Packet>, gone: set<u32>)
    ensures Entries(Kept(s, gone)) == Reliable.Without(Entries(s), gone)
  {
    if s != [] {
      KeptEntries(s[1..], gone);
      assert Entries(s)[1..] == Entries(s[1..]);
    }
  }

  lemma {:induction false} KeptTwice(s: seq<Packet>, a: set<nat>, b: set<nat>)
    ensures Kept(Kept(s, a), b) == Kept(s, a + b)
  {
    if s != [] {
      KeptTwice(s[1..], a, b);
    }
  }

  lemma {:induction false} KeptAll(s: seq<Packet>, gone: set<nat>)
    requires forall i :: 0 <= i < |s| ==> s[i].pn !in gone
    ensures Kept(s, gone) == s
  {
    if s != [] {
      KeptAll(s[1..], gone);
    }
  }

  lemma {:induction false} KeptOne(s: seq<Packet>, i: nat)
    requires i < |s| && DistinctKeys(s)
    ensures Kept(s, {s[i].pn}) == RemoveNth(s, i)
  {
    if i == 0 {
      KeptAll(s[1..], {s[0].pn});
    } else {
      KeptOne(s[1..], i - 1);
      assert RemoveNth(s, i) == [s[0]] + RemoveNth(s[1..], i - 1);
    }
  }

  /** With distinct keys, removing by key is filtering by number. */
  lemma RemoveNewestIsKept(s: seq<Packet>, pn: u32, target: u16)
    requires DistinctKeys(s) && AllTo(s, target)
    ensures RemoveNewest(s, pn, target) == Kept(s, {pn})
    ensures Newest(s, pn, target) == null <==> forall i :: 0 <= i < |s| ==> s[i].pn != pn
  {
    NewestMember(s, pn, target);
    var p := Newest(s, pn, target);
    if p == null {
      forall i | 0 <= i < |s| ensures s[i].pn != pn {
        assert s[i] in s;
      }
      KeptAll(s, {pn});
    } else {
      KeptOne(s, IndexOf(s, p));
    }
  }

  lemma OneRemoved(s: seq<Packet>, pn: u32, target: u16)
    requires DistinctKeys(s) && AllTo(s, target)
    ensures |RemoveNewest(s, pn, target)| == if Newest(s, pn, target) == null then |s| else |s| - 1
  {
    NewestMember(s, pn, target);
  }

  class Peer {
    const queue: Queue
    const window: Window.SlidingWindow
    const maxRetry: u8
    const target: u16
    var earliestDeadline: u32

    ghost predicate Valid()
      reads queue`head, queue`tail, queue`count, queue`order, queue.buckets
      reads SetOf(queue.order)`next, SetOf(queue.order)`prev, SetOf(queue.order)`indexNext
      reads window
    {
      && queue.Valid() && window.Valid()
      && DistinctKeys(queue.order) && AllTo(queue.order, target)
    }

    ghost function View(): Tx
      reads queue`order, window, window.ackReceived
      reads SetOf(queue.order)`retries, SetOf(queue.order)`sentAt, SetOf(queue.order)`timeout
    {
      Tx(window.View(), Entries(queue.order), maxRetry)
    }

    constructor (windowSize: u8, maxRetry: u8, target: u16)
      requires 1 <= windowSize <= 128
      ensures Valid() && View() == Tx(Window.State(0, 0, Window.Falses(windowSize)), [], maxRetry)
      ensures fresh(queue) && fresh(queue.buckets) && fresh(window) && fresh(window.ackReceived)
    {
      window := new Window.SlidingWindow(windowSize);
      queue := new Queue();
      this.maxRetry, this.target, earliestDeadline := maxRetry, target, 0;
    }

    /** Removes the packet numbered `pn`, if it is queued. */
    method RemoveOne(pn: u32) returns (status: Status)
      requires Valid()
      modifies queue, queue.buckets, SetOf(queue.order)`next, SetOf(queue.order)`prev, SetOf(queue.order)`indexNext
      ensures Valid() && queue.order == Kept(old(queue.order), {pn})
      ensures SetOf(queue.order) <= old(SetOf(queue.order))
      ensures if status.Ok? then |queue.order| == |old(queue.order)| - 1 else queue.order == old(queue.order)
    {
      ghost var s := queue.order;
      RemoveNewestIsKept(s, pn, target);
      OneRemoved(s, pn, target);
      KeptKeys(s, {pn}, target);
      KeptSets(s, {pn});
      hide Queue.Valid, SetOf, DistinctKeys, AllTo, Kept, RemoveNewest, Newest;
      status := queue.Remove(pn, target);
    }

    /** Removes the packets numbered `low..high`, from the top down. */
    method RemoveBlock(low: nat, high: u32) returns (removed: nat)
      requires Valid() && low <= high
      modifies queue, queue.buckets, SetOf(queue.order)`next, SetOf(queue.order)`prev, SetOf(queue.order)`indexNext
      ensures Valid() && queue.order == Kept(old(queue.order), Span(low, high))
      ensures SetOf(queue.order) <= old(SetOf(queue.order))
      ensures removed == |old(queue.order)| - |queue.order|
    {
      hide *;
      ghost var order := queue.order;
      removed := 0;
      var pn := high;
      KeptAll(order, {});
      SpanEmpty(high);
      while true
        invariant Valid() && low <= pn <= high
        invariant queue.order == Kept(order, Span(pn + 1, high))
        invariant removed == |order| - |queue.order|
        invariant SetOf(queue.order) <= SetOf(order)
        decreases pn
      {
        KeptTwice(order, Span(pn + 1, high), {pn});
        SpanDown(pn, high);
        var status := RemoveOne(pn);
        if status.Ok? {
          removed := removed + 1;
        }
        if pn == low {
          break;
        }
        pn := pn - 1;
      }
    }

    /** The descending walk over all ranges; returns how many packets it removed. */
    method RemoveAckRanges(largest: u32, ranges: seq<AckRange>) returns (removed: nat)
      requires Valid()
      modifies queue, queue.buckets, SetOf(queue.order)`next, SetOf(queue.order)`prev, SetOf(queue.order)`indexNext
      ensures Valid() && queue.order == Kept(old(queue.order), AckSet(largest, ranges))
      ensures SetOf(queue.order) <= old(SetOf(queue.order))
      ensures removed == |old(queue.order)| - |queue.order|
    {
      ghost var order := queue.order;
      ghost var seen: set<nat> := {};
      removed := 0;
      var nextHigh: u32 := largest;
      KeptAll(order, {});
      hide Valid, SetOf, Kept, Span, WalkSet;
      for i := 0 to |ranges|
        invariant Valid() && queue.order == Kept(order, seen)
        invariant seen + WalkSet(nextHigh, ranges, i) == AckSet(largest, ranges)
        invariant removed == |order| - |queue.order|
        invariant SetOf(queue.order) <= SetOf(order)
      {
        WalkSkips(nextHigh, ranges, i);
        if ranges[i].length == 0 {
          continue;
        }
        var high: int := nextHigh;
        if i > 0 {
          var skip := ranges[i].gap + 1;
          if high < skip {
            return;
          }
          high := high - skip;
        }
        var low := 0;
        if high + 1 > ranges[i].length {
          low := high - ranges[i].length + 1;
        }
        WalkBlock(seen, nextHigh, ranges, i, low, high);
        KeptTwice(order, seen, Span(low, high));
        var n := RemoveBlock(low, high);
        removed := removed + n;
        seen := seen + Span(low, high);
        nextHigh := low;
      }
      WalkEnds(nextHigh, ranges);
    }

    /** Marks `low..high` in the window, from the top down. */
    method MarkBlock(low: nat, high: u32)
      requires window.Valid() && low <= high
      modifies window.ackReceived
      ensures window.Valid() && window.View() == MarkSet(old(window.View()), Span(low, high))
    {
      ghost var w := window.View();
      var pn := high;
      MarkNothing(w, high);
      hide Span, MarkSet, Window.Mark, Window.SlidingWindow.View, Window.SlidingWindow.Valid;
      while true
        invariant window.Valid() && low <= pn <= high
        invariant window.View() == MarkSet(w, Span(pn + 1, high))
        decreases pn
      {
        MarkOneMore(w, Span(pn + 1, high), pn);
        SpanDown(pn, high);
        var status := window.MarkAck(pn);
        if pn == low {
          break;
        }
        pn := pn - 1;
      }
    }

    /** The same descending walk, marking the window; then the base slides. */
    method MarkAckRangeWindows(largest: u32, ranges: seq<AckRange>)
      requires window.Valid()
      modifies window`base, window.ackReceived
      ensures window.Valid()
      ensures window.View() == Window.Advance(MarkSet(old(window.View()), AckSet(largest, ranges)))
    {
      ghost var w := window.View();
      ghost var seen: set<nat> := {};
      var nextHigh: u32 := largest;
      assert MarkSet(w, {}) == w;
      hide Span, WalkSet, MarkSet, Window.Advance, Window.SlidingWindow.View, Window.SlidingWindow.Valid;
      for i := 0 to |ranges|
        invariant window.Valid() && window.View() == MarkSet(w, seen)
        invariant seen + WalkSet(nextHigh, ranges, i) == AckSet(largest, ranges)
      {
        WalkSkips(nextHigh, ranges, i);
        if ranges[i].length == 0 {
          continue;
        }
        var high: int := nextHigh;
        if i > 0 {
          var skip := ranges[i].gap + 1;
          if high < skip {
            seen := seen + WalkSet(nextHigh, ranges, i);
            break;
          }
          high := high - skip;
        }
        var low := 0;
        if high + 1 > ranges[i].length {
          low := high - ranges[i].length + 1;
        }
        WalkBlock(seen, nextHigh, ranges, i, low, high);
        MarkTwice(w, seen, Span(low, high));
        MarkBlock(low, high);
        seen := seen + Span(low, high);
        nextHigh := low;
      }
      WalkEnds(nextHigh, ranges);
      var advanced := window.AdvanceBase();
    }

    method RemoveAcked(largest: u32, ranges: seq<AckRange>) returns (removed: nat)
      requires Valid()
      modifies queue, queue.buckets, SetOf(queue.order)`next, SetOf(queue.order)`prev, SetOf(queue.order)`indexNext
      ensures Valid() && View() == old(View()).(queue := Reliable.Without(old(View()).queue, Acknowledged(largest, ranges)))
      ensures removed == |old(View()).queue| - |View().queue|
      ensures SetOf(queue.order) <= old(SetOf(queue.order))
    {
      AckSetSmall(largest, ranges);
      KeptEntries(queue.order, Acknowledged(largest, ranges));
      hide Valid, SetOf, Kept, AckSet;
      removed := RemoveAckRanges(largest, ranges);
      EntriesUnmoved(queue.order);
    }

    method SlideAcked(largest: u32, ranges: seq<AckRange>)
      requires Valid()
      modifies window`base, window.ackReceived
      ensures Valid() && queue.order == old(queue.order)
      ensures View() == old(View()).(win := Window.Advance(MarkSet(old(View()).win, AckSet(largest, ranges))))
    {
      hide Queue.ListOk, Queue.IndexOk, SetOf, AckSet, DistinctKeys, AllTo, MarkSet, Window.Advance;
      MarkAckRangeWindows(largest, ranges);
      EntriesUnmoved(queue.order);
      queue.ListUnmoved(queue.order);
      queue.IndexUnmoved(queue.order);
    }

    /** An ACK-range extension that arrives for this peer. */
    method ProcessAckRanges(largest: u32, ranges: seq<AckRange>) returns (status: Status)
      requires Valid()
      modifies queue, queue.buckets, SetOf(queue.order)`next, SetOf(queue.order)`prev, SetOf(queue.order)`indexNext
      modifies window`base, window.ackReceived, this`earliestDeadline
      ensures Valid() && SetOf(queue.order) <= old(SetOf(queue.order))
      ensures TxOut(View(), [], status) == OnAck(old(View()), largest, ranges)
      ensures Timed(View(), earliestDeadline) == Happen(old(Timed(View(), earliestDeadline)), GetsAck(largest, ranges))
    {
      hide Valid, View, SetOf, AckSet, MarkSet, Window.Advance, Reliable.Without, Earliest;
      assert forall q: Reliable.Queue, g: set<u32> :: |Reliable.Without(q, g)| == |q| ==> Reliable.Without(q, g) == q by {
        WithoutSame();
      }
      var removed := RemoveAcked(largest, ranges);
      if removed == 0 {
        return SequenceError;
      }
      SlideAcked(largest, ranges);
      UpdateDeadline();
      return Ok;
    }

    /** Recomputes the cached deadline from the whole list. */
    method UpdateDeadline()
      requires Valid()
      modifies this`earliestDeadline
      ensures Valid() && View() == old(View())
      ensures earliestDeadline == Earliest(View().queue, 0)
    {
      hide SetOf, DistinctKeys, AllTo, Queue.ListOk, Queue.IndexOk, Add32, Sub32, Signed, Earliest, Sooner;
      queue.FollowsList();
      earliestDeadline := 0;
      var node := queue.head;
      ghost var i := 0;
      ghost var q := Entries(queue.order);
      assert q[0..] == q;
      while node != null
        invariant 0 <= i <= |queue.order| && node == At(queue.order, i)
        invariant Earliest(q, 0) == Earliest(q[i..], earliestDeadline)
        decreases |queue.order| - i
      {
        assert q[i] == EntryOf(node);
        EarliestStep(q, i, earliestDeadline);
        if node.sentAt != 0 && node.timeout > 0 {
          var deadline := Add32(node.sentAt, node.timeout);
          if earliestDeadline == 0 || Signed(Sub32(deadline, earliestDeadline)) < 0 {
            earliestDeadline := deadline;
          }
        }
        node := node.next;
        i := i + 1;
      }
      EarliestDone(q, i, earliestDeadline);
      queue.ListUnmoved(queue.order);
      queue.IndexUnmoved(queue.order);
    }

    /** Sends a queued packet again; only success changes its retry state. */
    method Retransmit(p: Packet, now: u32, sendOk: bool) returns (status: Status)
      requires Valid() && p in queue.order
      modifies p`retries, p`timeout, p`sentAt
      ensures Valid() && queue.order == old(queue.order)
      ensures status == if sendOk then Ok else TxFailed
      ensures View() == if sendOk then old(View()).(queue := Reliable.Touch(old(View()).queue, {p.pn}, now)) else old(View())
    {
      hide Queue.ListOk, Queue.IndexOk, SetOf, AllTo, DistinctKeys;
      if !sendOk {
        return TxFailed;
      }
      TouchPacket(p, now);
      queue.ListUnmoved(queue.order);
      queue.IndexUnmoved(queue.order);
      return Ok;
    }

    method TouchPacket(p: Packet, now: u32)
      requires DistinctKeys(queue.order) && p in queue.order
      modifies p`retries, p`timeout, p`sentAt
      ensures Entries(queue.order) == Reliable.Touch(old(Entries(queue.order)), {p.pn}, now)
    {
      ghost var before := Entries(queue.order);
      SameNumberSamePacket(queue.order, p);
      hide DistinctKeys, Reliable.Backoff, Reliable.Touch, Reliable.Resent;
      CountRetry(p, now);
      TouchOne(queue.order, before, p.pn, now);
    }

    method CountRetry(p: Packet, now: u32)
      modifies p`retries, p`timeout, p`sentAt
      ensures EntryOf(p) == Reliable.Resent(old(EntryOf(p)), now)
    {
      p.retries := (p.retries + 1) % 256;
      p.timeout := Retry.CalcBackoff(p.initialTimeout, p.retries);
      p.sentAt := now;
    }

    /** Index lookup, in terms of the queue of entries. */
    method FindQueued(pn: u32) returns (p: Packet?)
      requires Valid()
      ensures p == null <==> !Reliable.Has(View().queue, pn)
      ensures p != null ==> p in queue.order && p.pn == pn && p.data == Reliable.Lookup(View().queue, pn).data
    {
      p := queue.Find(pn, target);
      FoundIsLookup(queue.order, pn, target);
    }

    method RemoveQueued(pn: u32)
      requires Valid()
      modifies queue, queue.buckets, SetOf(queue.order)`next, SetOf(queue.order)`prev, SetOf(queue.order)`indexNext
      ensures Valid() && SetOf(queue.order) <= old(SetOf(queue.order))
      ensures queue.order == Kept(old(queue.order), {pn})
      ensures View() == old(View()).(queue := Reliable.Without(old(View()).queue, {pn}))
    {
      hide Valid, SetOf, Kept, Reliable.Without, Entries;
      KeptEntries(queue.order, {pn});
      var removed := RemoveOne(pn);
      EntriesUnmoved(queue.order);
    }

    method MarkWindow(pn: u32)
      requires Valid()
      modifies window.ackReceived
      ensures Valid() && queue.order == old(queue.order)
      ensures View() == old(View()).(win := Window.Mark(old(View()).win, pn))
    {
      hide Queue.ListOk, Queue.IndexOk, SetOf, DistinctKeys, AllTo, Window.Mark;
      var marked := window.MarkAck(pn);
      EntriesUnmoved(queue.order);
      queue.ListUnmoved(queue.order);
      queue.IndexUnmoved(queue.order);
    }

    method SlideWindow()
      requires Valid()
      modifies window`base, window.ackReceived
      ensures Valid() && queue.order == old(queue.order)
      ensures View() == old(View()).(win := Window.Advance(old(View()).win))
    {
      hide Queue.ListOk, Queue.IndexOk, SetOf, DistinctKeys, AllTo, Window.Advance;
      var advanced := window.AdvanceBase();
      EntriesUnmoved(queue.order);
      queue.ListUnmoved(queue.order);
      queue.IndexUnmoved(queue.order);
    }

    /** One bit of a SACK: acknowledge it, or retransmit it if it is still queued. */
    method ApplySackBit(base: u32, bitmap: Bytes, i: nat, now: u32, fails: set<u32>) returns (sent: seq<Msg>, status: Status)
      requires Valid()
      modifies queue, queue.buckets, SetOf(queue.order)`next, SetOf(queue.order)`prev, SetOf(queue.order)`indexNext
      modifies SetOf(queue.order)`retries, SetOf(queue.order)`timeout, SetOf(queue.order)`sentAt
      modifies window.ackReceived
      ensures Valid() && SetOf(queue.order) <= old(SetOf(queue.order))
      ensures TxOut(View(), sent, status) == SackOne(old(View()), base, bitmap, i, now, fails)
    {
      var pn := Add32(base, i);
      var p := FindQueued(pn);
      if p == null {
        return [], Ok;
      }
      assert p in SetOf(queue.order);
      hide Valid, View, SetOf, Sack.BitIsSet, Reliable.Has, Reliable.Without, Reliable.Touch, Window.Mark, Add32;
      if Sack.BitIsSet(bitmap, i) {
        Acknowledge(pn);
        return [], Ok;
      }
      status := Retransmit(p, now, pn !in fails);
      sent := if status.Ok? then [Data(pn, p.data)] else [];
    }

    /** Takes an acknowledged packet off the queue and marks its number. */
    method Acknowledge(pn: u32)
      requires Valid()
      modifies queue, queue.buckets, SetOf(queue.order)`next, SetOf(queue.order)`prev, SetOf(queue.order)`indexNext
      modifies window.ackReceived
      ensures Valid() && SetOf(queue.order) <= old(SetOf(queue.order))
      ensures View() == old(View()).(
        win := Window.Mark(old(View()).win, pn), queue := Reliable.Without(old(View()).queue, {pn}))
    {
      hide Valid, View, SetOf, Reliable.Without, Window.Mark;
      RemoveQueued(pn);
      MarkWindow(pn);
    }

    /** A SACK extension that arrives for this peer. */
    method ProcessSack(base: u32, bitmap: Bytes, now: u32, fails: set<u32>) returns (sent: seq<Msg>, status: Status)
      requires Valid()
      modifies queue, queue.buckets, SetOf(queue.order)`next, SetOf(queue.order)`prev, SetOf(queue.order)`indexNext
      modifies SetOf(queue.order)`retries, SetOf(queue.order)`timeout, SetOf(queue.order)`sentAt
      modifies window`base, window.ackReceived, this`earliestDeadline
      ensures Valid() && SetOf(queue.order) <= old(SetOf(queue.order))
      ensures TxOut(View(), sent, status) == OnSack(old(View()), base, bitmap, now, fails)
      ensures Timed(View(), earliestDeadline)
           == Happen(old(Timed(View(), earliestDeadline)), GetsSack(base, bitmap, now, fails))
    {
      if |bitmap| > Sack.SACK_DECODE_CAPACITY {
        return [], BufferTooSmall;
      }
      if |bitmap| == 0 {
        return [], InvalidFrame;
      }
      hide Valid, View, SetOf, OnSack, Happen, Sack.BitIsSet;
      var highest := None;
      for i := 0 to 8 * |bitmap|
        invariant highest == Sack.LastBit(bitmap, i)
      {
        if Sack.BitIsSet(bitmap, i) {
          highest := Some(i);
        }
      }
      sent, status := ApplySack(base, bitmap, highest, now, fails);
    }

    method ApplySack(base: u32, bitmap: Bytes, highest: Option<nat>, now: u32, fails: set<u32>) returns (sent: seq<Msg>, status: Status)
      requires Valid() && 0 < |bitmap| <= Sack.SACK_DECODE_CAPACITY && highest == Sack.HighestBit(bitmap)
      modifies queue, queue.buckets, SetOf(queue.order)`next, SetOf(queue.order)`prev, SetOf(queue.order)`indexNext
      modifies SetOf(queue.order)`retries, SetOf(queue.order)`timeout, SetOf(queue.order)`sentAt
      modifies window`base, window.ackReceived, this`earliestDeadline
      ensures Valid() && SetOf(queue.order) <= old(SetOf(queue.order))
      ensures TxOut(View(), sent, status) == OnSack(old(View()), base, bitmap, now, fails)
      ensures Timed(View(), earliestDeadline)
           == Happen(old(Timed(View(), earliestDeadline)), GetsSack(base, bitmap, now, fails))
    {
      hide Valid, View, SetOf, Sack.BitIsSet, Sack.HighestBit, SackFrom, Window.Advance, Reliable.Touch, Earliest;
      if highest.None? {
        sent, status := RetransmitBase(base, now, base !in fails);
        return;
      }
      sent, status := ApplySackBits(base, bitmap, highest.value, now, fails);
      if status.Ok? {
        SlideWindow();
        UpdateDeadline();
      }
    }

    /** A SACK that names nothing asks for its base again. */
    method RetransmitBase(base: u32, now: u32, sendOk: bool) returns (sent: seq<Msg>, status: Status)
      requires Valid()
      modifies SetOf(queue.order)`retries, SetOf(queue.order)`timeout, SetOf(queue.order)`sentAt
      ensures Valid() && queue.order == old(queue.order)
      ensures TxOut(View(), sent, status) ==
        if !Reliable.Has(old(View()).queue, base) then TxOut(old(View()), [], SequenceError)
        else if !sendOk then TxOut(old(View()), [], TxFailed)
        else TxOut(old(View()).(queue := Reliable.Touch(old(View()).queue, {base}, now)),
                   [Data(base, Reliable.Lookup(old(View()).queue, base).data)], Ok)
    {
      var p := FindQueued(base);
      if p == null {
        return [], SequenceError;
      }
      assert p in SetOf(queue.order);
      hide Valid, View, SetOf, Reliable.Has, Reliable.Touch;
      status := Retransmit(p, now, sendOk);
      sent := if status.Ok? then [Data(base, p.data)] else [];
    }

    method ApplySackBits(base: u32, bitmap: Bytes, last: nat, now: u32, fails: set<u32>) returns (sent: seq<Msg>, status: Status)
      requires Valid()
      modifies queue, queue.buckets, SetOf(queue.order)`next, SetOf(queue.order)`prev, SetOf(queue.order)`indexNext
      modifies SetOf(queue.order)`retries, SetOf(queue.order)`timeout, SetOf(queue.order)`sentAt
      modifies window.ackReceived
      ensures Valid() && SetOf(queue.order) <= old(SetOf(queue.order))
      ensures TxOut(View(), sent, status) == SackFrom(old(View()), base, bitmap, 0, last, now, fails)
    {
      hide Valid, View, SetOf, SackOne, SackFrom;
      sent := [];
      var i := 0;
      while i <= last
        invariant 0 <= i <= last + 1 && Valid() && SetOf(queue.order) <= old(SetOf(queue.order))
        invariant SackFrom(old(View()), base, bitmap, 0, last, now, fails)
               == SentBefore(sent, SackFrom(View(), base, bitmap, i, last, now, fails))
      {
        SackFromStep(View(), base, bitmap, i, last, now, fails);
        var more, s := ApplySackBit(base, bitmap, i, now, fails);
        sent := sent + more;
        if !s.Ok? {
          return sent, s;
        }
        i := i + 1;
      }
      SackFromDone(View(), base, bitmap, i, last, now, fails);
      return sent, Ok;
    }

    /** One node of the timeout walk; `gone` reports a packet that ran out of retries. */
    method TickNode(p: Packet, now: u32, fails: set<u32>, ghost k: nat) returns (sent: seq<Msg>, gone: bool)
      requires Valid() && k < |queue.order| && queue.order[k] == p
      modifies queue, queue.buckets, SetOf(queue.order)`next, SetOf(queue.order)`prev, SetOf(queue.order)`indexNext
      modifies SetOf(queue.order)`retries, SetOf(queue.order)`timeout, SetOf(queue.order)`sentAt
      ensures Valid() && SetOf(queue.order) <= old(SetOf(queue.order))
      ensures queue.order == if gone then RemoveNth(old(queue.order), k) else old(queue.order)
      ensures Ticked(old(View()).queue, k, now, maxRetry, fails, View().queue, sent, gone)
      ensures View().win == old(View()).win
    {
      ghost var q := View().queue;
      assert p in SetOf(queue.order) && q[k] == EntryOf(p);
      TouchIsUpdate(queue.order, k, now);
      WithoutIsCut(queue.order, k);
      TickedCases(q, k, now, maxRetry, fails);
      hide Valid, SetOf, Ticked, Reliable.Touch, Reliable.Without, Reliable.Resent, Window.SlidingWindow.View, Entries, Cut, RemoveNth, Kept;
      if p.sentAt == 0 || Sub32(now, p.sentAt) < Retry.AsUnsigned(p.timeout) {
        return [], false;
      }
      if p.retries >= maxRetry {
        RemoveQueued(p.pn);
        return [], true;
      }
      var status := Retransmit(p, now, p.pn !in fails);
      return if status.Ok? then [Data(p.pn, p.data)] else [], false;
    }

    /** The safe walk: the successor is read before the node may be unlinked. */
    method WalkTimeouts(now: u32, fails: set<u32>) returns (sent: seq<Msg>, reported: nat)
      requires Valid()
      modifies queue, queue.buckets, SetOf(queue.order)`next, SetOf(queue.order)`prev, SetOf(queue.order)`indexNext
      modifies SetOf(queue.order)`retries, SetOf(queue.order)`timeout, SetOf(queue.order)`sentAt
      ensures Valid() && SetOf(queue.order) <= old(SetOf(queue.order))
      ensures TxOut(View(), sent, Ok) == Tick(old(View()), now, fails)
      ensures reported == |Retry.TickDropped(old(View()).queue, now, maxRetry)|
    {
      ViewIs();
      hide Valid, View, SetOf, Walked, Ticked;
      ghost var q := View().queue;
      sent, reported := [], 0;
      var node := First();
      ghost var k := 0;
      WalkedNone(q, now, maxRetry, fails);
      while node != null
        invariant Valid() && SetOf(queue.order) <= old(SetOf(queue.order))
        invariant 0 <= k <= |queue.order| && node == At(queue.order, k)
        invariant View().win == old(View()).win
        invariant Walked(q, View().queue, k, now, maxRetry, fails, sent, reported)
        decreases |queue.order| - k
      {
        ghost var before := View().queue;
        var more, gone, next := StepWalk(node, now, fails, k);
        WalkedStep(q, before, k, now, maxRetry, fails, sent, reported, View().queue, more, gone);
        node := next;
        sent := sent + more;
        if gone {
          reported := reported + 1;
        } else {
          k := k + 1;
        }
      }
      ViewIs();
      WalkedAll(q, View().queue, now, maxRetry, fails, sent, reported);
    }

    lemma ViewIs()
      ensures |View().queue| == |queue.order| && View().maxRetry == maxRetry
    {
    }

    method First() returns (n: Packet?)
      requires Valid()
      ensures Valid() && View() == old(View()) && n == At(queue.order, 0)
    {
      queue.HeadIsFirst();
      n := queue.head;
    }

    method StepWalk(p: Packet, now: u32, fails: set<u32>, ghost k: nat) returns (sent: seq<Msg>, gone: bool, next: Packet?)
      requires Valid() && k < |queue.order| && queue.order[k] == p
      modifies queue, queue.buckets, SetOf(queue.order)`next, SetOf(queue.order)`prev, SetOf(queue.order)`indexNext
      modifies SetOf(queue.order)`retries, SetOf(queue.order)`timeout, SetOf(queue.order)`sentAt
      ensures Valid() && SetOf(queue.order) <= old(SetOf(queue.order))
      ensures |queue.order| == |old(queue.order)| - (if gone then 1 else 0)
      ensures next == At(queue.order, if gone then k else k + 1)
      ensures Ticked(old(View()).queue, k, now, maxRetry, fails, View().queue, sent, gone)
      ensures View().win == old(View()).win
    {
      Successor(queue.order, k);
      next := NextOf(p, k);
      hide Valid, View, SetOf, Ticked, RemoveNth, At;
      sent, gone := TickNode(p, now, fails, k);
    }

    method NextOf(p: Packet, ghost k: nat) returns (n: Packet?)
      requires Valid() && k < |queue.order| && queue.order[k] == p
      ensures Valid() && View() == old(View()) && n == At(queue.order, k + 1)
    {
      queue.FollowsList();
      n := p.next;
    }

    /** A timeout tick: retransmit or give up what is due, then refresh the cached deadline. */
    method ProcessTimeouts(now: u32, fails: set<u32>) returns (sent: seq<Msg>, reported: nat)
      requires Valid()
      modifies queue, queue.buckets, SetOf(queue.order)`next, SetOf(queue.order)`prev, SetOf(queue.order)`indexNext
      modifies SetOf(queue.order)`retries, SetOf(queue.order)`timeout, SetOf(queue.order)`sentAt
      modifies this`earliestDeadline
      ensures Valid() && SetOf(queue.order) <= old(SetOf(queue.order))
      ensures TxOut(View(), sent, Ok) == Tick(old(View()), now, fails)
      ensures reported == |Retry.TickDropped(old(View()).queue, now, maxRetry)|
      ensures Timed(View(), earliestDeadline)
           == Happen(old(Timed(View(), earliestDeadline)), Ticks(now, fails))
    {
      hide Valid, View, SetOf, Earliest, Retry.TickQueue, Retry.TickDropped;
      sent, reported := WalkTimeouts(now, fails);
      UpdateDeadline();
    }

    /** A reset of the session: queue and window start over, the cached deadline is left as it is. */
    method Reset()
      requires Valid()
      modifies queue, queue.buckets, SetOf(queue.order)`next, SetOf(queue.order)`prev, SetOf(queue.order)`indexNext
      modifies window, window.ackReceived
      ensures Valid() && queue.order == []
      ensures Timed(View(), earliestDeadline) == Happen(old(Timed(View(), earliestDeadline)), Resets)
    {
      hide Valid, View, SetOf, Window.Fresh;
      ClearQueue();
      ClearWindow();
    }

    method ClearQueue()
      requires Valid()
      modifies queue, queue.buckets, SetOf(queue.order)`next, SetOf(queue.order)`prev, SetOf(queue.order)`indexNext
      ensures Valid() && queue.order == [] && View() == old(View()).(queue := [])
    {
      hide Queue.Valid, SetOf, AllTo, DistinctKeys;
      EmptyFits(target);
      queue.Clear();
    }

    method ClearWindow()
      requires Valid()
      modifies window, window.ackReceived
      ensures Valid() && queue.order == old(queue.order) && View() == old(View()).(win := Window.Fresh(old(View()).win))
    {
      hide Queue.ListOk, Queue.IndexOk, SetOf, AllTo, DistinctKeys;
      window.Reset();
      EntriesUnmoved(queue.order);
      queue.ListUnmoved(queue.order);
      queue.IndexUnmoved(queue.order);
    }

    /** Queues a packet and finds it again through the index. */
    method QueueReliable(data: Bytes, timeout: int, allocOk: bool) returns (p: Packet?, status: Status)
      requires Valid() && forall k :: 0 <= k < |queue.order| ==> queue.order[k].pn != window.next
      modifies queue, queue.buckets, SetOf(queue.order)`next
      ensures Valid()
      ensures status == if |data| == 0 then InvalidParam else if !allocOk then NoMemory else Ok
      ensures status.Ok? <==> p != null
      ensures if p == null then queue.order == old(queue.order) else queue.order == old(queue.order) + [p]
      ensures p != null ==> fresh(p) && p.pn == window.next && p.data == data && p.initialTimeout == timeout
      ensures p != null ==> p.retries == 0 && p.sentAt == 0 && p.timeout == timeout
      ensures View().win == old(View()).win && SetOf(queue.order) <= old(SetOf(queue.order)) + (if p == null then {} else {p})
    {
      ghost var s := queue.order;
      hide Queue.Valid, SetOf, DistinctKeys, AllTo, Newest, Window.SlidingWindow.View, Window.SlidingWindow.Valid;
      var q: Packet?;
      q, status := AddTail(data, timeout, allocOk);
      if q == null {
        return null, status;
      }
      SetOfAppended(s, q);
      AppendKeys(s, q, target);
      NewestIsLast(s, q);
      p := queue.Find(window.next, target);
    }

    method AddTail(data: Bytes, timeout: int, allocOk: bool) returns (p: Packet?, status: Status)
      requires queue.Valid() && window.Valid()
      modifies queue, queue.buckets, SetOf(queue.order)`next
      ensures queue.Valid() && window.Valid() && window.View() == old(window.View())
      ensures status == if |data| == 0 then InvalidParam else if !allocOk then NoMemory else Ok
      ensures status.Ok? <==> p != null
      ensures if p == null then queue.order == old(queue.order) else queue.order == old(queue.order) + [p]
      ensures p != null ==> fresh(p) && Matches(p, window.next, target) && p.data == data && p.initialTimeout == timeout
      ensures p != null ==> p.retries == 0 && p.sentAt == 0 && p.timeout == timeout
    {
      hide Queue.Valid, SetOf;
      p, status := queue.Add(window.next, target, data, timeout, allocOk);
    }

    method SendQueued(i: SendInput) returns (sent: seq<Msg>, status: Status)
      requires Valid() && !Reliable.Has(View().queue, window.next) && |i.data| > 0 && Window.CanSend(View().win)
      modifies queue, queue.buckets, SetOf(queue.order)`next, SetOf(queue.order)`prev, SetOf(queue.order)`indexNext
      modifies window`next, this`earliestDeadline
      ensures Valid()
      ensures forall p :: p in queue.order && p !in old(queue.order) ==> fresh(p)
      ensures TxOut(View(), sent, status) == Send(old(View()), i)
      ensures Timed(View(), earliestDeadline) == Happen(old(Timed(View(), earliestDeadline)), Sends(i))
    {
      ghost var q, win := View().queue, View().win;
      ViewNext();
      hide Valid, View, SetOf, Window.CanSend, Window.Commit, Earliest, Reliable.Has, Reliable.Without;
      var p;
      p, status := QueueNext(i.data, i.timeout, i.allocOk);
      if p == null {
        return [], status;
      }
      ghost var e := Reliable.Entry(win.next, i.data, 0, 0, i.timeout, i.timeout);
      if !i.sendOk {
        AppendedThenRemoved(q, e);
        ghost var order := queue.order;
        RemoveQueued(window.next);
        SubsetMembers(queue.order, order);
        return [], TxFailed;
      }
      CommitSent(p, i.now, q, e);
      UpdateDeadline();
      return [Data(p.pn, p.data)], Ok;
    }

    lemma ViewNext()
      ensures View().win.next == window.next && View().maxRetry == maxRetry
    {
    }

    method QueueNext(data: Bytes, timeout: int, allocOk: bool) returns (p: Packet?, status: Status)
      requires Valid() && !Reliable.Has(View().queue, window.next) && |data| > 0
      modifies queue, queue.buckets, SetOf(queue.order)`next
      ensures Valid() && SetOf(queue.order) <= old(SetOf(queue.order)) + (if p == null then {} else {p})
      ensures forall p :: p in queue.order && p !in old(queue.order) ==> fresh(p)
      ensures status == if !allocOk then NoMemory else Ok
      ensures status.Ok? <==> p != null
      ensures p != null ==> fresh(p) && p.pn == window.next && p.data == data && queue.order == old(queue.order) + [p]
      ensures View() == if p == null then old(View()) else
        old(View()).(queue := old(View()).queue + [Reliable.Entry(window.next, data, 0, 0, timeout, timeout)])
    {
      ghost var s := queue.order;
      NotQueued(s, window.next);
      hide Valid, SetOf, Entries, Window.SlidingWindow.View;
      p, status := QueueReliable(data, timeout, allocOk);
      EntriesUnmoved(s);
      if p != null {
        EntriesAppend(s, p);
      }
    }

    /** The lower layer took the packet: its number is spent and its clock starts. */
    method CommitSent(p: Packet, now: u32, ghost q: Reliable.Queue, ghost e: Reliable.Entry)
      requires Valid() && queue.order != [] && p == queue.order[|queue.order| - 1] && View().queue == q + [e]
      modifies window`next, p`sentAt
      ensures Valid() && queue.order == old(queue.order)
      ensures View() == old(View()).(win := Window.Commit(old(View()).win), queue := q + [e.(sentAt := now)])
    {
      hide Valid, View, SetOf;
      SpendNumber();
      StampSent(p, now, q, e);
    }

    method SpendNumber()
      requires Valid()
      modifies window`next
      ensures Valid() && queue.order == old(queue.order)
      ensures View() == old(View()).(win := Window.Commit(old(View()).win))
    {
      hide Queue.ListOk, Queue.IndexOk, SetOf, DistinctKeys, AllTo, Window.Commit;
      window.CommitNext();
      EntriesUnmoved(queue.order);
      queue.ListUnmoved(queue.order);
      queue.IndexUnmoved(queue.order);
    }

    method StampSent(p: Packet, now: u32, ghost q: Reliable.Queue, ghost e: Reliable.Entry)
      requires Valid() && queue.order != [] && p == queue.order[|queue.order| - 1] && View().queue == q + [e]
      modifies p`sentAt
      ensures Valid() && queue.order == old(queue.order)
      ensures View() == old(View()).(queue := q + [e.(sentAt := now)])
    {
      ghost var s := queue.order[..|queue.order| - 1];
      LastApart(queue.order);
      SplitLast(s, p, q, e);
      hide Queue.ListOk, Queue.IndexOk, SetOf, DistinctKeys, AllTo, Entries;
      p.sentAt := now;
      EntriesUnmoved(s);
      EntriesAppend(s, p);
      queue.ListUnmoved(queue.order);
      queue.IndexUnmoved(queue.order);
    }

    method HasRoom() returns (ok: bool)
      requires Valid()
      ensures Valid() && View() == old(View()) && queue.order == old(queue.order)
      ensures ok <==> Window.CanSend(View().win)
    {
      hide Queue.ListOk, Queue.IndexOk, SetOf, AllTo, DistinctKeys, Window.CanSend;
      ok := window.CanSendPacket();
      EntriesUnmoved(queue.order);
      queue.ListUnmoved(queue.order);
      queue.IndexUnmoved(queue.order);
    }

    /** Queue, transmit, commit; a refused transmission takes the packet out again. */
    method SendPacket(i: SendInput) returns (sent: seq<Msg>, status: Status)
      requires Valid() && !Reliable.Has(View().queue, window.next)
      modifies queue, queue.buckets, SetOf(queue.order)`next, SetOf(queue.order)`prev, SetOf(queue.order)`indexNext
      modifies window`next, this`earliestDeadline
      ensures Valid()
      ensures forall p :: p in queue.order && p !in old(queue.order) ==> fresh(p)
      ensures TxOut(View(), sent, status) == Send(old(View()), i)
      ensures Timed(View(), earliestDeadline) == Happen(old(Timed(View(), earliestDeadline)), Sends(i))
    {
      hide Valid, Happen, Send, SetOf, View, Reliable.Has;
      SendRefused(View(), earliestDeadline, i);
      if |i.data| == 0 {
        return [], InvalidParam;
      }
      var ok := HasRoom();
      if !ok {
        return [], WindowFull;
      }
      sent, status := SendQueued(i);
    }
  }

  lemma WalkedNone(q: Reliable.Queue, now: u32, maxRetry: u8, fails: set<u32>)
    ensures Walked(q, q, 0, now, maxRetry, fails, [], 0)
  {
    assert q[0..] == q;
  }

  /** After `k` survivors: they are final, and the rest is still to be walked. */
  ghost predicate Walked(q0: Reliable.Queue, q: Reliable.Queue, k: nat, now: u32, maxRetry: u8, fails: set<u32>,
                         sent: seq<Msg>, reported: nat)
  {
    && k <= |q|
    && Retry.TickQueue(q0, now, maxRetry, fails) == q[..k] + Retry.TickQueue(q[k..], now, maxRetry, fails)
    && DataOf(Retry.TickResent(q0, now, maxRetry, fails)) == sent + DataOf(Retry.TickResent(q[k..], now, maxRetry, fails))
    && |Retry.TickDropped(q0, now, maxRetry)| == reported + |Retry.TickDropped(q[k..], now, maxRetry)|
  }

  lemma WalkedStep(q0: Reliable.Queue, q: Reliable.Queue, k: nat, now: u32, maxRetry: u8, fails: set<u32>,
                   sent: seq<Msg>, reported: nat, q': Reliable.Queue, more: seq<Msg>, gone: bool)
    requires Walked(q0, q, k, now, maxRetry, fails, sent, reported)
    requires Ticked(q, k, now, maxRetry, fails, q', more, gone)
    ensures if gone then Walked(q0, q', k, now, maxRetry, fails, sent + more, reported + 1)
            else Walked(q0, q', k + 1, now, maxRetry, fails, sent + more, reported)
  {
    assert gone ==> more == [];
    hide Retry.Exhausted, Retry.Resends, Reliable.Resent, Walked, Cut;
    if gone {
      WalkedDrop(q0, q, k, now, maxRetry, fails, sent, reported);
      assert sent + [] == sent;
    } else {
      UpdateSlices(q, k, q'[k]);
      WalkedKeep(q0, q, k, now, maxRetry, fails, sent, reported);
    }
  }

  lemma WalkedDrop(q0: Reliable.Queue, q: Reliable.Queue, k: nat, now: u32, maxRetry: u8, fails: set<u32>,
                   sent: seq<Msg>, reported: nat)
    requires Walked(q0, q, k, now, maxRetry, fails, sent, reported) && k < |q| && Retry.Exhausted(q[k], now, maxRetry)
    ensures Walked(q0, Cut(q, k), k, now, maxRetry, fails, sent, reported + 1)
  {
    SplitAt(q, k);
    WalkedHead(q[k..], now, maxRetry, fails);
    hide Retry.Exhausted, Retry.Resends, Retry.TickQueue, Retry.TickResent, Retry.TickDropped, DataOf, Cut;
    var t := Retry.TickQueue(q[k + 1..], now, maxRetry, fails);
    var d := Retry.TickResent(q[k + 1..], now, maxRetry, fails);
    assert [] + t == t && [] + d == d;
  }

  lemma WalkedKeep(q0: Reliable.Queue, q: Reliable.Queue, k: nat, now: u32, maxRetry: u8, fails: set<u32>,
                   sent: seq<Msg>, reported: nat)
    requires Walked(q0, q, k, now, maxRetry, fails, sent, reported) && k < |q| && !Retry.Exhausted(q[k], now, maxRetry)
    ensures var again := Retry.Resends(q[k], now, maxRetry, fails);
      Walked(q0, q[k := if again then Reliable.Resent(q[k], now) else q[k]], k + 1, now, maxRetry, fails,
             sent + (if again then [Data(q[k].pn, q[k].data)] else []), reported)
  {
    var again := Retry.Resends(q[k], now, maxRetry, fails);
    var e := if again then Reliable.Resent(q[k], now) else q[k];
    SplitAt(q, k);
    UpdateSlices(q, k, e);
    WalkedHead(q[k..], now, maxRetry, fails);
    ResentHead(q[k], Retry.TickResent(q[k + 1..], now, maxRetry, fails), again, sent);
    hide Retry.Exhausted, Retry.Resends, Reliable.Resent, Retry.TickQueue, Retry.TickResent, Retry.TickDropped, DataOf, Cut;
    Regroup(q[..k], [e], Retry.TickQueue(q[k + 1..], now, maxRetry, fails));
  }

  lemma ResentHead(e: Reliable.Entry, r: Reliable.Queue, again: bool, sent: seq<Msg>)
    ensures sent + DataOf((if again then [e] else []) + r) == sent + (if again then [Data(e.pn, e.data)] else []) + DataOf(r)
  {
    DataOfCons(e, r);
    assert [] + r == r && sent + [] == sent;
    Regroup(sent, [Data(e.pn, e.data)], DataOf(r));
  }

  lemma Regroup<T>(a: seq<T>, b: seq<T>, c: seq<T>)
    ensures a + (b + c) == a + b + c
  {
  }

  lemma SplitAt(q: Reliable.Queue, k: nat)
    requires k < |q|
    ensures q[k..][0] == q[k] && q[k..][1..] == q[k + 1..]
    ensures |Cut(q, k)| == |q| - 1 && Cut(q, k)[k..] == q[k + 1..] && Cut(q, k)[..k] == q[..k]
  {
  }

  lemma UpdateSlices(q: Reliable.Queue, k: nat, e: Reliable.Entry)
    requires k < |q|
    ensures q[k := e][k + 1..] == q[k + 1..] && q[k := e][..k + 1] == q[..k] + [e] && q[k := e][k] == e
    ensures q[k := q[k]] == q
  {
  }

  lemma WalkedHead(q: Reliable.Queue, now: u32, maxRetry: u8, fails: set<u32>)
    requires q != []
    ensures Retry.TickQueue(q, now, maxRetry, fails) ==
      (if Retry.Exhausted(q[0], now, maxRetry) then []
       else [if Retry.Resends(q[0], now, maxRetry, fails) then Reliable.Resent(q[0], now) else q[0]])
      + Retry.TickQueue(q[1..], now, maxRetry, fails)
    ensures Retry.TickResent(q, now, maxRetry, fails) ==
      (if Retry.Resends(q[0], now, maxRetry, fails) then [q[0]] else []) + Retry.TickResent(q[1..], now, maxRetry, fails)
    ensures |Retry.TickDropped(q, now, maxRetry)| ==
      (if Retry.Exhausted(q[0], now, maxRetry) then 1 else 0) + |Retry.TickDropped(q[1..], now, maxRetry)|
    ensures Retry.Exhausted(q[0], now, maxRetry) ==> !Retry.Resends(q[0], now, maxRetry, fails)
  {
  }

  lemma WalkedAll(q0: Reliable.Queue, q: Reliable.Queue, now: u32, maxRetry: u8, fails: set<u32>, sent: seq<Msg>, reported: nat)
    requires Walked(q0, q, |q|, now, maxRetry, fails, sent, reported)
    ensures q == Retry.TickQueue(q0, now, maxRetry, fails) && sent == DataOf(Retry.TickResent(q0, now, maxRetry, fails))
    ensures reported == |Retry.TickDropped(q0, now, maxRetry)|
  {
  }

  lemma Successor(s: seq<Packet>, k: nat)
    requires k < |s|
    ensures At(RemoveNth(s, k), k) == At(s, k + 1) && |RemoveNth(s, k)| == |s| - 1
  {
  }

  lemma SubsetMembers(a: seq<Packet>, b: seq<Packet>)
    requires SetOf(a) <= SetOf(b)
    ensures forall p :: p in a ==> p in b
  {
    forall p | p in a ensures p in b {
      assert p in SetOf(a);
    }
  }

  lemma NotQueued(s: seq<Packet>, pn: u32)
    requires !Reliable.Has(Entries(s), pn)
    ensures forall k :: 0 <= k < |s| ==> s[k].pn != pn
  {
    hide Entries;
    var q := Entries(s);
    forall k | 0 <= k < |s| ensures s[k].pn != pn {
      assert q[k] in q;
    }
  }

  lemma EntriesAppend(s: seq<Packet>, p: Packet)
    ensures Entries(s + [p]) == Entries(s) + [EntryOf(p)]
  {
  }

  lemma {:induction false} AppendedThenRemoved(q: Reliable.Queue, e: Reliable.Entry)
    requires !Reliable.Has(q, e.pn)
    ensures Reliable.Without(q + [e], {e.pn}) == q
  {
    if q != [] {
      assert (q + [e])[1..] == q[1..] + [e];
      AppendedThenRemoved(q[1..], e);
      assert q[0] in q;
    }
  }

  lemma LastApart(s: seq<Packet>)
    requires s != [] && DistinctKeys(s)
    ensures s[|s| - 1] !in s[..|s| - 1] && s == s[..|s| - 1] + [s[|s| - 1]]
  {
  }

  lemma SplitLast(s: seq<Packet>, p: Packet, q: Reliable.Queue, e: Reliable.Entry)
    requires Entries(s + [p]) == q + [e]
    ensures Entries(s) == q && EntryOf(p) == e
  {
    EntriesAppend(s, p);
    hide Entries;
    assert |Entries(s)| == |s|;
    assert (q + [e])[|s|] == e && (Entries(s) + [EntryOf(p)])[|s|] == EntryOf(p);
    assert (q + [e])[..|s|] == q && (Entries(s) + [EntryOf(p)])[..|s|] == Entries(s);
  }

  lemma SetOfAppended(s: seq<Packet>, p: Packet)
    ensures SetOf(s + [p]) == SetOf(s) + {p}
  {
  }

  lemma AppendKeys(s: seq<Packet>, p: Packet, target: u16)
    requires DistinctKeys(s) && AllTo(s, target) && p.target == target && forall k :: 0 <= k < |s| ==> s[k].pn != p.pn
    ensures DistinctKeys(s + [p]) && AllTo(s + [p], target)
  {
  }

  lemma NewestIsLast(s: seq<Packet>, p: Packet)
    ensures Newest(s + [p], p.pn, p.target) == p
  {
  }

  function Cut(q: Reliable.Queue, k: nat): Reliable.Queue
    requires k < |q|
  {
    q[..k] + q[k + 1..]
  }

  lemma RemoveNthTail(s: seq<Packet>, k: nat)
    requires 0 < k < |s|
    ensures RemoveNth(s, k) == [s[0]] + RemoveNth(s[1..], k - 1)
  {
  }

  lemma CutTail(q: Reliable.Queue, k: nat)
    requires 0 < k < |q|
    ensures Cut(q, k) == [q[0]] + Cut(q[1..], k - 1)
  {
  }

  lemma EntriesCons(p: Packet, s: seq<Packet>)
    ensures Entries([p] + s) == [EntryOf(p)] + Entries(s)
  {
    assert ([p] + s)[1..] == s;
  }

  lemma {:induction false} CutEntries(s: seq<Packet>, k: nat)
    requires k < |s|
    ensures Entries(RemoveNth(s, k)) == Cut(Entries(s), k)
  {
    assert s == [s[0]] + s[1..];
    EntriesCons(s[0], s[1..]);
    if k == 0 {
      assert RemoveNth(s, 0) == s[1..];
      assert Cut(Entries(s), 0) == Entries(s)[1..];
    } else {
      RemoveNthTail(s, k);
      CutTail(Entries(s), k);
      EntriesCons(s[0], RemoveNth(s[1..], k - 1));
      hide RemoveNth, Cut, Entries;
      CutEntries(s[1..], k - 1);
    }
  }

  lemma WithoutIsCut(s: seq<Packet>, k: nat)
    requires k < |s| && DistinctKeys(s)
    ensures Kept(s, {s[k].pn}) == RemoveNth(s, k)
    ensures Reliable.Without(Entries(s), {s[k].pn}) == Cut(Entries(s), k)
  {
    hide Entries, Cut, RemoveNth, Kept, Reliable.Without, DistinctKeys;
    KeptOne(s, k);
    KeptEntries(s, {s[k].pn});
    CutEntries(s, k);
  }

  lemma TickedCases(q: Reliable.Queue, k: nat, now: u32, maxRetry: u8, fails: set<u32>)
    requires k < |q|
    ensures !Retry.Due(q[k], now) ==> Ticked(q, k, now, maxRetry, fails, q, [], false)
    ensures Retry.Exhausted(q[k], now, maxRetry) ==> Ticked(q, k, now, maxRetry, fails, Cut(q, k), [], true)
    ensures Retry.Due(q[k], now) && q[k].retries < maxRetry ==>
      if q[k].pn in fails then Ticked(q, k, now, maxRetry, fails, q, [], false)
      else Ticked(q, k, now, maxRetry, fails, q[k := Reliable.Resent(q[k], now)], [Data(q[k].pn, q[k].data)], false)
  {
  }

  lemma TouchIsUpdate(s: seq<Packet>, k: nat, now: u32)
    requires DistinctKeys(s) && k < |s|
    ensures Reliable.Touch(Entries(s), {s[k].pn}, now) == Entries(s)[k := Reliable.Resent(EntryOf(s[k]), now)]
  {
    SameNumberSamePlace(s, k);
    hide DistinctKeys, Reliable.Resent, Entries, Reliable.Touch;
  }

  lemma SameNumberSamePlace(s: seq<Packet>, k: nat)
    requires DistinctKeys(s) && k < |s|
    ensures forall j :: 0 <= j < |s| && s[j].pn == s[k].pn ==> j == k
  {
  }

  /** What one node of the walk makes of the queue. */
  ghost predicate Ticked(q: Reliable.Queue, k: nat, now: u32, maxRetry: u8, fails: set<u32>,
                         q': Reliable.Queue, sent: seq<Msg>, gone: bool)
  {
    && k < |q|
    && gone == Retry.Exhausted(q[k], now, maxRetry)
    && q' == (if gone then Cut(q, k)
              else if Retry.Resends(q[k], now, maxRetry, fails) then q[k := Reliable.Resent(q[k], now)] else q)
    && sent == (if Retry.Resends(q[k], now, maxRetry, fails) then [Data(q[k].pn, q[k].data)] else [])
  }

  lemma SackFromDone(tx: Tx, base: u32, bitmap: Bytes, i: nat, last: nat, now: u32, fails: set<u32>)
    requires i > last
    ensures SackFrom(tx, base, bitmap, i, last, now, fails) == TxOut(tx, [], Ok)
  {
  }

  lemma FoundIsLookup(s: seq<Packet>, pn: u32, target: u16)
    requires DistinctKeys(s) && AllTo(s, target)
    ensures var p := Newest(s, pn, target);
      && (p == null <==> !Reliable.Has(Entries(s), pn))
      && (p != null ==> p in s && p.pn == pn && p.data == Reliable.Lookup(Entries(s), pn).data)
  {
    var q := Entries(s);
    var p := Newest(s, pn, target);
    NewestMember(s, pn, target);
    if p == null {
      forall e | e in q ensures e.pn != pn {
        var i :| 0 <= i < |q| && q[i] == e;
        assert s[i] in s;
      }
    } else {
      var k :| 0 <= k < |s| && s[k] == p;
      assert q[k] in q;
      var e := Reliable.Lookup(q, pn);
      var j :| 0 <= j < |q| && q[j] == e;
      assert s[j].pn == s[k].pn;
    }
  }

  /** Only packets with the touched number changed. */
  lemma TouchOne(s: seq<Packet>, before: Reliable.Queue, pn: u32, now: u32)
    requires |before| == |s|
    requires forall j :: 0 <= j < |s| ==> before[j].pn == s[j].pn
    requires forall j :: 0 <= j < |s| ==> EntryOf(s[j]) == if s[j].pn == pn then Reliable.Resent(before[j], now) else before[j]
    ensures Entries(s) == Reliable.Touch(before, {pn}, now)
  {
  }

  lemma SameNumberSamePacket(s: seq<Packet>, p: Packet)
    requires DistinctKeys(s) && p in s
    ensures forall j :: 0 <= j < |s| && s[j].pn == p.pn ==> s[j] == p
  {
  }

  lemma WithoutSame()
    ensures forall q: Reliable.Queue, g: set<u32> :: |Reliable.Without(q, g)| == |q| ==> Reliable.Without(q, g) == q
  {
    forall q: Reliable.Queue, g: set<u32> | |Reliable.Without(q, g)| == |q| ensures Reliable.Without(q, g) == q {
      WithoutShorter(q, g);
    }
  }

  lemma {:induction false} WithoutShorter(q: Reliable.Queue, g: set<u32>)
    ensures |Reliable.Without(q, g)| <= |q|
    ensures |Reliable.Without(q, g)| == |q| ==> Reliable.Without(q, g) == q
  {
    if q != [] {
      WithoutShorter(q[1..], g);
    }
  }

  twostate lemma EntriesUnmoved(s: seq<Packet>)
    requires forall p :: p in s ==> p.retries == old(p.retries) && p.sentAt == old(p.sentAt) && p.timeout == old(p.timeout)
    ensures Entries(s) == old(Entries(s))
  {
  }

  lemma AckSetSmall(largest: u32, ranges: seq<AckRange>)
    ensures Acknowledged(largest, ranges) == AckSet(largest, ranges)
  {
    forall x | x in AckSet(largest, ranges) ensures x <= largest {
      AckSetIsLayout(largest, ranges, x);
    }
  }

  lemma MarkTwice(w: Window.State, a: set<nat>, b: set<nat>)
    ensures MarkSet(MarkSet(w, a), b) == MarkSet(w, a + b)
  {
    assert MarkSet(MarkSet(w, a), b).acks == MarkSet(w, a + b).acks;
  }

  lemma WalkSkips(nextHigh: nat, ranges: seq<AckRange>, i: nat)
    requires i < |ranges|
    ensures ranges[i].length == 0 ==> WalkSet(nextHigh, ranges, i) == WalkSet(nextHigh, ranges, i + 1)
    ensures ranges[i].length > 0 && i > 0 && nextHigh < ranges[i].gap + 1 ==> WalkSet(nextHigh, ranges, i) == {}
  {
  }

  lemma WalkBlock(seen: set<nat>, nextHigh: nat, ranges: seq<AckRange>, i: nat, low: nat, high: nat)
    requires i < |ranges| && ranges[i].length > 0
    requires high == High(nextHigh, ranges[i], i) && low == Low(high, ranges[i])
    ensures seen + WalkSet(nextHigh, ranges, i) == seen + Span(low, high) + WalkSet(low, ranges, i + 1)
  {
    hide Span;
  }

  lemma WalkEnds(nextHigh: nat, ranges: seq<AckRange>)
    ensures WalkSet(nextHigh, ranges, |ranges|) == {}
  {
  }

  lemma MarkNothing(w: Window.State, high: nat)
    ensures MarkSet(w, Span(high + 1, high)) == w
  {
  }

  lemma MarkOneMore(w: Window.State, acked: set<nat>, pn: u32)
    ensures Window.Mark(MarkSet(w, acked), pn) == MarkSet(w, acked + {pn})
  {
    var v := MarkSet(w, acked);
    if Window.InWindow(w, pn) {
      assert Window.Mark(v, pn).acks == MarkSet(w, acked + {pn}).acks;
    } else {
      assert v.acks == MarkSet(w, acked + {pn}).acks;
    }
  }

  lemma EarliestStep(q: Reliable.Queue, i: nat, cache: u32)
    requires i < |q|
    ensures q[i].sentAt != 0 && q[i].timeout > 0 && (cache == 0 || Signed(Sub32(Add32(q[i].sentAt, q[i].timeout), cache)) < 0)
      ==> Earliest(q[i..], cache) == Earliest(q[i + 1..], Add32(q[i].sentAt, q[i].timeout))
    ensures !(q[i].sentAt != 0 && q[i].timeout > 0 && (cache == 0 || Signed(Sub32(Add32(q[i].sentAt, q[i].timeout), cache)) < 0))
      ==> Earliest(q[i..], cache) == Earliest(q[i + 1..], cache)
  {
    hide Add32, Sub32, Signed;
    assert q[i..][0] == q[i] && q[i..][1..] == q[i + 1..];
  }

  lemma EarliestDone(q: Reliable.Queue, i: nat, cache: u32)
    requires i == |q|
    ensures Earliest(q[i..], cache) == cache
  {
  }

  lemma SendRefused(tx: Tx, cache: u32, i: SendInput)
    ensures |i.data| == 0 ==> Send(tx, i) == TxOut(tx, [], InvalidParam)
    ensures |i.data| > 0 && !Window.CanSend(tx.win) ==> Send(tx, i) == TxOut(tx, [], WindowFull)
    ensures |i.data| == 0 || !Window.CanSend(tx.win) ==> Happen(Timed(tx, cache), Sends(i)) == Timed(tx, cache)
  {
    hide Window.CanSend, Earliest;
  }

  lemma EmptyFits(target: u16)
    ensures AllTo([], target) && DistinctKeys([]) && Entries([]) == []
  {
  }

  lemma SpanEmpty(high: nat)
    ensures Span(high + 1, high) == {}
  {
  }

  lemma SpanDown(pn: nat, high: int)
    requires pn <= high
    ensures Span(pn + 1, high) + {pn} == Span(pn, high)
  {
  }

  lemma KeptSets(s: seq<Packet>, gone: set<nat>)
    ensures SetOf(Kept(s, gone)) <= SetOf(s)
  {
    KeptSubset(s, gone);
  }
}
