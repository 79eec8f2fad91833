/**
 * The receiving peer as the code keeps it: a singly linked, sorted list of early
 * packets, updated in place. Every method is proved against the value-level
 * `Receiver` functions.
 */
module RxPeer {
  import opened Base
  import opened Sender
  import opened Receiver
  import Sack

  class RxNode {
    const packet: Cached
    var next: RxNode?

    constructor (packet: Cached, next: RxNode?)
      ensures this.packet == packet && this.next == next
    {
      this.packet := packet;
      this.next := next;
    }
  }

  function Packets(nodes: seq<RxNode>): (r: Buffer)
    ensures |r| == |nodes|
    ensures forall i :: 0 <= i < |nodes| ==> r[i] == nodes[i].packet
  {
    seq(|nodes|, i requires 0 <= i < |nodes| => nodes[i].packet)
  }

  ghost function NodeSet(nodes: seq<RxNode>): set<RxNode> {
    set n | n in nodes
  }

  /** The node at position `i`, or null past the end. */
  ghost function NodeAt(nodes: seq<RxNode>, i: nat): RxNode? {
    if i < |nodes| then nodes[i] else null
  }

  class Peer {
    const window: u8
    var started: bool
    var rxNext: u32
    var rxBuffered: RxNode?
    var rxBufferedCount: u8
    ghost var nodes: seq<RxNode>

    /** `nodes` is the list reached from `rxBuffered`. */
    ghost predicate Linked()
      reads this`rxBuffered, this`nodes, nodes
    {
      && (rxBuffered == if nodes == [] then null else nodes[0])
      && (forall i :: 0 <= i < |nodes| - 1 ==> nodes[i].next == nodes[i + 1])
      && (nodes != [] ==> nodes[|nodes| - 1].next == null)
    }

    ghost predicate Valid()
      reads this`rxBuffered, this`nodes, this`rxBufferedCount, nodes
    {
      Linked() && Sorted(Packets(nodes)) && rxBufferedCount == |nodes|
    }

    ghost function View(): Rx
      reads this
    {
      Rx(started, rxNext, Packets(nodes), window)
    }

    lemma ViewIs()
      requires Valid()
      ensures View().buf == Packets(nodes) && |View().buf| == rxBufferedCount
      ensures View().next == rxNext && View().window == window
    {
    }

    lemma FollowsList()
      requires Valid()
      ensures rxBuffered == NodeAt(nodes, 0)
      ensures forall i :: 0 <= i < |nodes| ==> nodes[i].next == NodeAt(nodes, i + 1)
    {
    }

    constructor (window: u8)
      ensures Valid() && BufferInv(View()) && View() == Rx(false, 0, [], window)
    {
      this.window := window;
      started, rxNext := false, 0;
      rxBuffered, rxBufferedCount := null, 0;
      nodes := [];
    }

    /** Finds the node carrying `pn`, and the last node below it. */
    method Find(pn: u32) returns (found: RxNode?, prev: RxNode?)
      requires Valid()
      ensures Valid() && View() == old(View())
      ensures var i := Position(Packets(nodes), pn);
        && (prev == if i == 0 then null else nodes[i - 1])
        && (found == if Buffered(Packets(nodes), pn) then nodes[i] else null)
      ensures found != null <==> Buffered(Packets(nodes), pn)
    {
      found, prev := null, null;
      var node := rxBuffered;
      ghost var i := 0;
      while node != null
        invariant 0 <= i <= |nodes|
        invariant node == if i < |nodes| then nodes[i] else null
        invariant prev == if i == 0 then null else nodes[i - 1]
        invariant forall j :: 0 <= j < i ==> Packets(nodes)[j].pn < pn
        decreases |nodes| - i
      {
        if node.packet.pn == pn {
          PositionIs(Packets(nodes), pn, i);
          found := node;
          return;
        }
        if node.packet.pn > pn {
          break;
        }
        prev := node;
        node := node.next;
        i := i + 1;
      }
      PositionIs(Packets(nodes), pn, i);
    }

    /** Links a new node after `prev`, or at the head. */
    method LinkAfter(prev: RxNode?, c: Cached, ghost i: nat) returns (node: RxNode)
      requires Linked() && Distinct(nodes) && i <= |nodes|
      requires prev == if i == 0 then null else nodes[i - 1]
      modifies this`rxBuffered, this`nodes, NodeSet(nodes)
      ensures Linked() && fresh(node) && node.packet == c
      ensures nodes == old(nodes)[..i] + [node] + old(nodes)[i..]
    {
      if prev == null {
        node := new RxNode(c, rxBuffered);
        rxBuffered := node;
      } else {
        node := new RxNode(c, prev.next);
        prev.next := node;
      }
      nodes := nodes[..i] + [node] + nodes[i..];
    }

    method UnlinkAfter(prev: RxNode?, node: RxNode, ghost i: nat)
      requires Linked() && Distinct(nodes) && i < |nodes| && node == nodes[i]
      requires prev == if i == 0 then null else nodes[i - 1]
      modifies this`rxBuffered, this`nodes, NodeSet(nodes)
      ensures Linked() && nodes == old(nodes)[..i] + old(nodes)[i + 1..]
    {
      if prev == null {
        rxBuffered := node.next;
      } else {
        prev.next := node.next;
      }
      node.next := null;
      nodes := nodes[..i] + nodes[i + 1..];
    }

    /** Links a new node after every smaller number. */
    method InsertPacket(c: Cached)
      requires Valid() && !Buffered(Packets(nodes), c.pn) && rxBufferedCount < 255
      modifies this`rxBuffered, this`rxBufferedCount, this`nodes, NodeSet(nodes)
      ensures Valid() && View() == old(View()).(buf := Insert(old(View()).buf, c))
      ensures forall n :: n in NodeSet(nodes) && n !in old(NodeSet(nodes)) ==> fresh(n)
    {
      ghost var buf := Packets(nodes);
      ghost var i := Position(buf, c.pn);
      hide Linked, Position, Sorted, Distinct, NodeSet;
      InsertSorted(buf, c);
      DistinctNodes(nodes);
      var found, prev := Find(c.pn);
      var node := LinkAfter(prev, c, i);
      PacketsInsert(old(nodes), i, node);
      rxBufferedCount := rxBufferedCount + 1;
    }

    /** Unlinks and returns the packet numbered `pn`, if it is buffered. */
    method Take(pn: u32) returns (taken: Option<Cached>)
      requires Valid()
      modifies this`rxBuffered, this`rxBufferedCount, this`nodes, NodeSet(nodes)
      ensures Valid()
      ensures Taking(old(Packets(nodes)), pn, taken, Packets(nodes))
      ensures NodeSet(nodes) <= old(NodeSet(nodes))
    {
      hide Linked, Position, RemoveAt, Sorted, Distinct, NodeSet;
      var found, prev := Find(pn);
      if found == null {
        return None;
      }
      ghost var i := Position(Packets(nodes), pn);
      DistinctNodes(nodes);
      PacketsRemove(nodes, i);
      taken := Some(found.packet);
      UnlinkAfter(prev, found, i);
      rxBufferedCount := rxBufferedCount - 1;
    }

    /** Keeps a packet that arrived early, or says why not. */
    method CacheEarly(pn: u32, data: Bytes, allocOk: bool) returns (status: Status)
      requires Valid()
      modifies this`rxBuffered, this`rxBufferedCount, this`nodes, NodeSet(nodes)
      ensures Valid()
      ensures View() == Cache(old(View()), pn, data, allocOk).0
      ensures status == Cache(old(View()), pn, data, allocOk).1
      ensures forall n :: n in NodeSet(nodes) && n !in old(NodeSet(nodes)) ==> fresh(n)
    {
      ViewIs();
      hide Valid, View, Insert, Position, Buffered, NodeSet, Packets;
      if |data| == 0 {
        return InvalidParam;
      }
      var limit := if window == 0 then 1 else window;
      if Sub32(pn, rxNext) >= limit {
        return WindowFull;
      }
      if rxBufferedCount >= limit {
        return WindowFull;
      }
      var found, prev := Find(pn);
      if found != null {
        return Ok;
      }
      if !allocOk {
        return NoMemory;
      }
      InsertPacket(Cached(pn, data));
      return Ok;
    }

    static method SetBitIn(bits: array<byte>, i: nat)
      requires bits.Length == 8 && i < 64
      modifies bits
      ensures bits[..] == Sack.SetBit(old(bits[..]), i)
    {
      bits[i / 8] := bits[i / 8] | Sack.BitMask(i % 8);
    }

    /** The SACK bitmap for `base`, one pass over the list. */
    method BuildSack(base: u32) returns (bitmap: Bytes)
      requires Valid()
      ensures bitmap == Sack.Build(base, Numbers(Packets(nodes)))
    {
      hide Valid, Sack.Fill, Sack.HighestBit, Sack.BitIsSet, Sack.BitMask, Sack.LastBit, Sack.Nameable, Sack.SetBit;
      FollowsList();
      var bits := new byte[8](_ => 0);
      var highest := 0;
      var hasReceived := false;
      var node := rxBuffered;
      ghost var i := 0;
      ghost var numbers := Numbers(Packets(nodes));
      assert numbers[0..] == numbers;
      assert bits[..] == Sack.Zeros(8);
      hide Sack.Zeros;
      NoBits();
      while node != null
        invariant bits.Length == 8 && 0 <= i <= |nodes| == |numbers|
        invariant node == NodeAt(nodes, i)
        invariant Sack.Fill(base, numbers, Sack.Zeros(8)) == Sack.Fill(base, numbers[i..], bits[..])
        invariant Sack.HighestBit(bits[..]) == if hasReceived then Some(highest) else None
        invariant 0 <= highest < 64
        decreases |nodes| - i
      {
        var pn := node.packet.pn;
        assert pn == numbers[i];
        FillStep(base, numbers, i, bits[..]);
        if base <= pn && pn - base < 64 {
          var diff := pn - base;
          ghost var before := bits[..];
          SetBitIn(bits, diff);
          HighestAfterSet(before, diff);
          if !hasReceived || diff > highest {
            highest := diff;
          }
          hasReceived := true;
        }
        node := node.next;
        i := i + 1;
      }
      FillEnd(base, numbers, i, bits[..]);
      bitmap := bits[..if hasReceived then highest / 8 + 1 else 1];
      assert bitmap == Sack.Trim(bits[..]);
    }

    /** Delivers, acknowledges and frees buffered packets until one is missing. */
    method DrainBuffered(fails: set<u32>) returns (replies: seq<Msg>, delivered: seq<Bytes>, status: Status)
      requires Valid()
      modifies this`rxBuffered, this`rxBufferedCount, this`nodes, this`rxNext, NodeSet(nodes)
      ensures Valid()
      ensures RxOut(View(), replies, delivered, status) == Drain(old(View()), fails)
      ensures NodeSet(nodes) <= old(NodeSet(nodes))
    {
      hide Valid, Drain, Taking, NodeSet, AckFor, Packets;
      replies, delivered := [], [];
      ThenNothing(Drain(View(), fails));
      while true
        invariant Valid()
        invariant Drain(old(View()), fails) == Then(replies, delivered, Drain(View(), fails))
        invariant started == old(started)
        invariant NodeSet(nodes) <= old(NodeSet(nodes))
        decreases |nodes|
      {
        ghost var before := View();
        var taken := Take(rxNext);
        if taken.None? {
          DrainNone(before, View(), replies, delivered, fails);
          return replies, delivered, Ok;
        }
        DrainOne(before, View(), taken.value, replies, delivered, fails);
        replies := replies + [AckFor(taken.value.pn)];
        if taken.value.pn in fails {
          return replies, delivered, InvalidFrame;
        }
        delivered := delivered + [taken.value.data];
        rxNext := Add32(taken.value.pn, 1);
      }
    }

    /** An arriving ACK-eliciting data packet of the session. */
    method ReceivePacket(pn: u32, data: Bytes, allocOk: bool, fails: set<u32>)
      returns (replies: seq<Msg>, delivered: seq<Bytes>, status: Status)
      requires Valid() && BufferInv(View())
      modifies this`started, this`rxBuffered, this`rxBufferedCount, this`nodes, this`rxNext, NodeSet(nodes)
      ensures Valid() && BufferInv(View())
      ensures RxOut(View(), replies, delivered, status) == Receive(old(View()), pn, data, allocOk, fails)
      ensures forall n :: n in NodeSet(nodes) && n !in old(NodeSet(nodes)) ==> fresh(n)
    {
      hide Valid, BufferInv, Cache, Drain;
      ReceiveKeepsBuffer(View(), pn, data, allocOk, fails);
      if !started {
        rxNext := 0;
        started := true;
      }
      if pn < rxNext {
        return [AckFor(pn)], [], Ok;
      }
      if pn > rxNext {
        var expected := rxNext;
        status := CacheEarly(pn, data, allocOk);
        var bitmap := BuildSack(expected);
        return [SackMsg(expected, bitmap)], [], status;
      }
      if pn in fails {
        return [AckFor(pn)], [], InvalidFrame;
      }
      rxNext := Add32(pn, 1);
      var acks, more, drained := DrainBuffered(fails);
      return [AckFor(pn)] + acks, [data] + more, drained;
    }
  }

  function Then(replies: seq<Msg>, delivered: seq<Bytes>, r: RxOut): RxOut {
    RxOut(r.rx, replies + r.replies, delivered + r.delivered, r.status)
  }

  lemma ThenNothing(r: RxOut)
    ensures Then([], [], r) == r
  {
  }

  lemma DrainNone(before: Rx, after: Rx, replies: seq<Msg>, delivered: seq<Bytes>, fails: set<u32>)
    requires Taking(before.buf, before.next, None, after.buf) && after == before.(buf := after.buf)
    ensures Then(replies, delivered, Drain(before, fails)) == RxOut(after, replies, delivered, Ok)
  {
  }

  lemma DrainOne(before: Rx, after: Rx, c: Cached, replies: seq<Msg>, delivered: seq<Bytes>, fails: set<u32>)
    requires Taking(before.buf, before.next, Some(c), after.buf) && after == before.(buf := after.buf)
    ensures c.pn == before.next && |after.buf| < |before.buf|
    ensures Then(replies, delivered, Drain(before, fails)) ==
      if c.pn in fails then RxOut(after, replies + [AckFor(c.pn)], delivered, InvalidFrame)
      else Then(replies + [AckFor(c.pn)], delivered + [c.data], Drain(after.(next := Add32(c.pn, 1)), fails))
  {
    DrainTaken(before, after, c, fails);
    hide Taking, Drain, AckFor;
    if c.pn in fails {
      assert delivered + [] == delivered;
    } else {
      ThenThen(replies, delivered, [AckFor(c.pn)], [c.data], Drain(after.(next := Add32(c.pn, 1)), fails));
    }
  }

  lemma DrainTaken(before: Rx, after: Rx, c: Cached, fails: set<u32>)
    requires Taking(before.buf, before.next, Some(c), after.buf) && after == before.(buf := after.buf)
    ensures c.pn == before.next && |after.buf| < |before.buf|
    ensures Drain(before, fails) ==
      if c.pn in fails then RxOut(after, [AckFor(c.pn)], [], InvalidFrame)
      else Then([AckFor(c.pn)], [c.data], Drain(after.(next := Add32(c.pn, 1)), fails))
  {
    hide AckFor;
  }

  lemma ThenThen(a: seq<Msg>, b: seq<Bytes>, c: seq<Msg>, d: seq<Bytes>, r: RxOut)
    ensures Then(a, b, Then(c, d, r)) == Then(a + c, b + d, r)
  {
    assert a + (c + r.replies) == a + c + r.replies;
    assert b + (d + r.delivered) == b + d + r.delivered;
  }

  lemma FillStep(base: u32, numbers: seq<u32>, i: nat, bits: Bytes)
    requires i < |numbers| && |bits| == 8
    ensures Sack.Fill(base, numbers[i..], bits) == Sack.Fill(base, numbers[i + 1..],
      if base <= numbers[i] && numbers[i] - base < 64 then Sack.SetBit(bits, numbers[i] - base) else bits)
  {
    assert numbers[i..][1..] == numbers[i + 1..];
  }

  lemma FillEnd(base: u32, numbers: seq<u32>, i: nat, bits: Bytes)
    requires i == |numbers| && |bits| == 8
    ensures Sack.Fill(base, numbers[i..], bits) == bits
  {
  }

  lemma NoBits()
    ensures Sack.HighestBit(Sack.Zeros(8)) == None
  {
    var z := Sack.Zeros(8);
    forall k: nat ensures !Sack.BitIsSet(z, k) {
      if k < 64 { assert z[k / 8] == 0; }
    }
  }

  lemma HighestAfterSet(bitmap: Bytes, i: nat)
    requires |bitmap| == 8 && i < 64
    ensures Sack.HighestBit(Sack.SetBit(bitmap, i)) ==
      match Sack.HighestBit(bitmap)
      case None => Some(i)
      case Some(h) => Some(if i > h then i else h)
  {
    var t := Sack.SetBit(bitmap, i);
    forall k: nat ensures Sack.BitIsSet(t, k) <==> k == i || Sack.BitIsSet(bitmap, k) {
      Sack.SetBitSets(bitmap, i, k);
    }
    hide Sack.BitIsSet, Sack.SetBit;
    assert Sack.BitIsSet(t, i);
    match Sack.HighestBit(bitmap)
    case None =>
    case Some(h) => assert Sack.BitIsSet(t, h);
  }

  /** What taking `pn` out of a buffer returns and leaves. */
  ghost predicate Taking(buf: Buffer, pn: u32, taken: Option<Cached>, left: Buffer) {
    if Buffered(buf, pn) then
      taken == Some(buf[Position(buf, pn)]) && left == RemoveAt(buf, Position(buf, pn))
    else
      taken == None && left == buf
  }

  ghost predicate Distinct(nodes: seq<RxNode>) {
    forall i, j :: 0 <= i < j < |nodes| ==> nodes[i] != nodes[j]
  }

  lemma PacketsInsert(nodes: seq<RxNode>, i: nat, node: RxNode)
    requires i <= |nodes|
    ensures Packets(nodes[..i] + [node] + nodes[i..]) == Packets(nodes)[..i] + [node.packet] + Packets(nodes)[i..]
    ensures NodeSet(nodes[..i] + [node] + nodes[i..]) == NodeSet(nodes) + {node}
  {
  }

  lemma PacketsRemove(nodes: seq<RxNode>, i: nat)
    requires i < |nodes| && Sorted(Packets(nodes))
    ensures Packets(nodes[..i] + nodes[i + 1..]) == RemoveAt(Packets(nodes), i)
    ensures Sorted(Packets(nodes[..i] + nodes[i + 1..]))
    ensures NodeSet(nodes[..i] + nodes[i + 1..]) <= NodeSet(nodes)
  {
  }

  lemma PositionIs(buf: Buffer, pn: u32, i: nat)
    requires i <= |buf| && forall j :: 0 <= j < i ==> buf[j].pn < pn
    requires i < |buf| ==> buf[i].pn >= pn
    ensures Position(buf, pn) == i
  {
  }

  lemma DistinctNodes(nodes: seq<RxNode>)
    requires Sorted(Packets(nodes))
    ensures Distinct(nodes)
  {
    forall i, j | 0 <= i < j < |nodes| ensures nodes[i] != nodes[j] {
      assert Packets(nodes)[i].pn < Packets(nodes)[j].pn;
    }
  }
}
