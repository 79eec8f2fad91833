/**
 * The wait-ACK queue as the code keeps it: an intrusive doubly linked list in
 * sending order, and 32 hash chains threaded through the same packets.
 */
module ReliableQueue {
  import opened Base
  import opened AckRanges

  const INDEX_BUCKETS := 32
  const HASH_MULTIPLIER := 2654435761

  function Bucket(pn: u32, target: u16): (b: nat)
    ensures b < INDEX_BUCKETS
  {
    ((pn as bv32) ^ (Wrap32(target * HASH_MULTIPLIER) as bv32)) as int % INDEX_BUCKETS
  }

  class Packet {
    const pn: u32
    const target: u16
    const data: Bytes
    const initialTimeout: int
    var retries: u8
    var sentAt: u32
    var timeout: int
    // links of the wait-ACK list
    var next: Packet?
    var prev: Packet?
    // link of the hash chain
    var indexNext: Packet?

    constructor (pn: u32, target: u16, data: Bytes, timeout: int)
      ensures this.pn == pn && this.target == target && this.data == data && initialTimeout == timeout
      ensures retries == 0 && sentAt == 0 && this.timeout == timeout
      ensures next == null && prev == null && indexNext == null
    {
      this.pn, this.target, this.data, initialTimeout := pn, target, data, timeout;
      retries, sentAt, this.timeout := 0, 0, timeout;
      next, prev, indexNext := null, null, null;
    }
  }

  // ---- The queue as a sequence ----

  predicate Matches(p: Packet, pn: u32, target: u16) {
    p.pn == pn && p.target == target
  }

  function BucketOf(p: Packet): nat {
    Bucket(p.pn, p.target)
  }

  ghost function SetOf(s: seq<Packet>): set<Packet> {
    set p | p in s
  }

  /** Position `i`, or null outside the sequence. */
  function At(s: seq<Packet>, i: int): Packet? {
    if 0 <= i < |s| then s[i] else null
  }

  ghost predicate Distinct(s: seq<Packet>) {
    forall i, j :: 0 <= i < j < |s| ==> s[i] != s[j]
  }

  /** What chain `b` must hold: the queued packets of that bucket, newest first. */
  function ChainOf(order: seq<Packet>, b: nat): seq<Packet> {
    if order == [] then []
    else
      var last, rest := order[|order| - 1], ChainOf(order[..|order| - 1], b);
      if BucketOf(last) == b then [last] + rest else rest
  }

  /** The newest packet with a key, or null. */
  function Newest(order: seq<Packet>, pn: u32, target: u16): Packet? {
    if order == [] then null
    else if Matches(order[|order| - 1], pn, target) then order[|order| - 1]
    else Newest(order[..|order| - 1], pn, target)
  }

  /** The oldest packet with a key, or null: what a scan of the list finds. */
  function Oldest(order: seq<Packet>, pn: u32, target: u16): Packet? {
    if order == [] then null
    else if Matches(order[0], pn, target) then order[0]
    else Oldest(order[1..], pn, target)
  }

  lemma {:induction false} ChainMembers(order: seq<Packet>, b: nat)
    ensures forall k :: 0 <= k < |ChainOf(order, b)| ==>
              ChainOf(order, b)[k] in order && BucketOf(ChainOf(order, b)[k]) == b
    ensures forall p :: p in order && BucketOf(p) == b ==> p in ChainOf(order, b)
  {
    if order != [] {
      ChainMembers(order[..|order| - 1], b);
      assert order == order[..|order| - 1] + [order[|order| - 1]];
    }
  }

  lemma {:induction false} ChainDistinct(order: seq<Packet>, b: nat)
    requires Distinct(order)
    ensures Distinct(ChainOf(order, b))
  {
    if order != [] {
      var last, rest := order[|order| - 1], order[..|order| - 1];
      ChainDistinct(rest, b);
      ChainMembers(rest, b);
      forall k | 0 <= k < |rest| ensures rest[k] != last {
      }
    }
  }

  function RemoveNth(s: seq<Packet>, i: nat): seq<Packet>
    requires i < |s|
  {
    s[..i] + s[i + 1..]
  }

  lemma RemoveNthInit(s: seq<Packet>, i: nat)
    requires i < |s| - 1
    ensures var r := RemoveNth(s, i);
      r != [] && r[|r| - 1] == s[|s| - 1] && r[..|r| - 1] == RemoveNth(s[..|s| - 1], i)
  {
  }

  lemma RemoveNthCons(p: Packet, s: seq<Packet>, k: nat)
    requires 0 < k <= |s|
    ensures RemoveNth([p] + s, k) == [p] + RemoveNth(s, k - 1)
  {
  }

  /** Removing a queued packet leaves the chains of all other buckets alone. */
  lemma {:induction false} ChainRemoveOther(order: seq<Packet>, i: nat, b: nat)
    requires i < |order| && BucketOf(order[i]) != b
    ensures ChainOf(RemoveNth(order, i), b) == ChainOf(order, b)
  {
    hide Bucket;
    var n := |order| - 1;
    if i == n {
      assert RemoveNth(order, i) == order[..n];
    } else {
      ChainRemoveOther(order[..n], i, b);
      RemoveNthInit(order, i);
      hide RemoveNth, Bucket;
    }
  }

  /** And removes exactly its own place in its own chain. */
  lemma {:induction false} ChainRemove(order: seq<Packet>, i: nat, b: nat, k: nat)
    requires i < |order| && Distinct(order)
    requires k < |ChainOf(order, b)| && ChainOf(order, b)[k] == order[i]
    ensures ChainOf(RemoveNth(order, i), b) == RemoveNth(ChainOf(order, b), k)
  {
    hide Bucket;
    var n := |order| - 1;
    var rest := order[..n];
    if i == n {
      LastIsFront(order, b, k);
      assert RemoveNth(order, i) == rest;
      assert RemoveNth(ChainOf(order, b), 0) == ChainOf(order, b)[1..];
    } else {
      RemoveNthInit(order, i);
      assert order[i] != order[n];
      hide RemoveNth;
      if BucketOf(order[n]) == b {
        ChainRemove(rest, i, b, k - 1);
        RemoveNthCons(order[n], ChainOf(rest, b), k);
      } else {
        ChainRemove(rest, i, b, k);
      }
    }
  }

  lemma LastIsFront(order: seq<Packet>, b: nat, k: nat)
    requires order != [] && Distinct(order)
    requires k < |ChainOf(order, b)| && ChainOf(order, b)[k] == order[|order| - 1]
    ensures k == 0 && BucketOf(order[|order| - 1]) == b
  {
    hide Bucket;
    var c := ChainOf(order, b);
    assert BucketOf(c[k]) == b by {
      ChainMembers(order, b);
      assert c[k] in c;
    }
    assert c[0] == c[k];
    assert k == 0 by {
      ChainDistinct(order, b);
    }
  }

  lemma RemovedIsOut(s: seq<Packet>, i: nat)
    requires i < |s| && Distinct(s)
    ensures s[i] !in RemoveNth(s, i) && Distinct(RemoveNth(s, i)) && |RemoveNth(s, i)| == |s| - 1
  {
  }

  function FirstMatch(chain: seq<Packet>, pn: u32, target: u16): Packet? {
    if chain == [] then null
    else if Matches(chain[0], pn, target) then chain[0]
    else FirstMatch(chain[1..], pn, target)
  }

  /** Searching one chain finds the newest packet of the whole queue with that key. */
  lemma {:induction false} ChainFindsNewest(order: seq<Packet>, pn: u32, target: u16)
    ensures FirstMatch(ChainOf(order, Bucket(pn, target)), pn, target) == Newest(order, pn, target)
  {
    if order != [] {
      var last, rest := order[|order| - 1], order[..|order| - 1];
      ChainFindsNewest(rest, pn, target);
      var b := Bucket(pn, target);
      if BucketOf(last) == b {
        assert ChainOf(order, b)[1..] == ChainOf(rest, b);
      }
    }
  }

  function Occurrences(order: seq<Packet>, pn: u32, target: u16): nat {
    if order == [] then 0
    else (if Matches(order[0], pn, target) then 1 else 0) + Occurrences(order[1..], pn, target)
  }

  lemma {:induction false} OccurrencesNone(order: seq<Packet>, pn: u32, target: u16)
    ensures Occurrences(order, pn, target) == 0 <==> forall p :: p in order ==> !Matches(p, pn, target)
  {
    if order != [] {
      OccurrencesNone(order[1..], pn, target);
      assert order == [order[0]] + order[1..];
    }
  }

  lemma {:induction false} NewestMember(order: seq<Packet>, pn: u32, target: u16)
    ensures var p := Newest(order, pn, target);
      if p == null then forall q :: q in order ==> !Matches(q, pn, target) else p in order && Matches(p, pn, target)
  {
    if order != [] {
      NewestMember(order[..|order| - 1], pn, target);
      assert order == order[..|order| - 1] + [order[|order| - 1]];
    }
  }

  lemma {:induction false} NewestOfTail(order: seq<Packet>, pn: u32, target: u16)
    requires order != []
    ensures Newest(order, pn, target) ==
      if Newest(order[1..], pn, target) != null then Newest(order[1..], pn, target)
      else if Matches(order[0], pn, target) then order[0] else null
  {
    if |order| > 1 {
      var n := |order| - 1;
      NewestOfTail(order[..n], pn, target);
      assert order[..n][1..] == order[1..][..n - 1];
    }
  }

  /**
   * The index answers what a scan of the list would answer exactly when the key
   * occurs at most once; `Add` itself does not check for duplicates.
   */
  lemma IndexIsListScanIff(order: seq<Packet>, pn: u32, target: u16)
    requires Distinct(order)
    ensures Newest(order, pn, target) == Oldest(order, pn, target) <==> Occurrences(order, pn, target) <= 1
  {
    if order != [] {
      NewestOfTail(order, pn, target);
      NewestMember(order[1..], pn, target);
      OccurrencesNone(order[1..], pn, target);
      if Matches(order[0], pn, target) {
        if Newest(order[1..], pn, target) != null {
          var k :| 0 <= k < |order| - 1 && order[1..][k] == Newest(order[1..], pn, target);
          assert order[k + 1] != order[0];
        }
      } else {
        IndexIsListScanIff(order[1..], pn, target);
      }
    }
  }

  /** Where `p` sits in a sequence that holds it. */
  ghost function IndexOf(s: seq<Packet>, p: Packet): (i: nat)
    requires p in s
    ensures i < |s| && s[i] == p
  {
    var i :| 0 <= i < |s| && s[i] == p; i
  }

  class Queue {
    const buckets: array<Packet?>
    var head: Packet?
    var tail: Packet?
    var count: nat
    ghost var order: seq<Packet>

    ghost predicate Forward(s: seq<Packet>)
      reads this`head, SetOf(s)`next
    {
      head == At(s, 0) && forall i {:trigger s[i].next} :: 0 <= i < |s| ==> s[i].next == At(s, i + 1)
    }

    ghost predicate Backward(s: seq<Packet>)
      reads this`tail, SetOf(s)`prev
    {
      tail == At(s, |s| - 1) && forall i {:trigger s[i].prev} :: 0 <= i < |s| ==> s[i].prev == At(s, i - 1)
    }

    ghost predicate ListOk(s: seq<Packet>)
      reads this`head, this`tail, this`count, SetOf(s)`next, SetOf(s)`prev
    {
      Forward(s) && Backward(s) && count == |s|
    }

    ghost predicate ChainOk(c: seq<Packet>, b: nat)
      requires buckets.Length == INDEX_BUCKETS && b < INDEX_BUCKETS
      reads buckets, SetOf(c)`indexNext
    {
      buckets[b] == At(c, 0) && forall i {:trigger c[i].indexNext} :: 0 <= i < |c| ==> c[i].indexNext == At(c, i + 1)
    }

    ghost predicate BucketOk(s: seq<Packet>, b: nat)
      requires buckets.Length == INDEX_BUCKETS && b < INDEX_BUCKETS
      reads buckets, SetOf(s)`indexNext
    {
      ChainMembers(s, b);
      ChainOk(ChainOf(s, b), b)
    }

    ghost predicate IndexOk(s: seq<Packet>)
      requires buckets.Length == INDEX_BUCKETS
      reads buckets, SetOf(s)`indexNext
    {
      forall b :: 0 <= b < INDEX_BUCKETS ==> BucketOk(s, b)
    }

    ghost predicate Valid()
      reads this`head, this`tail, this`count, this`order, buckets, SetOf(order)`next, SetOf(order)`prev, SetOf(order)`indexNext
    {
      buckets.Length == INDEX_BUCKETS && Distinct(order) && ListOk(order) && IndexOk(order)
    }

    constructor ()
      ensures Valid() && order == [] && fresh(buckets)
    {
      buckets := new Packet?[INDEX_BUCKETS](_ => null);
      head, tail, count := null, null, 0;
      order := [];
      new;
      assert IndexOk([]) by {
        forall b | 0 <= b < INDEX_BUCKETS ensures BucketOk([], b) {
          assert ChainOf([], b) == [];
        }
      }
      assert ListOk([]);
    }

    method ListInsertTail(p: Packet, ghost s: seq<Packet>)
      requires ListOk(s) && p !in s
      modifies this`head, this`tail, this`count, SetOf(s)`next, p`next, p`prev
      ensures ListOk(s + [p])
    {
      p.next := null;
      p.prev := tail;
      if tail != null {
        tail.next := p;
      } else {
        head := p;
      }
      tail := p;
      count := count + 1;
      ghost var t := s + [p];
      forall i | 0 <= i < |t| ensures t[i].next == At(t, i + 1) && t[i].prev == At(t, i - 1) {
        if i < |s| {
          assert old(s[i].next) == At(s, i + 1) && old(s[|s| - 1].next) == null && old(s[i].prev) == At(s, i - 1);
        }
      }
    }

    /** The forward links with `s[i]` skipped; its own link does not matter. */
    ghost predicate SkipsForward(s: seq<Packet>, i: nat)
      reads this`head, SetOf(s)`next
    {
      && head == (if i == 0 then At(s, 1) else At(s, 0))
      && (forall j {:trigger s[j].next} :: 0 <= j < |s| && j != i ==> s[j].next == if j == i - 1 then At(s, i + 1) else At(s, j + 1))
    }

    ghost predicate SkipsBackward(s: seq<Packet>, i: nat)
      reads this`tail, SetOf(s)`prev
    {
      && tail == (if i == |s| - 1 then At(s, i - 1) else At(s, |s| - 1))
      && (forall j {:trigger s[j].prev} :: 0 <= j < |s| && j != i ==> s[j].prev == if j == i + 1 then At(s, i - 1) else At(s, j - 1))
    }

    /** The predecessor, or the head, skips `p`. */
    method SkipForward(p: Packet, ghost s: seq<Packet>, ghost i: nat)
      requires Forward(s) && Backward(s) && Distinct(s) && i < |s| && s[i] == p
      modifies this`head, SetOf(s)`next
      ensures SkipsForward(s, i) && Backward(s) && p.next == At(s, i + 1)
    {
      if p.prev != null {
        p.prev.next := p.next;
      } else {
        head := p.next;
      }
    }

    /** The successor, or the tail, skips `p`. */
    method SkipBackward(p: Packet, ghost s: seq<Packet>, ghost i: nat)
      requires SkipsForward(s, i) && Backward(s) && Distinct(s) && i < |s| && s[i] == p && p.next == At(s, i + 1)
      modifies this`tail, SetOf(s)`prev
      ensures SkipsForward(s, i) && SkipsBackward(s, i)
    {
      if p.next != null {
        p.next.prev := p.prev;
      } else {
        tail := p.prev;
      }
    }

    method ClearLinks(p: Packet, ghost s: seq<Packet>, ghost i: nat)
      requires Distinct(s) && i < |s| && s[i] == p && SkipsForward(s, i) && SkipsBackward(s, i) && count > 0
      modifies p`next, p`prev, this`count
      ensures SkipsForward(s, i) && SkipsBackward(s, i) && count == old(count) - 1
    {
      p.next, p.prev := null, null;
      count := count - 1;
    }

    method ListRemove(p: Packet, ghost s: seq<Packet>, ghost i: nat)
      requires ListOk(s) && Distinct(s) && i < |s| && s[i] == p
      modifies this`head, this`tail, this`count, SetOf(s)`next, SetOf(s)`prev
      ensures ListOk(RemoveNth(s, i))
    {
      assert p in SetOf(s);
      hide Distinct, SetOf, SkipsForward, SkipsBackward, Forward, Backward, RemoveNth, At;
      SkipForward(p, s, i);
      SkipBackward(p, s, i);
      ClearLinks(p, s, i);
      RelinkForward(s, i);
      RelinkBackward(s, i);
    }

    /** Skipping `s[i]` in the forward links gives the links of the shorter list. */
    lemma RelinkForward(s: seq<Packet>, i: nat)
      requires i < |s| && SkipsForward(s, i)
      ensures Forward(RemoveNth(s, i)) && |RemoveNth(s, i)| == |s| - 1
    {
      var r := RemoveNth(s, i);
      assert |r| == |s| - 1 && forall j :: 0 <= j < |r| ==> r[j] == s[if j < i then j else j + 1];
      hide RemoveNth;
    }

    lemma RelinkBackward(s: seq<Packet>, i: nat)
      requires i < |s| && SkipsBackward(s, i)
      ensures Backward(RemoveNth(s, i))
    {
      var r := RemoveNth(s, i);
      assert |r| == |s| - 1 && forall j :: 0 <= j < |r| ==> r[j] == s[if j < i then j else j + 1];
      hide RemoveNth;
    }

    method ChainPush(p: Packet, ghost c: seq<Packet>, b: nat)
      requires buckets.Length == INDEX_BUCKETS && b < INDEX_BUCKETS
      requires ChainOk(c, b) && p !in c
      modifies buckets, p`indexNext
      ensures ChainOk([p] + c, b)
      ensures forall k :: 0 <= k < INDEX_BUCKETS && k != b ==> buckets[k] == old(buckets[k])
    {
      p.indexNext := buckets[b];
      buckets[b] := p;
    }

    method ChainUnlink(p: Packet, ghost c: seq<Packet>, b: nat) returns (ghost k: nat)
      requires buckets.Length == INDEX_BUCKETS && b < INDEX_BUCKETS
      requires ChainOk(c, b) && Distinct(c) && p in c
      modifies buckets, SetOf(c)`indexNext
      ensures k < |c| && c[k] == p && ChainOk(RemoveNth(c, k), b)
      ensures forall j :: 0 <= j < INDEX_BUCKETS && j != b ==> buckets[j] == old(buckets[j])
    {
      var previous: Packet? := null;
      var current := buckets[b];
      k := 0;
      while current != null && current != p
        invariant 0 <= k <= |c|
        invariant current == At(c, k) && previous == At(c, k - 1)
        invariant forall j :: 0 <= j < k ==> c[j] != p
        decreases |c| - k
      {
        previous := current;
        current := current.indexNext;
        k := k + 1;
      }
      if previous == null {
        buckets[b] := p.indexNext;
      } else {
        previous.indexNext := p.indexNext;
      }
      p.indexNext := null;
    }

    method Find(pn: u32, target: u16) returns (p: Packet?)
      requires Valid()
      ensures p == Newest(order, pn, target)
    {
      var b := Bucket(pn, target);
      ghost var c := ChainOf(order, b);
      ChainFindsNewest(order, pn, target);
      ChainMembers(order, b);
      assert BucketOk(order, b);
      p := buckets[b];
      ghost var k := 0;
      assert c[0..] == c;
      while p != null
        invariant 0 <= k <= |c| && p == At(c, k)
        invariant FirstMatch(c, pn, target) == FirstMatch(c[k..], pn, target)
        decreases |c| - k
      {
        assert c[k..][0] == c[k] && c[k..][1..] == c[k + 1..];
        if p.pn == pn && p.target == target {
          return;
        }
        p := p.indexNext;
        k := k + 1;
      }
    }

    /** Chain updates do not touch the list. */
    twostate lemma ListUnmoved(s: seq<Packet>)
      requires old(ListOk(s))
      requires head == old(head) && tail == old(tail) && count == old(count)
      requires forall p :: p in s ==> p.next == old(p.next) && p.prev == old(p.prev)
      ensures ListOk(s)
    {
    }

    /** List updates do not touch the chains. */
    twostate lemma IndexUnmoved(s: seq<Packet>)
      requires buckets.Length == INDEX_BUCKETS && old(IndexOk(s))
      requires forall k :: 0 <= k < INDEX_BUCKETS ==> buckets[k] == old(buckets[k])
      requires forall p :: p in s ==> p.indexNext == old(p.indexNext)
      ensures IndexOk(s)
    {
      forall k | 0 <= k < INDEX_BUCKETS ensures BucketOk(s, k) {
        assert old(BucketOk(s, k));
        ChainMembers(s, k);
      }
    }

    /** Links a new packet into its chain. */
    method IndexPacket(p: Packet, ghost s: seq<Packet>)
      requires buckets.Length == INDEX_BUCKETS && IndexOk(s) && p !in s
      modifies buckets, p`indexNext
      ensures IndexOk(s + [p])
    {
      hide Bucket;
      var b := Bucket(p.pn, p.target);
      assert BucketOk(s, b);
      ChainMembers(s, b);
      ChainPush(p, ChainOf(s, b), b);
      forall k | 0 <= k < INDEX_BUCKETS ensures BucketOk(s + [p], k) {
        ChainAppend(s, p, k);
        if k != b {
          assert old(BucketOk(s, k));
          ChainMembers(s, k);
        }
      }
    }

    /** Unlinks a queued packet from its chain. */
    method UnindexPacket(p: Packet, ghost s: seq<Packet>, ghost i: nat)
      requires buckets.Length == INDEX_BUCKETS && IndexOk(s) && Distinct(s) && i < |s| && s[i] == p
      modifies buckets, SetOf(s)`indexNext
      ensures IndexOk(RemoveNth(s, i))
    {
      hide Bucket, Distinct, RemoveNth;
      var b := Bucket(p.pn, p.target);
      ghost var c := ChainOf(s, b);
      assert BucketOk(s, b);
      ChainMembers(s, b);
      ChainDistinct(s, b);
      ghost var k := ChainUnlink(p, c, b);
      ChainRemove(s, i, b, k);
      forall k | 0 <= k < INDEX_BUCKETS ensures BucketOk(RemoveNth(s, i), k) {
        if k != b {
          ChainsApart(s, b, k);
          ChainMembers(s, k);
          assert old(BucketOk(s, k));
          BucketUnmoved(s, i, k);
        }
      }
    }

    /** Another bucket's chain is also the chain of the shorter queue. */
    lemma BucketUnmoved(s: seq<Packet>, i: nat, k: nat)
      requires buckets.Length == INDEX_BUCKETS && k < INDEX_BUCKETS && i < |s| && BucketOf(s[i]) != k
      requires ChainOk(ChainOf(s, k), k)
      ensures BucketOk(RemoveNth(s, i), k)
    {
      ChainRemoveOther(s, i, k);
    }

    method Add(pn: u32, target: u16, data: Bytes, timeout: int, allocOk: bool) returns (p: Packet?, status: Status)
      requires Valid()
      modifies this`head, this`tail, this`count, this`order, buckets, SetOf(order)`next
      ensures Valid()
      ensures status == if |data| == 0 then InvalidParam else if !allocOk then NoMemory else Ok
      ensures status.Ok? <==> p != null
      ensures if p == null then order == old(order) else order == old(order) + [p]
      ensures p != null ==> fresh(p) && Matches(p, pn, target) && p.data == data && p.initialTimeout == timeout
      ensures p != null ==> p.retries == 0 && p.sentAt == 0 && p.timeout == timeout
    {
      if |data| == 0 {
        return null, InvalidParam;
      }
      if !allocOk {
        return null, NoMemory;
      }
      var q := new Packet(pn, target, data, timeout);
      Append(q);
      return q, Ok;
    }

    /** Links a packet at the tail of the list and into its chain. */
    method Append(q: Packet)
      requires Valid() && q !in order
      modifies this`head, this`tail, this`count, this`order, buckets, SetOf(order)`next, q`next, q`prev, q`indexNext
      ensures Valid() && order == old(order) + [q]
    {
      ghost var s := order;
      ghost var t := s + [q];
      assert Distinct(t);
      hide ListOk, IndexOk, Distinct, SetOf;
      label start:
      ListInsertTail(q, s);
      IndexUnmoved@start(s);
      label linked:
      IndexPacket(q, s);
      ListUnmoved@linked(t);
      SetOrder(t);
    }

    /** Unlinks a queued packet from its chain and from the list. */
    method Unlink(p: Packet, ghost s: seq<Packet>, ghost i: nat)
      requires buckets.Length == INDEX_BUCKETS && Distinct(s) && ListOk(s) && IndexOk(s) && i < |s| && s[i] == p
      modifies this`head, this`tail, this`count, buckets, SetOf(s)`next, SetOf(s)`prev, SetOf(s)`indexNext
      ensures ListOk(RemoveNth(s, i)) && IndexOk(RemoveNth(s, i))
    {
      hide ListOk, IndexOk, Distinct, RemoveNth, SetOf;
      UnindexPacket(p, s, i);
      ListUnmoved(s);
      label unindexed:
      ListRemove(p, s, i);
      RemoveSubset(s, i);
      IndexUnmoved@unindexed(RemoveNth(s, i));
    }

    method Detach(p: Packet, ghost i: nat)
      requires Valid() && i < |order| && order[i] == p
      modifies this`head, this`tail, this`count, this`order, buckets, SetOf(order)`next, SetOf(order)`prev, SetOf(order)`indexNext
      ensures Valid() && order == RemoveNth(old(order), i)
    {
      ghost var t := RemoveNth(order, i);
      RemovedIsOut(order, i);
      hide ListOk, IndexOk, Distinct, RemoveNth, SetOf;
      Unlink(p, order, i);
      SetOrder(t);
    }

    ghost method SetOrder(t: seq<Packet>)
      requires buckets.Length == INDEX_BUCKETS && ListOk(t) && IndexOk(t)
      modifies this`order
      ensures order == t && ListOk(t) && IndexOk(t)
    {
      order := t;
      ListUnmoved(t);
      IndexUnmoved(t);
    }

    /** Removes the newest packet with this key. */
    method Remove(pn: u32, target: u16) returns (status: Status)
      requires Valid()
      modifies this`head, this`tail, this`count, this`order, buckets, SetOf(order)`next, SetOf(order)`prev, SetOf(order)`indexNext
      ensures Valid()
      ensures status == if Newest(old(order), pn, target) == null then SequenceError else Ok
      ensures order == RemoveNewest(old(order), pn, target)
    {
      var p := Find(pn, target);
      if p == null {
        return SequenceError;
      }
      NewestMember(order, pn, target);
      Detach(p, IndexOf(order, p));
      return Ok;
    }

    /** Removes every packet, oldest first. */
    method Clear()
      requires Valid()
      modifies this`head, this`tail, this`count, this`order, buckets, SetOf(order)`next, SetOf(order)`prev, SetOf(order)`indexNext
      ensures Valid() && order == []
    {
      hide Valid, RemoveNth;
      HeadIsFirst();
      while head != null
        invariant Valid() && head == At(order, 0)
        invariant SetOf(order) <= old(SetOf(order))
        decreases |order|
      {
        DropsFirst(order);
        Detach(head, 0);
        HeadIsFirst();
      }
    }

    lemma FollowsList()
      requires Valid()
      ensures head == At(order, 0)
      ensures forall i {:trigger order[i].next} :: 0 <= i < |order| ==> order[i].next == At(order, i + 1)
    {
    }

    lemma HeadIsFirst()
      requires Valid()
      ensures head == At(order, 0)
    {
    }
  }

  lemma DropsFirst(s: seq<Packet>)
    requires s != []
    ensures |RemoveNth(s, 0)| == |s| - 1 && SetOf(RemoveNth(s, 0)) <= SetOf(s)
  {
  }

  ghost function RemoveNewest(order: seq<Packet>, pn: u32, target: u16): seq<Packet> {
    NewestMember(order, pn, target);
    var p := Newest(order, pn, target);
    if p == null then order else RemoveNth(order, IndexOf(order, p))
  }

  lemma RemoveSubset(s: seq<Packet>, i: nat)
    requires i < |s|
    ensures forall p :: p in RemoveNth(s, i) ==> p in s
  {
  }

  lemma ChainAppend(s: seq<Packet>, p: Packet, b: nat)
    ensures ChainOf(s + [p], b) == if BucketOf(p) == b then [p] + ChainOf(s, b) else ChainOf(s, b)
  {
    assert (s + [p])[..|s|] == s;
  }

  /** Chains of different buckets share no packet. */
  lemma ChainsApart(s: seq<Packet>, b: nat, k: nat)
    requires b != k
    ensures forall j :: 0 <= j < |s| && BucketOf(s[j]) == k ==> s[j] !in ChainOf(s, b)
  {
    ChainMembers(s, b);
  }
}
