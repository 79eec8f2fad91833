/**
 * The reassembly manager as a value: the messages being put together, the byte
 * budget they are charged against, and what a fragment, a timeout and a scope
 * reset do to them.
 */
module Reassembly {
  import opened Base
  import opened FragmentRange

  datatype Key = Key(source: u16, connection: u32, epoch: u32, message: u32)

  datatype Buffer = Buffer(key: Key, dataType: u8, size: nat, ranges: seq<Range>, received: nat,
                           data: Bytes, first: u32, timeout: u32)

  /** A limit of 0 means no limit, except for `maxBuffers`. */
  datatype Manager = Manager(buffers: seq<Buffer>, current: nat, maxBuffers: nat, maxMessage: nat,
                             maxBytes: nat, timeout: u32)

  datatype Fragment = Fragment(key: Key, dataType: u8, offset: u32, messageLen: u32, payload: Bytes)

  /** What the allocator answers, and what an allocated block happens to hold. */
  datatype Memory = Memory(nodeOk: bool, dataOk: bool, junk: Bytes)

  /** A block of `n` bytes with some old contents. */
  function Block(junk: Bytes, n: nat): (r: Bytes)
    ensures |r| == n && forall i :: 0 <= i < n ==> r[i] == if i < |junk| then junk[i] else 0
  {
    seq(n, i requires 0 <= i < n => if i < |junk| then junk[i] else 0)
  }

  /** Position of the first buffer with this key, or the number of buffers. */
  function Index(bs: seq<Buffer>, key: Key): (i: nat)
    ensures i <= |bs|
    ensures i < |bs| ==> bs[i].key == key
    ensures forall j :: 0 <= j < i ==> bs[j].key != key
  {
    if bs == [] || bs[0].key == key then 0 else 1 + Index(bs[1..], key)
  }

  predicate HasKey(bs: seq<Buffer>, key: Key) {
    Index(bs, key) < |bs|
  }

  function Sizes(bs: seq<Buffer>): nat {
    if bs == [] then 0 else bs[0].size + Sizes(bs[1..])
  }

  // ---- The reassembly step ----

  function Admit(m: Manager, messageLen: nat, mem: Memory): Status {
    if |m.buffers| >= m.maxBuffers then NoMemory
    else if m.maxMessage != 0 && messageLen > m.maxMessage then BufferTooSmall
    else if m.maxBytes != 0 && (m.current > m.maxBytes || messageLen > m.maxBytes - m.current) then NoMemory
    else if !mem.nodeOk || !mem.dataOk then NoMemory
    else Ok
  }

  function Opened(m: Manager, f: Fragment, mem: Memory): Manager {
    var b := Buffer(f.key, f.dataType, f.messageLen, [], 0, Block(mem.junk, f.messageLen), 0, m.timeout);
    m.(buffers := m.buffers + [b], current := m.current + f.messageLen)
  }

  function WriteAt(data: Bytes, start: nat, payload: Bytes): (r: Bytes)
    ensures |r| == |data|
    ensures forall x :: 0 <= x < |r| ==> r[x] == if start <= x < start + |payload| then payload[x - start] else data[x]
  {
    seq(|data|, x requires 0 <= x < |data| => if start <= x < start + |payload| then payload[x - start] else data[x])
  }

  datatype Filled = Filled(buffer: Buffer, status: Status)

  function Fill(b: Buffer, f: Fragment, time: u32): Filled {
    if b.dataType != f.dataType || b.size != f.messageLen then Filled(b, InvalidFrame)
    else
      var ins := AfterInsert(b.ranges, f.offset, f.offset + |f.payload|);
      if ins.status != Ok then Filled(b, ins.status)
      else Filled(b.(ranges := ins.ranges, received := b.received + |f.payload|,
                     data := WriteAt(b.data, f.offset, f.payload),
                     first := if b.received == 0 then time else b.first), Ok)
  }

  function Dropped(m: Manager, i: nat): Manager
    requires i < |m.buffers|
  {
    m.(buffers := CutOut(m.buffers, i),
       current := if m.buffers[i].size <= m.current then m.current - m.buffers[i].size else m.current)
  }

  /** `Busy` means stored or already present; `Ok` comes with the whole message. */
  datatype Outcome = Outcome(manager: Manager, status: Status, message: Option<Bytes>)

  predicate WellFormed(f: Fragment) {
    f.messageLen > 0 && f.offset <= f.messageLen && |f.payload| <= f.messageLen - f.offset
  }

  function Process(m: Manager, f: Fragment, mem: Memory, time: u32): Outcome {
    if |f.payload| == 0 then Outcome(m, InvalidParam, None)
    else if !WellFormed(f) then Outcome(m, InvalidFrame, None)
    else
      var i := Index(m.buffers, f.key);
      if i < |m.buffers| then Deposit(m, i, f, time)
      else if Admit(m, f.messageLen, mem) != Ok then Outcome(m, Admit(m, f.messageLen, mem), None)
      else Deposit(Opened(m, f, mem), i, f, time)
  }

  function Deposit(m: Manager, i: nat, f: Fragment, time: u32): Outcome
    requires i < |m.buffers|
  {
    var r := Fill(m.buffers[i], f, time);
    if r.status != Ok then Outcome(m, r.status, None)
    else if r.buffer.received == r.buffer.size then Outcome(Dropped(m, i), Ok, Some(r.buffer.data))
    else Outcome(m.(buffers := m.buffers[i := r.buffer]), Busy, None)
  }

  // ---- Maintenance ----

  predicate Expired(b: Buffer, now: u32) {
    b.first != 0 && Sub32(now, b.first) >= b.timeout
  }

  predicate InScope(b: Buffer, source: u16, connection: u32, epoch: u32) {
    b.key.source == source && b.key.connection == connection && b.key.epoch == epoch
  }

  /** The buffers for which `gone` does not hold. */
  function Left(bs: seq<Buffer>, gone: Buffer -> bool): (r: seq<Buffer>)
    ensures forall b :: b in r <==> b in bs && !gone(b)
  {
    if bs == [] then []
    else if gone(bs[0]) then Left(bs[1..], gone)
    else [bs[0]] + Left(bs[1..], gone)
  }

  /** Frees a run of buffers one after another; the budget never goes below 0. */
  function Refunded(current: nat, bs: seq<Buffer>, gone: Buffer -> bool): nat {
    if bs == [] then current
    else Refunded(if gone(bs[0]) && bs[0].size <= current then current - bs[0].size else current, bs[1..], gone)
  }

  function Swept(m: Manager, gone: Buffer -> bool): Manager {
    m.(buffers := Left(m.buffers, gone), current := Refunded(m.current, m.buffers, gone))
  }

  function ExpiredAt(now: u32): Buffer -> bool {
    b => Expired(b, now)
  }

  function ScopeOf(source: u16, connection: u32, epoch: u32): Buffer -> bool {
    b => InScope(b, source, connection, epoch)
  }

  function Expire(m: Manager, now: u32): Manager {
    Swept(m, ExpiredAt(now))
  }

  function ClearScope(m: Manager, source: u16, connection: u32, epoch: u32): Manager {
    Swept(m, ScopeOf(source, connection, epoch))
  }

  // ---- The invariant ----

  ghost predicate BufferOk(b: Buffer) {
    && Sorted(b.ranges) && Below(b.ranges, b.size) && |b.ranges| <= MAX_RANGES
    && |b.data| == b.size && b.received == Length(b.ranges)
    && 0 < b.received < b.size
  }

  ghost predicate DistinctKeys(bs: seq<Buffer>) {
    forall i, j :: 0 <= i < j < |bs| ==> bs[i].key != bs[j].key
  }

  /** Every buffer partly filled, keys distinct, the budget exactly the sum of the reservations. */
  ghost predicate ManagerOk(m: Manager) {
    && (forall b :: b in m.buffers ==> BufferOk(b))
    && DistinctKeys(m.buffers)
    && m.current == Sizes(m.buffers)
    && |m.buffers| <= m.maxBuffers
    && (m.maxBytes != 0 ==> m.current <= m.maxBytes)
    && (m.maxMessage != 0 ==> forall b :: b in m.buffers ==> b.size <= m.maxMessage)
  }

  lemma {:induction false} SizesAppend(a: seq<Buffer>, b: seq<Buffer>)
    ensures Sizes(a + b) == Sizes(a) + Sizes(b)
  {
    if a == [] {
      assert a + b == b;
    } else {
      assert (a + b)[1..] == a[1..] + b;
      SizesAppend(a[1..], b);
    }
  }

  lemma SizesAround(bs: seq<Buffer>, i: nat)
    requires i < |bs|
    ensures Sizes(bs) == Sizes(bs[..i]) + bs[i].size + Sizes(bs[i + 1..])
    ensures Sizes(CutOut(bs, i)) == Sizes(bs) - bs[i].size
    ensures forall b: Buffer :: b.size == bs[i].size ==> Sizes(bs[i := b]) == Sizes(bs)
  {
    SizesSplit(bs, i);
    SizesAppend(bs[..i], bs[i + 1..]);
    forall b: Buffer | b.size == bs[i].size ensures Sizes(bs[i := b]) == Sizes(bs) {
      SizesSplit(bs[i := b], i);
      assert bs[i := b][..i] == bs[..i] && bs[i := b][i + 1..] == bs[i + 1..];
      hide Sizes;
    }
    hide Sizes;
  }

  lemma SizesSplit(bs: seq<Buffer>, i: nat)
    requires i < |bs|
    ensures Sizes(bs) == Sizes(bs[..i]) + bs[i].size + Sizes(bs[i + 1..])
  {
    var tail := [bs[i]] + bs[i + 1..];
    assert bs == bs[..i] + tail && tail[1..] == bs[i + 1..];
    SizesAppend(bs[..i], tail);
  }

  /** A buffer that has just been opened, or any partly filled one. */
  ghost predicate Fillable(b: Buffer) {
    && Sorted(b.ranges) && Below(b.ranges, b.size) && |b.ranges| <= MAX_RANGES
    && |b.data| == b.size && b.received == Length(b.ranges) < b.size
  }

  /** A stored fragment completes the buffer exactly when no byte is missing any more. */
  lemma FillCompletesIff(b: Buffer, f: Fragment, time: u32)
    requires Fillable(b) && WellFormed(f) && |f.payload| > 0 && Fill(b, f, time).status == Ok
    ensures var r := Fill(b, f, time).buffer;
      && Sorted(r.ranges) && Below(r.ranges, r.size) && |r.ranges| <= MAX_RANGES
      && |r.data| == r.size && r.received == Length(r.ranges) && 0 < r.received <= r.size
      && (r.received == r.size <==> forall x :: 0 <= x < r.size ==> Covers(r.ranges, x))
  {
    var start, end := f.offset, f.offset + |f.payload|;
    MergedSorted(b.ranges, start, end, b.size);
    MergedCovers(b.ranges, start, end, 0);
    FullIff(b.ranges, b.size);
    LengthPositive(b.ranges);
    FullIff(Merged(b.ranges, start, end), b.size);
  }

  lemma LengthPositive(rs: seq<Range>)
    requires Sorted(rs)
    ensures Length(rs) >= 0
  {
    if rs != [] {
      SortedTail(rs);
      LengthPositive(rs[1..]);
    }
  }

  function CutOut(bs: seq<Buffer>, i: nat): seq<Buffer>
    requires i < |bs|
  {
    bs[..i] + bs[i + 1..]
  }

  lemma CutOutIs(bs: seq<Buffer>, i: nat)
    requires i < |bs|
    ensures |CutOut(bs, i)| == |bs| - 1
    ensures forall k :: 0 <= k < |bs| - 1 ==> CutOut(bs, i)[k] == bs[if k < i then k else k + 1]
  {
  }

  lemma CutOutMembers(bs: seq<Buffer>, i: nat)
    requires i < |bs| && DistinctKeys(bs)
    ensures DistinctKeys(CutOut(bs, i))
    ensures forall b :: b in CutOut(bs, i) <==> b in bs && b.key != bs[i].key
  {
    CutOutIs(bs, i);
    var d := CutOut(bs, i);
    hide CutOut;
    forall b | b in bs && b.key != bs[i].key ensures b in d {
      var k :| 0 <= k < |bs| && bs[k] == b;
      assert d[if k < i then k else k - 1] == b;
    }
  }

  lemma DropKeeps(m: Manager, i: nat)
    requires i < |m.buffers| && m.current == Sizes(m.buffers) && DistinctKeys(m.buffers)
    ensures var d := Dropped(m, i);
      && d.current == Sizes(d.buffers) == m.current - m.buffers[i].size && DistinctKeys(d.buffers)
      && |d.buffers| == |m.buffers| - 1
      && (forall b :: b in d.buffers <==> b in m.buffers && b.key != m.buffers[i].key)
  {
    SizesAround(m.buffers, i);
    CutOutMembers(m.buffers, i);
    CutOutIs(m.buffers, i);
    hide DistinctKeys, Sizes, CutOut;
  }

  lemma PutKeeps(bs: seq<Buffer>, i: nat, b: Buffer)
    requires i < |bs| && b.key == bs[i].key && b.size == bs[i].size && DistinctKeys(bs)
    ensures DistinctKeys(bs[i := b]) && Sizes(bs[i := b]) == Sizes(bs)
    ensures forall c :: c in bs[i := b] ==> c == b || (c in bs && c.key != b.key)
    ensures forall c :: c in bs && c.key != b.key ==> c in bs[i := b]
  {
    SizesAround(bs, i);
    forall c | c in bs[i := b] && c != b ensures c in bs && c.key != b.key {
      var k :| 0 <= k < |bs| && bs[i := b][k] == c;
      assert k != i && bs[k] == c;
    }
    forall c | c in bs && c.key != b.key ensures c in bs[i := b] {
      var k :| 0 <= k < |bs| && bs[k] == c;
      assert bs[i := b][k] == c;
    }
  }

  /** All but buffer `i` as the invariant wants them; buffer `i` may still be empty. */
  ghost predicate AlmostOk(m: Manager, i: nat) {
    && i < |m.buffers| && Fillable(m.buffers[i])
    && (forall b :: b in m.buffers && b.key != m.buffers[i].key ==> BufferOk(b))
    && DistinctKeys(m.buffers)
    && m.current == Sizes(m.buffers)
    && |m.buffers| <= m.maxBuffers
    && (m.maxBytes != 0 ==> m.current <= m.maxBytes)
    && (m.maxMessage != 0 ==> forall b :: b in m.buffers ==> b.size <= m.maxMessage)
  }

  lemma DepositKeeps(m: Manager, i: nat, f: Fragment, time: u32)
    requires AlmostOk(m, i) && WellFormed(f) && |f.payload| > 0
    requires m.buffers[i].received == 0 ==> m.buffers[i].ranges == [] && m.buffers[i].dataType == f.dataType && m.buffers[i].size == f.messageLen
    ensures ManagerOk(Deposit(m, i, f, time).manager)
  {
    var b := m.buffers[i];
    var r := Fill(b, f, time);
    if r.status == Ok {
      FillCompletesIff(b, f, time);
      hide Fill, Sorted, Below, Length, Covers;
      if r.buffer.received == r.buffer.size {
        DropKeeps(m, i);
      } else {
        FillKeepsIdentity(b, f, time);
        PutKeeps(m.buffers, i, r.buffer);
      }
    } else {
      if b.received == 0 {
        FirstAlwaysFits(b, f, time);
      }
      forall c | c in m.buffers ensures BufferOk(c) {
        if c.key == b.key {
          SameKeySame(m.buffers, i, c);
          LengthPositive(b.ranges);
        }
      }
    }
  }

  lemma FillKeepsIdentity(b: Buffer, f: Fragment, time: u32)
    ensures Fill(b, f, time).buffer.key == b.key && Fill(b, f, time).buffer.size == b.size
  {
  }

  lemma SameKeySame(bs: seq<Buffer>, i: nat, c: Buffer)
    requires DistinctKeys(bs) && i < |bs| && c in bs && c.key == bs[i].key
    ensures c == bs[i]
  {
  }

  lemma FirstAlwaysFits(b: Buffer, f: Fragment, time: u32)
    requires b.ranges == [] && b.dataType == f.dataType && b.size == f.messageLen && |f.payload| > 0
    ensures Fill(b, f, time).status == Ok
  {
  }

  lemma OpenedAlmostOk(m: Manager, f: Fragment, mem: Memory)
    requires ManagerOk(m) && WellFormed(f) && !HasKey(m.buffers, f.key) && Admit(m, f.messageLen, mem) == Ok
    ensures AlmostOk(Opened(m, f, mem), |m.buffers|)
  {
    var o := Opened(m, f, mem);
    var n := |m.buffers|;
    SizesAppend(m.buffers, [o.buffers[n]]);
    assert [o.buffers[n]][1..] == [];
    assert Sorted([]) && Below([], f.messageLen) && Length([]) == 0;
    forall b | b in o.buffers && b.key != f.key ensures b in m.buffers {
    }
  }

  /** No fragment, well formed or not, breaks the invariant. */
  lemma ProcessKeeps(m: Manager, f: Fragment, mem: Memory, time: u32)
    requires ManagerOk(m)
    ensures ManagerOk(Process(m, f, mem, time).manager)
  {
    if |f.payload| > 0 && WellFormed(f) {
      var i := Index(m.buffers, f.key);
      if i < |m.buffers| {
        assert m.buffers[i] in m.buffers;
        hide Deposit, Index, Sorted, Below, Length;
        DepositKeeps(m, i, f, time);
      } else if Admit(m, f.messageLen, mem) == Ok {
        OpenedAlmostOk(m, f, mem);
        hide Deposit, Index, AlmostOk, ManagerOk, Admit;
        DepositKeeps(Opened(m, f, mem), i, f, time);
      }
    }
  }

  lemma {:induction false} SweepKeeps(m: Manager, gone: Buffer -> bool)
    requires ManagerOk(m)
    ensures ManagerOk(Swept(m, gone))
  {
    LeftSizes(m.current, m.buffers, gone);
    LeftDistinct(m.buffers, gone);
    LeftLength(m.buffers, gone);
  }

  lemma {:induction false} LeftSizes(current: nat, bs: seq<Buffer>, gone: Buffer -> bool)
    requires current >= Sizes(bs)
    ensures Refunded(current, bs, gone) == current - Sizes(bs) + Sizes(Left(bs, gone))
    ensures Sizes(Left(bs, gone)) <= Sizes(bs)
  {
    if bs != [] {
      LeftSizes(if gone(bs[0]) then current - bs[0].size else current, bs[1..], gone);
    }
  }

  lemma {:induction false} LeftDistinct(bs: seq<Buffer>, gone: Buffer -> bool)
    requires DistinctKeys(bs)
    ensures DistinctKeys(Left(bs, gone))
  {
    if bs != [] {
      LeftDistinct(bs[1..], gone);
      var l := Left(bs[1..], gone);
      forall b | b in l ensures b.key != bs[0].key {
        assert b in bs[1..];
      }
      assert forall j :: 0 <= j < |l| ==> l[j] in l;
    }
  }

  lemma {:induction false} LeftLength(bs: seq<Buffer>, gone: Buffer -> bool)
    ensures |Left(bs, gone)| <= |bs|
  {
    if bs != [] {
      LeftLength(bs[1..], gone);
    }
  }

  /** Timeouts and scope resets keep the invariant and remove exactly the buffers they name. */
  lemma MaintenanceKeeps(m: Manager, now: u32, source: u16, connection: u32, epoch: u32)
    requires ManagerOk(m)
    ensures ManagerOk(Expire(m, now)) && ManagerOk(ClearScope(m, source, connection, epoch))
    ensures forall b :: b in Expire(m, now).buffers <==> b in m.buffers && !Expired(b, now)
    ensures forall b :: b in ClearScope(m, source, connection, epoch).buffers
                   <==> b in m.buffers && !InScope(b, source, connection, epoch)
  {
    SweepKeeps(m, ExpiredAt(now));
    SweepKeeps(m, ScopeOf(source, connection, epoch));
  }

  // ---- Sweeping in place ----

  /** A sweep that has dealt with the first buffers: `i` of them stay. */
  ghost predicate SweptUpTo(m0: Manager, m: Manager, i: nat, gone: Buffer -> bool) {
    && i <= |m.buffers|
    && m == m0.(buffers := m.buffers, current := m.current)
    && Left(m0.buffers, gone) == m.buffers[..i] + Left(m.buffers[i..], gone)
    && Refunded(m0.current, m0.buffers, gone) == Refunded(m.current, m.buffers[i..], gone)
  }

  lemma SweepStart(m: Manager, gone: Buffer -> bool)
    ensures SweptUpTo(m, m, 0, gone)
  {
    assert m.buffers[0..] == m.buffers;
  }

  lemma SweepHead(current: nat, bs: seq<Buffer>, gone: Buffer -> bool)
    requires bs != []
    ensures Left(bs, gone) == (if gone(bs[0]) then [] else [bs[0]]) + Left(bs[1..], gone)
    ensures Refunded(current, bs, gone)
         == Refunded(if gone(bs[0]) && bs[0].size <= current then current - bs[0].size else current, bs[1..], gone)
  {
  }

  lemma SweepStays(m0: Manager, m: Manager, i: nat, gone: Buffer -> bool)
    requires SweptUpTo(m0, m, i, gone) && i < |m.buffers| && !gone(m.buffers[i])
    ensures SweptUpTo(m0, m, i + 1, gone)
  {
    SweepHead(m.current, m.buffers[i..], gone);
    hide Left, Refunded;
    var rest := Left(m.buffers[i + 1..], gone);
    assert m.buffers[i..][1..] == m.buffers[i + 1..];
    assert m.buffers[..i] + ([m.buffers[i]] + rest) == m.buffers[..i + 1] + rest;
  }

  lemma SweepGoes(m0: Manager, m: Manager, i: nat, gone: Buffer -> bool)
    requires SweptUpTo(m0, m, i, gone) && i < |m.buffers| && gone(m.buffers[i])
    ensures SweptUpTo(m0, Dropped(m, i), i, gone)
  {
    SweepHead(m.current, m.buffers[i..], gone);
    hide Left, Refunded;
    var rest := Left(m.buffers[i + 1..], gone);
    assert m.buffers[i..][1..] == m.buffers[i + 1..] && [] + rest == rest;
    assert CutOut(m.buffers, i)[i..] == m.buffers[i + 1..] && CutOut(m.buffers, i)[..i] == m.buffers[..i];
  }

  lemma SweepDone(m0: Manager, m: Manager, gone: Buffer -> bool)
    requires SweptUpTo(m0, m, |m.buffers|, gone)
    ensures m == Swept(m0, gone)
  {
  }
}
