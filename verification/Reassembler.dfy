/**
 * The reassembly manager as the code keeps it: buffers with their own byte and
 * range arrays, filled in place, and a running byte budget. Every method is
 * proved against the value-level `Reassembly` functions.
 */
module Reassembler {
  import opened Base
  import opened FragmentRange
  import opened Reassembly

  class ReassemblyBuffer {
    const key: Key
    const dataType: u8
    const data: array<byte>
    const received: Received
    const timeout: u32
    var receivedBytes: nat
    var firstTime: u32

    ghost predicate Valid()
      reads this, received, received.cells
    {
      received.Valid() && Sorted(received.Ranges()) && data as object != received.cells as object
    }

    ghost function View(): Buffer
      requires received.Valid()
      reads this, data, received, received.cells
    {
      Buffer(key, dataType, data.Length, received.Ranges(), receivedBytes, data[..], firstTime, timeout)
    }

    constructor (f: Fragment, mem: Memory, timeout: u32)
      ensures Valid() && View() == Buffer(f.key, f.dataType, f.messageLen, [], 0, Block(mem.junk, f.messageLen), 0, timeout)
      ensures fresh(data) && fresh(received) && fresh(received.cells)
    {
      key, dataType, this.timeout := f.key, f.dataType, timeout;
      var junk := mem.junk;
      data := new byte[f.messageLen](i requires 0 <= i => if i < |junk| then junk[i] else 0);
      received := new Received();
      receivedBytes, firstTime := 0, 0;
      new;
      assert data[..] == Block(mem.junk, f.messageLen);
    }

    /** Copies a payload into place. */
    method Copy(start: nat, payload: Bytes)
      requires start + |payload| <= data.Length
      modifies data
      ensures data[..] == WriteAt(old(data[..]), start, payload)
    {
      var i := 0;
      while i < |payload|
        invariant 0 <= i <= |payload|
        invariant forall x :: 0 <= x < data.Length ==> data[x] == if start <= x < start + i then payload[x - start] else old(data[x])
      {
        data[start + i] := payload[i];
        i := i + 1;
      }
    }

    method Store(f: Fragment, time: u32) returns (status: Status)
      requires Valid() && WellFormed(f) && Below(received.Ranges(), data.Length)
      modifies this, data, received`count, received.cells
      ensures Valid() && Filled(View(), status) == Fill(old(View()), f, time)
    {
      if dataType != f.dataType || data.Length != f.messageLen {
        return InvalidFrame;
      }
      InsertSorted(received.Ranges(), f.offset, f.offset + |f.payload|, data.Length);
      hide Sorted, Below, AfterInsert;
      status := received.Insert(f.offset, f.offset + |f.payload|);
      assert data[..] == old(data[..]);
      if status == Ok {
        Fields(f, time);
      }
    }

    method Fields(f: Fragment, time: u32)
      requires f.offset + |f.payload| <= data.Length && received.Valid()
      requires data as object != received.cells as object
      modifies this, data
      ensures received.Valid()
      ensures View() == old(View()).(received := old(receivedBytes) + |f.payload|,
        data := WriteAt(old(data[..]), f.offset, f.payload), first := if old(receivedBytes) == 0 then time else old(firstTime))
    {
      var isFirst := receivedBytes == 0;
      Copy(f.offset, f.payload);
      receivedBytes := receivedBytes + |f.payload|;
      if isFirst {
        firstTime := time;
      }
    }
  }

  lemma InsertSorted(rs: seq<Range>, start: nat, end: nat, size: nat)
    requires Sorted(rs) && Below(rs, size) && end <= size
    ensures Sorted(AfterInsert(rs, start, end).ranges)
    ensures AfterInsert(rs, start, end).status != Ok ==> AfterInsert(rs, start, end).ranges == rs
  {
    if start < end && !AnyOverlap(rs, start, end) {
      MergedSorted(rs, start, end, size);
    }
  }

  // ---- Lists of buffers ----

  ghost function Objects(bs: seq<ReassemblyBuffer>): set<object> {
    (set b | b in bs :: b as object) + (set b | b in bs :: b.data as object)
    + (set b | b in bs :: b.received as object) + (set b | b in bs :: b.received.cells as object)
  }

  lemma ObjectsHave(bs: seq<ReassemblyBuffer>, i: nat)
    requires i < |bs|
    ensures {bs[i], bs[i].data, bs[i].received, bs[i].received.cells} <= Objects(bs)
  {
    assert bs[i] in bs;
  }

  ghost predicate Apart(a: ReassemblyBuffer, b: ReassemblyBuffer) {
    && a != b && a.data != b.data && a.received != b.received && a.received.cells != b.received.cells
    && a.data as object != b.received.cells as object && a.received.cells as object != b.data as object
  }

  ghost predicate Separate(bs: seq<ReassemblyBuffer>) {
    forall i, j :: 0 <= i < j < |bs| ==> Apart(bs[i], bs[j])
  }

  lemma OthersApart(bs: seq<ReassemblyBuffer>, i: nat)
    requires Separate(bs) && i < |bs|
    ensures forall j :: 0 <= j < |bs| && j != i ==> Apart(bs[j], bs[i])
  {
    forall j | 0 <= j < |bs| && j != i ensures Apart(bs[j], bs[i]) {
      assert Apart(bs[if i < j then i else j], bs[if i < j then j else i]);
    }
  }

  ghost predicate AllValid(bs: seq<ReassemblyBuffer>)
    reads Objects(bs)
  {
    forall i {:trigger bs[i]} :: 0 <= i < |bs| ==> (ObjectsHave(bs, i); bs[i].Valid())
  }

  ghost function Views(bs: seq<ReassemblyBuffer>): (r: seq<Buffer>)
    requires AllValid(bs)
    reads Objects(bs)
    ensures |r| == |bs| && forall i :: 0 <= i < |bs| ==> (ObjectsHave(bs, i); r[i] == bs[i].View())
  {
    seq(|bs|, i requires 0 <= i < |bs| && AllValid(bs) reads Objects(bs) => ObjectsHave(bs, i); bs[i].View())
  }

  function CutList(bs: seq<ReassemblyBuffer>, i: nat): seq<ReassemblyBuffer>
    requires i < |bs|
  {
    bs[..i] + bs[i + 1..]
  }

  lemma CutListIs(bs: seq<ReassemblyBuffer>, i: nat)
    requires i < |bs|
    ensures |CutList(bs, i)| == |bs| - 1
    ensures forall k :: 0 <= k < |bs| - 1 ==> CutList(bs, i)[k] == bs[if k < i then k else k + 1]
  {
  }

  lemma CutSeparate(bs: seq<ReassemblyBuffer>, i: nat)
    requires i < |bs|
    ensures Separate(bs) ==> Separate(CutList(bs, i))
    ensures Objects(CutList(bs, i)) <= Objects(bs)
  {
    CutListIs(bs, i);
    assert forall b :: b in CutList(bs, i) ==> b in bs;
    hide CutList, Apart;
  }

  lemma CutViews(bs: seq<ReassemblyBuffer>, i: nat)
    requires i < |bs| && AllValid(bs)
    ensures AllValid(CutList(bs, i)) && Views(CutList(bs, i)) == CutOut(Views(bs), i)
  {
    var c := CutList(bs, i);
    CutListIs(bs, i);
    CutOutIs(Views(bs), i);
    forall k | 0 <= k < |c| ensures c[k].Valid() && c[k].View() == CutOut(Views(bs), i)[k] {
      assert c[k] == bs[if k < i then k else k + 1];
    }
    hide CutList, CutOut, Objects;
  }

  lemma AppendSeparate(bs: seq<ReassemblyBuffer>, b: ReassemblyBuffer)
    requires Separate(bs) && forall i :: 0 <= i < |bs| ==> Apart(bs[i], b)
    ensures Separate(bs + [b])
    ensures Objects(bs + [b]) == Objects(bs) + {b, b.data, b.received, b.received.cells}
  {
    assert forall c :: c in bs + [b] <==> c in bs || c == b;
    hide Apart;
  }

  lemma AppendViews(bs: seq<ReassemblyBuffer>, b: ReassemblyBuffer)
    requires AllValid(bs) && b.Valid()
    ensures AllValid(bs + [b]) && Views(bs + [b]) == Views(bs) + [b.View()]
  {
    var t := bs + [b];
    forall k | 0 <= k < |t| ensures t[k].Valid() && t[k].View() == (Views(bs) + [b.View()])[k] {
      assert k < |bs| ==> t[k] == bs[k];
    }
    hide Objects;
  }

  lemma FillRefused(bs: seq<Buffer>, i: nat, f: Fragment, time: u32)
    requires i < |bs|
    ensures Fill(bs[i], f, time).status != Ok ==> bs[i := Fill(bs[i], f, time).buffer] == bs
    ensures Fill(bs[i], f, time).buffer.size == bs[i].size
  {
  }

  lemma ProcessCases(m: Manager, f: Fragment, mem: Memory, time: u32)
    requires |f.payload| > 0 && WellFormed(f)
    ensures var i := Index(m.buffers, f.key);
      Process(m, f, mem, time) ==
        if i < |m.buffers| then Deposit(m, i, f, time)
        else if Admit(m, f.messageLen, mem) != Ok then Outcome(m, Admit(m, f.messageLen, mem), None)
        else Deposit(Opened(m, f, mem), |m.buffers|, f, time)
  {
  }

  class ReassemblyManager {
    const maxBuffers: nat
    const maxMessage: nat
    const maxBytes: nat
    const timeout: u32
    var buffers: seq<ReassemblyBuffer>
    var currentBytes: nat

    /** The buffers are well formed and share no memory with each other or the manager. */
    ghost predicate ListOk()
      reads this, Objects(buffers)
    {
      this !in Objects(buffers) && Separate(buffers) && AllValid(buffers)
    }

    ghost function View(): Manager
      requires ListOk()
      reads this, Objects(buffers)
    {
      Manager(Views(buffers), currentBytes, maxBuffers, maxMessage, maxBytes, timeout)
    }

    ghost predicate Valid()
      reads this, Objects(buffers)
    {
      ListOk() && ManagerOk(View())
    }

    constructor (maxBuffers: nat, maxMessage: nat, maxBytes: nat, timeout: u32)
      ensures Valid() && View() == Manager([], 0, maxBuffers, maxMessage, maxBytes, timeout)
    {
      this.maxBuffers, this.maxMessage, this.maxBytes, this.timeout := maxBuffers, maxMessage, maxBytes, timeout;
      buffers, currentBytes := [], 0;
    }

    method Find(key: Key) returns (i: nat)
      requires ListOk()
      ensures ListOk() && View() == old(View()) && i == Index(View().buffers, key)
    {
      i := 0;
      ghost var vs := View().buffers;
      assert vs[0..] == vs;
      hide Separate, Objects;
      while i < |buffers|
        invariant 0 <= i <= |buffers|
        invariant Index(vs, key) == i + Index(vs[i..], key)
      {
        assert vs[i..][0] == buffers[i].View() && vs[i..][1..] == vs[i + 1..];
        if buffers[i].key == key {
          return;
        }
        i := i + 1;
      }
    }

    /** Opens a buffer for a message not seen before. */
    method Create(f: Fragment, mem: Memory) returns (status: Status)
      requires ListOk()
      modifies this`buffers, this`currentBytes
      ensures ListOk() && (forall o :: o in Objects(buffers) && o !in old(Objects(buffers)) ==> fresh(o))
      ensures status == Admit(old(View()), f.messageLen, mem)
      ensures View() == if status == Ok then Opened(old(View()), f, mem) else old(View())
      ensures |buffers| == |old(buffers)| + (if status == Ok then 1 else 0)
      ensures status == Ok ==> buffers[|buffers| - 1].received.Valid() && buffers[|buffers| - 1].received.Ranges() == []
    {
      if |buffers| >= maxBuffers {
        return NoMemory;
      }
      if maxMessage != 0 && f.messageLen > maxMessage {
        return BufferTooSmall;
      }
      if maxBytes != 0 && (currentBytes > maxBytes || f.messageLen > maxBytes - currentBytes) {
        return NoMemory;
      }
      if !mem.nodeOk || !mem.dataOk {
        return NoMemory;
      }
      Open(f, mem);
      return Ok;
    }

    method NewBuffer(f: Fragment, mem: Memory) returns (b: ReassemblyBuffer)
      requires ListOk()
      ensures ListOk() && View() == old(View()) && fresh(b) && fresh(b.data) && fresh(b.received) && fresh(b.received.cells)
      ensures b.Valid() && b.View() == Buffer(f.key, f.dataType, f.messageLen, [], 0, Block(mem.junk, f.messageLen), 0, timeout)
      ensures forall i :: 0 <= i < |buffers| ==> Apart(buffers[i], b)
    {
      b := new ReassemblyBuffer(f, mem, timeout);
    }

    method Open(f: Fragment, mem: Memory)
      requires ListOk()
      modifies this`buffers, this`currentBytes
      ensures ListOk() && (forall o :: o in Objects(buffers) && o !in old(Objects(buffers)) ==> fresh(o))
      ensures View() == Opened(old(View()), f, mem)
      ensures |buffers| == |old(buffers)| + 1
      ensures buffers[|buffers| - 1].received.Valid() && buffers[|buffers| - 1].received.Ranges() == []
    {
      ghost var bs := buffers;
      hide Objects, Separate, AllValid, Views, Apart, Sorted;
      var b := NewBuffer(f, mem);
      AppendSeparate(bs, b);
      AppendViews(bs, b);
      buffers := buffers + [b];
      currentBytes := currentBytes + f.messageLen;
    }

    /** Adds a fragment to buffer `i`; the last missing one releases the buffer. */
    method Deposit(i: nat, f: Fragment, time: u32) returns (status: Status, message: Option<Bytes>)
      requires ListOk() && i < |buffers| && WellFormed(f)
      requires Below(buffers[i].received.Ranges(), buffers[i].data.Length)
      modifies this`buffers, this`currentBytes, Objects(buffers)
      ensures ListOk() && Objects(buffers) <= old(Objects(buffers))
      ensures Outcome(View(), status, message) == Reassembly.Deposit(old(View()), i, f, time)
    {
      FillRefused(View().buffers, i, f, time);
      hide ListOk, Objects, Fill;
      status := StoreAt(i, f, time);
      if status != Ok {
        return status, None;
      }
      var full;
      full, message := TakeIfFull(i);
      status := if full then Ok else Busy;
    }

    method StoreAt(i: nat, f: Fragment, time: u32) returns (status: Status)
      requires ListOk() && i < |buffers| && WellFormed(f)
      requires Below(buffers[i].received.Ranges(), buffers[i].data.Length)
      modifies Objects(buffers)
      ensures ListOk() && buffers == old(buffers)
      ensures var r := Fill(old(View()).buffers[i], f, time);
        status == r.status && View() == old(View()).(buffers := old(View()).buffers[i := r.buffer])
    {
      var b := buffers[i];
      ObjectsHave(buffers, i);
      OthersApart(buffers, i);
      hide Fill, Sorted, Objects, Separate;
      status := b.Store(f, time);
      forall j | 0 <= j < |buffers| && j != i
        ensures buffers[j].Valid() && buffers[j].View() == old(buffers[j].View())
      {
        assert Apart(buffers[j], b);
      }
    }

    /** Takes buffer `i` off the list if all its bytes are there. */
    method TakeIfFull(i: nat) returns (full: bool, message: Option<Bytes>)
      requires ListOk() && i < |buffers|
      modifies this`buffers, this`currentBytes
      ensures ListOk() && Objects(buffers) <= old(Objects(buffers))
      ensures var b := old(View()).buffers[i];
        && full == (b.received == b.size) && message == (if full then Some(b.data) else None)
        && View() == if full then Dropped(old(View()), i) else old(View())
    {
      var b := buffers[i];
      assert View().buffers[i] == b.View();
      full := b.receivedBytes == b.data.Length;
      message := None;
      if full {
        message := Some(b.data[..]);
        hide ListOk, Objects, Dropped;
        RemoveAt(i);
      }
    }

    lemma ViewSize(i: nat)
      requires ListOk() && i < |buffers|
      ensures |View().buffers| == |buffers| && View().buffers[i].size == buffers[i].data.Length
    {
    }

    /** Takes buffer `i` off the list and returns its reservation. */
    method RemoveAt(i: nat)
      requires ListOk() && i < |buffers|
      modifies this`buffers, this`currentBytes
      ensures ListOk() && Objects(buffers) <= old(Objects(buffers))
      ensures buffers == CutList(old(buffers), i)
      ensures View() == Dropped(old(View()), i)
    {
      ViewSize(i);
      hide ListOk, View, Objects, CutList, CutOut;
      var size := buffers[i].data.Length;
      CutAt(i);
      Refund(size);
    }

    method CutAt(i: nat)
      requires ListOk() && i < |buffers|
      modifies this`buffers
      ensures ListOk() && Objects(buffers) <= old(Objects(buffers)) && buffers == CutList(old(buffers), i)
      ensures View() == old(View()).(buffers := CutOut(old(View()).buffers, i))
    {
      hide Objects, Separate, AllValid, Views, CutOut, CutList;
      CutSeparate(buffers, i);
      CutViews(buffers, i);
      buffers := CutList(buffers, i);
    }

    /** Returns a reservation; the budget never goes below 0. */
    method Refund(size: nat)
      requires ListOk()
      modifies this`currentBytes
      ensures ListOk() && buffers == old(buffers)
      ensures View() == old(View()).(current := if size <= old(View()).current then old(View()).current - size else old(View()).current)
    {
      hide Objects, Separate, AllValid, Views;
      if size <= currentBytes {
        currentBytes := currentBytes - size;
      }
    }

    method Route(f: Fragment, mem: Memory, time: u32) returns (status: Status, message: Option<Bytes>)
      requires Valid() && |f.payload| > 0 && WellFormed(f)
      modifies this`buffers, this`currentBytes, Objects(buffers)
      ensures ListOk() && (forall o :: o in Objects(buffers) && o !in old(Objects(buffers)) ==> fresh(o))
      ensures Outcome(View(), status, message) == Process(old(View()), f, mem, time)
    {
      AllBelow();
      ViewIs();
      ProcessCases(View(), f, mem, time);
      hide ManagerOk, Objects, ListOk, View, Admit, Reassembly.Deposit, Opened, Below, Index, WellFormed, Process;
      var i := Find(f.key);
      if i < |buffers| {
        status, message := Deposit(i, f, time);
      } else {
        status, message := RouteNew(f, mem, time);
      }
    }

    method RouteNew(f: Fragment, mem: Memory, time: u32) returns (status: Status, message: Option<Bytes>)
      requires ListOk() && WellFormed(f)
      modifies this`buffers, this`currentBytes, Objects(buffers)
      ensures ListOk() && (forall o :: o in Objects(buffers) && o !in old(Objects(buffers)) ==> fresh(o))
      ensures Outcome(View(), status, message) ==
        var m := old(View());
        if Admit(m, f.messageLen, mem) != Ok then Outcome(m, Admit(m, f.messageLen, mem), None)
        else Reassembly.Deposit(Opened(m, f, mem), |m.buffers|, f, time)
    {
      ViewIs();
      hide Objects, ListOk, View, Admit, Reassembly.Deposit, Opened, WellFormed;
      status := Create(f, mem);
      if status != Ok {
        return status, None;
      }
      EmptyBelow(buffers[|buffers| - 1]);
      status, message := Deposit(|buffers| - 1, f, time);
    }

    lemma ViewIs()
      requires ListOk()
      ensures |View().buffers| == |buffers|
    {
    }

    lemma EmptyBelow(b: ReassemblyBuffer)
      requires b.received.Valid() && b.received.Ranges() == []
      ensures Below(b.received.Ranges(), b.data.Length)
    {
    }

    lemma AllBelow()
      requires Valid()
      ensures forall i :: 0 <= i < |buffers| ==> Below(buffers[i].received.Ranges(), buffers[i].data.Length)
    {
      forall i | 0 <= i < |buffers| ensures Below(buffers[i].received.Ranges(), buffers[i].data.Length) {
        assert View().buffers[i] in View().buffers;
      }
    }

    /** The reassembly step. `now` 0 means "read the clock". */
    method ProcessFragment(f: Fragment, mem: Memory, now: u32, clock: u32) returns (status: Status, message: Option<Bytes>)
      requires Valid()
      modifies this`buffers, this`currentBytes, Objects(buffers)
      ensures Valid() && (forall o :: o in Objects(buffers) && o !in old(Objects(buffers)) ==> fresh(o))
      ensures Outcome(View(), status, message) == Process(old(View()), f, mem, if now == 0 then clock else now)
    {
      if |f.payload| == 0 {
        return InvalidParam, None;
      }
      if f.messageLen == 0 || f.offset > f.messageLen || |f.payload| > f.messageLen - f.offset {
        return InvalidFrame, None;
      }
      var time := if now == 0 then clock else now;
      ProcessKeeps(View(), f, mem, time);
      hide ManagerOk, Objects, ListOk, Process;
      status, message := Route(f, mem, time);
    }

    /** Drops every message whose first fragment is too old; returns how many. */
    method ProcessTimeouts(now: u32) returns (expired: nat)
      requires Valid()
      modifies this`buffers, this`currentBytes
      ensures Valid() && View() == Expire(old(View()), now)
      ensures expired == |old(buffers)| - |buffers|
    {
      ghost var m, gone := View(), ExpiredAt(now);
      SweepKeeps(m, gone);
      hide Objects, ListOk, View, ManagerOk, SweptUpTo, Swept, ExpiredAt;
      SweepStart(m, gone);
      expired := SweepExpired(now, m, gone);
      SweepDone(m, View(), gone);
    }

    method SweepExpired(now: u32, ghost m: Manager, ghost gone: Buffer -> bool) returns (expired: nat)
      requires ListOk() && SweptUpTo(m, View(), 0, gone) && gone == ExpiredAt(now)
      modifies this`buffers, this`currentBytes
      ensures ListOk() && SweptUpTo(m, View(), |View().buffers|, gone) && expired == |old(buffers)| - |buffers|
    {
      hide Objects, ListOk, View, SweptUpTo, ExpiredAt;
      var i := 0;
      expired := 0;
      while i < |buffers|
        invariant ListOk() && i <= |buffers| && SweptUpTo(m, View(), i, gone)
        invariant expired == |old(buffers)| - |buffers|
        decreases |buffers| - i
      {
        var due := IsExpired(i, now);
        SweepOne(i, due, m, gone);
        if due {
          expired := expired + 1;
        } else {
          i := i + 1;
        }
      }
      ViewIs();
    }

    method IsExpired(i: nat, now: u32) returns (due: bool)
      requires ListOk() && i < |buffers|
      ensures ListOk() && View() == old(View()) && |View().buffers| == |buffers| && due == ExpiredAt(now)(View().buffers[i])
    {
      var b := buffers[i];
      assert View().buffers[i] == b.View();
      if b.firstTime == 0 {
        return false;
      }
      return Sub32(now, b.firstTime) >= b.timeout;
    }

    /** One node of a sweep: drop it, or leave it and move on. */
    method SweepOne(i: nat, drop: bool, ghost m: Manager, ghost gone: Buffer -> bool)
      requires ListOk() && i < |buffers| == |View().buffers|
      requires SweptUpTo(m, View(), i, gone) && drop == gone(View().buffers[i])
      modifies this`buffers, this`currentBytes
      ensures ListOk() && |buffers| == |old(buffers)| - (if drop then 1 else 0)
      ensures SweptUpTo(m, View(), if drop then i else i + 1, gone)
    {
      CutListIs(buffers, i);
      hide Objects, ListOk, View, SweptUpTo, Dropped, CutList;
      if drop {
        SweepGoes(m, View(), i, gone);
        RemoveAt(i);
      } else {
        SweepStays(m, View(), i, gone);
      }
    }

    /** Drops the messages of one session; returns how many. */
    method ClearReassemblyScope(source: u16, connection: u32, epoch: u32) returns (cleared: nat)
      requires Valid()
      modifies this`buffers, this`currentBytes
      ensures Valid() && View() == ClearScope(old(View()), source, connection, epoch)
      ensures cleared == |old(buffers)| - |buffers|
    {
      ghost var m, gone := View(), ScopeOf(source, connection, epoch);
      SweepKeeps(m, gone);
      hide Objects, ListOk, View, ManagerOk, SweptUpTo, Swept, ScopeOf;
      SweepStart(m, gone);
      cleared := SweepScope(source, connection, epoch, m, gone);
      SweepDone(m, View(), gone);
    }

    method SweepScope(source: u16, connection: u32, epoch: u32, ghost m: Manager, ghost gone: Buffer -> bool) returns (cleared: nat)
      requires ListOk() && SweptUpTo(m, View(), 0, gone) && gone == ScopeOf(source, connection, epoch)
      modifies this`buffers, this`currentBytes
      ensures ListOk() && SweptUpTo(m, View(), |View().buffers|, gone) && cleared == |old(buffers)| - |buffers|
    {
      hide Objects, ListOk, View, SweptUpTo, ScopeOf;
      var i := 0;
      cleared := 0;
      while i < |buffers|
        invariant ListOk() && i <= |buffers| && SweptUpTo(m, View(), i, gone)
        invariant cleared == |old(buffers)| - |buffers|
        decreases |buffers| - i
      {
        var found := IsInScope(i, source, connection, epoch);
        SweepOne(i, found, m, gone);
        if found {
          cleared := cleared + 1;
        } else {
          i := i + 1;
        }
      }
      ViewIs();
    }

    method IsInScope(i: nat, source: u16, connection: u32, epoch: u32) returns (inScope: bool)
      requires ListOk() && i < |buffers|
      ensures ListOk() && View() == old(View()) && |View().buffers| == |buffers|
      ensures inScope == ScopeOf(source, connection, epoch)(View().buffers[i])
    {
      var b := buffers[i];
      assert View().buffers[i] == b.View();
      return b.key.source == source && b.key.connection == connection && b.key.epoch == epoch;
    }

    /** Frees everything; the whole budget comes back. */
    method Clear()
      requires Valid()
      modifies this`buffers, this`currentBytes
      ensures Valid() && View() == old(View()).(buffers := [], current := 0)
    {
      ghost var m := View();
      ViewIs();
      hide Objects, ListOk, View, ManagerOk, Sizes, CutOut;
      while |buffers| > 0
        invariant ListOk() && |View().buffers| == |buffers| && View().current == Sizes(View().buffers)
        invariant View() == m.(buffers := View().buffers, current := View().current)
        decreases |buffers|
      {
        FirstSize(View().buffers);
        RemoveAt(0);
        ViewIs();
      }
      EmptyOk(m, View());
    }
  }

  lemma FirstSize(bs: seq<Buffer>)
    requires bs != []
    ensures Sizes(CutOut(bs, 0)) == Sizes(bs) - bs[0].size && |CutOut(bs, 0)| == |bs| - 1 && bs[0].size <= Sizes(bs)
  {
    assert CutOut(bs, 0) == bs[1..];
  }

  lemma EmptyOk(m0: Manager, m: Manager)
    requires m.buffers == [] && m.current == Sizes([]) && m == m0.(buffers := m.buffers, current := m.current)
    ensures m == m0.(buffers := [], current := 0) && ManagerOk(m)
  {
  }
}
