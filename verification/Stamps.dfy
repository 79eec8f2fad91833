/**
 * When a message being reassembled was first heard of, over whole runs of the
 * manager, and what a timeout does with it; and the answers the reassembly step
 * gives to fragments it cannot use.
 */
module Stamps {
  import opened Base
  import opened FragmentRange
  import opened Reassembly
  import RoundTrip

  // ---- Runs of the manager ----

  datatype Event =
    | Arrives(f: Fragment, mem: Memory, time: u32)
    | Expires(now: u32)
    | Clears(source: u16, connection: u32, epoch: u32)

  function Apply(m: Manager, ev: Event): Manager {
    match ev
    case Arrives(f, mem, time) => Process(m, f, mem, time).manager
    case Expires(now) => Expire(m, now)
    case Clears(source, connection, epoch) => ClearScope(m, source, connection, epoch)
  }

  function Run(m: Manager, events: seq<Event>): Manager {
    if events == [] then m else Apply(Run(m, events[..|events| - 1]), events[|events| - 1])
  }

  ghost predicate Holds(m: Manager, key: Key) {
    exists b :: b in m.buffers && b.key == key
  }

  /** When the piece came that the manager first kept of the message it now holds under a key. */
  ghost function Birth(m: Manager, events: seq<Event>, key: Key): Option<u32> {
    if events == [] then None
    else
      var n := |events| - 1;
      if !Holds(Run(m, events), key) then None
      else if Holds(Run(m, events[..n]), key) then Birth(m, events[..n], key)
      else if events[n].Arrives? then Some(events[n].time)
      else None
  }

  /** `b` carries on a message of `m`, or starts one at `time`. */
  ghost predicate Carries(m: Manager, b: Buffer, time: u32) {
    if Holds(m, b.key) then exists o :: o in m.buffers && o.key == b.key && o.first == b.first && o.timeout == b.timeout
    else b.first == time && b.timeout == m.timeout
  }

  lemma SameCarries(m: Manager, b: Buffer, time: u32)
    requires b in m.buffers
    ensures Carries(m, b, time)
  {
  }

  lemma UniqueKey(bs: seq<Buffer>, a: Buffer, b: Buffer)
    requires DistinctKeys(bs) && a in bs && b in bs && a.key == b.key
    ensures a == b
  {
    var i :| 0 <= i < |bs| && bs[i] == a;
    var j :| 0 <= j < |bs| && bs[j] == b;
  }

  /** Filling a buffer that holds something leaves its stamp and timeout; the first piece stamps it. */
  lemma FillStamps(b: Buffer, f: Fragment, time: u32)
    ensures var r := Fill(b, f, time).buffer;
      r.key == b.key && r.timeout == b.timeout && (b.received > 0 ==> r.first == b.first)
    ensures b.received == 0 && b.ranges == [] && b.dataType == f.dataType && b.size == f.messageLen && |f.payload| > 0
      ==> Fill(b, f, time).status == Ok && Fill(b, f, time).buffer.first == time
  {
  }

  lemma DepositMembers(m: Manager, i: nat, f: Fragment, time: u32, b: Buffer)
    requires i < |m.buffers| && b in Deposit(m, i, f, time).manager.buffers
    ensures b in m.buffers || (b == Fill(m.buffers[i], f, time).buffer && Fill(m.buffers[i], f, time).status == Ok)
    ensures Fill(m.buffers[i], f, time).status == Ok && DistinctKeys(m.buffers) && b.key == m.buffers[i].key
      ==> b == Fill(m.buffers[i], f, time).buffer
  {
    var r := Fill(m.buffers[i], f, time);
    FillStamps(m.buffers[i], f, time);
    hide Fill;
    if r.status == Ok {
      var bs := m.buffers;
      if r.buffer.received == r.buffer.size {
        CutOutIs(bs, i);
        var k :| 0 <= k < |CutOut(bs, i)| && CutOut(bs, i)[k] == b;
        assert b == bs[if k < i then k else k + 1];
      } else {
        var k :| 0 <= k < |bs| && bs[i := r.buffer][k] == b;
      }
    }
  }

  lemma ProcessCarries(m: Manager, f: Fragment, mem: Memory, time: u32, b: Buffer)
    requires ManagerOk(m) && b in Process(m, f, mem, time).manager.buffers
    ensures Carries(m, b, time)
  {
    RoundTrip.OthersKept(m, f, mem, time);
    if b in m.buffers {
      SameCarries(m, b, time);
    } else {
      var i := Index(m.buffers, f.key);
      if i < |m.buffers| {
        assert m.buffers[i] in m.buffers && BufferOk(m.buffers[i]);
        DepositMembers(m, i, f, time, b);
        FillStamps(m.buffers[i], f, time);
        hide Fill, Deposit;
      } else {
        var o := Opened(m, f, mem);
        OpenedAlmostOk(m, f, mem);
        FillStamps(o.buffers[i], f, time);
        DepositMembers(o, i, f, time, b);
        NoneHeld(m, f.key);
        hide Fill, Deposit, AlmostOk, ManagerOk;
        assert forall c :: c in o.buffers ==> c in m.buffers || c == o.buffers[i];
      }
    }
  }

  lemma NoneHeld(m: Manager, key: Key)
    requires Index(m.buffers, key) == |m.buffers|
    ensures !Holds(m, key)
  {
    forall b | b in m.buffers ensures b.key != key {
      var i :| 0 <= i < |m.buffers| && m.buffers[i] == b;
    }
  }

  lemma NotListed(m: Manager, key: Key)
    requires !Holds(m, key)
    ensures Index(m.buffers, key) == |m.buffers|
  {
  }

  lemma ApplyCarries(m: Manager, ev: Event, b: Buffer)
    requires ManagerOk(m) && b in Apply(m, ev).buffers
    ensures ManagerOk(Apply(m, ev)) && Apply(m, ev).timeout == m.timeout
    ensures Carries(m, b, if ev.Arrives? then ev.time else 0)
    ensures !ev.Arrives? ==> b in m.buffers
  {
    match ev
    case Arrives(f, mem, time) =>
      ProcessKeeps(m, f, mem, time);
      ProcessCarries(m, f, mem, time, b);
      ProcessTimeout(m, f, mem, time);
    case Expires(now) =>
      MaintenanceKeeps(m, now, 0, 0, 0);
    case Clears(source, connection, epoch) =>
      MaintenanceKeeps(m, 0, source, connection, epoch);
  }

  lemma ProcessTimeout(m: Manager, f: Fragment, mem: Memory, time: u32)
    ensures Process(m, f, mem, time).manager.timeout == m.timeout
  {
    hide Fill;
  }

  lemma ApplyOk(m: Manager, ev: Event)
    requires ManagerOk(m)
    ensures ManagerOk(Apply(m, ev)) && Apply(m, ev).timeout == m.timeout
  {
    match ev
    case Arrives(f, mem, time) =>
      ProcessKeeps(m, f, mem, time);
      ProcessTimeout(m, f, mem, time);
    case Expires(now) =>
      MaintenanceKeeps(m, now, 0, 0, 0);
    case Clears(source, connection, epoch) =>
      MaintenanceKeeps(m, 0, source, connection, epoch);
  }

  /**
   * Over every run of arrivals, timeouts and resets from an empty manager, the stamp
   * of a listed message is the time of the piece that started it; later pieces,
   * duplicates and refused pieces leave it.
   */
  lemma {:induction false} StampsAreBirths(m: Manager, events: seq<Event>)
    requires ManagerOk(m) && m.buffers == []
    ensures var r := Run(m, events);
      && ManagerOk(r) && r.timeout == m.timeout
      && forall b :: b in r.buffers ==> Birth(m, events, b.key) == Some(b.first) && b.timeout == m.timeout
  {
    if events != [] {
      var n := |events| - 1;
      StampsAreBirths(m, events[..n]);
      var s, r := Run(m, events[..n]), Run(m, events);
      ApplyOk(s, events[n]);
      forall b | b in r.buffers ensures Birth(m, events, b.key) == Some(b.first) && b.timeout == m.timeout {
        ApplyCarries(s, events[n], b);
        hide Apply, ManagerOk, Run;
        assert Holds(r, b.key);
        if !events[n].Arrives? {
          assert Holds(s, b.key);
        }
      }
    }
  }

  /**
   * So a timeout pass drops a message exactly when the clock then reads at least the
   * manager's timeout past the arrival of its first piece, and that was not at
   * reading 0.
   */
  lemma PassDropsIff(m: Manager, events: seq<Event>, now: u32, key: Key)
    requires ManagerOk(m) && m.buffers == [] && Holds(Run(m, events), key)
    ensures Birth(m, events, key).Some?
    ensures Holds(Run(m, events + [Expires(now)]), key) <==>
      !(Birth(m, events, key).value != 0 && Sub32(now, Birth(m, events, key).value) >= m.timeout)
  {
    StampsAreBirths(m, events);
    var r := Run(m, events);
    assert (events + [Expires(now)])[..|events|] == events;
    MaintenanceKeeps(r, now, 0, 0, 0);
    hide Birth, Run, ManagerOk, Expire;
    var b :| b in r.buffers && b.key == key;
    assert Run(m, events + [Expires(now)]) == Expire(r, now) by { RunOneMore(m, events, Expires(now)); }
    forall c | c in r.buffers && c.key == key ensures c == b {
      RunDistinct(m, events);
      UniqueKey(r.buffers, b, c);
    }
  }

  lemma RunOneMore(m: Manager, events: seq<Event>, ev: Event)
    ensures Run(m, events + [ev]) == Apply(Run(m, events), ev)
  {
    hide Apply;
    assert (events + [ev])[..|events|] == events;
  }

  lemma RunDistinct(m: Manager, events: seq<Event>)
    requires ManagerOk(m) && m.buffers == []
    ensures DistinctKeys(Run(m, events).buffers)
  {
    StampsAreBirths(m, events);
    hide Run;
  }

  // ---- Fragments that are refused ----

  /** Room for one more message of `len` bytes, and memory to hold it. */
  predicate HasRoom(m: Manager, len: nat, mem: Memory) {
    && |m.buffers| < m.maxBuffers && (m.maxMessage == 0 || len <= m.maxMessage)
    && (m.maxBytes == 0 || m.current + len <= m.maxBytes) && mem.nodeOk && mem.dataOk
  }

  /** Only a message longer than the limit, with a place for it in the list, is refused for its length. */
  function RoomError(m: Manager, len: nat): Status {
    if |m.buffers| < m.maxBuffers && m.maxMessage != 0 && len > m.maxMessage then BufferTooSmall else NoMemory
  }

  /**
   * A malformed fragment, a fragment that contradicts the message it belongs to, and
   * one that would need a new buffer without room for it change nothing; a fragment
   * of a new message is taken exactly when there is room.
   */
  lemma RefusedAnswer(m: Manager, f: Fragment, mem: Memory, time: u32)
    requires ManagerOk(m)
    ensures var o := Process(m, f, mem, time);
      && (|f.payload| == 0 ==> o == Outcome(m, InvalidParam, None))
      && (|f.payload| > 0 && (f.messageLen == 0 || f.offset + |f.payload| > f.messageLen) ==> o == Outcome(m, InvalidFrame, None))
      && (|f.payload| > 0 && f.messageLen > 0 && f.offset + |f.payload| <= f.messageLen ==>
            && (forall b :: b in m.buffers && b.key == f.key && (b.dataType != f.dataType || b.size != f.messageLen) ==>
                  o == Outcome(m, InvalidFrame, None))
            && (!Holds(m, f.key) ==>
                  if HasRoom(m, f.messageLen, mem) then o.status == (if |f.payload| == f.messageLen then Ok else Busy)
                  else o == Outcome(m, RoomError(m, f.messageLen), None)))
  {
    if |f.payload| > 0 && WellFormed(f) {
      var i := Index(m.buffers, f.key);
      if i < |m.buffers| {
        assert m.buffers[i] in m.buffers;
        forall b | b in m.buffers && b.key == f.key ensures b == m.buffers[i] {
          UniqueKey(m.buffers, b, m.buffers[i]);
        }
      } else {
        NoneHeld(m, f.key);
        if Admit(m, f.messageLen, mem) == Ok {
          OpenedAlmostOk(m, f, mem);
          FirstPieceFills(Opened(m, f, mem).buffers[i], f, time);
        }
        hide Fill, AlmostOk;
      }
    }
  }

  lemma FirstPieceFills(b: Buffer, f: Fragment, time: u32)
    requires b.received == 0 && b.ranges == [] && b.dataType == f.dataType && b.size == f.messageLen == |b.data| && |f.payload| > 0 && WellFormed(f)
    ensures var r := Fill(b, f, time);
      && r.status == Ok && r.buffer.size == f.messageLen && r.buffer.received == |f.payload| && r.buffer.first == time
      && r.buffer.key == b.key && r.buffer.dataType == f.dataType && r.buffer.timeout == b.timeout && |r.buffer.data| == f.messageLen
      && r.buffer.data[f.offset..f.offset + |f.payload|] == f.payload
  {
    var d := Fill(b, f, time).buffer.data;
    assert d[f.offset..f.offset + |f.payload|] == f.payload;
  }

  /** `b` is a buffer that holds exactly the bytes of `f`, first heard of at `time`. */
  ghost predicate Started(m: Manager, f: Fragment, time: u32, b: Buffer) {
    && b.key == f.key && b.dataType == f.dataType && b.size == f.messageLen && b.received == |f.payload|
    && b.first == time && b.timeout == m.timeout
    && |b.data| == f.messageLen && f.offset + |f.payload| <= |b.data| && b.data[f.offset..f.offset + |f.payload|] == f.payload
  }

  /**
   * The first piece of a message that is taken: a message in one piece is handed
   * over and leaves nothing behind; otherwise one buffer is added that holds it and
   * reserves the length of the message.
   */
  lemma FirstPieceAnswer(m: Manager, f: Fragment, mem: Memory, time: u32)
    requires ManagerOk(m) && !Holds(m, f.key) && HasRoom(m, f.messageLen, mem)
    requires |f.payload| > 0 && f.offset + |f.payload| <= f.messageLen
    ensures var o := Process(m, f, mem, time);
      if |f.payload| == f.messageLen then o == Outcome(m, Ok, Some(f.payload))
      else && o.status == Busy && o.message == None && |o.manager.buffers| == |m.buffers| + 1
           && o.manager.buffers[..|m.buffers|] == m.buffers && Started(m, f, time, o.manager.buffers[|m.buffers|])
           && o.manager.current == m.current + f.messageLen
  {
    NotListed(m, f.key);
    var i := |m.buffers|;
    var op := Opened(m, f, mem);
    FirstPieceFills(op.buffers[i], f, time);
    assert Admit(m, f.messageLen, mem) == Ok;
    assert Process(m, f, mem, time) == Deposit(op, i, f, time);
    hide Fill, ManagerOk, Process, Started;
    var r := Fill(op.buffers[i], f, time).buffer;
    if |f.payload| == f.messageLen {
      assert op.buffers[..i] + op.buffers[i + 1..] == m.buffers;
      assert CutOut(op.buffers, i) == m.buffers;
      assert r.data[0..f.messageLen] == r.data;
    } else {
      assert op.buffers[i := r][..i] == m.buffers;
      assert Started(m, f, time, r) by { FirstPieceFills(op.buffers[i], f, time); StartedIs(m, f, time, r); }
    }
  }

  lemma StartedIs(m: Manager, f: Fragment, time: u32, b: Buffer)
    requires b.key == f.key && b.dataType == f.dataType && b.size == f.messageLen && b.received == |f.payload| && b.first == time
    requires b.timeout == m.timeout && |b.data| == f.messageLen && f.offset + |f.payload| <= |b.data|
    requires b.data[f.offset..f.offset + |f.payload|] == f.payload
    ensures Started(m, f, time, b)
  {
  }

  /** A session that starts over takes exactly its own unfinished messages with it. */
  lemma ScopeDropsIff(m: Manager, source: u16, connection: u32, epoch: u32, b: Buffer)
    requires ManagerOk(m)
    ensures b in Apply(m, Clears(source, connection, epoch)).buffers <==>
      b in m.buffers && (b.key.source != source || b.key.connection != connection || b.key.epoch != epoch)
  {
    MaintenanceKeeps(m, 0, source, connection, epoch);
    hide ManagerOk, ClearScope;
  }
}
