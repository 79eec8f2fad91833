/**
 * The sleep query and the reassembly list it reads: what the reported time means
 * for the messages being put together.
 */
module Sleep {
  import opened Base
  import opened Deadline
  import Reassembly
  import Retry
  import Sender
  import Stamps

  /** What the query reads off the manager's list. */
  function WaitingOf(m: Reassembly.Manager): (r: seq<Waiting>)
    ensures |r| == |m.buffers|
    ensures forall k :: 0 <= k < |r| ==> r[k] == Waiting(m.buffers[k].first, m.buffers[k].timeout)
  {
    seq(|m.buffers|, k requires 0 <= k < |m.buffers| => Waiting(m.buffers[k].first, m.buffers[k].timeout))
  }

  lemma NothingLeft(bs: seq<Reassembly.Buffer>, current: nat, now: u32)
    requires forall b :: b in bs ==> !(b.first != 0 && Sub32(now, b.first) >= b.timeout)
    ensures Reassembly.Left(bs, Reassembly.ExpiredAt(now)) == bs
    ensures Reassembly.Refunded(current, bs, Reassembly.ExpiredAt(now)) == current
  {
    if bs != [] {
      assert bs[0] in bs && forall b :: b in bs[1..] ==> b in bs;
      NothingLeft(bs[1..], current, now);
    }
  }

  /**
   * Sleeping for less than the reported time is safe for everything that is timed:
   * no tick strictly before it makes a peer send, give up or change anything, and no
   * reassembly pass strictly before it changes the manager.
   */
  lemma SleepsThrough(peers: seq<Timed>, last: seq<nat>, caches: seq<u32>, m: Reassembly.Manager,
                      now: nat, d: u32, t: nat, fails: set<u32>)
    requires |caches| == |peers| == |last| && forall k :: 0 <= k < |peers| ==> caches[k] == peers[k].cache
    requires forall k :: 0 <= k < |peers| ==> TimedInv(peers[k], last[k]) && Tended(peers[k], last[k], now)
    requires forall b :: b in m.buffers ==> b.timeout > 0
    requires NextDeadline(caches, WaitingOf(m), Wrap32(now), d) && now <= t < now + d
    ensures forall k :: 0 <= k < |peers| ==>
      Sender.Tick(peers[k].tx, Wrap32(t), fails) == Sender.TxOut(peers[k].tx, [], Ok)
      && Retry.TickDropped(peers[k].tx.queue, Wrap32(t), peers[k].tx.maxRetry) == []
    ensures Reassembly.Expire(m, Wrap32(t)) == m
  {
    hide TimedInv, Tended, NextDeadline, Sender.Tick, Retry.TickDropped;
    forall k | 0 <= k < |m.buffers| ensures WaitingOf(m)[k].timeout > 0 {
      assert m.buffers[k] in m.buffers;
    }
    SleepIsSafe(peers, last, caches, WaitingOf(m), now, d, t, fails);
    forall b | b in m.buffers ensures !(b.first != 0 && Sub32(Wrap32(t), b.first) >= b.timeout) {
      var k :| 0 <= k < |m.buffers| && m.buffers[k] == b;
      assert !ReassemblyExpires(WaitingOf(m)[k], Wrap32(t));
    }
    NothingLeft(m.buffers, m.current, Wrap32(t));
  }

  /**
   * The same for a manager reached by any run: its messages wait from the arrival of
   * their first pieces, for the manager's timeout.
   */
  lemma RunWaits(m: Reassembly.Manager, events: seq<Stamps.Event>, k: nat)
    requires Reassembly.ManagerOk(m) && m.buffers == [] && k < |Stamps.Run(m, events).buffers|
    ensures var r := Stamps.Run(m, events);
      Stamps.Birth(m, events, r.buffers[k].key) == Some(WaitingOf(r)[k].first) && WaitingOf(r)[k].timeout == m.timeout
  {
    Stamps.StampsAreBirths(m, events);
    hide Stamps.Run, Stamps.Birth;
    assert Stamps.Run(m, events).buffers[k] in Stamps.Run(m, events).buffers;
  }

  /** And where the reported time is a message's own, a pass at that time drops it. */
  lemma PassAtDeadlineDrops(m: Reassembly.Manager, now: nat, d: u32, b: Reassembly.Buffer)
    requires b in m.buffers && b.first != 0 && b.timeout > 0 && d == DeltaMs(Wrap32(now), b.first, b.timeout)
    requires Age(b.first, now) + d < TWO_32
    ensures b !in Reassembly.Expire(m, Wrap32(now + d)).buffers
  {
    WrapTwice(now, b.first);
    AgeGrows(b.first, now, now + d);
    WrapTwice(now + d, b.first);
    hide Wrap32;
  }
}
