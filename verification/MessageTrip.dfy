/**
 * A fragmented message from end to end: the packets the splitter commits are the
 * labelled pieces, and delivered in order they reassemble to the message.
 */
module MessageTrip {
  import opened Base
  import opened Fragmentation
  import opened Reassembly
  import opened Sender
  import FragmentSend
  import Protocol
  import RoundTrip

  /** The fragment a receiver makes of a packet and its label. */
  function Labelled(l: FragmentSend.Label, key: Key, dataType: u8, data: Bytes): Fragment {
    Fragment(key.(message := l.messageId), dataType, l.offset, l.messageLen, data)
  }

  function ReceiverJob(j: FragmentSend.SendJob, key: Key, dataType: u8): RoundTrip.Job {
    RoundTrip.Job(j.message, j.budget, key, dataType)
  }

  /** Packet `k` of `sent`, with its label, is piece `k` of the message. */
  ghost predicate CarriesPiece(j: FragmentSend.SendJob, sent: seq<Msg>, key: Key, dataType: u8, k: nat)
    requires FragmentSend.JobOk(j) && |sent| == j.count && k < j.count
  {
    && sent[k].Data?
    && Labelled(FragmentSend.LabelOf(j.message, j.budget, key.message, k), key, dataType, sent[k].data)
      == FragmentOf(j.message, j.budget, key, dataType, k)
  }

  /**
   * A message the splitter sent without an error: its packets carry the pieces, and
   * arriving in order, repeated or mixed with other messages, the last of them, and
   * none before it, yields the message, however many there are.
   */
  lemma SentMessageArrives(tx: Tx, j: FragmentSend.SendJob, answers: seq<FragmentSend.Answer>, key: Key, dataType: u8,
                           m: Manager, arrivals: seq<RoundTrip.Arrival>)
    requires FragmentSend.JobOk(j) && |answers| == j.count && tx.win.next + j.count < TWO_32
    requires FragmentSend.SendFrom(tx, j, 0, answers).status.Ok?
    requires ManagerOk(m) && forall b :: b in m.buffers ==> b.key != key
    requires var r := ReceiverJob(j, key, dataType);
      arrivals != [] && RoundTrip.AllPossible(r, arrivals) && RoundTrip.RoomWhenNeeded(m, r, arrivals)
    requires RoundTrip.InOrder(arrivals) && arrivals[|arrivals| - 1].Own?
    requires RoundTrip.OwnPieces(arrivals[..|arrivals| - 1]) != AllPieces(j.count)
    ensures var sent := FragmentSend.SendFrom(tx, j, 0, answers).sent;
      |sent| == j.count && forall k :: 0 <= k < j.count ==> CarriesPiece(j, sent, key, dataType, k)
    ensures RoundTrip.Reassembles(m, ReceiverJob(j, key, dataType), arrivals)
  {
    var n := FragmentSend.SendFromIsPrefix(tx, j, 0, answers);
    var sent := FragmentSend.SendFrom(tx, j, 0, answers).sent;
    forall k | 0 <= k < j.count ensures CarriesPiece(j, sent, key, dataType, k) {
      PieceInside(|j.message|, j.budget, k);
    }
    hide FragmentSend.SendFrom, RoundTrip.AllPossible, RoundTrip.RoomWhenNeeded, RoundTrip.InOrder, ManagerOk, RoundTrip.Reassembles;
    RoundTrip.InOrderReassembles(m, ReceiverJob(j, key, dataType), arrivals);
  }

  // ---- Through the joint protocol ----

  /** The message's pieces are the payloads committed from number `first` on. */
  ghost predicate CommittedAt(j: FragmentSend.SendJob, committed: seq<Bytes>, first: nat)
    requires FragmentSend.JobOk(j)
  {
    first + j.count <= |committed| && forall k :: 0 <= k < j.count ==> committed[first + k] == Piece(j.message, j.budget, k)
  }

  /** Sending the pieces commits them. */
  lemma SentIsCommitted(tx: Tx, j: FragmentSend.SendJob, answers: seq<FragmentSend.Answer>, committed: seq<Bytes>)
    requires FragmentSend.JobOk(j) && |answers| == j.count && tx.win.next + j.count < TWO_32 && |committed| == tx.win.next
    requires FragmentSend.SendFrom(tx, j, 0, answers).status.Ok?
    ensures CommittedAt(j, committed + DataIn(FragmentSend.SendFrom(tx, j, 0, answers).sent), tx.win.next)
  {
    var n := FragmentSend.SendFromIsPrefix(tx, j, 0, answers);
    hide FragmentSend.SendFrom;
  }

  function DataIn(sent: seq<Msg>): (r: seq<Bytes>)
    ensures |r| == |sent| && forall k :: 0 <= k < |sent| && sent[k].Data? ==> r[k] == sent[k].data
  {
    seq(|sent|, k requires 0 <= k < |sent| => if sent[k].Data? then sent[k].data else [])
  }

  /** The receiver's manager fed with delivered payloads, each under its label. */
  function Feed(m: Manager, fragments: seq<Fragment>, mem: Memory, time: u32): Outcome
    requires fragments != []
  {
    var n := |fragments| - 1;
    if n == 0 then Process(m, fragments[0], mem, time)
    else Process(Feed(m, fragments[..n], mem, time).manager, fragments[n], mem, time)
  }

  /** What the application's receiver makes of `n` payloads delivered from number `first` on. */
  function Received(j: FragmentSend.SendJob, key: Key, dataType: u8, delivered: seq<Bytes>, first: nat, n: nat): seq<Fragment>
    requires FragmentSend.JobOk(j) && n <= j.count && first + n <= |delivered|
  {
    seq(n, k requires 0 <= k < n =>
      Labelled(FragmentSend.LabelOf(j.message, j.budget, key.message, k), key, dataType, delivered[first + k]))
  }

  function InTurn(n: nat, mem: Memory, time: u32): (r: seq<RoundTrip.Arrival>)
    ensures |r| == n && forall k :: 0 <= k < n ==> r[k] == RoundTrip.Own(k, mem, time)
  {
    seq(n, k requires 0 <= k < n => RoundTrip.Own(k, mem, time))
  }

  lemma {:induction false} InTurnPieces(n: nat, mem: Memory, time: u32)
    ensures RoundTrip.OwnPieces(InTurn(n, mem, time)) == AllPieces(n)
  {
    if n > 0 {
      InTurnPieces(n - 1, mem, time);
      assert InTurn(n, mem, time)[..n - 1] == InTurn(n - 1, mem, time);
    }
  }

  lemma InTurnInOrder(n: nat, mem: Memory, time: u32)
    ensures RoundTrip.InOrder(InTurn(n, mem, time))
  {
    var all := InTurn(n, mem, time);
    forall k | 0 <= k < n ensures RoundTrip.OwnPieces(all[..k]) == AllPieces(k) {
      assert all[..k] == InTurn(k, mem, time);
      InTurnPieces(k, mem, time);
    }
  }

  /** Feeding the fragments of the pieces is the run of arrivals `0, 1, 2, ...`. */
  lemma {:induction false} FeedIsRun(m: Manager, r: RoundTrip.Job, fragments: seq<Fragment>, mem: Memory, time: u32)
    requires RoundTrip.JobOk(r) && 0 < |fragments| <= RoundTrip.Pieces(r)
    requires forall k :: 0 <= k < |fragments| ==> fragments[k] == FragmentOf(r.message, r.budget, r.key, r.dataType, k)
    ensures var all := InTurn(|fragments|, mem, time); var n := |fragments| - 1;
      && RoundTrip.AllPossible(r, all) && RoundTrip.AllPossible(r, all[..n]) && RoundTrip.Possible(r, all[n])
      && Feed(m, fragments, mem, time) == RoundTrip.Step(RoundTrip.After(m, r, all[..n]), r, all[n])
    decreases |fragments|
  {
    hide Process, FragmentOf;
    var n := |fragments| - 1;
    var all := InTurn(n + 1, mem, time);
    assert all[..n] == InTurn(n, mem, time);
    if n > 0 {
      FeedIsRun(m, r, fragments[..n], mem, time);
      assert all[..n][..n - 1] == InTurn(n, mem, time)[..n - 1];
    }
  }

  /** Only the first piece needs room. */
  lemma InTurnHasRoom(m: Manager, r: RoundTrip.Job, n: nat, mem: Memory, time: u32)
    requires RoundTrip.JobOk(r) && n <= RoundTrip.Pieces(r) && Admit(m, |r.message|, mem) == Ok
    requires RoundTrip.AllPossible(r, InTurn(n, mem, time))
    ensures RoundTrip.RoomWhenNeeded(m, r, InTurn(n, mem, time))
  {
    var all := InTurn(n, mem, time);
    forall k | 0 <= k < n && RoundTrip.Kept(RoundTrip.Pieces(r), all[..k]) == {}
      ensures Admit(RoundTrip.After(m, r, all[..k]), |r.message|, all[k].mem) == Ok
    {
      assert all[..k] == InTurn(k, mem, time);
      KeptInTurn(r, k, mem, time);
    }
  }

  lemma KeptInTurn(r: RoundTrip.Job, k: nat, mem: Memory, time: u32)
    requires RoundTrip.JobOk(r) && k < RoundTrip.Pieces(r)
    ensures RoundTrip.Kept(RoundTrip.Pieces(r), InTurn(k, mem, time)) == {} ==> k == 0
  {
    var all := InTurn(k, mem, time);
    InTurnPieces(k, mem, time);
    InTurnInOrder(k, mem, time);
    RoundTrip.InOrderNeverScattered(RoundTrip.Pieces(r), all);
    assert k in AllPieces(RoundTrip.Pieces(r)) && k !in AllPieces(k);
    hide RoundTrip.Kept, RoundTrip.OwnPieces, RoundTrip.NeverScattered;
    RoundTrip.KeptIsAll(r, all);
    assert k > 0 ==> 0 in AllPieces(k);
  }

  /**
   * In every run of the joint protocol: once the receiver has passed the numbers
   * under which a message's pieces were committed, the payloads delivered for them
   * yield the message, and at no earlier piece, whatever the network did.
   */
  lemma RunDeliversMessage(txWindow: u8, rxWindow: u8, maxRetry: u8, steps: seq<Protocol.Step>,
                           j: FragmentSend.SendJob, first: nat, n: nat, key: Key, dataType: u8, m: Manager, mem: Memory, time: u32)
    requires 1 <= txWindow <= 128 && Protocol.Allowed(Protocol.Initial(txWindow, rxWindow, maxRetry), steps)
    requires FragmentSend.JobOk(j) && CommittedAt(j, Protocol.Run(Protocol.Initial(txWindow, rxWindow, maxRetry), steps).committed, first)
    requires 0 < n <= j.count && first + n <= Protocol.Run(Protocol.Initial(txWindow, rxWindow, maxRetry), steps).rx.next
    requires ManagerOk(m) && (forall b :: b in m.buffers ==> b.key != key) && Admit(m, |j.message|, mem) == Ok
    ensures first + n <= |Protocol.Run(Protocol.Initial(txWindow, rxWindow, maxRetry), steps).delivered|
    ensures
      var delivered := Protocol.Run(Protocol.Initial(txWindow, rxWindow, maxRetry), steps).delivered;
      var o := Feed(m, Received(j, key, dataType, delivered, first, n), mem, time);
      if n == j.count then o.status == Ok && o.message == Some(j.message) else o.status == Busy && o.message == None
  {
    Protocol.DeliveryIsPrefix(txWindow, rxWindow, maxRetry, steps);
    var s := Protocol.Run(Protocol.Initial(txWindow, rxWindow, maxRetry), steps);
    hide Protocol.Run, Protocol.Initial, Protocol.Allowed;
    var fragments := Received(j, key, dataType, s.delivered, first, n);
    forall k | 0 <= k < n ensures fragments[k] == FragmentOf(j.message, j.budget, key, dataType, k) {
      PieceInside(|j.message|, j.budget, k);
      assert s.delivered[first + k] == s.committed[first + k];
    }
    PiecesReassemble(ReceiverJob(j, key, dataType), fragments, m, mem, time);
  }

  lemma PiecesReassemble(r: RoundTrip.Job, fragments: seq<Fragment>, m: Manager, mem: Memory, time: u32)
    requires RoundTrip.JobOk(r) && 0 < |fragments| <= RoundTrip.Pieces(r)
    requires forall k :: 0 <= k < |fragments| ==> fragments[k] == FragmentOf(r.message, r.budget, r.key, r.dataType, k)
    requires ManagerOk(m) && (forall b :: b in m.buffers ==> b.key != r.key) && Admit(m, |r.message|, mem) == Ok
    ensures var o := Feed(m, fragments, mem, time);
      if |fragments| == RoundTrip.Pieces(r) then o.status == Ok && o.message == Some(r.message)
      else o.status == Busy && o.message == None
  {
    var n := |fragments|;
    var all := InTurn(n, mem, time);
    FeedIsRun(m, r, fragments, mem, time);
    InTurnHasRoom(m, r, n, mem, time);
    InTurnInOrder(n, mem, time);
    InTurnPieces(n, mem, time);
    InTurnPieces(n - 1, mem, time);
    assert all[..n - 1] == InTurn(n - 1, mem, time);
    assert n - 1 in AllPieces(RoundTrip.Pieces(r)) && n - 1 !in AllPieces(n - 1);
    assert n < RoundTrip.Pieces(r) ==> n in AllPieces(RoundTrip.Pieces(r)) && n !in AllPieces(n);
    hide Feed, FragmentOf, ManagerOk, Admit, RoundTrip.Step, RoundTrip.After, RoundTrip.OwnPieces, RoundTrip.InOrder, RoundTrip.RoomWhenNeeded, RoundTrip.AllPossible, InTurn;
    RoundTrip.InOrderReassembles(m, r, all);
  }
}
