/**
 * The splitter: one message becomes consecutive packets, each queued and sent
 * like any other packet. A failure half way leaves the pieces already sent.
 */
module FragmentSend {
  import opened Base
  import opened Fragmentation
  import opened ReliableQueue
  import opened Sender
  import Reliable
  import TxPeer
  import Window

  /** The extension that labels piece `i`. */
  datatype Label = Label(messageId: u32, offset: u32, messageLen: u32)

  function LabelOf(message: Bytes, budget: nat, id: u32, k: nat): Label
    requires |message| < TWO_32 && budget > 0 && k < Count(|message|, budget)
  {
    PieceInside(|message|, budget, k);
    Label(id, PieceStart(budget, k), |message|)
  }

  /** What the allocator and the lower layer answer for one piece. */
  datatype Answer = Answer(now: u32, timeout: int, allocOk: bool, sendOk: bool)

  datatype SendJob = SendJob(message: Bytes, budget: nat, count: nat)

  predicate JobOk(j: SendJob) {
    0 < |j.message| < TWO_32 && j.budget > 0 && j.count == Count(|j.message|, j.budget)
  }

  function PieceInput(j: SendJob, i: nat, a: Answer): SendInput
    requires JobOk(j) && i < j.count
  {
    SendInput(Piece(j.message, j.budget, i), a.now, a.timeout, a.allocOk, a.sendOk)
  }

  /** The loop from piece `i` on. */
  function SendFrom(tx: Tx, j: SendJob, i: nat, answers: seq<Answer>): TxOut
    requires JobOk(j) && |answers| == j.count && i <= j.count
    decreases j.count - i
  {
    if i == j.count then TxOut(tx, [], Ok)
    else
      var one := Send(tx, PieceInput(j, i, answers[i]));
      if !one.status.Ok? then one
      else SentBefore(one.sent, SendFrom(one.tx, j, i + 1, answers))
  }

  lemma SendFromStep(tx: Tx, j: SendJob, i: nat, answers: seq<Answer>)
    requires JobOk(j) && |answers| == j.count && i < j.count
    ensures
      var one := Send(tx, PieceInput(j, i, answers[i]));
      && SendFrom(tx, j, i, answers) ==
           (if !one.status.Ok? then one else SentBefore(one.sent, SendFrom(one.tx, j, i + 1, answers)))
      && (one.status.Ok? ==> |one.sent| == 1) && (!one.status.Ok? ==> one.sent == [])
  {
  }

  lemma SendFromDone(tx: Tx, j: SendJob, answers: seq<Answer>, sent: seq<Msg>)
    requires JobOk(j) && |answers| == j.count
    ensures SentBefore(sent, SendFrom(tx, j, j.count, answers)) == TxOut(tx, sent, Ok)
  {
    assert sent + [] == sent;
  }

  function PieceEntry(j: SendJob, i: nat, pn: u32, a: Answer): Reliable.Entry
    requires JobOk(j) && i < j.count
  {
    Reliable.Entry(pn, Piece(j.message, j.budget, i), 0, a.now, a.timeout, a.timeout)
  }

  /** Pieces `i..n` as packets `pn, pn + 1, ...`. */
  function PieceMsgs(j: SendJob, i: nat, n: nat, pn: nat): (r: seq<Msg>)
    requires JobOk(j) && i <= n <= j.count && pn + (n - i) <= TWO_32
    ensures |r| == n - i
    ensures forall k :: 0 <= k < n - i ==> r[k] == Data(pn + k, Piece(j.message, j.budget, i + k))
    decreases n - i
  {
    if i == n then [] else [Data(pn, Piece(j.message, j.budget, i))] + PieceMsgs(j, i + 1, n, pn + 1)
  }

  function PieceEntries(j: SendJob, i: nat, n: nat, pn: nat, answers: seq<Answer>): (r: Reliable.Queue)
    requires JobOk(j) && |answers| == j.count && i <= n <= j.count && pn + (n - i) <= TWO_32
    ensures |r| == n - i
    decreases n - i
  {
    if i == n then [] else [PieceEntry(j, i, pn, answers[i])] + PieceEntries(j, i + 1, n, pn + 1, answers)
  }

  /**
   * What the loop leaves, whatever fails: the first pieces up to some `n`, as
   * consecutive packets, each sent once and queued once. All of them exactly
   * when the answer is Ok.
   */
  ghost predicate SentPrefix(tx: Tx, j: SendJob, i: nat, answers: seq<Answer>, n: nat, r: TxOut)
    requires JobOk(j) && |answers| == j.count && i <= n <= j.count && tx.win.next + (n - i) < TWO_32
  {
    && r.sent == PieceMsgs(j, i, n, tx.win.next)
    && r.tx.queue == tx.queue + PieceEntries(j, i, n, tx.win.next, answers)
    && r.tx == tx.(win := tx.win.(next := tx.win.next + (n - i)), queue := r.tx.queue)
    && (r.status.Ok? <==> n == j.count)
  }

  lemma {:induction false} SendFromIsPrefix(tx: Tx, j: SendJob, i: nat, answers: seq<Answer>) returns (n: nat)
    requires JobOk(j) && |answers| == j.count && i <= j.count && tx.win.next + (j.count - i) < TWO_32
    ensures i <= n <= j.count && SentPrefix(tx, j, i, answers, n, SendFrom(tx, j, i, answers))
    decreases j.count - i
  {
    n := i;
    if i < j.count {
      var a := answers[i];
      PieceInside(|j.message|, j.budget, i);
      var one := Send(tx, PieceInput(j, i, a));
      if one.status.Ok? {
        var e := PieceEntry(j, i, tx.win.next, a);
        assert one.tx == tx.(win := tx.win.(next := tx.win.next + 1), queue := tx.queue + [e]);
        n := SendFromIsPrefix(one.tx, j, i + 1, answers);
        var rest := PieceEntries(j, i + 1, n, tx.win.next + 1, answers);
        assert tx.queue + [e] + rest == tx.queue + ([e] + rest);
      } else {
        assert tx.queue + [] == tx.queue;
      }
    } else {
      assert tx.queue + [] == tx.queue;
    }
  }

  /** The packets of a fully sent message carry its bytes, in order. */
  lemma {:induction false} SentPiecesJoin(j: SendJob, n: nat, pn: nat)
    requires JobOk(j) && n <= j.count && pn + n <= TWO_32
    ensures Joined(j.message, j.budget, n) == Payloads(PieceMsgs(j, 0, n, pn))
    ensures n == j.count ==> Payloads(PieceMsgs(j, 0, n, pn)) == j.message
  {
    var msgs := PieceMsgs(j, 0, n, pn);
    if n > 0 {
      SentPiecesJoin(j, n - 1, pn);
      var init := PieceMsgs(j, 0, n - 1, pn);
      assert msgs[..n - 1] == init;
    }
    PiecesPartition(j.message, j.budget);
  }

  function Payloads(msgs: seq<Msg>): Bytes {
    if msgs == [] then []
    else
      var n := |msgs| - 1;
      Payloads(msgs[..n]) + (if msgs[n].Data? then msgs[n].data else [])
  }

  /** A piece's number is never already queued. */
  ghost predicate NumbersBelowNext(tx: Tx) {
    forall e :: e in tx.queue ==> e.pn < tx.win.next
  }

  lemma SendKeepsBelow(tx: Tx, i: SendInput)
    requires NumbersBelowNext(tx) && tx.win.next + 1 < TWO_32
    ensures NumbersBelowNext(Send(tx, i).tx)
    ensures Send(tx, i).status.Ok? ==> Send(tx, i).tx.win.next == tx.win.next + 1
  {
  }

  /** A fragment sender: the peer it sends through, and the next message number. */
  class Splitter {
    const peer: TxPeer.Peer
    var nextMessageId: u32

    constructor (peer: TxPeer.Peer)
      ensures this.peer == peer && nextMessageId == 0
    {
      this.peer, nextMessageId := peer, 0;
    }

    method SendFragmented(j: SendJob, answers: seq<Answer>) returns (sent: seq<Msg>, labels: seq<Label>, status: Status)
      requires JobOk(j) && |answers| == j.count
      requires peer.Valid() && NumbersBelowNext(peer.View()) && peer.View().win.next + j.count < TWO_32
      modifies this`nextMessageId, peer`earliestDeadline, peer.window`next, peer.queue, peer.queue.buckets
      modifies SetOf(peer.queue.order)`next, SetOf(peer.queue.order)`prev, SetOf(peer.queue.order)`indexNext
      ensures peer.Valid() && nextMessageId == Add32(old(nextMessageId), 1)
      ensures TxOut(peer.View(), sent, status) == SendFrom(old(peer.View()), j, 0, answers)
      ensures |labels| == |sent| <= j.count
      ensures forall k :: 0 <= k < |labels| ==> labels[k] == LabelOf(j.message, j.budget, old(nextMessageId), k)
    {
      hide TxPeer.Peer.Valid, TxPeer.Peer.View, Send, SendFrom, NumbersBelowNext, Piece, LabelOf, Count;
      var messageId := nextMessageId;
      nextMessageId := Add32(nextMessageId, 1);
      sent, labels := [], [];
      var i := 0;
      while i < j.count
        invariant nextMessageId == Add32(messageId, 1)
        invariant i <= j.count && peer.Valid() && NumbersBelowNext(peer.View())
        invariant peer.View().win.next + (j.count - i) < TWO_32
        invariant forall p :: p in peer.queue.order && p !in old(peer.queue.order) ==> fresh(p)
        invariant SendFrom(old(peer.View()), j, 0, answers) == SentBefore(sent, SendFrom(peer.View(), j, i, answers))
        invariant |labels| == |sent| == i && forall k :: 0 <= k < i ==> labels[k] == LabelOf(j.message, j.budget, messageId, k)
      {
        var input := PieceInput(j, i, answers[i]);
        SendKeepsBelow(peer.View(), input);
        NextIsFree(peer.View());
        peer.ViewNext();
        SendFromStep(peer.View(), j, i, answers);
        var tag := LabelOf(j.message, j.budget, messageId, i);
        var more, s := peer.SendPacket(input);
        sent := sent + more;
        if !s.Ok? {
          return sent, labels, s;
        }
        labels := labels + [tag];
        i := i + 1;
      }
      SendFromDone(peer.View(), j, answers, sent);
      return sent, labels, Ok;
    }
  }

  lemma NextIsFree(tx: Tx)
    requires NumbersBelowNext(tx)
    ensures !Reliable.Has(tx.queue, tx.win.next)
  {
  }
}
