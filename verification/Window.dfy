/**
 * The sliding window of one peer: a base, the next number to assign and one
 * ACK flag per slot. `State` is the window as a value; `SlidingWindow` is the
 * object whose flag array is marked and shifted in place.
 */
module Window {
  import opened Base

  /** `|acks|` is the configured window size. */
  datatype State = State(base: u32, next: u32, acks: seq<bool>)

  predicate CanSend(w: State) {
    Sub32(w.next, w.base) < |w.acks|
  }

  predicate InWindow(w: State, pn: u32) {
    w.base <= pn && pn - w.base < |w.acks|
  }

  /** Everything below the base, and every marked slot, counts as acknowledged. */
  predicate Acked(w: State, pn: u32) {
    pn < w.base || (InWindow(w, pn) && w.acks[pn - w.base])
  }

  function Mark(w: State, pn: u32): State {
    if InWindow(w, pn) then w.(acks := w.acks[pn - w.base := true]) else w
  }

  function LeadingAcks(acks: seq<bool>): (k: nat)
    ensures k <= |acks|
    ensures forall i :: 0 <= i < k ==> acks[i]
    ensures k < |acks| ==> !acks[k]
  {
    if acks == [] || !acks[0] then 0 else 1 + LeadingAcks(acks[1..])
  }

  function Falses(n: nat): (s: seq<bool>)
    ensures |s| == n && forall i :: 0 <= i < n ==> !s[i]
  {
    seq(n, _ => false)
  }

  function Advance(w: State): State {
    var k := LeadingAcks(w.acks);
    State(Add32(w.base, k), w.next, w.acks[k..] + Falses(k))
  }

  function Commit(w: State): State {
    w.(next := Add32(w.next, 1))
  }

  /** Marking acknowledges exactly the marked number, and only inside the window. */
  lemma MarkAcks(w: State, pn: u32, q: u32)
    ensures Acked(Mark(w, pn), q) <==> Acked(w, q) || (q == pn && InWindow(w, pn))
  {
    if q == pn && InWindow(w, pn) {
      assert Mark(w, pn).acks[pn - w.base];
    }
  }

  /**
   * Sliding the base neither acknowledges nor forgets a number, and it stops at
   * the first number that is still unacknowledged.
   */
  lemma AdvanceKeepsAcks(w: State, q: u32)
    requires 0 < |w.acks| && w.base + LeadingAcks(w.acks) < TWO_32
    ensures Acked(Advance(w), q) <==> Acked(w, q)
    ensures !Acked(Advance(w), Advance(w).base)
  {
    var k := LeadingAcks(w.acks);
    var v := Advance(w);
    assert v.base == w.base + k;
    if InWindow(v, q) && q - v.base < |w.acks| - k {
      assert v.acks[q - v.base] == w.acks[q - w.base];
    }
    assert !v.acks[0];
  }

  /**
   * The window test compares plain unsigned numbers, so near the 32-bit wrap an
   * outstanding packet can fall outside it. Every outstanding number can be
   * acknowledged exactly when the outstanding run does not cross the wrap.
   */
  lemma OutstandingMarkableIff(w: State)
    requires Sub32(w.next, w.base) <= |w.acks| <= 128
    ensures (forall i: u32 :: i < Sub32(w.next, w.base) ==> InWindow(w, Add32(w.base, i)))
       <==> w.base + Sub32(w.next, w.base) <= TWO_32
  {
    var usage := Sub32(w.next, w.base);
    if w.base + usage <= TWO_32 {
      forall i: u32 | i < usage ensures InWindow(w, Add32(w.base, i)) {
        assert Add32(w.base, i) == w.base + i;
      }
    } else {
      var i: u32 := TWO_32 - w.base;
      assert i < usage && Add32(w.base, i) == 0;
      assert !InWindow(w, Add32(w.base, i));
    }
  }

  class SlidingWindow {
    const ackReceived: array<bool>
    var base: u32
    var next: u32

    ghost predicate Valid()
      reads this
    {
      1 <= ackReceived.Length <= 128
    }

    ghost function View(): State
      reads this, ackReceived
    {
      State(base, next, ackReceived[..])
    }

    constructor (size: u8)
      requires 1 <= size <= 128
      ensures Valid() && fresh(ackReceived)
      ensures View() == State(0, 0, Falses(size))
    {
      ackReceived := new bool[size](_ => false);
      base, next := 0, 0;
    }

    /** Sizes outside 1..128 are refused, and so is a failed flag allocation. */
    static method Init(size: u8, allocOk: bool) returns (w: SlidingWindow?, status: Status)
      ensures status == if size == 0 || size > 128 then InvalidParam else if !allocOk then NoMemory else Ok
      ensures status.Ok? <==> w != null
      ensures w != null ==> fresh(w) && w.Valid() && w.View() == State(0, 0, Falses(size))
    {
      w := null;
      if size == 0 || size > 128 {
        status := InvalidParam;
      } else if !allocOk {
        status := NoMemory;
      } else {
        w := new SlidingWindow(size);
        status := Ok;
      }
    }

    method CanSendPacket() returns (ok: bool)
      requires Valid()
      ensures ok <==> CanSend(View())
    {
      ok := Sub32(next, base) < ackReceived.Length;
    }

    method CommitNext()
      requires Valid()
      modifies this`next
      ensures Valid() && View() == Commit(old(View()))
    {
      next := Add32(next, 1);
    }

    method MarkAck(pn: u32) returns (status: Status)
      requires Valid()
      modifies ackReceived
      ensures Valid() && View() == Mark(old(View()), pn)
      ensures status == if InWindow(old(View()), pn) then Ok else SequenceError
    {
      if pn < base || pn - base >= ackReceived.Length {
        return SequenceError;
      }
      ackReceived[pn - base] := true;
      return Ok;
    }

    /** Clears every flag and starts the numbers over. */
    method Reset()
      requires Valid()
      modifies this, ackReceived
      ensures Valid() && View() == Fresh(old(View()))
    {
      for i := 0 to ackReceived.Length
        invariant forall j :: 0 <= j < i ==> !ackReceived[j]
      {
        ackReceived[i] := false;
      }
      base, next := 0, 0;
      assert ackReceived[..] == Falses(ackReceived.Length);
    }

    /** Drops the oldest slot by moving every later flag one place down. */
    method ShiftOne()
      requires Valid()
      modifies ackReceived
      ensures Valid()
      ensures ackReceived[..] == old(ackReceived[1..]) + [false]
    {
      var i := 1;
      while i < ackReceived.Length
        invariant 1 <= i <= ackReceived.Length
        invariant forall j :: 0 <= j < i - 1 ==> ackReceived[j] == old(ackReceived[j + 1])
        invariant forall j :: i - 1 <= j < ackReceived.Length ==> ackReceived[j] == old(ackReceived[j])
      {
        ackReceived[i - 1] := ackReceived[i];
        i := i + 1;
      }
      ackReceived[ackReceived.Length - 1] := false;
    }

    method AdvanceBase() returns (advanced: nat)
      requires Valid()
      modifies this`base, ackReceived
      ensures Valid() && View() == Advance(old(View()))
      ensures advanced == LeadingAcks(old(ackReceived[..]))
    {
      hide Shifted, LeadingAcks, Falses;
      ghost var acks := ackReceived[..];
      ghost var b := base;
      advanced := 0;
      ShiftNone(acks);
      while advanced < ackReceived.Length && ackReceived[0]
        invariant Valid() && advanced <= |acks| == ackReceived.Length
        invariant Shifted(acks, advanced, ackReceived[..])
        invariant base == Add32(b, advanced)
      {
        ghost var now := ackReceived[..];
        ShiftStep(acks, advanced, now);
        WrapStep(b, advanced);
        ShiftOne();
        assert ackReceived[..] == now[1..] + [false];
        base := Add32(base, 1);
        advanced := advanced + 1;
      }
      ShiftDone(acks, advanced, ackReceived[..]);
    }
  }

  /** The window as it was at the start of the session. */
  function Fresh(w: State): State {
    State(0, 0, Falses(|w.acks|))
  }

  lemma WrapStep(b: int, k: int)
    ensures Add32(Add32(b, k), 1) == Add32(b, k + 1)
  {
  }

  /** `now` is `acks` after `k` shifts, all of them over set flags. */
  ghost predicate Shifted(acks: seq<bool>, k: nat, now: seq<bool>) {
    && k <= |acks|
    && now == acks[k..] + Falses(k)
    && LeadingAcks(acks) == k + LeadingAcks(acks[k..])
  }

  lemma ShiftNone(acks: seq<bool>)
    ensures Shifted(acks, 0, acks)
  {
    assert acks[0..] == acks;
  }

  lemma ShiftStep(acks: seq<bool>, k: nat, now: seq<bool>)
    requires k < |acks| && Shifted(acks, k, now) && now[0]
    ensures Shifted(acks, k + 1, now[1..] + [false])
  {
    assert now[0] == acks[k..][0];
    assert acks[k..][1..] == acks[k + 1..];
    assert now[1..] + [false] == acks[k + 1..] + Falses(k + 1);
  }

  lemma ShiftDone(acks: seq<bool>, k: nat, now: seq<bool>)
    requires Shifted(acks, k, now) && (k == |acks| || !now[0])
    ensures k == LeadingAcks(acks) && now == acks[k..] + Falses(k)
  {
    if k < |acks| { assert now[0] == acks[k..][0]; }
  }
}
