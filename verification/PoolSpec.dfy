/**
 * What fixed-block pools promise, on values: a pool's free blocks are a list
 * of addresses; the books also keep the set of addresses handed out and not
 * yet returned, as the callers see it.  Several pools of different block
 * sizes make a tiered pool; a pool with no blocks is an absent tier.
 */
module PoolSpec {
  /** A buffer cut into `count` blocks; address 0 is the null pointer. */
  datatype Geometry = Geometry(start: nat, blockSize: nat, count: nat)

  const POINTER_SIZE := 8

  predicate Shaped(g: Geometry) {
    g.blockSize >= POINTER_SIZE && (g.count > 0 ==> g.start > 0)
  }

  /** The address of block `i`; that of block `count` is the end of the buffer. */
  function BlockAt(g: Geometry, i: nat): nat {
    if i == 0 then g.start else BlockAt(g, i - 1) + g.blockSize
  }

  function End(g: Geometry): nat {
    BlockAt(g, g.count)
  }

  /** `ptr` is the first byte of a block. */
  ghost predicate IsBlock(g: Geometry, ptr: nat) {
    exists i: nat :: i < g.count && BlockAt(g, i) == ptr
  }

  ghost function Slot(g: Geometry, ptr: nat): (i: nat)
    requires IsBlock(g, ptr)
    ensures i < g.count && BlockAt(g, i) == ptr
  {
    var i: nat :| i < g.count && BlockAt(g, i) == ptr;
    i
  }

  lemma {:induction false} BlocksAscend(g: Geometry, i: nat, j: nat)
    requires i <= j
    ensures BlockAt(g, i) <= BlockAt(g, j)
    ensures i < j ==> BlockAt(g, i) + g.blockSize <= BlockAt(g, j)
  {
    if i < j {
      BlocksAscend(g, i, j - 1);
    }
  }

  /** Blocks and slots are in one-to-one correspondence. */
  lemma BlockOfSlot(g: Geometry, i: nat)
    requires Shaped(g) && i < g.count
    ensures IsBlock(g, BlockAt(g, i)) && Slot(g, BlockAt(g, i)) == i && BlockAt(g, i) > 0
  {
    var j := Slot(g, BlockAt(g, i));
    BlocksAscend(g, 0, i);
    if i < j {
      BlocksAscend(g, i, j);
    } else {
      BlocksAscend(g, j, i);
    }
  }

  lemma BlockIsNotNull(g: Geometry, ptr: nat)
    requires Shaped(g) && IsBlock(g, ptr)
    ensures ptr > 0
  {
    BlockOfSlot(g, Slot(g, ptr));
  }

  /** Different blocks do not overlap. */
  lemma BlocksApart(g: Geometry, p: nat, q: nat)
    requires IsBlock(g, p) && IsBlock(g, q) && p < q
    ensures p + g.blockSize <= q
  {
    if Slot(g, q) <= Slot(g, p) {
      BlocksAscend(g, Slot(g, q), Slot(g, p));
    }
    BlocksAscend(g, Slot(g, p), Slot(g, q));
  }

  /** No block reaches outside the buffer. */
  lemma BlockInside(g: Geometry, p: nat)
    requires IsBlock(g, p)
    ensures g.start <= p && p + g.blockSize <= End(g)
  {
    BlocksAscend(g, 0, Slot(g, p));
    BlocksAscend(g, Slot(g, p), g.count);
  }

  lemma BlocksInside(g: Geometry)
    ensures forall p: nat :: IsBlock(g, p) ==> g.start <= p && p + g.blockSize <= End(g)
  {
    forall p: nat | IsBlock(g, p) ensures g.start <= p && p + g.blockSize <= End(g) {
      BlockInside(g, p);
    }
  }

  // ---- The test on addresses ----

  /** The range and alignment test made on a pointer handed back. */
  predicate ContainsBlock(g: Geometry, ptr: nat)
    requires Shaped(g)
  {
    g.start <= ptr < g.start + g.count * g.blockSize && (ptr - g.start) % g.blockSize == 0
  }

  lemma {:induction false} BlockAtIs(g: Geometry, i: nat)
    ensures BlockAt(g, i) == g.start + i * g.blockSize
  {
    if i > 0 {
      BlockAtIs(g, i - 1);
    }
  }

  lemma MulMonotone(a: nat, b: nat, n: nat)
    requires a < b
    ensures (a + 1) * n <= b * n && (a + 1) * n == a * n + n
  {
    assert b * n == (a + 1) * n + (b - a - 1) * n;
    assert (b - a - 1) * n >= 0;
  }

  lemma MulDiv(i: nat, n: nat)
    requires n > 0
    ensures (i * n) / n == i && (i * n) % n == 0
  {
    var a := i * n;
    var q := a / n;
    assert a == q * n + a % n;
    if q < i {
      MulMonotone(q, i, n);
    } else if q > i {
      MulMonotone(i, q, n);
    }
  }

  lemma BlockPasses(g: Geometry, ptr: nat)
    requires Shaped(g) && IsBlock(g, ptr)
    ensures ContainsBlock(g, ptr) && (ptr - g.start) / g.blockSize == Slot(g, ptr)
  {
    var i := Slot(g, ptr);
    BlockAtIs(g, i);
    MulDiv(i, g.blockSize);
    MulMonotone(i, g.count, g.blockSize);
  }

  lemma PassesIsBlock(g: Geometry, ptr: nat)
    requires Shaped(g) && ContainsBlock(g, ptr)
    ensures IsBlock(g, ptr)
  {
    var i := (ptr - g.start) / g.blockSize;
    assert ptr == g.start + i * g.blockSize;
    BlockAtIs(g, i);
    if i >= g.count {
      MulMonotone(g.count, i + 1, g.blockSize);
    }
  }

  /** The test accepts exactly the blocks, and the quotient is the slot. */
  lemma ContainsBlockIff(g: Geometry, ptr: nat)
    requires Shaped(g)
    ensures ContainsBlock(g, ptr) <==> IsBlock(g, ptr)
    ensures IsBlock(g, ptr) ==> ptr >= g.start && (ptr - g.start) / g.blockSize == Slot(g, ptr)
  {
    hide IsBlock;
    if IsBlock(g, ptr) {
      BlockPasses(g, ptr);
    }
    if ContainsBlock(g, ptr) {
      PassesIsBlock(g, ptr);
    }
  }

  // ---- Sets of blocks ----

  ghost predicate Distinct(s: seq<nat>) {
    forall i, j :: 0 <= i < j < |s| ==> s[i] != s[j]
  }

  ghost function Elements(s: seq<nat>): set<nat> {
    set i | i in s
  }

  lemma {:induction false} ElementCount(s: seq<nat>)
    requires Distinct(s)
    ensures |Elements(s)| == |s|
  {
    if s == [] {
      assert Elements(s) == {};
    } else {
      ElementCount(s[1..]);
      assert Elements(s) == Elements(s[1..]) + {s[0]};
    }
  }

  /** The first `n` blocks, the last of them first: the order initialisation links them in. */
  function Linked(g: Geometry, n: nat): seq<nat> {
    if n == 0 then [] else [BlockAt(g, n - 1)] + Linked(g, n - 1)
  }

  lemma {:induction false} LinkedAre(g: Geometry, n: nat)
    requires Shaped(g) && n <= g.count
    ensures |Linked(g, n)| == n && Distinct(Linked(g, n))
    ensures forall p :: p in Linked(g, n) <==> IsBlock(g, p) && Slot(g, p) < n
  {
    hide IsBlock;
    if n > 0 {
      LinkedAre(g, n - 1);
      BlockOfSlot(g, n - 1);
    }
  }

  // ---- One pool ----

  ghost predicate Good(g: Geometry, free: seq<nat>)
    requires Shaped(g)
  {
    Distinct(free) && forall p :: p in free ==> IsBlock(g, p)
  }

  /** All blocks that are not free. */
  ghost function Live(g: Geometry, free: seq<nat>): set<nat>
    requires Shaped(g)
  {
    set p | p in Linked(g, g.count) && p !in free
  }

  lemma LiveIs(g: Geometry, free: seq<nat>, p: nat)
    requires Shaped(g)
    ensures p in Live(g, free) <==> IsBlock(g, p) && p !in free
  {
    hide IsBlock, Slot;
    LinkedAre(g, g.count);
  }

  /** Free and live blocks together are exactly all blocks. */
  lemma Conservation(g: Geometry, free: seq<nat>)
    requires Shaped(g) && Good(g, free)
    ensures |free| + |Live(g, free)| == g.count
  {
    hide IsBlock, Slot;
    var all := Linked(g, g.count);
    LinkedAre(g, g.count);
    ElementCount(all);
    ElementCount(free);
    assert forall p :: p in free ==> p in all;
    assert Elements(all) == Elements(free) + Live(g, free);
  }

  function Head(free: seq<nat>): nat {
    if free == [] then 0 else free[0]
  }

  function Taken(free: seq<nat>): seq<nat> {
    if free == [] then [] else free[1..]
  }

  /** What returning `ptr` leaves free: a foreign, misaligned or already free pointer is ignored. */
  ghost function Given(g: Geometry, free: seq<nat>, ptr: nat): seq<nat>
    requires Shaped(g)
  {
    if IsBlock(g, ptr) && ptr !in free then [ptr] + free else free
  }

  lemma TakenIsGood(g: Geometry, free: seq<nat>)
    requires Shaped(g) && Good(g, free)
    ensures Good(g, Taken(free)) && (Head(free) == 0 <==> free == [])
    ensures free != [] ==> Head(free) !in Taken(free) && IsBlock(g, Head(free))
  {
    hide IsBlock;
    if free != [] {
      BlockIsNotNull(g, free[0]);
    }
  }

  lemma GivenIsGood(g: Geometry, free: seq<nat>, ptr: nat)
    requires Shaped(g) && Good(g, free)
    ensures Good(g, Given(g, free, ptr))
  {
    hide IsBlock;
  }

  // ---- Several pools ----

  ghost predicate Apart(a: Geometry, b: Geometry) {
    End(a) <= b.start || End(b) <= a.start
  }

  /** Every tier is well formed and no two buffers overlap. */
  ghost predicate Tiered(gs: seq<Geometry>) {
    && (forall k :: 0 <= k < |gs| ==> Shaped(gs[k]))
    && (forall j, k :: 0 <= j < k < |gs| ==> Apart(gs[j], gs[k]))
  }

  /** The first tier from `k` on that is wide enough and has a free block. */
  function Choose(gs: seq<Geometry>, frees: seq<seq<nat>>, size: nat, k: nat): nat
    requires |gs| == |frees| && k <= |gs|
    decreases |gs| - k
  {
    if k == |gs| || (size <= gs[k].blockSize && frees[k] != []) then k else Choose(gs, frees, size, k + 1)
  }

  /** The first tier from `k` on that `ptr` is a block of. */
  ghost function Owner(gs: seq<Geometry>, ptr: nat, k: nat): nat
    requires k <= |gs| && forall i :: 0 <= i < |gs| ==> Shaped(gs[i])
    decreases |gs| - k
  {
    if k == |gs| || IsBlock(gs[k], ptr) then k else Owner(gs, ptr, k + 1)
  }

  datatype Op = Alloc(size: nat) | Free(ptr: nat, size: nat)

  /** The free lists, tier by tier, and the pointers the callers hold. */
  datatype Books = Books(frees: seq<seq<nat>>, held: set<nat>)

  /** The pointer an allocation returns; 0 when it fails. */
  function Answer(gs: seq<Geometry>, frees: seq<seq<nat>>, size: nat): nat
    requires |gs| == |frees|
  {
    var k := Choose(gs, frees, size, 0);
    if size == 0 || k >= |gs| then 0 else Head(frees[k])
  }

  function AfterAlloc(gs: seq<Geometry>, frees: seq<seq<nat>>, size: nat): (r: seq<seq<nat>>)
    requires |gs| == |frees|
  {
    var k := Choose(gs, frees, size, 0);
    if size == 0 || k >= |gs| then frees else frees[k := Taken(frees[k])]
  }

  ghost function AfterFree(gs: seq<Geometry>, frees: seq<seq<nat>>, ptr: nat, size: nat): (r: seq<seq<nat>>)
    requires |gs| == |frees| && forall i :: 0 <= i < |gs| ==> Shaped(gs[i])
  {
    var k := Owner(gs, ptr, 0);
    if ptr == 0 || size == 0 || k >= |gs| then frees else frees[k := Given(gs[k], frees[k], ptr)]
  }

  /** A caller holds what it was given until it returns it with a non-zero size. */
  ghost function Step(gs: seq<Geometry>, b: Books, op: Op): Books
    requires |gs| == |b.frees| && forall i :: 0 <= i < |gs| ==> Shaped(gs[i])
  {
    match op
    case Alloc(size) =>
      var p := Answer(gs, b.frees, size);
      Books(AfterAlloc(gs, b.frees, size), if p == 0 then b.held else b.held + {p})
    case Free(ptr, size) =>
      Books(AfterFree(gs, b.frees, ptr, size), if size == 0 then b.held else b.held - {ptr})
  }

  function Initial(gs: seq<Geometry>): seq<seq<nat>> {
    seq(|gs|, k requires 0 <= k < |gs| => Linked(gs[k], gs[k].count))
  }

  ghost predicate Owns(gs: seq<Geometry>, frees: seq<seq<nat>>, k: nat, p: nat)
    requires |gs| == |frees| && forall i :: 0 <= i < |gs| ==> Shaped(gs[i])
  {
    k < |gs| && IsBlock(gs[k], p) && p !in frees[k]
  }

  /** Every free list is good, and held is exactly what is not free. */
  ghost predicate Balanced(gs: seq<Geometry>, b: Books) {
    && |gs| == |b.frees| && Tiered(gs)
    && (forall k :: 0 <= k < |gs| ==> Good(gs[k], b.frees[k]))
    && (forall p :: p in b.held <==> exists k: nat :: Owns(gs, b.frees, k, p))
  }

  lemma {:induction false} ChooseIs(gs: seq<Geometry>, frees: seq<seq<nat>>, size: nat, k: nat)
    requires |gs| == |frees| && k <= |gs|
    ensures k <= Choose(gs, frees, size, k) <= |gs|
    ensures forall j :: k <= j < Choose(gs, frees, size, k) ==> size > gs[j].blockSize || frees[j] == []
    ensures var c := Choose(gs, frees, size, k); c < |gs| ==> size <= gs[c].blockSize && frees[c] != []
    decreases |gs| - k
  {
    if k < |gs| && !(size <= gs[k].blockSize && frees[k] != []) {
      ChooseIs(gs, frees, size, k + 1);
    }
  }

  lemma {:induction false} OwnerIs(gs: seq<Geometry>, ptr: nat, k: nat, t: nat)
    requires Tiered(gs) && k <= t < |gs| && IsBlock(gs[t], ptr)
    ensures Owner(gs, ptr, k) == t
    decreases |gs| - k
  {
    if k < t {
      if IsBlock(gs[k], ptr) {
        OneTier(gs, k, t, ptr);
      }
      OwnerIs(gs, ptr, k + 1, t);
    }
  }

  lemma {:induction false} OwnerOwns(gs: seq<Geometry>, ptr: nat, k: nat)
    requires Tiered(gs) && k <= |gs|
    ensures var o := Owner(gs, ptr, k); k <= o <= |gs| && (o < |gs| ==> IsBlock(gs[o], ptr))
    decreases |gs| - k
  {
    if k < |gs| && !IsBlock(gs[k], ptr) {
      OwnerOwns(gs, ptr, k + 1);
    }
  }

  /** With separate buffers a pointer is a block of at most one tier. */
  lemma OneTier(gs: seq<Geometry>, j: nat, k: nat, p: nat)
    requires Tiered(gs) && j < |gs| && k < |gs| && IsBlock(gs[j], p) && IsBlock(gs[k], p)
    ensures j == k
  {
    hide Apart;
    if j < k {
      NotBoth(gs, j, k, p);
    } else if k < j {
      NotBoth(gs, k, j, p);
    }
  }

  lemma NotBoth(gs: seq<Geometry>, j: nat, k: nat, p: nat)
    requires Tiered(gs) && j < k < |gs|
    ensures !(IsBlock(gs[j], p) && IsBlock(gs[k], p))
  {
    BlocksInside(gs[j]);
    BlocksInside(gs[k]);
    assert Apart(gs[j], gs[k]);
    hide IsBlock;
  }

  lemma InitialBalanced(gs: seq<Geometry>)
    requires Tiered(gs)
    ensures Balanced(gs, Books(Initial(gs), {}))
  {
    hide IsBlock, Slot, Linked;
    var frees := Initial(gs);
    forall k | 0 <= k < |gs| ensures Good(gs[k], frees[k]) {
      LinkedAre(gs[k], gs[k].count);
    }
    forall p, k: nat | k < |gs| ensures !Owns(gs, frees, k, p) {
      LinkedAre(gs[k], gs[k].count);
    }
  }

  /** The tier a held pointer belongs to. */
  lemma HolderOf(gs: seq<Geometry>, b: Books, p: nat) returns (k: nat)
    requires Balanced(gs, b) && p in b.held
    ensures k < |gs| && IsBlock(gs[k], p) && p !in b.frees[k]
  {
    k :| Owns(gs, b.frees, k, p);
  }

  lemma AllocBalanced(gs: seq<Geometry>, b: Books, size: nat)
    requires Balanced(gs, b)
    ensures Balanced(gs, Step(gs, b, Alloc(size)))
  {
    hide IsBlock, Tiered, Good, Taken, Head;
    var k := Choose(gs, b.frees, size, 0);
    ChooseIs(gs, b.frees, size, 0);
    if size != 0 && k < |gs| {
      AllocFrom(gs, b, k);
    }
  }

  lemma AllocFrom(gs: seq<Geometry>, b: Books, k: nat)
    requires Balanced(gs, b) && k < |gs| && b.frees[k] != []
    ensures Head(b.frees[k]) > 0 && Head(b.frees[k]) !in b.held
    ensures Balanced(gs, Books(b.frees[k := Taken(b.frees[k])], b.held + {Head(b.frees[k])}))
  {
    hide IsBlock;
    var p, frees := Head(b.frees[k]), b.frees[k := Taken(b.frees[k])];
    TakenIsGood(gs[k], b.frees[k]);
    if p in b.held {
      var t := HolderOf(gs, b, p);
      OneTier(gs, t, k, p);
    }
    assert Owns(gs, frees, k, p);
    forall q | q in b.held ensures exists t: nat :: Owns(gs, frees, t, q) {
      var t := HolderOf(gs, b, q);
      assert Owns(gs, frees, t, q);
    }
    forall q, t: nat | Owns(gs, frees, t, q) && q != p ensures q in b.held {
      assert Owns(gs, b.frees, t, q);
    }
  }

  lemma FreeBalanced(gs: seq<Geometry>, b: Books, ptr: nat, size: nat)
    requires Balanced(gs, b)
    ensures Balanced(gs, Step(gs, b, Free(ptr, size)))
  {
    hide IsBlock, Good, Given;
    var k := Owner(gs, ptr, 0);
    OwnerOwns(gs, ptr, 0);
    if ptr in b.held {
      var t := HolderOf(gs, b, ptr);
      BlockIsNotNull(gs[t], ptr);
      OwnerIs(gs, ptr, 0, t);
    }
    if ptr != 0 && size != 0 && k < |gs| {
      FreeTo(gs, b, k, ptr);
    } else if size != 0 {
      assert b.held - {ptr} == b.held;
    }
  }

  lemma FreeTo(gs: seq<Geometry>, b: Books, k: nat, ptr: nat)
    requires Balanced(gs, b) && k < |gs| && IsBlock(gs[k], ptr)
    ensures Balanced(gs, Books(b.frees[k := Given(gs[k], b.frees[k], ptr)], b.held - {ptr}))
  {
    hide IsBlock;
    var frees := b.frees[k := Given(gs[k], b.frees[k], ptr)];
    GivenIsGood(gs[k], b.frees[k], ptr);
    forall q | q in b.held && q != ptr ensures exists t: nat :: Owns(gs, frees, t, q) {
      var t := HolderOf(gs, b, q);
      assert Owns(gs, frees, t, q);
    }
    forall q, t: nat | Owns(gs, frees, t, q) ensures q in b.held && q != ptr {
      if q == ptr {
        OneTier(gs, t, k, q);
      }
      assert Owns(gs, b.frees, t, q);
    }
  }

  ghost function Run(gs: seq<Geometry>, ops: seq<Op>): (b: Books)
    requires forall i :: 0 <= i < |gs| ==> Shaped(gs[i])
    ensures |b.frees| == |gs|
    decreases |ops|
  {
    if ops == [] then Books(Initial(gs), {}) else Step(gs, Run(gs, ops[..|ops| - 1]), ops[|ops| - 1])
  }

  /** After any run of allocations and releases, legal or not, what callers hold is exactly what is not free. */
  lemma {:induction false} RunBalanced(gs: seq<Geometry>, ops: seq<Op>)
    requires Tiered(gs)
    ensures Balanced(gs, Run(gs, ops))
    decreases |ops|
  {
    hide Balanced, Step;
    if ops == [] {
      InitialBalanced(gs);
    } else {
      RunBalanced(gs, ops[..|ops| - 1]);
      match ops[|ops| - 1]
      case Alloc(size) => AllocBalanced(gs, Run(gs, ops[..|ops| - 1]), size);
      case Free(ptr, size) => FreeBalanced(gs, Run(gs, ops[..|ops| - 1]), ptr, size);
    }
  }

  /** In every tier, after any run, free blocks and held blocks add up to the block count. */
  lemma RunConserves(gs: seq<Geometry>, ops: seq<Op>, k: nat)
    requires Tiered(gs) && k < |gs|
    ensures var b := Run(gs, ops); var mine := set p | p in b.held && IsBlock(gs[k], p); |b.frees[k]| + |mine| == gs[k].count
  {
    hide IsBlock, Run, Linked;
    var b := Run(gs, ops);
    RunBalanced(gs, ops);
    var mine := set p | p in b.held && IsBlock(gs[k], p);
    forall p ensures p in mine <==> p in Live(gs[k], b.frees[k]) {
      LiveIs(gs[k], b.frees[k], p);
      if p in mine {
        var t := HolderOf(gs, b, p);
        OneTier(gs, t, k, p);
      }
      assert IsBlock(gs[k], p) && p !in b.frees[k] ==> Owns(gs, b.frees, k, p);
    }
    assert mine == Live(gs[k], b.frees[k]);
    Conservation(gs[k], b.frees[k]);
  }

  /**
   * A block handed out is wide enough, lies inside its tier's buffer, and
   * shares no byte with anything a caller still holds.
   */
  lemma AllocIsSafe(gs: seq<Geometry>, b: Books, size: nat) returns (k: nat)
    requires Balanced(gs, b) && Answer(gs, b.frees, size) != 0
    ensures var p := Answer(gs, b.frees, size); k < |gs| && 0 < size <= gs[k].blockSize && gs[k].start <= p && p + size <= End(gs[k])
    ensures var p := Answer(gs, b.frees, size); p !in b.held && forall q, j: nat :: q in b.held && j < |gs| && IsBlock(gs[j], q) ==> p + size <= q || q + gs[j].blockSize <= p
  {
    var p := Answer(gs, b.frees, size);
    k := Choose(gs, b.frees, size, 0);
    ChooseIs(gs, b.frees, size, 0);
    AllocFrom(gs, b, k);
    TakenIsGood(gs[k], b.frees[k]);
    BlockInside(gs[k], p);
    forall q, j: nat | q in b.held && j < |gs| && IsBlock(gs[j], q)
      ensures p + size <= q || q + gs[j].blockSize <= p
    {
      BlockPairApart(gs, k, j, p, q);
    }
  }

  lemma BlockPairApart(gs: seq<Geometry>, k: nat, j: nat, p: nat, q: nat)
    requires Tiered(gs) && k < |gs| && j < |gs| && IsBlock(gs[k], p) && IsBlock(gs[j], q) && p != q
    ensures p + gs[k].blockSize <= q || q + gs[j].blockSize <= p
  {
    BlockInside(gs[k], p);
    BlockInside(gs[j], q);
    if j < k {
      assert Apart(gs[j], gs[k]);
    } else if k < j {
      assert Apart(gs[k], gs[j]);
    } else if p < q {
      BlocksApart(gs[k], p, q);
    } else {
      BlocksApart(gs[k], q, p);
    }
  }

  /**
   * An allocation takes the block at the head of the first tier that is wide enough
   * and has one; when there is none it returns 0 and takes nothing.
   */
  lemma AllocTakesFirst(gs: seq<Geometry>, b: Books, size: nat) returns (k: nat)
    requires Balanced(gs, b)
    ensures k <= |gs| && forall j :: 0 <= j < k ==> size == 0 || size > gs[j].blockSize || b.frees[j] == []
    ensures if k < |gs| then
              && 0 < size <= gs[k].blockSize && b.frees[k] != []
              && Answer(gs, b.frees, size) == b.frees[k][0] && AfterAlloc(gs, b.frees, size) == b.frees[k := b.frees[k][1..]]
            else Answer(gs, b.frees, size) == 0 && AfterAlloc(gs, b.frees, size) == b.frees
  {
    k := if size == 0 then |gs| else Choose(gs, b.frees, size, 0);
    ChooseIs(gs, b.frees, size, 0);
  }

  /** A new tier hands out its last block first. */
  lemma {:induction false} LinkedIs(g: Geometry, n: nat, k: nat)
    requires k < n
    ensures |Linked(g, n)| == n && Linked(g, n)[k] == g.start + (n - 1 - k) * g.blockSize
    decreases n
  {
    BlockAtIs(g, n - 1);
    hide BlockAt;
    if n > 1 {
      LinkedIs(g, n - 1, if k > 0 then k - 1 else 0);
    }
  }

  /** An allocation fails exactly when nothing is asked for or every tier wide enough is used up. */
  lemma AllocFailsIff(gs: seq<Geometry>, b: Books, size: nat)
    requires Balanced(gs, b)
    ensures Answer(gs, b.frees, size) == 0 <==>
      size == 0 || forall k :: 0 <= k < |gs| && size <= gs[k].blockSize ==> b.frees[k] == []
  {
    var k := Choose(gs, b.frees, size, 0);
    ChooseIs(gs, b.frees, size, 0);
    if size != 0 && k < |gs| {
      AllocFrom(gs, b, k);
    }
  }

  /**
   * Releasing a held pointer gives it back to the tier it came from and to no
   * other; releasing anything else changes nothing.
   */
  lemma FreeReturnsToOwner(gs: seq<Geometry>, b: Books, ptr: nat, size: nat)
    requires Balanced(gs, b)
    ensures ptr in b.held && size > 0 ==> exists k: nat :: Owns(gs, b.frees, k, ptr) && AfterFree(gs, b.frees, ptr, size) == b.frees[k := [ptr] + b.frees[k]]
    ensures !(ptr in b.held && size > 0) ==> AfterFree(gs, b.frees, ptr, size) == b.frees
  {
    hide IsBlock;
    if ptr in b.held && size > 0 {
      var k := HolderOf(gs, b, ptr);
      OwnerIs(gs, ptr, 0, k);
      BlockIsNotNull(gs[k], ptr);
      assert Owns(gs, b.frees, k, ptr);
    } else {
      OwnerOwns(gs, ptr, 0);
      var k := Owner(gs, ptr, 0);
      if k < |gs| && ptr !in b.frees[k] {
        assert Owns(gs, b.frees, k, ptr);
      }
      if k < |gs| {
        assert b.frees[k := b.frees[k]] == b.frees;
      }
    }
  }

  /** Returning a block straight after it was handed out restores the books. */
  lemma FreeUndoesAlloc(gs: seq<Geometry>, b: Books, size: nat)
    requires Balanced(gs, b)
    ensures var p := Answer(gs, b.frees, size); p != 0 ==> Step(gs, Step(gs, b, Alloc(size)), Free(p, size)) == b
  {
    hide IsBlock;
    var p, k := Answer(gs, b.frees, size), Choose(gs, b.frees, size, 0);
    if p != 0 {
      ChooseIs(gs, b.frees, size, 0);
      AllocFrom(gs, b, k);
      TakenIsGood(gs[k], b.frees[k]);
      OwnerIs(gs, p, 0, k);
      var c := Step(gs, b, Alloc(size));
      assert c.held - {p} == b.held;
      assert [p] + Taken(b.frees[k]) == b.frees[k];
      assert c.frees[k := b.frees[k]] == b.frees;
    }
  }
}
