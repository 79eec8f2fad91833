/**
 * The fixed-block pool, a free list threaded through the free blocks
 * themselves, and the tiered pool made of three of them.
 */
module MemPool {
  import opened PoolSpec

  const SMALL_SIZE := 64
  const MEDIUM_SIZE := 256
  const LARGE_SIZE := 1024

  class Pool {
    const geo: Geometry
    /** The pointer stored at the start of each block; in a live block it is the user's data. */
    const words: array<nat>
    var freeList: nat
    var freeCount: nat
    var peakUsed: nat
    ghost var free: seq<nat>

    ghost predicate Shape() {
      Shaped(geo) && words.Length == geo.count
    }

    /** The stored pointers thread the free blocks in the order of `free`. */
    ghost predicate Threads()
      requires Shape()
      reads this`freeList, this`free, words
    {
      && freeList == Head(free)
      && (forall i :: 0 <= i < |free| ==> IsBlock(geo, free[i]) && Slot(geo, free[i]) < words.Length && words[Slot(geo, free[i])] == Head(free[i + 1..]))
    }

    ghost predicate Valid()
      reads this, words
    {
      Shape() && Good(geo, free) && Threads() && freeCount == |free| && peakUsed <= geo.count
    }

    /** An empty free list over a buffer; `count` is 0 for a tier that is absent. */
    constructor (geo: Geometry)
      requires Shaped(geo)
      ensures Valid() && this.geo == geo && free == [] && peakUsed == 0 && fresh(words)
    {
      this.geo := geo;
      words := new nat[geo.count](_ => 0);
      freeList, freeCount, peakUsed, free := 0, 0, 0, [];
    }

    /** Links all blocks of a new pool, the first block first, so that the last one is handed out first. */
    method LinkAll()
      requires Valid() && free == [] && peakUsed == 0
      modifies this, words
      ensures Valid() && free == Linked(geo, geo.count) && peakUsed == 0
    {
      hide IsBlock, Slot, BlockAt, Linked;
      LinkedNone(geo);
      var i := 0;
      while i < geo.count
        invariant 0 <= i <= geo.count && Valid() && free == Linked(geo, i) && peakUsed == 0
      {
        BlockOfSlot(geo, i);
        BlockAtIs(geo, i);
        LinkedAre(geo, i);
        LinkedNext(geo, i);
        Push(geo.start + i * geo.blockSize);
        i := i + 1;
      }
    }

    /** Stores the old head in the block and makes the block the head. */
    method Push(ptr: nat)
      requires Valid() && IsBlock(geo, ptr) && ptr !in free
      modifies this`freeList, this`freeCount, this`free, words
      ensures Valid() && free == [ptr] + old(free)
    {
      hide IsBlock, Slot;
      BlockIsNotNull(geo, ptr);
      ContainsBlockIff(geo, ptr);
      OtherSlots(ptr);
      words[(ptr - geo.start) / geo.blockSize] := freeList;
      freeList := ptr;
      free := [ptr] + free;
      freeCount := freeCount + 1;
      assert free[1..] == old(free);
      forall i | 0 <= i < |free|
        ensures IsBlock(geo, free[i]) && Slot(geo, free[i]) < words.Length && words[Slot(geo, free[i])] == Head(free[i + 1..])
      {
        if i > 0 {
          assert free[i + 1..] == old(free)[i..];
          assert free[i] == old(free)[i - 1];
        }
      }
    }

    lemma OtherSlots(ptr: nat)
      requires Valid() && IsBlock(geo, ptr) && ptr !in free
      ensures forall i :: 0 <= i < |free| ==> IsBlock(geo, free[i]) && Slot(geo, free[i]) != Slot(geo, ptr)
    {
      hide IsBlock, BlockAt;
    }

    /** The pointer stored in a free block. */
    method LoadNext(ghost i: nat, block: nat) returns (next: nat)
      requires Valid() && i < |free| && block == free[i]
      ensures Valid() && next == Head(free[i + 1..])
    {
      hide IsBlock, Slot, ContainsBlock;
      ContainsBlockIff(geo, block);
      next := words[(block - geo.start) / geo.blockSize];
    }

    /** Takes the first free block; 0 when there is none. */
    method Alloc() returns (block: nat)
      requires Valid()
      modifies this`freeList, this`freeCount, this`peakUsed, this`free
      ensures Valid() && block == Head(old(free)) && free == Taken(old(free))
      ensures block == 0 <==> old(free) == []
      ensures peakUsed == if old(free) != [] && geo.count - |free| > old(peakUsed) then geo.count - |free| else old(peakUsed)
    {
      hide IsBlock, Slot;
      TakenIsGood(geo, free);
      Conservation(geo, free);
      if freeList == 0 {
        return 0;
      }
      block := freeList;
      var next := LoadNext(0, block);
      freeList := next;
      free := free[1..];
      freeCount := freeCount - 1;
      assert forall i :: 0 <= i < |free| ==> old(free)[i + 1] == free[i] && old(free)[i + 2..] == free[i + 1..];
      var used := geo.count - freeCount;
      if used > peakUsed {
        peakUsed := used;
      }
    }

    /** Scans the free list, at most once around. */
    method FreeListContains(ptr: nat) returns (found: bool)
      requires Valid()
      ensures Valid() && (found <==> ptr in free)
    {
      hide IsBlock, Slot, Threads;
      Conservation(geo, free);
      HeadIs(0);
      var current, scanned := freeList, 0;
      while current != 0 && scanned < geo.count
        invariant 0 <= scanned <= |free| && Valid() && current == Head(free[scanned..])
        invariant current == 0 <==> scanned == |free|
        invariant forall k :: 0 <= k < scanned ==> free[k] != ptr
        decreases geo.count - scanned
      {
        HeadIs(scanned);
        if current == ptr {
          return true;
        }
        current := LoadNext(scanned, current);
        scanned := scanned + 1;
        HeadIs(scanned);
      }
      return false;
    }

    lemma HeadIs(i: nat)
      requires Valid() && i <= |free|
      ensures Head(free[i..]) == 0 <==> i == |free|
      ensures i < |free| ==> Head(free[i..]) == free[i]
      ensures i == 0 ==> freeList == Head(free[i..])
    {
      hide IsBlock, Slot;
      if i < |free| {
        BlockIsNotNull(geo, free[i]);
      }
      if i == 0 {
        assert free[0..] == free;
      }
    }

    /** Returns a block; a foreign, misaligned or already free pointer changes nothing. */
    method Free(ptr: nat)
      requires Valid()
      modifies this`freeList, this`freeCount, this`free, words
      ensures Valid() && free == Given(geo, old(free), ptr)
      ensures free == old(free) ==> words[..] == old(words[..])
    {
      hide IsBlock, Slot, Threads, ContainsBlock;
      ContainsBlockIff(geo, ptr);
      if ptr == 0 || !ContainsBlock(geo, ptr) {
        if IsBlock(geo, ptr) {
          BlockIsNotNull(geo, ptr);
        }
        return;
      }
      if freeCount >= geo.count {
        FullHasAll(ptr);
        return;
      }
      var found := FreeListContains(ptr);
      if !found {
        Push(ptr);
      }
    }

    lemma FullHasAll(ptr: nat)
      requires Valid() && freeCount >= geo.count && IsBlock(geo, ptr)
      ensures ptr in free
    {
      hide IsBlock, Slot;
      Conservation(geo, free);
      LiveIs(geo, free, ptr);
    }

    /** The owner of a live block may write over the stored pointer. */
    method UserWrite(block: nat, word: nat)
      requires Valid() && IsBlock(geo, block) && block !in free
      modifies words
      ensures Valid()
    {
      hide IsBlock, Slot;
      ContainsBlockIff(geo, block);
      OtherSlots(block);
      words[(block - geo.start) / geo.blockSize] := word;
    }
  }

  lemma LinkedNone(g: Geometry)
    ensures Linked(g, 0) == []
  {}

  lemma LinkedNext(g: Geometry, i: nat)
    ensures Linked(g, i + 1) == [BlockAt(g, i)] + Linked(g, i)
  {}

  /** Divides a buffer into blocks; refused when no block fits or a block cannot hold a pointer. */
  method Init(start: nat, bufferSize: nat, blockSize: nat) returns (pool: Pool?)
    ensures pool == null <==> start == 0 || bufferSize == 0 || blockSize < 8 || bufferSize < blockSize
    ensures pool != null ==> fresh(pool) && fresh(pool.words) && pool.Valid()
    ensures pool != null ==> pool.geo == Geometry(start, blockSize, bufferSize / blockSize)
    ensures pool != null ==> pool.free == Linked(pool.geo, pool.geo.count)
  {
    if start == 0 || bufferSize == 0 || blockSize == 0 || blockSize < POINTER_SIZE {
      return null;
    }
    var count := bufferSize / blockSize;
    assert bufferSize < blockSize <==> count == 0;
    if count == 0 {
      return null;
    }
    assert count * blockSize <= bufferSize;
    pool := new Pool(Geometry(start, blockSize, count));
    pool.LinkAll();
  }

  // ---- Three tiers ----

  class TieredPool {
    const small: Pool
    const medium: Pool
    const large: Pool

    ghost predicate Separate() {
      && small != medium && small != large && medium != large
      && small.words != medium.words && small.words != large.words && medium.words != large.words
    }

    ghost predicate Valid()
      reads small, medium, large, small.words, medium.words, large.words
    {
      && Separate()
      && small.Valid() && medium.Valid() && large.Valid()
      && small.geo.blockSize == SMALL_SIZE && medium.geo.blockSize == MEDIUM_SIZE && large.geo.blockSize == LARGE_SIZE
    }

    function Geos(): seq<Geometry> {
      [small.geo, medium.geo, large.geo]
    }

    ghost function Frees(): seq<seq<nat>>
      reads small`free, medium`free, large`free
    {
      [small.free, medium.free, large.free]
    }

    constructor (small: Pool, medium: Pool, large: Pool)
      ensures this.small == small && this.medium == medium && this.large == large
    {
      this.small, this.medium, this.large := small, medium, large;
    }

    /** Takes a block from the smallest tier that is wide enough and not used up. */
    method Alloc(size: nat) returns (ptr: nat)
      requires Valid()
      modifies small, medium, large
      ensures Valid() && ptr == Answer(Geos(), old(Frees()), size) && Frees() == AfterAlloc(Geos(), old(Frees()), size)
    {
      hide Answer, AfterAlloc, Pool.Threads, Good, Choose;
      Chooses(size);
      ptr := 0;
      if size == 0 {
        return 0;
      }
      if size <= SMALL_SIZE && small.geo.count > 0 {
        ptr := small.Alloc();
        if ptr != 0 {
          return;
        }
      }
      if size <= MEDIUM_SIZE && medium.geo.count > 0 {
        ptr := medium.Alloc();
        if ptr != 0 {
          return;
        }
      }
      if size <= LARGE_SIZE && large.geo.count > 0 {
        ptr := large.Alloc();
        if ptr != 0 {
          return;
        }
      }
      return 0;
    }

    /** The choice written out for three tiers. */
    lemma Chooses(size: nat)
      requires Valid()
      ensures var answer := Answer(Geos(), Frees(), size); var after := AfterAlloc(Geos(), Frees(), size);
        if size == 0 then answer == 0 && after == Frees()
        else if size <= 64 && small.free != [] then answer == small.free[0] && after == [Taken(small.free), medium.free, large.free]
        else if size <= 256 && medium.free != [] then answer == medium.free[0] && after == [small.free, Taken(medium.free), large.free]
        else if size <= 1024 && large.free != [] then answer == large.free[0] && after == [small.free, medium.free, Taken(large.free)]
        else answer == 0 && after == Frees()
      ensures small.geo.count == 0 ==> small.free == []
      ensures medium.geo.count == 0 ==> medium.free == []
      ensures large.geo.count == 0 ==> large.free == []
    {
      hide Pool.Threads, Good;
      var gs, frees := Geos(), Frees();
      assert Choose(gs, frees, size, 3) == 3;
      assert Choose(gs, frees, size, 2) == if size <= 1024 && large.free != [] then 2 else 3;
      assert Choose(gs, frees, size, 1) == if size <= 256 && medium.free != [] then 1 else Choose(gs, frees, size, 2);
      assert Choose(gs, frees, size, 0) == if size <= 64 && small.free != [] then 0 else Choose(gs, frees, size, 1);
      Conservation(small.geo, small.free);
      Conservation(medium.geo, medium.free);
      Conservation(large.geo, large.free);
    }

    /** Gives a block back to the first tier it is a block of. */
    method Free(ptr: nat, size: nat)
      requires Valid()
      modifies small, medium, large, small.words, medium.words, large.words
      ensures Valid() && Frees() == AfterFree(Geos(), old(Frees()), ptr, size)
    {
      hide AfterFree, Pool.Threads, Good, Owner, IsBlock, ContainsBlock, Given;
      Owners(ptr, size);
      ContainsBlockIff(small.geo, ptr);
      ContainsBlockIff(medium.geo, ptr);
      ContainsBlockIff(large.geo, ptr);
      if ptr == 0 || size == 0 {
        return;
      }
      if ContainsBlock(small.geo, ptr) {
        small.Free(ptr);
      } else if ContainsBlock(medium.geo, ptr) {
        medium.Free(ptr);
      } else if ContainsBlock(large.geo, ptr) {
        large.Free(ptr);
      }
    }

    lemma Owners(ptr: nat, size: nat)
      requires Valid()
      ensures var after := AfterFree(Geos(), Frees(), ptr, size);
        if ptr == 0 || size == 0 then after == Frees()
        else if IsBlock(small.geo, ptr) then after == [Given(small.geo, small.free, ptr), medium.free, large.free]
        else if IsBlock(medium.geo, ptr) then after == [small.free, Given(medium.geo, medium.free, ptr), large.free]
        else if IsBlock(large.geo, ptr) then after == [small.free, medium.free, Given(large.geo, large.free, ptr)]
        else after == Frees()
    {
      hide Pool.Threads, Good, IsBlock, Given;
      var gs := Geos();
      assert Owner(gs, ptr, 3) == 3;
      assert Owner(gs, ptr, 2) == if IsBlock(large.geo, ptr) then 2 else 3;
      assert Owner(gs, ptr, 1) == if IsBlock(medium.geo, ptr) then 1 else Owner(gs, ptr, 2);
      assert Owner(gs, ptr, 0) == if IsBlock(small.geo, ptr) then 0 else Owner(gs, ptr, 1);
    }
  }

  /** One tier over a given buffer; a tier of no blocks needs no buffer. */
  method InitOne(buffer: nat, count: nat, blockSize: nat) returns (pool: Pool?)
    requires blockSize >= POINTER_SIZE
    ensures pool == null <==> count > 0 && buffer == 0
    ensures pool != null ==> fresh(pool) && fresh(pool.words) && pool.Valid()
    ensures pool != null ==> pool.geo == Geometry(buffer, blockSize, count) && pool.free == Linked(pool.geo, count)
  {
    if count == 0 {
      pool := new Pool(Geometry(buffer, blockSize, 0));
      LinkedNone(pool.geo);
      return;
    }
    if buffer == 0 {
      return null;
    }
    MulDiv(count, blockSize);
    MulMonotone(0, count, blockSize);
    pool := Init(buffer, count * blockSize, blockSize);
  }

  /** Three tiers over the application's buffers; refused when a tier with blocks has no buffer. */
  method InitStatic(
    smallBuffer: nat, smallCount: nat, mediumBuffer: nat, mediumCount: nat, largeBuffer: nat, largeCount: nat
  ) returns (pool: TieredPool?)
    ensures pool == null <==> (smallCount > 0 && smallBuffer == 0) || (mediumCount > 0 && mediumBuffer == 0) || (largeCount > 0 && largeBuffer == 0)
    ensures pool != null ==> pool.Valid() && pool.Frees() == Initial(pool.Geos())
    ensures pool != null ==> pool.small.geo == Geometry(smallBuffer, 64, smallCount)
    ensures pool != null ==> pool.medium.geo == Geometry(mediumBuffer, 256, mediumCount)
    ensures pool != null ==> pool.large.geo == Geometry(largeBuffer, 1024, largeCount)
  {
    hide Pool.Threads, Good, Linked;
    var a := InitOne(smallBuffer, smallCount, SMALL_SIZE);
    var b := InitOne(mediumBuffer, mediumCount, MEDIUM_SIZE);
    var c := InitOne(largeBuffer, largeCount, LARGE_SIZE);
    if a == null || b == null || c == null {
      return null;
    }
    pool := new TieredPool(a, b, c);
  }
}
