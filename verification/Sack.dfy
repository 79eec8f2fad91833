/**
 * SACK bitmaps: bit `i` of the bitmap names packet number `base + i`. The
 * receiver sets one bit per buffered packet; the sender reads them back.
 */
module Sack {
  import opened Base

  const SACK_BITMAP_BITS := 64
  const SACK_DECODE_CAPACITY := 64

  /** The byte with only bit `k` set. */
  function BitMask(k: nat): byte
    requires k < 8
  {
    if k == 0 then 1 else if k == 1 then 2 else if k == 2 then 4 else if k == 3 then 8
    else if k == 4 then 16 else if k == 5 then 32 else if k == 6 then 64 else 128
  }

  predicate BitIsSet(bitmap: Bytes, i: nat) {
    i < 8 * |bitmap| && bitmap[i / 8] & BitMask(i % 8) != 0
  }

  lemma MaskIsolates(b: byte, j: nat, k: nat)
    requires j < 8 && k < 8
    ensures (b | BitMask(j)) & BitMask(k) != 0 <==> j == k || b & BitMask(k) != 0
  {
  }

  function SetBit(bitmap: Bytes, i: nat): Bytes
    requires i < 8 * |bitmap|
  {
    bitmap[i / 8 := bitmap[i / 8] | BitMask(i % 8)]
  }

  lemma SetBitSets(bitmap: Bytes, i: nat, k: nat)
    requires i < 8 * |bitmap|
    ensures BitIsSet(SetBit(bitmap, i), k) <==> k == i || BitIsSet(bitmap, k)
  {
    hide BitMask;
    if k < 8 * |bitmap| {
      SameBit(i, k);
      if k / 8 == i / 8 {
        MaskIsolates(bitmap[i / 8], i % 8, k % 8);
      } else {
        assert SetBit(bitmap, i)[k / 8] == bitmap[k / 8];
      }
    }
  }

  lemma SameBit(i: nat, k: nat)
    ensures i == k <==> i / 8 == k / 8 && i % 8 == k % 8
  {
  }

  function Zeros(n: nat): (z: Bytes)
    ensures |z| == n && forall i :: 0 <= i < n ==> z[i] == 0
  {
    seq(n, _ => 0)
  }

  /** The largest set bit below `n`, scanning the way the sender does. */
  function LastBit(bitmap: Bytes, n: nat): (r: Option<nat>)
    ensures r.None? ==> forall i :: 0 <= i < n ==> !BitIsSet(bitmap, i)
    ensures r.Some? ==> r.value < n && BitIsSet(bitmap, r.value)
    ensures r.Some? ==> forall i :: r.value < i < n ==> !BitIsSet(bitmap, i)
  {
    if n == 0 then None
    else if BitIsSet(bitmap, n - 1) then Some(n - 1)
    else LastBit(bitmap, n - 1)
  }

  function HighestBit(bitmap: Bytes): Option<nat> {
    LastBit(bitmap, 8 * |bitmap|)
  }

  /**
   * The bitmap a receiver sends: numbers at least `base` and less than 64 above
   * it, cut after the byte of the highest set bit (one byte when no bit is set).
   */
  function Build(base: u32, buffered: seq<u32>): Bytes {
    Trim(Fill(base, buffered, Zeros(SACK_BITMAP_BITS / 8)))
  }

  predicate Nameable(base: u32, pn: u32) {
    base <= pn && pn - base < SACK_BITMAP_BITS
  }

  function Fill(base: u32, buffered: seq<u32>, bitmap: Bytes): (r: Bytes)
    requires |bitmap| == SACK_BITMAP_BITS / 8
    ensures |r| == |bitmap|
  {
    if buffered == [] then bitmap
    else Fill(base, buffered[1..],
              if Nameable(base, buffered[0]) then SetBit(bitmap, buffered[0] - base) else bitmap)
  }

  function Trim(bitmap: Bytes): Bytes
    requires |bitmap| == SACK_BITMAP_BITS / 8
  {
    match HighestBit(bitmap)
    case None => bitmap[..1]
    case Some(h) => bitmap[..h / 8 + 1]
  }

  lemma {:induction false} FillSets(base: u32, buffered: seq<u32>, bitmap: Bytes, k: nat)
    requires |bitmap| == SACK_BITMAP_BITS / 8
    ensures BitIsSet(Fill(base, buffered, bitmap), k)
       <==> BitIsSet(bitmap, k) || (k < SACK_BITMAP_BITS && base + k in buffered)
  {
    if buffered != [] {
      assert buffered == [buffered[0]] + buffered[1..];
      var b := if Nameable(base, buffered[0]) then SetBit(bitmap, buffered[0] - base) else bitmap;
      FillSets(base, buffered[1..], b, k);
      if Nameable(base, buffered[0]) {
        SetBitSets(bitmap, buffered[0] - base, k);
      }
    }
  }

  lemma TrimKeepsBits(bitmap: Bytes, k: nat)
    requires |bitmap| == SACK_BITMAP_BITS / 8
    ensures BitIsSet(Trim(bitmap), k) <==> BitIsSet(bitmap, k)
    ensures HighestBit(Trim(bitmap)) == HighestBit(bitmap)
    ensures 1 <= |Trim(bitmap)| <= 8
  {
    var t := Trim(bitmap);
    forall i: nat ensures BitIsSet(t, i) <==> BitIsSet(bitmap, i) {
      if |t| * 8 <= i < 8 * |bitmap| {
        assert !BitIsSet(bitmap, i);
      }
    }
    match HighestBit(bitmap)
    case None =>
    case Some(h) =>
      assert BitIsSet(t, h);
  }

  /** Round trip: the bits read back name exactly the nameable buffered numbers. */
  lemma BuildNames(base: u32, buffered: seq<u32>, k: nat)
    ensures BitIsSet(Build(base, buffered), k)
       <==> k < SACK_BITMAP_BITS && base + k in buffered
    ensures 1 <= |Build(base, buffered)| <= 8
  {
    var z := Zeros(SACK_BITMAP_BITS / 8);
    var f := Fill(base, buffered, z);
    TrimKeepsBits(f, k);
    FillSets(base, buffered, z, k);
    assert !BitIsSet(z, k) by {
      if k < 8 * |z| { assert z[k / 8] == 0; }
    }
  }

  /** No byte is sent beyond the last one with a set bit, except the first. */
  lemma BuildIsShort(base: u32, buffered: seq<u32>)
    ensures var b := Build(base, buffered); |b| == 1 || b[|b| - 1] != 0
  {
    var f := Fill(base, buffered, Zeros(SACK_BITMAP_BITS / 8));
    hide BitMask, Fill;
    if HighestBit(f).Some? {
      AndZero(BitMask(HighestBit(f).value % 8));
    }
  }

  lemma AndZero(mask: byte)
    ensures 0 & mask == 0
  {
  }
}
