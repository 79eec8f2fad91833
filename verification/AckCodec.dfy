/**
 * The values of the two acknowledgement extensions as bytes: ranges of numbers,
 * and a bitmap.
 */
module AckCodec {
  import opened AckRanges
  import opened Base
  import opened Wire

  // ---- ACK ranges ----

  datatype AckValue = AckValue(largest: u32, delay: u32, ranges: seq<AckRange>)

  function RangeBytes(r: AckRange): (b: Bytes)
    ensures |b| == 4
  {
    Put16(r.gap) + Put16(r.length)
  }

  function RangesBytes(rs: seq<AckRange>): (b: Bytes)
    ensures |b| == 4 * |rs|
  {
    if rs == [] then [] else RangesBytes(rs[..|rs| - 1]) + RangeBytes(rs[|rs| - 1])
  }

  function AckBytes(v: AckValue): (b: Bytes)
    requires |v.ranges| < 256
    ensures |b| == 9 + 4 * |v.ranges|
  {
    Put32(v.largest) + Put32(v.delay) + [LenByte(|v.ranges|)] + RangesBytes(v.ranges)
  }

  function RangeAt(b: Bytes, i: nat): AckRange
    requires 4 * i + 4 <= |b|
  {
    AckRange(Get16(b[4 * i..4 * i + 2]), Get16(b[4 * i + 2..4 * i + 4]))
  }

  function RangesOf(b: Bytes, n: nat): (r: seq<AckRange>)
    requires |b| >= 4 * n
    ensures |r| == n && forall i :: 0 <= i < n ==> r[i] == RangeAt(b, i)
  {
    seq(n, i requires 0 <= i < n => RangeAt(b, i))
  }

  datatype AckDecoded = AckDecoded(value: AckValue) | AckBad(status: Status)

  function DecodeAck(b: Bytes, capacity: nat): AckDecoded {
    if |b| < 9 then AckBad(InvalidFrame)
    else
      var n := Len(b[8]);
      if 9 + 4 * n != |b| then AckBad(InvalidFrame)
      else if capacity < n then AckBad(BufferTooSmall)
      else AckDecoded(AckValue(Get32(b[..4]), Get32(b[4..8]), RangesOf(b[9..], n)))
  }

  lemma RangeIs(b: Bytes, i: nat, r: AckRange)
    requires 4 * i + 4 <= |b|
    ensures RangeAt(b, i) == r <==> b[4 * i..4 * i + 4] == RangeBytes(r)
  {
    var x, y := b[4 * i..4 * i + 2], b[4 * i + 2..4 * i + 4];
    Reads16(x, r.gap);
    Reads16(y, r.length);
    hide Get16, Put16;
    var z := b[4 * i..4 * i + 4];
    assert z == x + y && z[..2] == x && z[2..] == y;
    var w := RangeBytes(r);
    assert w[..2] == Put16(r.gap) && w[2..] == Put16(r.length);
  }

  lemma {:induction false} RangesIff(b: Bytes, rs: seq<AckRange>)
    requires |b| == 4 * |rs|
    ensures RangesOf(b, |rs|) == rs <==> b == RangesBytes(rs)
  {
    if rs != [] {
      hide RangeAt, RangeBytes, RangesOf, RangesBytes;
      var n := |rs| - 1;
      RangesIff(b[..4 * n], rs[..n]);
      RangeIs(b, n, rs[n]);
      LastRange(b, n);
      SplitBytes(b, rs, n);
      LastEqual(RangesOf(b[..4 * n], n), RangeAt(b, n), rs);
    }
  }

  lemma LastEqual(front: seq<AckRange>, last: AckRange, rs: seq<AckRange>)
    requires |rs| == |front| + 1
    ensures front + [last] == rs <==> front == rs[..|front|] && last == rs[|front|]
  {
    assert rs == rs[..|front|] + [rs[|front|]];
  }

  lemma SplitBytes(b: Bytes, rs: seq<AckRange>, n: nat)
    requires |rs| == n + 1 && |b| == 4 * |rs|
    ensures b == RangesBytes(rs) <==> b[..4 * n] == RangesBytes(rs[..n]) && b[4 * n..4 * n + 4] == RangeBytes(rs[n])
  {
    hide RangeBytes;
    var w := RangesBytes(rs);
    assert w[..4 * n] == RangesBytes(rs[..n]) && w[4 * n..4 * n + 4] == RangeBytes(rs[n]);
    assert b == b[..4 * n] + b[4 * n..4 * n + 4];
  }

  lemma LastRange(b: Bytes, n: nat)
    requires |b| == 4 * n + 4
    ensures RangesOf(b, n + 1) == RangesOf(b[..4 * n], n) + [RangeAt(b, n)]
  {
    FrontRanges(b, n);
    hide RangeAt;
  }

  lemma FrontRanges(b: Bytes, n: nat)
    requires |b| == 4 * n + 4
    ensures forall i :: 0 <= i < n ==> RangeAt(b, i) == RangeAt(b[..4 * n], i)
  {
    forall i | 0 <= i < n ensures RangeAt(b, i) == RangeAt(b[..4 * n], i) {
      assert b[..4 * n][4 * i..4 * i + 2] == b[4 * i..4 * i + 2];
      assert b[..4 * n][4 * i + 2..4 * i + 4] == b[4 * i + 2..4 * i + 4];
    }
  }

  /** The codec is a bijection: exactly the bytes of `v` decode to `v`. */
  lemma AckDecodesIff(b: Bytes, capacity: nat, v: AckValue)
    ensures DecodeAck(b, capacity) == AckDecoded(v)
       <==> |v.ranges| <= capacity && |v.ranges| < 256 && b == AckBytes(v)
  {
    hide Get32, Put32, Len, LenByte, RangesOf, RangesBytes, AckBytes;
    if |b| >= 9 {
      Reads32(b[..4], v.largest);
      Reads32(b[4..8], v.delay);
      LenByteOf(b[8]);
      if |v.ranges| < 256 {
        LenOf(|v.ranges|);
        AckPartsIff(b, v);
        if |b| == 9 + 4 * |v.ranges| {
          RangesIff(b[9..], v.ranges);
        }
      }
    }
  }

  lemma AckPartsIff(b: Bytes, v: AckValue)
    requires |b| >= 9 && |v.ranges| < 256
    ensures b == AckBytes(v) <==>
      b[..4] == Put32(v.largest) && b[4..8] == Put32(v.delay) && b[8] == LenByte(|v.ranges|) && b[9..] == RangesBytes(v.ranges)
  {
    hide Put32, LenByte, RangesBytes;
    var a := AckBytes(v);
    assert a[..4] == Put32(v.largest) && a[4..8] == Put32(v.delay) && a[8] == LenByte(|v.ranges|) && a[9..] == RangesBytes(v.ranges);
    assert b == b[..4] + b[4..8] + [b[8]] + b[9..];
  }

  lemma RangesGrow(rs: seq<AckRange>, i: nat)
    requires i < |rs|
    ensures RangesBytes(rs[..i + 1]) == RangesBytes(rs[..i]) + RangeBytes(rs[i])
  {
    assert rs[..i + 1][..i] == rs[..i];
  }

  /** Writes an ACK-range value at the start of a buffer. */
  method WriteAckValue(buffer: array<byte>, v: AckValue) returns (status: Status, written: nat)
    modifies buffer
    ensures status == if 9 + 4 * |v.ranges| > 255 then InvalidParam
                      else if buffer.Length < 9 + 4 * |v.ranges| then BufferTooSmall else Ok
    ensures if status.Ok? then written <= buffer.Length && buffer[..] == AckBytes(v) + old(buffer[written..])
            else buffer[..] == old(buffer[..])
  {
    written := 9 + 4 * |v.ranges|;
    if written > 255 {
      return InvalidParam, 0;
    }
    if buffer.Length < written {
      return BufferTooSmall, 0;
    }
    hide AckBytes, Put32, LenByte;
    ghost var was := buffer[..];
    WriteAt(buffer, 0, Put32(v.largest));
    WriteAt(buffer, 4, Put32(v.delay));
    OverTwice(was, 0, Put32(v.largest), Put32(v.delay));
    WriteAt(buffer, 8, [LenByte(|v.ranges|)]);
    OverTwice(was, 0, Put32(v.largest) + Put32(v.delay), [LenByte(|v.ranges|)]);
    WriteRanges(buffer, v.ranges);
    OverTwice(was, 0, Put32(v.largest) + Put32(v.delay) + [LenByte(|v.ranges|)], RangesBytes(v.ranges));
    AckBytesIs(v);
    OverFront(was, AckBytes(v));
    return Ok, written;
  }

  lemma AckBytesIs(v: AckValue)
    requires |v.ranges| < 256
    ensures AckBytes(v) == Put32(v.largest) + Put32(v.delay) + [LenByte(|v.ranges|)] + RangesBytes(v.ranges)
  {
  }

  method WriteRanges(buffer: array<byte>, ranges: seq<AckRange>)
    requires 9 + 4 * |ranges| <= buffer.Length
    modifies buffer
    ensures buffer[..] == Over(old(buffer[..]), 9, RangesBytes(ranges))
  {
    hide Over, RangeBytes, RangesBytes;
    ghost var was := buffer[..];
    NoRanges(ranges);
    OverNothing(was, 9);
    var i := 0;
    while i < |ranges|
      invariant 0 <= i <= |ranges| && buffer[..] == Over(was, 9, RangesBytes(ranges[..i]))
    {
      RangesGrow(ranges, i);
      OverTwice(was, 9, RangesBytes(ranges[..i]), RangeBytes(ranges[i]));
      WriteAt(buffer, 9 + 4 * i, RangeBytes(ranges[i]));
      i := i + 1;
    }
    assert ranges[..i] == ranges;
  }

  lemma NoRanges(rs: seq<AckRange>)
    ensures rs[..0] == [] && RangesBytes(rs[..0]) == []
  {
  }

  /** Reads an ACK-range value into an array of ranges. */
  method ReadAckValue(b: Bytes, ranges: array<AckRange>) returns (status: Status, largest: u32, delay: u32, count: nat)
    modifies ranges
    ensures count <= ranges.Length
    ensures DecodeAck(b, ranges.Length)
         == if status.Ok? then AckDecoded(AckValue(largest, delay, ranges[..count])) else AckBad(status)
    ensures ranges[count..] == old(ranges[count..])
  {
    if |b| < 9 {
      return InvalidFrame, 0, 0, 0;
    }
    hide Get32, RangeAt, Len;
    var n := Len(b[8]);
    if 9 + 4 * n != |b| {
      return InvalidFrame, 0, 0, 0;
    }
    if ranges.Length < n {
      return BufferTooSmall, 0, 0, 0;
    }
    var i := 0;
    while i < n
      invariant 0 <= i <= n
      invariant forall k :: 0 <= k < i ==> ranges[k] == RangeAt(b[9..], k)
      invariant ranges[n..] == old(ranges[n..])
    {
      ranges[i] := RangeAt(b[9..], i);
      i := i + 1;
    }
    assert ranges[..n] == RangesOf(b[9..], n);
    return Ok, Get32(b[..4]), Get32(b[4..8]), n;
  }

  // ---- SACK bitmaps ----

  datatype SackValue = SackValue(base: u32, bitmap: Bytes)

  function SackBytes(v: SackValue): (b: Bytes)
    requires |v.bitmap| < 256
    ensures |b| == 5 + |v.bitmap|
  {
    Put32(v.base) + [LenByte(|v.bitmap|)] + v.bitmap
  }

  datatype SackDecoded = SackDecoded(value: SackValue) | SackBad(status: Status)

  function DecodeSack(b: Bytes, capacity: nat): SackDecoded {
    if |b| < 5 then SackBad(InvalidFrame)
    else if 5 + Len(b[4]) != |b| then SackBad(InvalidFrame)
    else if capacity < Len(b[4]) then SackBad(BufferTooSmall)
    else SackDecoded(SackValue(Get32(b[..4]), b[5..]))
  }

  /** Exactly the bytes of `v` decode to `v`, if the receiver's bitmap has room. */
  lemma SackDecodesIff(b: Bytes, capacity: nat, v: SackValue)
    ensures DecodeSack(b, capacity) == SackDecoded(v)
       <==> |v.bitmap| <= capacity && |v.bitmap| < 256 && b == SackBytes(v)
  {
    hide Get32, Put32, Len, LenByte, SackBytes;
    if |b| >= 5 {
      Reads32(b[..4], v.base);
      LenByteOf(b[4]);
      if |v.bitmap| < 256 {
        LenOf(|v.bitmap|);
        SackPartsIff(b, v);
      }
    }
  }

  lemma SackPartsIff(b: Bytes, v: SackValue)
    requires |b| >= 5 && |v.bitmap| < 256
    ensures b == SackBytes(v) <==> b[..4] == Put32(v.base) && b[4] == LenByte(|v.bitmap|) && b[5..] == v.bitmap
  {
    hide Put32, LenByte;
    var w := SackBytes(v);
    assert w[..4] == Put32(v.base) && w[4] == LenByte(|v.bitmap|) && w[5..] == v.bitmap;
    assert b == b[..4] + [b[4]] + b[5..];
  }

  /** Writes a SACK value at the start of a buffer. */
  method WriteSackValue(buffer: array<byte>, v: SackValue) returns (status: Status, written: nat)
    modifies buffer
    ensures status == if 5 + |v.bitmap| > 255 then InvalidParam else if buffer.Length < 5 + |v.bitmap| then BufferTooSmall else Ok
    ensures if status.Ok? then written <= buffer.Length && buffer[..] == SackBytes(v) + old(buffer[written..])
            else buffer[..] == old(buffer[..])
  {
    written := 5 + |v.bitmap|;
    if written > 255 {
      return InvalidParam, 0;
    }
    if buffer.Length < written {
      return BufferTooSmall, 0;
    }
    hide SackBytes, Put32, LenByte;
    ghost var was := buffer[..];
    WriteAt(buffer, 0, Put32(v.base));
    WriteAt(buffer, 4, [LenByte(|v.bitmap|)]);
    OverTwice(was, 0, Put32(v.base), [LenByte(|v.bitmap|)]);
    WriteAt(buffer, 5, v.bitmap);
    OverTwice(was, 0, Put32(v.base) + [LenByte(|v.bitmap|)], v.bitmap);
    SackBytesIs(v);
    OverFront(was, SackBytes(v));
    return Ok, written;
  }

  lemma SackBytesIs(v: SackValue)
    requires |v.bitmap| < 256
    ensures SackBytes(v) == Put32(v.base) + [LenByte(|v.bitmap|)] + v.bitmap
  {
  }
}
