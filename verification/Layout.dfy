/**
 * The wire formats byte by byte: where every field lies and what its bytes mean,
 * in plain numbers, for each of the encodings the codecs translate.
 */
module Layout {
  import opened Base
  import opened AckRanges
  import opened Wire
  import AckCodec
  import Crc
  import Frame
  import FrameAuth
  import Sack

  /** The number a run of bytes stands for, the first byte counting least. */
  function Little(b: Bytes): nat {
    if b == [] then 0 else b[0] as int + 256 * Little(b[1..])
  }

  lemma LenInt(b: byte)
    ensures Len(b) == b as int
  {
  }

  lemma OfTwo(b: Bytes)
    requires |b| == 2
    ensures Little(b) == b[0] as int + 256 * b[1] as int
  {
    assert b[1..][1..] == [];
    assert Little(b[1..]) == b[1] as int + 256 * Little(b[1..][1..]);
  }

  lemma OfFour(b: Bytes)
    requires |b| == 4
    ensures Little(b) == b[0] as int + 256 * b[1] as int + 65536 * b[2] as int + 16777216 * b[3] as int
  {
    OfTwo(b[2..]);
    assert b[1..][1..] == b[2..];
    assert Little(b[1..]) == b[1] as int + 256 * Little(b[2..]);
  }

  /** Reading and writing of 16 and 32 bits are little-endian. */
  lemma Get16IsLittle(b: Bytes)
    requires |b| == 2
    ensures Get16(b) == Little(b)
  {
    OfTwo(b);
    LenInt(b[0]);
    LenInt(b[1]);
    hide Len;
  }

  lemma Get32IsLittle(b: Bytes)
    requires |b| == 4
    ensures Get32(b) == Little(b)
  {
    OfFour(b);
    LenInt(b[0]);
    LenInt(b[1]);
    LenInt(b[2]);
    LenInt(b[3]);
    hide Len;
  }

  lemma Put16IsLittle(n: u16)
    ensures Little(Put16(n)) == n
  {
    GetPut16(n);
    Get16IsLittle(Put16(n));
    hide Get16, Put16;
  }

  lemma Put32IsLittle(n: u32)
    ensures Little(Put32(n)) == n
  {
    GetPut32(n);
    Get32IsLittle(Put32(n));
    hide Get32, Put32;
  }

  lemma LengthByte(n: nat)
    requires n < 256
    ensures LenByte(n) as int == n
  {
    LenOf(n);
    LenInt(LenByte(n));
    hide Len, LenByte;
  }

  // ---- Header ----

  /** Every field of the 24-byte header at its place. */
  lemma HeaderLayout(h: Header)
    ensures var b := EncodeHeader(h);
      && b[0] == 0xA5 && b[1] == 0x5A && b[2] == h.version && b[3] == h.headerLen && b[4] == h.packetType
      && b[5] == h.flags && b[6] == h.ttl && b[7] == h.trafficClass
      && Little(b[8..10]) == h.source && Little(b[10..12]) == h.target && Little(b[12..16]) == h.connection
      && Little(b[16..20]) == h.packetNumber && Little(b[20..22]) == h.payloadLen
      && Word(b[22], b[23]) == Crc.Divide(0xFFFF, b[..22] + [0, 0])
  {
    var b := EncodeHeader(h);
    RawParts(h);
    Put16IsLittle(h.source);
    Put16IsLittle(h.target);
    Put32IsLittle(h.connection);
    Put32IsLittle(h.packetNumber);
    Put16IsLittle(h.payloadLen);
    TrailerLayout(HeaderCrc(Raw(h)));
    HeaderParts(h);
    hide Raw, Put16, Put32, Little, Word, Crc.Divide, Crc.Trailer, EncodeHeader;
  }

  lemma RawParts(h: Header)
    ensures var r := Raw(h);
      && r[0] == 0xA5 && r[1] == 0x5A && r[2] == h.version && r[3] == h.headerLen && r[4] == h.packetType
      && r[5] == h.flags && r[6] == h.ttl && r[7] == h.trafficClass
      && r[8..10] == Put16(h.source) && r[10..12] == Put16(h.target) && r[12..16] == Put32(h.connection)
      && r[16..20] == Put32(h.packetNumber) && r[20..22] == Put16(h.payloadLen)
  {
    hide Put16, Put32;
  }

  lemma HeaderParts(h: Header)
    ensures var b, r := EncodeHeader(h), Raw(h);
      && b[..22] == r && [b[22], b[23]] == Crc.Trailer(Crc.Divide(0xFFFF, r + [0, 0]))
      && (forall i :: 0 <= i < 22 ==> b[i] == r[i])
      && b[8..10] == r[8..10] && b[10..12] == r[10..12] && b[12..16] == r[12..16] && b[16..20] == r[16..20] && b[20..22] == r[20..22]
  {
    hide Raw, Crc.Divide, Crc.Trailer;
    var b, r := EncodeHeader(h), Raw(h);
    assert b == r + Crc.Trailer(Crc.Divide(0xFFFF, r + [0, 0]));
    assert |Crc.Trailer(Crc.Divide(0xFFFF, r + [0, 0]))| == 2 by { TrailerLong(Crc.Divide(0xFFFF, r + [0, 0])); }
  }

  lemma TrailerLong(c: bv16)
    ensures |Crc.Trailer(c)| == 2
  {
  }

  /** What a receiver takes for a valid header, in plain numbers. */
  lemma ValidIs(h: Header)
    ensures Valid(h) <==>
      h.version == 2 && h.headerLen as int >= 24 && 1 <= h.packetType as int <= 7 && h.source > 0 && h.target > 0
  {
    LenInt(h.headerLen);
    TypeRange(h.packetType);
    hide Len;
  }

  lemma TypeRange(t: byte)
    ensures 0 < t <= 7 <==> 1 <= t as int <= 7
  {
  }

  // ---- Checksum ----

  /** Two bytes, the low one first. */
  function Word(low: byte, high: byte): bv16 {
    (low as bv16) | ((high as bv16) << 8)
  }

  /** A checksum follows its bytes low byte first. */
  lemma TrailerLayout(c: bv16)
    ensures |Crc.Trailer(c)| == 2 && Word(Crc.Trailer(c)[0], Crc.Trailer(c)[1]) == c
  {
  }

  /** The check value of CRC-16/MODBUS: the checksum of the nine digits "123456789". */
  lemma CheckValue()
    ensures Crc.Divide(Crc.INITIAL, [0x31, 0x32, 0x33, 0x34, 0x35, 0x36, 0x37, 0x38, 0x39]) == 0x4B37
  {
    DivideNine(Crc.INITIAL, 0x31, 0x32, 0x33, 0x34, 0x35, 0x36, 0x37, 0x38, 0x39);
    assert Crc.Feed(0xFFFF, 0x31) == 0x947E;
    assert Crc.Feed(0x947E, 0x32) == 0xF595;
    assert Crc.Feed(0xF595, 0x33) == 0x7A75;
    assert Crc.Feed(0x7A75, 0x34) == 0x30BA;
    assert Crc.Feed(0x30BA, 0x35) == 0xA471;
    assert Crc.Feed(0xA471, 0x36) == 0x32E4;
    assert Crc.Feed(0x32E4, 0x37) == 0x9D73;
    assert Crc.Feed(0x9D73, 0x38) == 0x37DD;
    assert Crc.Feed(0x37DD, 0x39) == 0x4B37;
  }

  lemma DivideNine(c: bv16, b0: byte, b1: byte, b2: byte, b3: byte, b4: byte, b5: byte, b6: byte, b7: byte, b8: byte)
    ensures Crc.Divide(c, [b0, b1, b2, b3, b4, b5, b6, b7, b8]) ==
      Crc.Feed(Crc.Feed(Crc.Feed(Crc.Feed(Crc.Feed(Crc.Feed(Crc.Feed(Crc.Feed(Crc.Feed(c, b0), b1), b2), b3), b4), b5), b6), b7), b8)
  {
    hide Crc.Feed;
    assert Crc.Divide(c, []) == c;
    hide Crc.Divide;
    DivideLast(c, [], b0, [b0]);
    DivideLast(c, [b0], b1, [b0, b1]);
    DivideLast(c, [b0, b1], b2, [b0, b1, b2]);
    DivideLast(c, [b0, b1, b2], b3, [b0, b1, b2, b3]);
    DivideLast(c, [b0, b1, b2, b3], b4, [b0, b1, b2, b3, b4]);
    DivideLast(c, [b0, b1, b2, b3, b4], b5, [b0, b1, b2, b3, b4, b5]);
    DivideLast(c, [b0, b1, b2, b3, b4, b5], b6, [b0, b1, b2, b3, b4, b5, b6]);
    DivideLast(c, [b0, b1, b2, b3, b4, b5, b6], b7, [b0, b1, b2, b3, b4, b5, b6, b7]);
    DivideLast(c, [b0, b1, b2, b3, b4, b5, b6, b7], b8, [b0, b1, b2, b3, b4, b5, b6, b7, b8]);
  }

  lemma DivideLast(c: bv16, data: Bytes, b: byte, all: Bytes)
    requires all == data + [b]
    ensures Crc.Divide(c, all) == Crc.Feed(Crc.Divide(c, data), b)
  {
    assert all[..|data|] == data;
  }

  // ---- Extensions ----

  /** Type, length, value. */
  lemma ExtLayout(e: Ext)
    requires ValidExt(e)
    ensures var b := EncodeExt(e);
      |b| == 2 + |e.value| && b[0] == e.kind && b[1] as int == |e.value| && b[2..] == e.value
    ensures e.kind != 0 && |e.value| <= 255
  {
    LengthByte(|e.value|);
    hide LenByte;
  }

  /** The security extension: key, eight bytes of nonce holding the packet number, tag length. */
  lemma SecurityLayout(key: u32, nonce: u32, tagLen: nat)
    requires tagLen < 256
    ensures var e := FrameAuth.SecurityExt(key, nonce, tagLen);
      && e.kind == 5 && |e.value| == 13
      && Little(e.value[0..4]) == key && Little(e.value[4..12]) == nonce && e.value[12] as int == tagLen
  {
    var v := FrameAuth.SecurityValue(key, nonce, tagLen);
    assert v[0..4] == Put32(key) && v[4..8] == Put32(nonce) && v[8..12] == [0, 0, 0, 0] && v[12] == LenByte(tagLen) by {
      hide Put32, LenByte;
    }
    Put32IsLittle(key);
    Put32IsLittle(nonce);
    LengthByte(tagLen);
    assert v[4..12] == Put32(nonce) + [0, 0, 0, 0];
    hide FrameAuth.SecurityValue, LenByte, Put32;
    LittleZeros(Put32(nonce));
  }

  /** Zero bytes behind a number do not change it. */
  lemma LittleZeros(b: Bytes)
    requires |b| == 4
    ensures Little(b + [0, 0, 0, 0]) == Little(b)
  {
    OfFour([0, 0, 0, 0]);
    LittleJoin(b, [0, 0, 0, 0], 4);
    hide Little;
  }

  lemma {:induction false} LittleJoin(a: Bytes, b: Bytes, n: nat)
    requires |a| == n && Little(b) == 0
    ensures Little(a + b) == Little(a)
    decreases n
  {
    if n == 0 {
      assert a + b == b;
    } else {
      assert (a + b)[1..] == a[1..] + b;
      LittleJoin(a[1..], b, n - 1);
    }
  }

  /** The authenticated frame's own security extension names its key, its packet number and its tag length. */
  lemma AuthExtsEnd(f: Frame.Frame, key: u32, tagLen: nat)
    requires tagLen < 256
    ensures var b := FrameAuth.AuthExts(f, key, tagLen); var n := |f.exts|;
      && |b| == n + 15 && b[..n] == f.exts && b[n] == 5 && b[n + 1] as int == 13
      && Little(b[n + 2..n + 6]) == key && Little(b[n + 6..n + 14]) == f.header.packetNumber && b[n + 14] as int == tagLen
  {
    var e := FrameAuth.SecurityExt(key, f.header.packetNumber, tagLen);
    SecurityLayout(key, f.header.packetNumber, tagLen);
    ExtLayout(e);
    var b, n, x := FrameAuth.AuthExts(f, key, tagLen), |f.exts|, EncodeExt(e);
    assert b == f.exts + x;
    hide FrameAuth.AuthExts, FrameAuth.SecurityExt, EncodeExt, Little;
    assert b[n + 2..] == x[2..] && b[n + 2..n + 6] == x[2..][0..4] && b[n + 6..n + 14] == x[2..][4..12];
  }

  /** What a receiver reads off a security extension. */
  lemma SecurityReads(e: Ext)
    ensures SecurityTag(e).Some? <==> |e.value| == 13 && e.value[12] != 0
    ensures SecurityTag(e).Some? ==> SecurityTag(e).value == e.value[12] as int && FrameAuth.SecurityKey(e) == Little(e.value[..4])
  {
    if |e.value| == 13 {
      LenInt(e.value[12]);
      Get32IsLittle(e.value[..4]);
      hide Len, Get32, Little;
    }
  }

  // ---- ACK ranges and bitmaps ----

  /** One range: the gap, then the length. */
  lemma RangeLayout(r: AckRange)
    ensures var b := AckCodec.RangeBytes(r); Little(b[0..2]) == r.gap && Little(b[2..4]) == r.length
  {
    var b := AckCodec.RangeBytes(r);
    assert b[0..2] == Put16(r.gap) && b[2..4] == Put16(r.length) by { hide Put16; }
    Put16IsLittle(r.gap);
    Put16IsLittle(r.length);
    hide Put16, Little;
  }

  lemma {:induction false} RangesPlaced(rs: seq<AckRange>, k: nat)
    requires k < |rs|
    ensures AckCodec.RangesBytes(rs)[4 * k..4 * k + 4] == AckCodec.RangeBytes(rs[k])
  {
    hide AckCodec.RangeBytes;
    var n := |rs| - 1;
    var front, all := AckCodec.RangesBytes(rs[..n]), AckCodec.RangesBytes(rs);
    assert all == front + AckCodec.RangeBytes(rs[n]);
    if k < n {
      RangesPlaced(rs[..n], k);
      assert all[4 * k..4 * k + 4] == front[4 * k..4 * k + 4];
    } else {
      assert all[4 * n..4 * n + 4] == AckCodec.RangeBytes(rs[n]);
    }
  }

  /** The ACK value: largest number, delay, count, then four bytes a range. */
  lemma AckLayout(v: AckCodec.AckValue)
    requires |v.ranges| < 256
    ensures var b := AckCodec.AckBytes(v);
      && |b| == 9 + 4 * |v.ranges| && Little(b[0..4]) == v.largest && Little(b[4..8]) == v.delay && b[8] as int == |v.ranges|
      && forall k :: 0 <= k < |v.ranges| ==> RangeAtIs(b, k, v.ranges[k])
  {
    var b := AckCodec.AckBytes(v);
    var rest := AckCodec.RangesBytes(v.ranges);
    Put32IsLittle(v.largest);
    Put32IsLittle(v.delay);
    LengthByte(|v.ranges|);
    assert b[0..4] == Put32(v.largest) && b[4..8] == Put32(v.delay) && b[8] == LenByte(|v.ranges|) && b[9..] == rest by {
      hide Put32, LenByte, AckCodec.RangesBytes;
    }
    hide AckCodec.AckBytes, AckCodec.RangesBytes, Put32, LenByte, Little, RangeAtIs;
    forall k | 0 <= k < |v.ranges| ensures RangeAtIs(b, k, v.ranges[k]) {
      RangeInAck(b, v.ranges, k);
    }
  }

  lemma RangeInAck(b: Bytes, rs: seq<AckRange>, k: nat)
    requires k < |rs| && |b| == 9 + 4 * |rs| && b[9..] == AckCodec.RangesBytes(rs)
    ensures RangeAtIs(b, k, rs[k])
  {
    RangesPlaced(rs, k);
    RangeLayout(rs[k]);
    hide AckCodec.RangesBytes, AckCodec.RangeBytes, Little;
    FourAt(b, 4 * k);
  }

  lemma FourAt(b: Bytes, i: nat)
    requires 13 + i <= |b|
    ensures b[9..][i..i + 4][0..2] == b[9 + i..11 + i] && b[9..][i..i + 4][2..4] == b[11 + i..13 + i]
  {
    var four := b[9..][i..i + 4];
    assert forall j :: 0 <= j < 4 ==> four[j] == b[9 + i + j];
  }

  predicate RangeAtIs(b: Bytes, k: nat, r: AckRange) {
    13 + 4 * k <= |b| && Little(b[9 + 4 * k..11 + 4 * k]) == r.gap && Little(b[11 + 4 * k..13 + 4 * k]) == r.length
  }

  /** The SACK value: base, bitmap length, bitmap. */
  lemma SackLayout(v: AckCodec.SackValue)
    requires |v.bitmap| < 256
    ensures var b := AckCodec.SackBytes(v);
      |b| == 5 + |v.bitmap| && Little(b[0..4]) == v.base && b[4] as int == |v.bitmap| && b[5..] == v.bitmap
  {
    var b := AckCodec.SackBytes(v);
    Put32IsLittle(v.base);
    LengthByte(|v.bitmap|);
    assert b[0..4] == Put32(v.base) && b[4] == LenByte(|v.bitmap|) && b[5..] == v.bitmap by { hide Put32, LenByte; }
    hide AckCodec.SackBytes, Put32, LenByte, Little;
  }

  /** Bit `i` of a bitmap is bit `i % 8`, counted from the lowest, of byte `i / 8`. */
  lemma BitLayout(bitmap: Bytes, i: nat)
    ensures Sack.BitIsSet(bitmap, i) <==> i / 8 < |bitmap| && bitmap[i / 8] & (1 << (i % 8)) != 0
  {
    MaskIs(i % 8);
    hide Sack.BitMask;
  }

  lemma MaskIs(k: nat)
    requires k < 8
    ensures Sack.BitMask(k) == 1 << k
  {
  }

  // ---- The signed form ----

  /** What is signed of a header and its extensions: every byte but the hop limit and the header checksum. */
  lemma SignedForm(aad: Bytes)
    requires |aad| >= 24 && aad[0] == 0xA5 && aad[1] == 0x5A
    ensures var c := FrameAuth.Canonical(aad);
      && |c| == |aad| && c[6] == 0 && c[22] == 0 && c[23] == 0
      && forall i :: 0 <= i < |aad| && i != 6 && i != 22 && i != 23 ==> c[i] == aad[i]
  {
  }
}
