/**
 * The frame checksum: the table-driven CRC-16 the code computes, the bitwise
 * polynomial division it stands for (MODBUS over Serial Line V1.02, section
 * 6.2.2), and the errors it is bound to catch.
 */
module Crc {
  import opened Base

  // ---- Bitwise division ----

  /** Addition and subtraction of polynomials over two elements. */
  function Plus(a: bv16, b: bv16): bv16 {
    a ^ b
  }

  function Low(c: bv16): bv16 {
    c & 0xFF
  }

  function High(c: bv16): bv16 {
    c >> 8
  }

  function Wide(b: byte): bv16 {
    b as bv16
  }

  /** Shift one bit out; if it was set, subtract the polynomial. */
  function Shift(c: bv16): bv16 {
    if c & 1 == 1 then (c >> 1) ^ 0xA001 else c >> 1
  }

  function Shift8(c: bv16): bv16 {
    Shift(Shift(Shift(Shift(Shift(Shift(Shift(Shift(c))))))))
  }

  function Feed(c: bv16, b: byte): bv16 {
    Shift8(Plus(c, Wide(b)))
  }

  /** The remainder after a whole byte string. */
  function Divide(c: bv16, data: Bytes): bv16 {
    if data == [] then c else Feed(Divide(c, data[..|data| - 1]), data[|data| - 1])
  }

  const INITIAL: bv16 := 0xFFFF

  // ---- The lookup table ----

  function Row0(): (row: seq<bv16>)
    ensures |row| == 16
  {
    [0x0000, 0xC0C1, 0xC181, 0x0140, 0xC301, 0x03C0, 0x0280, 0xC241,
     0xC601, 0x06C0, 0x0780, 0xC741, 0x0500, 0xC5C1, 0xC481, 0x0440]
  }

  function Row1(): (row: seq<bv16>)
    ensures |row| == 16
  {
    [0xCC01, 0x0CC0, 0x0D80, 0xCD41, 0x0F00, 0xCFC1, 0xCE81, 0x0E40,
     0x0A00, 0xCAC1, 0xCB81, 0x0B40, 0xC901, 0x09C0, 0x0880, 0xC841]
  }

  function Row2(): (row: seq<bv16>)
    ensures |row| == 16
  {
    [0xD801, 0x18C0, 0x1980, 0xD941, 0x1B00, 0xDBC1, 0xDA81, 0x1A40,
     0x1E00, 0xDEC1, 0xDF81, 0x1F40, 0xDD01, 0x1DC0, 0x1C80, 0xDC41]
  }

  function Row3(): (row: seq<bv16>)
    ensures |row| == 16
  {
    [0x1400, 0xD4C1, 0xD581, 0x1540, 0xD701, 0x17C0, 0x1680, 0xD641,
     0xD201, 0x12C0, 0x1380, 0xD341, 0x1100, 0xD1C1, 0xD081, 0x1040]
  }

  function Row4(): (row: seq<bv16>)
    ensures |row| == 16
  {
    [0xF001, 0x30C0, 0x3180, 0xF141, 0x3300, 0xF3C1, 0xF281, 0x3240,
     0x3600, 0xF6C1, 0xF781, 0x3740, 0xF501, 0x35C0, 0x3480, 0xF441]
  }

  function Row5(): (row: seq<bv16>)
    ensures |row| == 16
  {
    [0x3C00, 0xFCC1, 0xFD81, 0x3D40, 0xFF01, 0x3FC0, 0x3E80, 0xFE41,
     0xFA01, 0x3AC0, 0x3B80, 0xFB41, 0x3900, 0xF9C1, 0xF881, 0x3840]
  }

  function Row6(): (row: seq<bv16>)
    ensures |row| == 16
  {
    [0x2800, 0xE8C1, 0xE981, 0x2940, 0xEB01, 0x2BC0, 0x2A80, 0xEA41,
     0xEE01, 0x2EC0, 0x2F80, 0xEF41, 0x2D00, 0xEDC1, 0xEC81, 0x2C40]
  }

  function Row7(): (row: seq<bv16>)
    ensures |row| == 16
  {
    [0xE401, 0x24C0, 0x2580, 0xE541, 0x2700, 0xE7C1, 0xE681, 0x2640,
     0x2200, 0xE2C1, 0xE381, 0x2340, 0xE101, 0x21C0, 0x2080, 0xE041]
  }

  function Row8(): (row: seq<bv16>)
    ensures |row| == 16
  {
    [0xA001, 0x60C0, 0x6180, 0xA141, 0x6300, 0xA3C1, 0xA281, 0x6240,
     0x6600, 0xA6C1, 0xA781, 0x6740, 0xA501, 0x65C0, 0x6480, 0xA441]
  }

  function Row9(): (row: seq<bv16>)
    ensures |row| == 16
  {
    [0x6C00, 0xACC1, 0xAD81, 0x6D40, 0xAF01, 0x6FC0, 0x6E80, 0xAE41,
     0xAA01, 0x6AC0, 0x6B80, 0xAB41, 0x6900, 0xA9C1, 0xA881, 0x6840]
  }

  function RowA(): (row: seq<bv16>)
    ensures |row| == 16
  {
    [0x7800, 0xB8C1, 0xB981, 0x7940, 0xBB01, 0x7BC0, 0x7A80, 0xBA41,
     0xBE01, 0x7EC0, 0x7F80, 0xBF41, 0x7D00, 0xBDC1, 0xBC81, 0x7C40]
  }

  function RowB(): (row: seq<bv16>)
    ensures |row| == 16
  {
    [0xB401, 0x74C0, 0x7580, 0xB541, 0x7700, 0xB7C1, 0xB681, 0x7640,
     0x7200, 0xB2C1, 0xB381, 0x7340, 0xB101, 0x71C0, 0x7080, 0xB041]
  }

  function RowC(): (row: seq<bv16>)
    ensures |row| == 16
  {
    [0x5000, 0x90C1, 0x9181, 0x5140, 0x9301, 0x53C0, 0x5280, 0x9241,
     0x9601, 0x56C0, 0x5780, 0x9741, 0x5500, 0x95C1, 0x9481, 0x5440]
  }

  function RowD(): (row: seq<bv16>)
    ensures |row| == 16
  {
    [0x9C01, 0x5CC0, 0x5D80, 0x9D41, 0x5F00, 0x9FC1, 0x9E81, 0x5E40,
     0x5A00, 0x9AC1, 0x9B81, 0x5B40, 0x9901, 0x59C0, 0x5880, 0x9841]
  }

  function RowE(): (row: seq<bv16>)
    ensures |row| == 16
  {
    [0x8801, 0x48C0, 0x4980, 0x8941, 0x4B00, 0x8BC1, 0x8A81, 0x4A40,
     0x4E00, 0x8EC1, 0x8F81, 0x4F40, 0x8D01, 0x4DC0, 0x4C80, 0x8C41]
  }

  function RowF(): (row: seq<bv16>)
    ensures |row| == 16
  {
    [0x4400, 0x84C1, 0x8581, 0x4540, 0x8701, 0x47C0, 0x4680, 0x8641,
     0x8201, 0x42C0, 0x4380, 0x8341, 0x4100, 0x81C1, 0x8081, 0x4040]
  }


  /** The table, sixteen entries to a row. */
  function Entry(x: bv16): bv16
    requires x < 256
  {
    var k := (x & 15) as int;
    match (x >> 4) as int
    case 0 => Row0()[k]
    case 1 => Row1()[k]
    case 2 => Row2()[k]
    case 3 => Row3()[k]
    case 4 => Row4()[k]
    case 5 => Row5()[k]
    case 6 => Row6()[k]
    case 7 => Row7()[k]
    case 8 => Row8()[k]
    case 9 => Row9()[k]
    case 10 => RowA()[k]
    case 11 => RowB()[k]
    case 12 => RowC()[k]
    case 13 => RowD()[k]
    case 14 => RowE()[k]
    case _ => RowF()[k]
  }

  lemma Row0Is(k: bv16)
    requires k < 16
    ensures Row0()[k as int] == Shift8(0 + k)
    ensures Row0()[k as int] >> 8 == 0 ==> k == 0
  {
  }

  lemma Row1Is(k: bv16)
    requires k < 16
    ensures Row1()[k as int] == Shift8(16 + k)
    ensures Row1()[k as int] >> 8 == 0 ==> false
  {
  }

  lemma Row2Is(k: bv16)
    requires k < 16
    ensures Row2()[k as int] == Shift8(32 + k)
    ensures Row2()[k as int] >> 8 == 0 ==> false
  {
  }

  lemma Row3Is(k: bv16)
    requires k < 16
    ensures Row3()[k as int] == Shift8(48 + k)
    ensures Row3()[k as int] >> 8 == 0 ==> false
  {
  }

  lemma Row4Is(k: bv16)
    requires k < 16
    ensures Row4()[k as int] == Shift8(64 + k)
    ensures Row4()[k as int] >> 8 == 0 ==> false
  {
  }

  lemma Row5Is(k: bv16)
    requires k < 16
    ensures Row5()[k as int] == Shift8(80 + k)
    ensures Row5()[k as int] >> 8 == 0 ==> false
  {
  }

  lemma Row6Is(k: bv16)
    requires k < 16
    ensures Row6()[k as int] == Shift8(96 + k)
    ensures Row6()[k as int] >> 8 == 0 ==> false
  {
  }

  lemma Row7Is(k: bv16)
    requires k < 16
    ensures Row7()[k as int] == Shift8(112 + k)
    ensures Row7()[k as int] >> 8 == 0 ==> false
  {
  }

  lemma Row8Is(k: bv16)
    requires k < 16
    ensures Row8()[k as int] == Shift8(128 + k)
    ensures Row8()[k as int] >> 8 == 0 ==> false
  {
  }

  lemma Row9Is(k: bv16)
    requires k < 16
    ensures Row9()[k as int] == Shift8(144 + k)
    ensures Row9()[k as int] >> 8 == 0 ==> false
  {
  }

  lemma RowAIs(k: bv16)
    requires k < 16
    ensures RowA()[k as int] == Shift8(160 + k)
    ensures RowA()[k as int] >> 8 == 0 ==> false
  {
  }

  lemma RowBIs(k: bv16)
    requires k < 16
    ensures RowB()[k as int] == Shift8(176 + k)
    ensures RowB()[k as int] >> 8 == 0 ==> false
  {
  }

  lemma RowCIs(k: bv16)
    requires k < 16
    ensures RowC()[k as int] == Shift8(192 + k)
    ensures RowC()[k as int] >> 8 == 0 ==> false
  {
  }

  lemma RowDIs(k: bv16)
    requires k < 16
    ensures RowD()[k as int] == Shift8(208 + k)
    ensures RowD()[k as int] >> 8 == 0 ==> false
  {
  }

  lemma RowEIs(k: bv16)
    requires k < 16
    ensures RowE()[k as int] == Shift8(224 + k)
    ensures RowE()[k as int] >> 8 == 0 ==> false
  {
  }

  lemma RowFIs(k: bv16)
    requires k < 16
    ensures RowF()[k as int] == Shift8(240 + k)
    ensures RowF()[k as int] >> 8 == 0 ==> false
  {
  }

  lemma SplitIndex(x: bv16)
    ensures ((x >> 4) << 4) + (x & 15) == x
  {
  }

  /** Entry `x` is what eight shifts make of the byte `x`; only entry 0 has a zero high byte. */
  lemma EntryIs(x: bv16)
    requires x < 256
    ensures Entry(x) == Shift8(x)
    ensures High(Entry(x)) == 0 ==> x == 0
  {
    hide Shift8, Row0, Row1, Row2, Row3, Row4, Row5, Row6, Row7, Row8, Row9, RowA, RowB, RowC, RowD, RowE, RowF;
    SplitIndex(x);
    var k := x & 15;
    match (x >> 4) as int
    case 0 => Row0Is(k);
    case 1 => Row1Is(k);
    case 2 => Row2Is(k);
    case 3 => Row3Is(k);
    case 4 => Row4Is(k);
    case 5 => Row5Is(k);
    case 6 => Row6Is(k);
    case 7 => Row7Is(k);
    case 8 => Row8Is(k);
    case 9 => Row9Is(k);
    case 10 => RowAIs(k);
    case 11 => RowBIs(k);
    case 12 => RowCIs(k);
    case 13 => RowDIs(k);
    case 14 => RowEIs(k);
    case _ => RowFIs(k);
  }

  // ---- Division is linear and loses nothing ----

  lemma PlusComm(a: bv16, b: bv16)
    ensures Plus(a, b) == Plus(b, a)
  {
  }

  lemma PlusAssoc(a: bv16, b: bv16, c: bv16)
    ensures Plus(Plus(a, b), c) == Plus(a, Plus(b, c))
  {
  }

  lemma PlusZero(c: bv16)
    ensures Plus(c, 0) == c
  {
  }

  lemma ZeroPlus(c: bv16)
    ensures Plus(0, c) == c
  {
  }

  lemma PlusSelf(c: bv16)
    ensures Plus(c, c) == 0
  {
  }

  lemma PlusZeroIff(x: bv16, y: bv16)
    ensures Plus(x, y) == 0 <==> x == y
  {
  }

  lemma PlusSwap(c: bv16, d: bv16, a: bv16, b: bv16)
    ensures Plus(Plus(c, d), Plus(a, b)) == Plus(Plus(c, a), Plus(d, b))
  {
    hide Plus;
    PlusAssoc(c, d, Plus(a, b));
    PlusAssoc(d, a, b);
    PlusComm(d, a);
    PlusAssoc(a, d, b);
    PlusAssoc(c, a, Plus(d, b));
  }

  lemma PlusShift(a: bv16, b: bv16)
    ensures Plus(a, b) >> 1 == Plus(a >> 1, b >> 1)
  {
  }

  lemma PlusLow(a: bv16, b: bv16)
    ensures Plus(a, b) & 1 == 1 <==> (a & 1 == 1) != (b & 1 == 1)
  {
  }

  lemma ShiftIs(c: bv16)
    ensures Shift(c) == if c & 1 == 1 then Plus(c >> 1, 0xA001) else c >> 1
  {
  }

  lemma ShiftLinear(a: bv16, b: bv16)
    ensures Shift(Plus(a, b)) == Plus(Shift(a), Shift(b))
  {
    hide Plus, Shift;
    var x, y := a >> 1, b >> 1;
    PlusShift(a, b);
    PlusLow(a, b);
    ShiftIs(a);
    ShiftIs(b);
    ShiftIs(Plus(a, b));
    PlusSwap(x, 0xA001, y, 0xA001);
    PlusSelf(0xA001);
    PlusZero(Plus(x, y));
    PlusAssoc(x, y, 0xA001);
    PlusAssoc(x, 0xA001, y);
    PlusComm(0xA001, y);
  }

  lemma Shift8Linear(a: bv16, b: bv16)
    ensures Shift8(Plus(a, b)) == Plus(Shift8(a), Shift8(b))
  {
    hide Shift, Plus;
    var a1, b1 := Shift(a), Shift(b);
    var a2, b2 := Shift(a1), Shift(b1);
    var a3, b3 := Shift(a2), Shift(b2);
    var a4, b4 := Shift(a3), Shift(b3);
    var a5, b5 := Shift(a4), Shift(b4);
    var a6, b6 := Shift(a5), Shift(b5);
    ShiftLinear(a, b);
    ShiftLinear(a1, b1);
    ShiftLinear(a2, b2);
    ShiftLinear(a3, b3);
    ShiftLinear(a4, b4);
    ShiftLinear(a5, b5);
    ShiftLinear(a6, b6);
    ShiftLinear(Shift(a6), Shift(b6));
  }

  lemma ShiftZeroIff(c: bv16)
    ensures Shift(c) == 0 <==> c == 0
  {
  }

  lemma Shift8ZeroIff(c: bv16)
    ensures Shift8(c) == 0 <==> c == 0
  {
    hide Shift;
    var c1 := Shift(c);
    var c2 := Shift(c1);
    var c3 := Shift(c2);
    var c4 := Shift(c3);
    var c5 := Shift(c4);
    var c6 := Shift(c5);
    ShiftZeroIff(c);
    ShiftZeroIff(c1);
    ShiftZeroIff(c2);
    ShiftZeroIff(c3);
    ShiftZeroIff(c4);
    ShiftZeroIff(c5);
    ShiftZeroIff(c6);
    ShiftZeroIff(Shift(c6));
  }

  lemma ShiftEven(c: bv16)
    requires c & 1 == 0
    ensures Shift(c) == c >> 1
  {
  }

  lemma HighByteShifts(c: bv16)
    ensures Shift8(c & 0xFF00) == High(c)
  {
    var h := c & 0xFF00;
    hide Shift;
    ShiftEven(h);
    ShiftEven(h >> 1);
    ShiftEven(h >> 2);
    ShiftEven(h >> 3);
    ShiftEven(h >> 4);
    ShiftEven(h >> 5);
    ShiftEven(h >> 6);
    ShiftEven(h >> 7);
  }

  lemma TwoBytes(c: bv16)
    ensures Plus(c & 0xFF00, Low(c)) == c
  {
  }

  lemma Shift8Splits(c: bv16)
    ensures Shift8(c) == Plus(High(c), Shift8(Low(c)))
  {
    hide Shift8, Plus, High, Low;
    TwoBytes(c);
    Shift8Linear(c & 0xFF00, Low(c));
    HighByteShifts(c);
  }

  lemma HighIgnoresByte(c: bv16, b: byte)
    ensures High(Plus(c, Wide(b))) == High(c)
  {
  }

  lemma LowRange(c: bv16)
    ensures Low(c) < 256
  {
  }

  /** One turn of the code's loop. */
  function TableStep(c: bv16, b: byte): bv16 {
    LowRange(Plus(c, Wide(b)));
    Plus(High(c), Entry(Low(Plus(c, Wide(b)))))
  }

  lemma TableStepIsFeed(c: bv16, b: byte)
    ensures TableStep(c, b) == Feed(c, b)
  {
    hide Shift8, Entry, Plus, High, Low, Wide;
    var x := Plus(c, Wide(b));
    LowRange(x);
    Shift8Splits(x);
    HighIgnoresByte(c, b);
    EntryIs(Low(x));
  }

  /** The code's loop over the table computes the polynomial division, for every byte string and start value. */
  method Crc16Update(start: bv16, data: Bytes) returns (crc: bv16)
    ensures crc == Divide(start, data)
  {
    hide TableStep, Feed;
    crc := start;
    var i := 0;
    assert data[..0] == [];
    while i < |data|
      invariant 0 <= i <= |data| && crc == Divide(start, data[..i])
    {
      TableStepIsFeed(crc, data[i]);
      assert data[..i + 1][..i] == data[..i];
      crc := TableStep(crc, data[i]);
      i := i + 1;
    }
    assert data[..i] == data;
  }

  method Crc16(data: Bytes) returns (crc: bv16)
    ensures crc == Divide(INITIAL, data)
  {
    crc := Crc16Update(INITIAL, data);
  }

  // ---- A frame and its trailer ----

  function LowByte(c: bv16): byte {
    (c & 0xFF) as byte
  }

  function HighByte(c: bv16): byte {
    (c >> 8) as byte
  }

  /** The checksum as the two bytes that follow it on the wire, low byte first. */
  function Trailer(c: bv16): Bytes {
    [LowByte(c), HighByte(c)]
  }

  /** What every receiver checks: the last two bytes are the checksum of the rest. */
  predicate Intact(frame: Bytes) {
    |frame| >= 2 && frame[|frame| - 2..] == Trailer(Divide(INITIAL, frame[..|frame| - 2]))
  }

  lemma LowByteIff(c: bv16, b: byte)
    ensures Low(Plus(c, Wide(b))) == 0 <==> b == LowByte(c)
  {
  }

  lemma HighByteIff(c: bv16, b: byte)
    ensures High(c) == Wide(b) <==> b == HighByte(c)
  {
  }

  lemma HighOfPlus(a: bv16, b: bv16)
    ensures High(Plus(a, b)) == Plus(High(a), High(b))
  {
  }

  lemma HighOfByte(b: byte)
    ensures High(Wide(b)) == 0
  {
  }

  lemma HighOfHigh(c: bv16)
    ensures High(High(c)) == 0
  {
  }

  /** Two more bytes bring the remainder to 0 exactly when they are its own trailer. */
  lemma ResidueStep(c: bv16, x: byte, y: byte)
    ensures Feed(Feed(c, x), y) == 0 <==> x == LowByte(c) && y == HighByte(c)
  {
    hide Shift8, Entry, LowByte, HighByte, Plus, High, Low, Wide;
    var d := Feed(c, x);
    var low := Low(Plus(c, Wide(x)));
    TableStepIsFeed(c, x);
    LowRange(Plus(c, Wide(x)));
    EntryIs(low);
    EntryIs(0);
    Shift8ZeroIff(Plus(d, Wide(y)));
    PlusZeroIff(d, Wide(y));
    LowByteIff(c, x);
    HighByteIff(c, y);
    HighOfPlus(High(c), Entry(low));
    HighOfHigh(c);
    ZeroPlus(High(Entry(low)));
    HighOfByte(y);
    Shift8ZeroIff(0);
    PlusZero(High(c));
  }

  lemma DivideTwo(c: bv16, data: Bytes)
    requires |data| >= 2
    ensures Divide(c, data) == Feed(Feed(Divide(c, data[..|data| - 2]), data[|data| - 2]), data[|data| - 1])
  {
    hide Feed;
    var init := data[..|data| - 1];
    assert init[..|init| - 1] == data[..|data| - 2];
  }

  /** A frame is intact exactly when dividing all of it, trailer included, leaves 0. */
  lemma IntactIff(frame: Bytes)
    requires |frame| >= 2
    ensures Intact(frame) <==> Divide(INITIAL, frame) == 0
  {
    DivideTwo(INITIAL, frame);
    var n := |frame| - 2;
    var c := Divide(INITIAL, frame[..n]);
    ResidueStep(c, frame[n], frame[n + 1]);
    hide Feed, LowByte, HighByte, Divide;
    TailIs(frame, LowByte(c), HighByte(c));
  }

  lemma TailIs(frame: Bytes, x: byte, y: byte)
    requires |frame| >= 2
    ensures frame[|frame| - 2..] == [x, y] <==> frame[|frame| - 2] == x && frame[|frame| - 1] == y
  {
    var t := frame[|frame| - 2..];
    assert t[0] == frame[|frame| - 2] && t[1] == frame[|frame| - 1];
  }

  /** Appending the checksum makes a frame intact. */
  lemma SealedIsIntact(body: Bytes)
    ensures Intact(body + Trailer(Divide(INITIAL, body)))
  {
    var f := body + Trailer(Divide(INITIAL, body));
    assert f[..|f| - 2] == body;
  }

  // ---- Errors it must catch ----

  function Diff(a: byte, b: byte): byte {
    a ^ b
  }

  function Xor(a: Bytes, b: Bytes): (r: Bytes)
    requires |a| == |b|
    ensures |r| == |a| && forall i :: 0 <= i < |a| ==> r[i] == Diff(a[i], b[i])
  {
    seq(|a|, i requires 0 <= i < |a| => Diff(a[i], b[i]))
  }

  lemma WideXor(a: byte, b: byte)
    ensures Wide(Diff(a, b)) == Plus(Wide(a), Wide(b))
  {
  }

  lemma FeedLinear(c: bv16, d: bv16, a: byte, b: byte)
    ensures Feed(Plus(c, d), Diff(a, b)) == Plus(Feed(c, a), Feed(d, b))
  {
    hide Shift8, Plus, Wide, Diff;
    WideXor(a, b);
    PlusSwap(c, d, Wide(a), Wide(b));
    Shift8Linear(Plus(c, Wide(a)), Plus(d, Wide(b)));
  }

  lemma XorInit(a: Bytes, b: Bytes, n: nat)
    requires |a| == |b| && n <= |a|
    ensures Xor(a, b)[..n] == Xor(a[..n], b[..n])
  {
  }

  lemma DivideStep(c: bv16, data: Bytes)
    requires data != []
    ensures Divide(c, data) == Feed(Divide(c, data[..|data| - 1]), data[|data| - 1])
  {
  }

  lemma {:induction false} DivideLinear(c: bv16, d: bv16, a: Bytes, b: Bytes)
    requires |a| == |b|
    ensures Divide(Plus(c, d), Xor(a, b)) == Plus(Divide(c, a), Divide(d, b))
  {
    if a != [] {
      var n := |a| - 1;
      DivideStep(c, a);
      DivideStep(d, b);
      DivideStep(Plus(c, d), Xor(a, b));
      XorInit(a, b, n);
      hide Feed, Plus, Divide, Xor, Diff;
      DivideLinear(c, d, a[..n], b[..n]);
      FeedLinear(Divide(c, a[..n]), Divide(d, b[..n]), a[n], b[n]);
    }
  }

  /** A damaged copy of an intact frame passes exactly when the damage alone leaves no remainder. */
  lemma DifferenceDecides(a: Bytes, b: Bytes)
    requires |a| == |b| >= 2 && Intact(a)
    ensures Intact(b) <==> Divide(0, Xor(a, b)) == 0
  {
    hide Intact, Divide, Plus;
    IntactIff(a);
    IntactIff(b);
    DivideLinear(INITIAL, INITIAL, a, b);
    PlusSelf(INITIAL);
    ZeroPlus(Divide(INITIAL, b));
  }

  lemma FeedZeroIff(c: bv16)
    ensures Feed(c, 0) == 0 <==> c == 0
  {
    hide Shift8, Plus;
    PlusZero(c);
    Shift8ZeroIff(c);
  }

  lemma FeedFirstIff(e: byte)
    ensures Feed(0, e) == 0 <==> e == 0
  {
    hide Shift8, Plus;
    ZeroPlus(Wide(e));
    Shift8ZeroIff(Wide(e));
  }

  lemma ZeroTrailer()
    ensures LowByte(0) == 0 && HighByte(0) == 0
  {
  }

  lemma {:induction false} ZerosKeepZero(e: Bytes)
    requires forall i :: 0 <= i < |e| ==> e[i] == 0
    ensures Divide(0, e) == 0
  {
    if e != [] {
      hide Feed;
      ZerosKeepZero(e[..|e| - 1]);
      FeedZeroIff(0);
    }
  }

  lemma {:induction false} ZerosKeepNonzero(c: bv16, e: Bytes, from: nat)
    requires from <= |e| && Divide(c, e[..from]) != 0 && forall i :: from <= i < |e| ==> e[i] == 0
    ensures Divide(c, e) != 0
    decreases |e|
  {
    hide Feed;
    if from == |e| {
      assert e[..from] == e;
    } else {
      var init := e[..|e| - 1];
      assert init[..from] == e[..from];
      ZerosKeepNonzero(c, init, from);
      FeedZeroIff(Divide(c, init));
    }
  }

  lemma ByteXorZero(x: byte, y: byte)
    ensures Diff(x, y) == 0 <==> x == y
  {
  }

  lemma ZeroWhereEqual(a: Bytes, b: Bytes)
    requires |a| == |b|
    ensures forall i :: 0 <= i < |a| ==> (Xor(a, b)[i] == 0 <==> a[i] == b[i])
  {
    forall i | 0 <= i < |a| ensures Xor(a, b)[i] == 0 <==> a[i] == b[i] {
      ByteXorZero(a[i], b[i]);
    }
  }

  /** A pattern confined to bytes `k` and `k + 1` leaves a remainder unless it is all zero. */
  lemma BurstRemains(e: Bytes, k: nat)
    requires k < |e| && (forall i :: 0 <= i < |e| && i != k && i != k + 1 ==> e[i] == 0)
    requires e[k] != 0 || (k + 1 < |e| && e[k + 1] != 0)
    ensures Divide(0, e) != 0
  {
    hide Feed, LowByte, HighByte;
    ZerosKeepZero(e[..k]);
    assert e[..k + 1][..k] == e[..k];
    FeedFirstIff(e[k]);
    DivideStep(0, e[..k + 1]);
    if k + 1 == |e| {
      assert e[..k + 1] == e;
    } else {
      var two := e[..k + 2];
      assert two[..k] == e[..k];
      DivideTwo(0, two);
      ResidueStep(0, e[k], e[k + 1]);
      ZeroTrailer();
      ZerosKeepNonzero(0, e, k + 2);
    }
  }

  /** Damage confined to one byte, or to two neighbouring bytes, is always caught. */
  lemma BurstIsCaught(a: Bytes, b: Bytes, k: nat)
    requires |a| == |b| >= 2 && Intact(a) && a != b && k < |a|
    requires forall i :: 0 <= i < |a| && i != k && i != k + 1 ==> a[i] == b[i]
    ensures !Intact(b)
  {
    hide Intact, Divide;
    DifferenceDecides(a, b);
    ZeroWhereEqual(a, b);
    var i :| 0 <= i < |a| && a[i] != b[i];
    BurstRemains(Xor(a, b), k);
  }

  // ---- Odd numbers of flipped bits ----

  function Fold8(c: bv16): bv16 {
    Plus(c, c >> 8)
  }

  function Fold4(c: bv16): bv16 {
    Plus(c, c >> 4)
  }

  function Fold2(c: bv16): bv16 {
    Plus(c, c >> 2)
  }

  function Fold1(c: bv16): bv16 {
    Plus(c, c >> 1)
  }

  /** Whether an odd number of the sixteen bits is set. */
  predicate Parity(c: bv16) {
    Fold1(Fold2(Fold4(Fold8(c)))) & 1 == 1
  }

  lemma PlusShift2(a: bv16, b: bv16)
    ensures Plus(a, b) >> 2 == Plus(a >> 2, b >> 2)
  {
  }

  lemma PlusShift4(a: bv16, b: bv16)
    ensures Plus(a, b) >> 4 == Plus(a >> 4, b >> 4)
  {
  }

  lemma PlusShift8(a: bv16, b: bv16)
    ensures Plus(a, b) >> 8 == Plus(a >> 8, b >> 8)
  {
  }

  lemma FoldsLinear(a: bv16, b: bv16)
    ensures Fold8(Plus(a, b)) == Plus(Fold8(a), Fold8(b))
    ensures Fold4(Plus(a, b)) == Plus(Fold4(a), Fold4(b))
    ensures Fold2(Plus(a, b)) == Plus(Fold2(a), Fold2(b))
    ensures Fold1(Plus(a, b)) == Plus(Fold1(a), Fold1(b))
  {
    hide Plus;
    PlusShift8(a, b);
    PlusShift4(a, b);
    PlusShift2(a, b);
    PlusShift(a, b);
    PlusSwap(a, b, a >> 8, b >> 8);
    PlusSwap(a, b, a >> 4, b >> 4);
    PlusSwap(a, b, a >> 2, b >> 2);
    PlusSwap(a, b, a >> 1, b >> 1);
  }

  lemma ParityLinear(a: bv16, b: bv16)
    ensures Parity(Plus(a, b)) <==> (Parity(a) != Parity(b))
  {
    hide Fold8, Fold4, Fold2, Fold1, Plus;
    var a8, b8 := Fold8(a), Fold8(b);
    var a4, b4 := Fold4(a8), Fold4(b8);
    var a2, b2 := Fold2(a4), Fold2(b4);
    FoldsLinear(a, b);
    FoldsLinear(a8, b8);
    FoldsLinear(a4, b4);
    FoldsLinear(a2, b2);
    PlusLow(Fold1(a2), Fold1(b2));
  }

  lemma ParityOut(c: bv16)
    ensures Parity(c) <==> (Parity(c >> 1) != (c & 1 == 1))
  {
  }

  lemma PolynomialParity()
    ensures Parity(0xA001)
  {
  }

  /** With its leading term the polynomial has an even number of terms, so a shift keeps the parity. */
  lemma ParityShift(c: bv16)
    ensures Parity(Shift(c)) == Parity(c)
  {
    hide Parity, Plus, Shift;
    ShiftIs(c);
    ParityOut(c);
    ParityLinear(c >> 1, 0xA001);
    PolynomialParity();
  }

  lemma ParityShift8(c: bv16)
    ensures Parity(Shift8(c)) == Parity(c)
  {
    hide Shift, Parity;
    var c1 := Shift(c);
    var c2 := Shift(c1);
    var c3 := Shift(c2);
    var c4 := Shift(c3);
    var c5 := Shift(c4);
    var c6 := Shift(c5);
    ParityShift(c);
    ParityShift(c1);
    ParityShift(c2);
    ParityShift(c3);
    ParityShift(c4);
    ParityShift(c5);
    ParityShift(c6);
    ParityShift(Shift(c6));
  }

  function BitOf(b: byte, n: bv8): nat
    requires n < 8
  {
    if (b >> n) & 1 == 1 then 1 else 0
  }

  /** How many bits of a byte are set. */
  function Ones(b: byte): nat {
    BitOf(b, 0) + BitOf(b, 1) + BitOf(b, 2) + BitOf(b, 3) + BitOf(b, 4) + BitOf(b, 5) + BitOf(b, 6) + BitOf(b, 7)
  }

  /** In how many bits two byte strings differ. */
  function FlippedBits(a: Bytes, b: Bytes): nat
    requires |a| == |b|
  {
    if a == [] then 0
    else FlippedBits(a[..|a| - 1], b[..|b| - 1]) + Ones(Diff(a[|a| - 1], b[|b| - 1]))
  }

  lemma OnesParity(b: byte)
    ensures Parity(Wide(b)) <==> Ones(b) % 2 == 1
  {
  }

  lemma FeedParity(c: bv16, b: byte)
    ensures Parity(Feed(c, b)) <==> (Parity(c) != Parity(Wide(b)))
  {
    hide Shift8, Plus, Parity;
    ParityShift8(Plus(c, Wide(b)));
    ParityLinear(c, Wide(b));
  }

  lemma FlippedStep(d: bv16, x: byte, k: nat)
    requires Parity(d) <==> k % 2 == 1
    ensures Parity(Feed(d, x)) <==> (k + Ones(x)) % 2 == 1
  {
    hide Parity, Feed, Ones, Wide;
    FeedParity(d, x);
    OnesParity(x);
  }

  lemma FlippedBitsStep(a: Bytes, b: Bytes, n: nat)
    requires |a| == |b| == n + 1
    ensures FlippedBits(a, b) == FlippedBits(a[..n], b[..n]) + Ones(Diff(a[n], b[n]))
    ensures Divide(0, Xor(a, b)) == Feed(Divide(0, Xor(a[..n], b[..n])), Diff(a[n], b[n]))
  {
    hide Ones, Feed, Diff;
    XorInit(a, b, n);
  }

  /** The parity of a remainder is the parity of the damage. */
  lemma {:induction false} FlippedParity(a: Bytes, b: Bytes)
    requires |a| == |b|
    ensures Parity(Divide(0, Xor(a, b))) <==> FlippedBits(a, b) % 2 == 1
  {
    hide Parity, Feed, Xor, Ones, Diff;
    if a == [] {
      ParityOfZero();
    } else {
      var n := |a| - 1;
      FlippedBitsStep(a, b, n);
      FlippedParity(a[..n], b[..n]);
      FlippedStep(Divide(0, Xor(a[..n], b[..n])), Diff(a[n], b[n]), FlippedBits(a[..n], b[..n]));
    }
  }

  /** Damage that flips an odd number of bits, wherever they are, is always caught. */
  lemma OddDamageIsCaught(a: Bytes, b: Bytes)
    requires |a| == |b| >= 2 && Intact(a) && FlippedBits(a, b) % 2 == 1
    ensures !Intact(b)
  {
    hide Intact, Divide, Parity, FlippedBits;
    DifferenceDecides(a, b);
    FlippedParity(a, b);
    ParityOfZero();
  }

  lemma ParityOfZero()
    ensures !Parity(0)
  {
  }
}
