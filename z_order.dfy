/**
 * Morton (z-order) values: two 32-bit coordinates interleaved bit by bit into
 * one 64-bit value, x in the even bits and y in the odd bits, and the three
 * orderings the crate reads off such a value. The bitwise operators of the
 * unsigned integers are modelled on naturals.
 */
module ZOrder {
  import opened Orderings
  import opened MachineInts
  import opened UnitFixed

  /** 2 to the power k; a left shift by k multiplies by it. */
  function Pow2(k: nat): (p: nat)
    ensures p >= 1
  {
    if k == 0 then 1 else 2 * Pow2(k - 1)
  }

  /** `a & b`. */
  function And(a: nat, b: nat): nat
  {
    if a == 0 || b == 0 then 0 else (a % 2) * (b % 2) + 2 * And(a / 2, b / 2)
  }

  /** `a | b`. */
  function Or(a: nat, b: nat): nat
  {
    if a == 0 then b
    else if b == 0 then a
    else (if a % 2 == 1 || b % 2 == 1 then 1 else 0) + 2 * Or(a / 2, b / 2)
  }

  /** `a ^ b`. */
  function Xor(a: nat, b: nat): nat
  {
    if a == 0 then b
    else if b == 0 then a
    else (if a % 2 != b % 2 then 1 else 0) + 2 * Xor(a / 2, b / 2)
  }

  /** Bit k of v. */
  function Bit(v: nat, k: nat): nat
  {
    if k == 0 then v % 2 else Bit(v / 2, k - 1)
  }

  /** The number of significant bits of v. */
  function BitLen(v: nat): nat
  {
    if v == 0 then 0 else 1 + BitLen(v / 2)
  }

  /** `u32::leading_zeros`: 32 less the significant bits. */
  function LeadingZeros32(v: nat): int
  {
    32 - BitLen(v)
  }

  lemma AndStep(a: nat, b: nat)
    ensures And(a, b) == (a % 2) * (b % 2) + 2 * And(a / 2, b / 2)
  {
  }

  lemma OrStep(a: nat, b: nat)
    ensures Or(a, b) == (if a % 2 == 1 || b % 2 == 1 then 1 else 0) + 2 * Or(a / 2, b / 2)
  {
  }

  lemma XorStep(a: nat, b: nat)
    ensures Xor(a, b) == (if a % 2 != b % 2 then 1 else 0) + 2 * Xor(a / 2, b / 2)
  {
  }

  /** Or of two values with no common bit is their sum. */
  lemma {:induction false} OrDisjoint(a: nat, b: nat)
    requires And(a, b) == 0
    ensures Or(a, b) == a + b
    decreases a
  {
    if a != 0 && b != 0 {
      AndStep(a, b);
      OrDisjoint(a / 2, b / 2);
    }
  }

  /** Or of a value below 2^k with a multiple of 2^k is their sum: the shifted halves do not overlap. */
  lemma {:induction false} OrLowHigh(a: nat, b: nat, k: nat)
    requires a < Pow2(k)
    ensures Or(a, b * Pow2(k)) == a + b * Pow2(k)
    decreases k
  {
    if k > 0 && a != 0 && b != 0 {
      var h := b * Pow2(k);
      assert h == 2 * (b * Pow2(k - 1));
      OrStep(a, h);
      OrLowHigh(a / 2, b, k - 1);
    }
  }

  /** Xor is zero exactly for equal arguments. */
  lemma {:induction false} XorZero(a: nat, b: nat)
    ensures Xor(a, b) == 0 <==> a == b
    decreases a
  {
    if a != 0 && b != 0 {
      XorZero(a / 2, b / 2);
    }
  }

  /** The bits of x moved to the even positions: bit k of x becomes bit 2k. */
  function Spread(x: nat): nat
  {
    if x == 0 then 0 else x % 2 + 4 * Spread(x / 2)
  }

  /** The reference interleaving: x in the even bits, y in the odd bits. */
  function Interleaved(x: nat, y: nat): nat
  {
    Spread(x) + 2 * Spread(y)
  }

  /** The inverse of `Spread`: the even bits of v packed together. */
  function EvenBits(v: nat): nat
  {
    if v == 0 then 0 else v % 2 + 2 * EvenBits(v / 4)
  }

  lemma InterleavedStep(x: nat, y: nat)
    ensures Interleaved(x, y) == x % 2 + 2 * (y % 2) + 4 * Interleaved(x / 2, y / 2)
  {
  }

  lemma SpreadStep(x: nat)
    ensures Spread(x) == x % 2 + 4 * Spread(x / 2)
  {
  }

  /** Dividing r + 2q by 2, for a bit r. */
  lemma Halve(v: nat, r: nat, q: nat)
    requires v == r + 2 * q && r < 2
    ensures v % 2 == r && v / 2 == q
  {
  }

  /** Spreading moves bit k to bit 2k and leaves every odd bit clear. */
  lemma {:induction false} SpreadBits(x: nat, k: nat)
    ensures Bit(Spread(x), 2 * k) == Bit(x, k)
    ensures Bit(Spread(x), 2 * k + 1) == 0
    decreases k
  {
    var s := Spread(x);
    assert s / 2 / 2 == Spread(x / 2);
    if k > 0 {
      SpreadBits(x / 2, k - 1);
      assert Bit(s, 2 * k) == Bit(s / 2 / 2, 2 * (k - 1));
      assert Bit(s, 2 * k + 1) == Bit(s / 2 / 2, 2 * (k - 1) + 1);
    }
  }

  /** Interleaving coordinates below 2^k gives a value below 2^(2k). */
  lemma {:induction false} InterleavedBound(x: nat, y: nat, k: nat)
    requires x < Pow2(k) && y < Pow2(k)
    ensures Interleaved(x, y) < Pow2(2 * k)
    decreases k
  {
    if k > 0 {
      InterleavedBound(x / 2, y / 2, k - 1);
      InterleavedStep(x, y);
      assert Pow2(2 * k) == 4 * Pow2(2 * (k - 1));
    }
  }

  /** u * (c * p) == c * (u * p), kept apart from the terms it is applied to. */
  lemma MulComm(u: int, c: int, p: int)
    ensures u * (c * p) == c * (u * p)
  {
  }

  /** Spreading a value split at bit k splits the result at bit 2k. */
  lemma SpreadSplit(a: nat, b: nat, k: nat)
    requires a < Pow2(k)
    ensures Spread(a + b * Pow2(k)) == Spread(a) + Spread(b) * Pow2(2 * k)
  {
    SpreadSplitShifted(a, b, k);
    DoubledIsProduct(b, k);
    DoubledIsProduct(Spread(b), 2 * k);
  }

  /** b doubled k times. */
  function Doubled(b: nat, k: nat): nat
  {
    if k == 0 then b else 2 * Doubled(b, k - 1)
  }

  lemma {:induction false} DoubledIsProduct(b: nat, k: nat)
    ensures Doubled(b, k) == b * Pow2(k)
  {
    if k > 0 {
      DoubledIsProduct(b, k - 1);
      MulComm(b, 2, Pow2(k - 1));
    }
  }

  lemma {:induction false} SpreadSplitShifted(a: nat, b: nat, k: nat)
    requires a < Pow2(k)
    ensures Spread(a + Doubled(b, k)) == Spread(a) + Doubled(Spread(b), 2 * k)
    decreases k
  {
    if k > 0 {
      var j := k - 1;
      var a0, a1, h := a % 2, a / 2, Doubled(b, j);
      SplitLow(a, a0, a1, Pow2(j));
      SpreadOfSplit(a + 2 * h, a0, a1 + h);
      SpreadOfSplit(a, a0, a1);
      SpreadSplitShifted(a1, b, j);
      assert Doubled(Spread(b), 2 * k) == 4 * Doubled(Spread(b), 2 * j);
    }
  }

  /** Spreading a low bit and the rest: the rest moves up two places. */
  lemma SpreadOfSplit(v: nat, a0: nat, m: nat)
    requires v == a0 + 2 * m && a0 < 2
    ensures Spread(v) == a0 + 4 * Spread(m)
  {
    Halve(v, a0, m);
    SpreadStep(v);
  }

  /** The low bit and the rest of a number below 2p. */
  lemma SplitLow(a: nat, a0: nat, a1: nat, p: nat)
    requires a < 2 * p && a0 == a % 2 && a1 == a / 2
    ensures a == a0 + 2 * a1 && a0 < 2 && a1 < p
  {
  }

  /** Interleaving splits at each byte into interleaved 16-bit pieces. */
  lemma InterleavedSplit(a: nat, b: nat, c: nat, d: nat)
    requires a < 256 && c < 256
    ensures Interleaved(a + b * 256, c + d * 256) == Interleaved(a, c) + Interleaved(b, d) * 65536
  {
    assert Pow2(8) == 256 && Pow2(16) == 65536;
    SpreadSplit(a, b, 8);
    SpreadSplit(c, d, 8);
  }

  /** The even and odd halves of an interleaving share no bit. */
  lemma {:induction false} SpreadDisjoint(x: nat, y: nat)
    ensures And(Spread(x), 2 * Spread(y)) == 0
    ensures And(2 * Spread(x), Spread(y)) == 0
    decreases x + y
  {
    var sx, sy := Spread(x), Spread(y);
    SpreadStep(x);
    SpreadStep(y);
    if x > 0 {
      SpreadDisjoint(x / 2, y);
      Halve(sx, x % 2, 2 * Spread(x / 2));
      Halve(2 * sy, 0, sy);
      AndStep(sx, 2 * sy);
    }
    if y > 0 {
      SpreadDisjoint(x, y / 2);
      Halve(sy, y % 2, 2 * Spread(y / 2));
      Halve(2 * sx, 0, sx);
      AndStep(2 * sx, sy);
    }
  }

  /** Packing the even bits keeps the lowest bit, drops the next, and packs the rest. */
  lemma EvenBitsSplit(v: nat, r: nat, s: nat, u: nat)
    requires r < 2 && s < 2 && v == r + 2 * s + 4 * u
    ensures EvenBits(v) == r + 2 * EvenBits(u)
  {
    if v != 0 {
      assert v % 2 == r && v / 4 == u;
    }
  }

  /** Packing the even bits undoes spreading, on both halves of an interleaving. */
  lemma {:induction false} EvenBitsOfInterleaved(x: nat, y: nat)
    ensures EvenBits(Interleaved(x, y)) == x
    ensures EvenBits(Interleaved(x, y) / 2) == y
    decreases x + y
  {
    var v := Interleaved(x, y);
    InterleavedStep(x, y);
    if x != 0 || y != 0 {
      var w := Interleaved(x / 2, y / 2);
      EvenBitsOfInterleaved(x / 2, y / 2);
      EvenBitsSplit(v, x % 2, y % 2, w);
      var h := y % 2 + 2 * w;
      Halve(v, x % 2, h);
      Halve(w, w % 2, w / 2);
      EvenBitsSplit(h, y % 2, w % 2, w / 2);
    }
  }

  // The lookup table of `interleave_8`, sixteen entries to a row: entry b is
  // `MORTON_TABLE[b]`.
  const MORTON_ROWS: seq<seq<nat>> := [
    [0x0000, 0x0001, 0x0004, 0x0005, 0x0010, 0x0011, 0x0014, 0x0015, 0x0040, 0x0041, 0x0044, 0x0045, 0x0050, 0x0051, 0x0054, 0x0055],
    [0x0100, 0x0101, 0x0104, 0x0105, 0x0110, 0x0111, 0x0114, 0x0115, 0x0140, 0x0141, 0x0144, 0x0145, 0x0150, 0x0151, 0x0154, 0x0155],
    [0x0400, 0x0401, 0x0404, 0x0405, 0x0410, 0x0411, 0x0414, 0x0415, 0x0440, 0x0441, 0x0444, 0x0445, 0x0450, 0x0451, 0x0454, 0x0455],
    [0x0500, 0x0501, 0x0504, 0x0505, 0x0510, 0x0511, 0x0514, 0x0515, 0x0540, 0x0541, 0x0544, 0x0545, 0x0550, 0x0551, 0x0554, 0x0555],
    [0x1000, 0x1001, 0x1004, 0x1005, 0x1010, 0x1011, 0x1014, 0x1015, 0x1040, 0x1041, 0x1044, 0x1045, 0x1050, 0x1051, 0x1054, 0x1055],
    [0x1100, 0x1101, 0x1104, 0x1105, 0x1110, 0x1111, 0x1114, 0x1115, 0x1140, 0x1141, 0x1144, 0x1145, 0x1150, 0x1151, 0x1154, 0x1155],
    [0x1400, 0x1401, 0x1404, 0x1405, 0x1410, 0x1411, 0x1414, 0x1415, 0x1440, 0x1441, 0x1444, 0x1445, 0x1450, 0x1451, 0x1454, 0x1455],
    [0x1500, 0x1501, 0x1504, 0x1505, 0x1510, 0x1511, 0x1514, 0x1515, 0x1540, 0x1541, 0x1544, 0x1545, 0x1550, 0x1551, 0x1554, 0x1555],
    [0x4000, 0x4001, 0x4004, 0x4005, 0x4010, 0x4011, 0x4014, 0x4015, 0x4040, 0x4041, 0x4044, 0x4045, 0x4050, 0x4051, 0x4054, 0x4055],
    [0x4100, 0x4101, 0x4104, 0x4105, 0x4110, 0x4111, 0x4114, 0x4115, 0x4140, 0x4141, 0x4144, 0x4145, 0x4150, 0x4151, 0x4154, 0x4155],
    [0x4400, 0x4401, 0x4404, 0x4405, 0x4410, 0x4411, 0x4414, 0x4415, 0x4440, 0x4441, 0x4444, 0x4445, 0x4450, 0x4451, 0x4454, 0x4455],
    [0x4500, 0x4501, 0x4504, 0x4505, 0x4510, 0x4511, 0x4514, 0x4515, 0x4540, 0x4541, 0x4544, 0x4545, 0x4550, 0x4551, 0x4554, 0x4555],
    [0x5000, 0x5001, 0x5004, 0x5005, 0x5010, 0x5011, 0x5014, 0x5015, 0x5040, 0x5041, 0x5044, 0x5045, 0x5050, 0x5051, 0x5054, 0x5055],
    [0x5100, 0x5101, 0x5104, 0x5105, 0x5110, 0x5111, 0x5114, 0x5115, 0x5140, 0x5141, 0x5144, 0x5145, 0x5150, 0x5151, 0x5154, 0x5155],
    [0x5400, 0x5401, 0x5404, 0x5405, 0x5410, 0x5411, 0x5414, 0x5415, 0x5440, 0x5441, 0x5444, 0x5445, 0x5450, 0x5451, 0x5454, 0x5455],
    [0x5500, 0x5501, 0x5504, 0x5505, 0x5510, 0x5511, 0x5514, 0x5515, 0x5540, 0x5541, 0x5544, 0x5545, 0x5550, 0x5551, 0x5554, 0x5555]
  ]

  /** `MORTON_TABLE[b]`. */
  function MortonTable(b: nat): nat
    requires b < 256
  {
    MortonShape();
    MORTON_ROWS[b / 16][b % 16]
  }

  lemma MortonShape()
    ensures |MORTON_ROWS| == 16
    ensures forall r :: 0 <= r < 16 ==> |MORTON_ROWS[r]| == 16
  {
  }

  /** The first row spreads its two 2-bit halves, starting from 0, 1, 4 and 5. */
  lemma MortonRow0()
    ensures MORTON_ROWS[0][0] == 0 && MORTON_ROWS[0][1] == 1 && MORTON_ROWS[0][2] == 4 && MORTON_ROWS[0][3] == 5
    ensures forall q, j :: 0 <= q < 4 && 0 <= j < 4 ==> MORTON_ROWS[0][4 * q + j] == MORTON_ROWS[0][j] + 16 * MORTON_ROWS[0][q]
  {
  }

  lemma MortonRow1()
    ensures forall i :: 0 <= i < 16 ==> MORTON_ROWS[1][i] == MORTON_ROWS[0][i] + 256 * MORTON_ROWS[0][1]
  {
  }

  lemma MortonRow2()
    ensures forall i :: 0 <= i < 16 ==> MORTON_ROWS[2][i] == MORTON_ROWS[0][i] + 256 * MORTON_ROWS[0][2]
  {
  }

  lemma MortonRow3()
    ensures forall i :: 0 <= i < 16 ==> MORTON_ROWS[3][i] == MORTON_ROWS[0][i] + 256 * MORTON_ROWS[0][3]
  {
  }

  lemma MortonRow4()
    ensures forall i :: 0 <= i < 16 ==> MORTON_ROWS[4][i] == MORTON_ROWS[0][i] + 256 * MORTON_ROWS[0][4]
  {
  }

  lemma MortonRow5()
    ensures forall i :: 0 <= i < 16 ==> MORTON_ROWS[5][i] == MORTON_ROWS[0][i] + 256 * MORTON_ROWS[0][5]
  {
  }

  lemma MortonRow6()
    ensures forall i :: 0 <= i < 16 ==> MORTON_ROWS[6][i] == MORTON_ROWS[0][i] + 256 * MORTON_ROWS[0][6]
  {
  }

  lemma MortonRow7()
    ensures forall i :: 0 <= i < 16 ==> MORTON_ROWS[7][i] == MORTON_ROWS[0][i] + 256 * MORTON_ROWS[0][7]
  {
  }

  lemma MortonRow8()
    ensures forall i :: 0 <= i < 16 ==> MORTON_ROWS[8][i] == MORTON_ROWS[0][i] + 256 * MORTON_ROWS[0][8]
  {
  }

  lemma MortonRow9()
    ensures forall i :: 0 <= i < 16 ==> MORTON_ROWS[9][i] == MORTON_ROWS[0][i] + 256 * MORTON_ROWS[0][9]
  {
  }

  lemma MortonRow10()
    ensures forall i :: 0 <= i < 16 ==> MORTON_ROWS[10][i] == MORTON_ROWS[0][i] + 256 * MORTON_ROWS[0][10]
  {
  }

  lemma MortonRow11()
    ensures forall i :: 0 <= i < 16 ==> MORTON_ROWS[11][i] == MORTON_ROWS[0][i] + 256 * MORTON_ROWS[0][11]
  {
  }

  lemma MortonRow12()
    ensures forall i :: 0 <= i < 16 ==> MORTON_ROWS[12][i] == MORTON_ROWS[0][i] + 256 * MORTON_ROWS[0][12]
  {
  }

  lemma MortonRow13()
    ensures forall i :: 0 <= i < 16 ==> MORTON_ROWS[13][i] == MORTON_ROWS[0][i] + 256 * MORTON_ROWS[0][13]
  {
  }

  lemma MortonRow14()
    ensures forall i :: 0 <= i < 16 ==> MORTON_ROWS[14][i] == MORTON_ROWS[0][i] + 256 * MORTON_ROWS[0][14]
  {
  }

  lemma MortonRow15()
    ensures forall i :: 0 <= i < 16 ==> MORTON_ROWS[15][i] == MORTON_ROWS[0][i] + 256 * MORTON_ROWS[0][15]
  {
  }

  /** Row r is the first row with the spread of r in its high byte. */
  lemma MortonRow(r: nat)
    requires r < 16
    ensures forall i :: 0 <= i < 16 ==> MORTON_ROWS[r][i] == MORTON_ROWS[0][i] + 256 * MORTON_ROWS[0][r]
  {
    MortonRow0();
    if r == 1 { MortonRow1(); }
    else if r == 2 { MortonRow2(); }
    else if r == 3 { MortonRow3(); }
    else if r == 4 { MortonRow4(); }
    else if r == 5 { MortonRow5(); }
    else if r == 6 { MortonRow6(); }
    else if r == 7 { MortonRow7(); }
    else if r == 8 { MortonRow8(); }
    else if r == 9 { MortonRow9(); }
    else if r == 10 { MortonRow10(); }
    else if r == 11 { MortonRow11(); }
    else if r == 12 { MortonRow12(); }
    else if r == 13 { MortonRow13(); }
    else if r == 14 { MortonRow14(); }
    else if r == 15 { MortonRow15(); }
  }

  lemma Pow2Small()
    ensures Pow2(2) == 4 && Pow2(4) == 16 && Pow2(8) == 256 && Pow2(16) == 65536
  {
  }

  lemma SpreadSmall()
    ensures Spread(0) == 0 && Spread(1) == 1 && Spread(2) == 4 && Spread(3) == 5
  {
  }

  /** Spreading a value below 16 from its two 2-bit halves. */
  lemma SpreadNibble(i: nat)
    requires i < 16
    ensures Spread(i) == Spread(i % 4) + 16 * Spread(i / 4)
  {
    Pow2Small();
    SpreadSplit(i % 4, i / 4, 2);
  }

  lemma MortonRow0Spread(i: nat)
    requires i < 16
    ensures MORTON_ROWS[0][i] == Spread(i)
  {
    MortonRow0();
    SpreadSmall();
    SpreadNibble(i);
    var q, j := i / 4, i % 4;
    assert i == 4 * q + j;
  }

  /** Spreading a byte from its two 4-bit halves. */
  lemma SpreadByte(b: nat)
    requires b < 256
    ensures Spread(b) == Spread(b % 16) + 256 * Spread(b / 16)
  {
    Pow2Small();
    SpreadSplit(b % 16, b / 16, 4);
  }

  /** Each `MORTON_TABLE` entry is its index spread into the even bits. */
  lemma MortonTableSpread(b: nat)
    requires b < 256
    ensures MortonTable(b) == Spread(b)
  {
    var r, i := b / 16, b % 16;
    MortonShape();
    MortonRow(r);
    MortonRow0Spread(i);
    MortonRow0Spread(r);
    SpreadByte(b);
  }

  /** Entry b of `MORTON_TABLE` has bit 2k set iff bit k of b is set, and no odd bit set. */
  lemma MortonTableBits(b: nat, k: nat)
    requires b < 256
    ensures Bit(MortonTable(b), 2 * k) == Bit(b, k)
    ensures Bit(MortonTable(b), 2 * k + 1) == 0
  {
    MortonTableSpread(b);
    SpreadBits(b, k);
  }

  /** `interleave_8`: the table entry of x or'ed with the table entry of y shifted left once. */
  function Interleave8(x: nat, y: nat): (r: nat)
    requires x < 256 && y < 256
    ensures r == Interleaved(x, y) && r < 65536
  {
    MortonTableSpread(x);
    MortonTableSpread(y);
    SpreadDisjoint(x, y);
    OrDisjoint(Spread(x), 2 * Spread(y));
    Pow2Small();
    InterleavedBound(x, y, 8);
    Or(MortonTable(x), MortonTable(y) * 2)
  }

  /** 2^(a+b) == 2^a * 2^b. */
  lemma {:induction false} Pow2Add(a: nat, b: nat)
    ensures Pow2(a + b) == Pow2(a) * Pow2(b)
    decreases a
  {
    if a > 0 {
      Pow2Add(a - 1, b);
      MulComm(Pow2(b), 2, Pow2(a - 1));
    }
  }

  lemma Pow2Big()
    ensures Pow2(32) == 0x1_0000_0000 && Pow2(48) == 0x1_0000_0000_0000
    ensures Pow2(64) == 0x1_0000_0000_0000_0000
  {
    Pow2Small();
    Pow2Add(16, 16);
    Pow2Add(32, 16);
    Pow2Add(32, 32);
  }

  /** v is its remainder by 256 plus 256 times its quotient. */
  lemma DivMod256(v: nat)
    ensures v == v % 256 + 256 * (v / 256)
  {
  }

  /** `u32::to_le_bytes`: the four bytes of x, least significant first. */
  function LeBytes(x: U32): (b: seq<nat>)
    ensures |b| == 4 && b[0] < 256 && b[1] < 256 && b[2] < 256 && b[3] < 256
    ensures x == b[0] + (b[1] + (b[2] + b[3] * 256) * 256) * 256
  {
    var q1 := x / 256;
    var q2 := q1 / 256;
    var q3 := q2 / 256;
    DivMod256(x);
    DivMod256(q1);
    DivMod256(q2);
    assert q3 < 256;
    [x % 256, q1 % 256, q2 % 256, q3]
  }
  /** `a << k`, for the shifts the crate makes, none of which loses a bit. */
  function Shl(a: nat, k: nat): nat
  {
    a * Pow2(k)
  }

  /** A 64-bit z-value. */
  datatype ZValue = ZValue(raw: U64)

  /** Or'ing four 16-bit pieces shifted by 0, 16, 32 and 48 bits lays them side by side. */
  lemma OrPieces(i0: nat, i1: nat, i2: nat, i3: nat)
    requires i0 < 65536 && i1 < 65536 && i2 < 65536 && i3 < 65536
    ensures Or(Or(Or(i0, Shl(i1, 16)), Shl(i2, 32)), Shl(i3, 48))
            == i0 + (i1 + (i2 + i3 * 65536) * 65536) * 65536
  {
    Pow2Small();
    Pow2Big();
    var a := i0 + i1 * 65536;
    var b := a + i2 * 0x1_0000_0000;
    OrLowHigh(i0, i1, 16);
    assert Or(i0, Shl(i1, 16)) == a;
    OrLowHigh(a, i2, 32);
    assert Or(a, Shl(i2, 32)) == b;
    OrLowHigh(b, i3, 48);
  }

  /** Interleaving two 32-bit values byte by byte is interleaving them whole. */
  lemma InterleavedBytes(x: U32, y: U32)
    ensures Interleaved(x, y) == Interleaved(LeBytes(x)[0], LeBytes(y)[0])
              + (Interleaved(LeBytes(x)[1], LeBytes(y)[1])
              + (Interleaved(LeBytes(x)[2], LeBytes(y)[2])
              + Interleaved(LeBytes(x)[3], LeBytes(y)[3]) * 65536) * 65536) * 65536
    ensures Interleaved(x, y) < 0x1_0000_0000_0000_0000
  {
    var xb, yb := LeBytes(x), LeBytes(y);
    var x2, y2 := xb[2] + xb[3] * 256, yb[2] + yb[3] * 256;
    var x1, y1 := xb[1] + x2 * 256, yb[1] + y2 * 256;
    var j0, j1 := Interleaved(xb[0], yb[0]), Interleaved(xb[1], yb[1]);
    var j2, j3 := Interleaved(xb[2], yb[2]), Interleaved(xb[3], yb[3]);
    InterleavedSplit(xb[2], xb[3], yb[2], yb[3]);
    assert Interleaved(x2, y2) == j2 + j3 * 65536;
    InterleavedSplit(xb[1], x2, yb[1], y2);
    assert Interleaved(x1, y1) == j1 + (j2 + j3 * 65536) * 65536;
    InterleavedSplit(xb[0], x1, yb[0], y1);
    assert x == xb[0] + x1 * 256 && y == yb[0] + y1 * 256;
    Pow2Big();
    InterleavedBound(x, y, 32);
  }

  /**
   * `ZValue::new`: the bytes of x and y, least significant first, each pair
   * interleaved by `interleave_8` and placed 16 bits further up. The result is
   * the interleaving of x and y.
   */
  function New(x: U32, y: U32): (z: ZValue)
    ensures z.raw == Interleaved(x, y)
  {
    var xb, yb := LeBytes(x), LeBytes(y);
    var i0, i1, i2, i3 := Interleave8(xb[0], yb[0]), Interleave8(xb[1], yb[1]),
                          Interleave8(xb[2], yb[2]), Interleave8(xb[3], yb[3]);
    var raw := Or(Or(Or(i0, Shl(i1, 16)), Shl(i2, 32)), Shl(i3, 48));
    OrPieces(i0, i1, i2, i3);
    InterleavedBytes(x, y);
    assert raw == Interleaved(x, y);
    ZValue(raw)
  }

  /** `ZValue::from_fp`: the raw values of two fixed-point coordinates interleaved. */
  function FromFp(x: UnitFixedPoint, y: UnitFixedPoint): (z: ZValue)
    ensures z.raw == Interleaved(x.raw, y.raw)
  {
    New(ToU32(x), ToU32(y))
  }

  /** `ZValue::from_raw`, undone by `u64::from`. */
  function FromRaw(v: U64): (z: ZValue)
    ensures ToU64(z) == v
  {
    ZValue(v)
  }

  /** `From<ZValue> for u64`: the raw value, from which the z-value is rebuilt unchanged. */
  function ToU64(z: ZValue): (v: U64)
    ensures ZValue(v) == z
  {
    z.raw
  }

  const X_MASK: nat := 0x5555_5555_5555_5555
  const Y_MASK: nat := 0xAAAA_AAAA_AAAA_AAAA

  /** Three times the spread of k one-bits is 4^k - 1. */
  lemma {:induction false} SpreadOnes(k: nat)
    ensures 3 * Spread(Pow2(k) - 1) == Pow2(2 * k) - 1
    decreases k
  {
    if k > 0 {
      var j := k - 1;
      SpreadOnes(j);
      var m, v := Pow2(j) - 1, Pow2(k) - 1;
      Pow2Double(j);
      Halve(v, 1, m);
      SpreadStep(v);
      Pow2Double(2 * j);
      Pow2Double(2 * j + 1);
    }
  }

  lemma Pow2Double(k: nat)
    ensures Pow2(k + 1) == 2 * Pow2(k)
  {
  }

  /** `X_MASK` is 32 one-bits spread to the even positions, `Y_MASK` the same moved to the odd ones. */
  lemma Masks()
    ensures X_MASK == Spread(Pow2(32) - 1) && Y_MASK == 2 * X_MASK
  {
    SpreadOnes(32);
    Pow2Big();
  }

  lemma EvenBitsStep(v: nat)
    ensures EvenBits(v) == v % 2 + 2 * EvenBits(v / 4)
  {
  }

  /** Quarter of a value, through two halvings. */
  lemma Quarter(v: nat)
    ensures v / 2 / 2 == v / 4 && v == v % 2 + 2 * ((v / 2) % 2) + 4 * (v / 4)
  {
  }

  /** Masking with the even mask keeps the even bits, packed or not. */
  lemma {:induction false} MaskEven(a: nat, k: nat)
    requires a < Pow2(2 * k)
    ensures And(a, Spread(Pow2(k) - 1)) == Spread(EvenBits(a))
    decreases k
  {
    if k == 0 {
      assert a == 0;
    } else {
      var ones, ones' := Pow2(k) - 1, Pow2(k - 1) - 1;
      var m, m' := Spread(ones), Spread(ones');
      Halve(ones, 1, ones');
      SpreadStep(ones);
      Halve(m, 1, 2 * m');
      Halve(2 * m', 0, m');
      var q := a / 4;
      Quarter(a);
      AndStep(a, m);
      AndStep(a / 2, 2 * m');
      assert And(a, m) == a % 2 + 4 * And(q, m');
      assert Pow2(2 * k) == 4 * Pow2(2 * (k - 1));
      MaskEven(q, k - 1);
      var e := EvenBits(a);
      EvenBitsStep(a);
      Halve(e, a % 2, EvenBits(q));
      SpreadStep(e);
    }
  }

  /** Masking with the odd mask keeps the odd bits. */
  lemma MaskOdd(a: nat, k: nat)
    requires a < Pow2(2 * k)
    ensures And(a, 2 * Spread(Pow2(k) - 1)) == 2 * Spread(EvenBits(a / 2))
  {
    var m := Spread(Pow2(k) - 1);
    Halve(2 * m, 0, m);
    AndStep(a, 2 * m);
    MaskEven(a / 2, k);
  }

  /** Every value is the sum of its even-bit and odd-bit parts. */
  lemma {:induction false} EvenOddSplit(a: nat)
    ensures a == Spread(EvenBits(a)) + 2 * Spread(EvenBits(a / 2))
    decreases a
  {
    if a != 0 {
      var h, q := a / 2, a / 4;
      Quarter(a);
      Quarter(h);
      assert h / 4 == q / 2;
      EvenOddSplit(q);
      var e, o := EvenBits(a), EvenBits(h);
      EvenBitsStep(a);
      EvenBitsStep(h);
      Halve(e, a % 2, EvenBits(q));
      Halve(o, h % 2, EvenBits(q / 2));
      SpreadStep(e);
      SpreadStep(o);
    }
  }

  /** `x_bits`: the raw value masked to its even bits, which keeps exactly the even bits. */
  function XBits(z: ZValue): (bits: nat)
    ensures bits == Spread(EvenBits(z.raw))
  {
    Masks();
    Pow2Big();
    assert z.raw < Pow2(2 * 32);
    MaskEven(z.raw, 32);
    And(z.raw, X_MASK)
  }

  /** `y_bits`: the raw value masked to its odd bits, which keeps exactly the odd bits. */
  function YBits(z: ZValue): (bits: nat)
    ensures bits == 2 * Spread(EvenBits(z.raw / 2))
  {
    Masks();
    Pow2Big();
    assert z.raw < Pow2(2 * 32);
    MaskOdd(z.raw, 32);
    And(z.raw, Y_MASK)
  }

  /** The x and y bits of any z-value share no bit and together make up the value. */
  lemma BitsPartition(z: ZValue)
    ensures And(XBits(z), YBits(z)) == 0
    ensures Or(XBits(z), YBits(z)) == z.raw
    ensures XBits(z) + YBits(z) == z.raw
  {
    var e, o := EvenBits(z.raw), EvenBits(z.raw / 2);
    SpreadDisjoint(e, o);
    OrDisjoint(Spread(e), 2 * Spread(o));
    EvenOddSplit(z.raw);
  }

  /** The x bits of `ZValue::new(x, y)` are x spread, the y bits are y spread and shifted once. */
  lemma BitsOfNew(x: U32, y: U32)
    ensures XBits(New(x, y)) == Spread(x)
    ensures YBits(New(x, y)) == 2 * Spread(y)
  {
    EvenBitsOfInterleaved(x, y);
  }

  /** `r1 + 2 * h1` against `r2 + 2 * h2`, for bits r1, r2: the high parts decide unless equal. */
  lemma CompareBase2(h1: nat, r1: nat, h2: nat, r2: nat)
    requires r1 < 2 && r2 < 2
    ensures CompareInt(r1 + 2 * h1, r2 + 2 * h2) == if h1 != h2 then CompareInt(h1, h2) else CompareInt(r1, r2)
  {
  }

  /** `r1 + 4 * h1` against `r2 + 4 * h2`, for digits below 4: the high parts decide unless equal. */
  lemma CompareBase4(h1: nat, r1: nat, h2: nat, r2: nat)
    requires r1 < 4 && r2 < 4
    ensures CompareInt(r1 + 4 * h1, r2 + 4 * h2) == if h1 != h2 then CompareInt(h1, h2) else CompareInt(r1, r2)
  {
  }

  /** Spreading keeps the order of its arguments. */
  lemma {:induction false} SpreadCompare(a: nat, b: nat)
    ensures CompareInt(Spread(a), Spread(b)) == CompareInt(a, b)
    decreases a + b
  {
    if a != 0 || b != 0 {
      SpreadCompare(a / 2, b / 2);
      SpreadStep(a);
      SpreadStep(b);
      CompareBase4(Spread(a / 2), a % 2, Spread(b / 2), b % 2);
      CompareBase2(a / 2, a % 2, b / 2, b % 2);
    }
  }

  /** `cmp_x`: the comparison of the x bits, which orders the packed even bits. */
  function CmpX(z1: ZValue, z2: ZValue): (o: Ordering)
    ensures o == CompareInt(EvenBits(z1.raw), EvenBits(z2.raw))
  {
    SpreadCompare(EvenBits(z1.raw), EvenBits(z2.raw));
    CompareInt(XBits(z1), XBits(z2))
  }

  /** `cmp_y`: the comparison of the y bits, which orders the packed odd bits. */
  function CmpY(z1: ZValue, z2: ZValue): (o: Ordering)
    ensures o == CompareInt(EvenBits(z1.raw / 2), EvenBits(z2.raw / 2))
  {
    SpreadCompare(EvenBits(z1.raw / 2), EvenBits(z2.raw / 2));
    CompareInt(YBits(z1), YBits(z2))
  }

  /** `cmp_x` of two z-values is the comparison of their x coordinates. */
  lemma CmpXOfNew(x1: U32, y1: U32, x2: U32, y2: U32)
    ensures CmpX(New(x1, y1), New(x2, y2)) == CompareInt(x1, x2)
  {
    BitsOfNew(x1, y1);
    BitsOfNew(x2, y2);
    SpreadCompare(x1, x2);
  }

  /** `cmp_y` of two z-values is the comparison of their y coordinates. */
  lemma CmpYOfNew(x1: U32, y1: U32, x2: U32, y2: U32)
    ensures CmpY(New(x1, y1), New(x2, y2)) == CompareInt(y1, y2)
  {
    BitsOfNew(x1, y1);
    BitsOfNew(x2, y2);
    SpreadCompare(y1, y2);
  }

  /** `ZValue::new` is injective. */
  lemma NewInjective(x1: U32, y1: U32, x2: U32, y2: U32)
    requires New(x1, y1) == New(x2, y2)
    ensures x1 == x2 && y1 == y2
  {
    EvenBitsOfInterleaved(x1, y1);
    EvenBitsOfInterleaved(x2, y2);
  }

  /** The derived `Ord` of `ZValue`: the comparison of the raw values. */
  function ZCmp(z1: ZValue, z2: ZValue): (o: Ordering)
    ensures o == Equal <==> z1 == z2
  {
    CompareInt(z1.raw, z2.raw)
  }

  /**
   * The expectation of `quickcheck_z_cmp`: the coordinate whose highest
   * differing bit is higher decides the order, judged by the leading zeros of
   * the xor of each coordinate pair; a tie goes to y.
   */
  function ZCmpExpected(x1: U32, y1: U32, x2: U32, y2: U32): Ordering
  {
    var m1 := Xor(x1, x2);
    var m2 := Xor(y1, y2);
    if LeadingZeros32(m1) < LeadingZeros32(m2) then CompareInt(x1, x2) else CompareInt(y1, y2)
  }

  lemma BitLenZero(v: nat)
    ensures BitLen(v) == 0 <==> v == 0
  {
  }

  /** The xor of two values in terms of the xor of their halves. */
  lemma XorHalves(a: nat, b: nat)
    ensures Xor(a, b) / 2 == Xor(a / 2, b / 2)
    ensures Xor(a, b) % 2 == (if a % 2 != b % 2 then 1 else 0)
    ensures BitLen(Xor(a, b)) == if Xor(a / 2, b / 2) != 0 then 1 + BitLen(Xor(a / 2, b / 2))
                                 else if a % 2 != b % 2 then 1 else 0
  {
    XorStep(a, b);
    var x := Xor(a, b);
    Halve(x, if a % 2 != b % 2 then 1 else 0, Xor(a / 2, b / 2));
    XorZero(a / 2, b / 2);
  }

  /**
   * Interleavings compare by the coordinate with the higher highest differing
   * bit, and by y when both are at the same position.
   */
  lemma {:induction false} InterleavedCompare(x1: nat, y1: nat, x2: nat, y2: nat)
    ensures CompareInt(Interleaved(x1, y1), Interleaved(x2, y2))
            == if BitLen(Xor(x1, x2)) > BitLen(Xor(y1, y2)) then CompareInt(x1, x2) else CompareInt(y1, y2)
    decreases x1 + y1 + x2 + y2
  {
    var hx1, hx2, hy1, hy2 := x1 / 2, x2 / 2, y1 / 2, y2 / 2;
    var h1, h2 := Interleaved(hx1, hy1), Interleaved(hx2, hy2);
    InterleavedStep(x1, y1);
    InterleavedStep(x2, y2);
    CompareBase4(h1, x1 % 2 + 2 * (y1 % 2), h2, x2 % 2 + 2 * (y2 % 2));
    CompareBase2(hx1, x1 % 2, hx2, x2 % 2);
    CompareBase2(hy1, y1 % 2, hy2, y2 % 2);
    XorHalves(x1, x2);
    XorHalves(y1, y2);
    XorZero(x1, x2);
    XorZero(y1, y2);
    XorZero(hx1, hx2);
    XorZero(hy1, hy2);
    if hx1 == hx2 && hy1 == hy2 {
      assert h1 == h2;
    } else {
      InterleavedCompare(hx1, hy1, hx2, hy2);
      BitLenZero(Xor(hx1, hx2));
      BitLenZero(Xor(hy1, hy2));
      assert h1 != h2;
    }
  }

  /** `quickcheck_z_cmp` holds for every pair of coordinate pairs. */
  lemma ZCmpOfNew(x1: U32, y1: U32, x2: U32, y2: U32)
    ensures ZCmp(New(x1, y1), New(x2, y2)) == ZCmpExpected(x1, y1, x2, y2)
  {
    InterleavedCompare(x1, y1, x2, y2);
  }
}
