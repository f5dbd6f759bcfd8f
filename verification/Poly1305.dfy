/**
 The limb core of poly1305_mul, five 26-bit limbs modulo 2^130 - 5 in 64-bit words, and the tag
 computed with it as coded.
 */
module Poly1305 {
  import opened Bytes

  // 2^26 appears as the literal 0x400_0000 so that the arithmetic stays linear for the verifier.
  const P: nat := 0x3_ffff_ffff_ffff_ffff_ffff_ffff_ffff_fffb

  datatype Limbs = Limbs(v0: uint64, v1: uint64, v2: uint64, v3: uint64, v4: uint64)

  /** The number five limbs stand for. */
  function Value5(v0: int, v1: int, v2: int, v3: int, v4: int): int {
    v0 + 0x400_0000 * (v1 + 0x400_0000 * (v2 + 0x400_0000 * (v3 + 0x400_0000 * v4)))
  }

  function Value(l: Limbs): int {
    Value5(l.v0, l.v1, l.v2, l.v3, l.v4)
  }

  function TimesP(x: int): int {
    0x3_ffff_ffff_ffff_ffff_ffff_ffff_ffff_fffb * x
  }

  predicate Congruent(x: int, y: int) {
    x % P == y % P
  }

  function Low26(x: nat): (r: nat)
    ensures r < 0x400_0000
  {
    x % 0x400_0000
  }

  function High26(x: nat): (q: nat)
    ensures q <= x
  {
    x / 0x400_0000
  }

  /** What sixteen bytes can yield: four limbs of 26 bits, the top one of 24. */
  predicate InRange(l: Limbs) {
    l.v0 < 0x400_0000 && l.v1 < 0x400_0000 && l.v2 < 0x400_0000 && l.v3 < 0x400_0000 && l.v4 < 0x100_0000
  }

  // ---------------------------------------------------------------- multiplication as coded

  /** The limbs of sixteen bytes, read at byte offsets 0, 3, 6, 9 and 12. */
  function Split(s: seq<byte>): (l: Limbs)
    requires |s| == 16
    ensures InRange(l)
  {
    Limbs(Low26(Load32(s, 0)), Low26(Load32(s, 3) / 4), Low26(Load32(s, 6) / 16), Low26(Load32(s, 9) / 64), Load32(s, 12) / 256)
  }

  function Times(x: nat, y: nat): uint64 { Wrap64(x * y) }

  function Sum(x: uint64, y: uint64): uint64 { Wrap64(x + y) }

  /** A sum of five products in 64-bit words. */
  function Dot(x0: nat, y0: nat, x1: nat, y1: nat, x2: nat, y2: nat, x3: nat, y3: nat, x4: nat, y4: nat): uint64 {
    Sum(Sum(Sum(Sum(Times(x0, y0), Times(x1, y1)), Times(x2, y2)), Times(x3, y3)), Times(x4, y4))
  }

  function Columns(h: Limbs, r: Limbs): Limbs {
    var s1, s2, s3, s4 := Times(r.v1, 5), Times(r.v2, 5), Times(r.v3, 5), Times(r.v4, 5);
    Limbs(Dot(h.v0, r.v0, h.v1, s4, h.v2, s3, h.v3, s2, h.v4, s1),
          Dot(h.v0, r.v1, h.v1, r.v0, h.v2, s4, h.v3, s3, h.v4, s2),
          Dot(h.v0, r.v2, h.v1, r.v1, h.v2, r.v0, h.v3, s4, h.v4, s3),
          Dot(h.v0, r.v3, h.v1, r.v2, h.v2, r.v1, h.v3, r.v0, h.v4, s4),
          Dot(h.v0, r.v4, h.v1, r.v3, h.v2, r.v2, h.v3, r.v1, h.v4, r.v0))
  }

  /** Carrying limb by limb, out of the top limb back into the bottom times 5, and once more. */
  function Carried(d: Limbs): Limbs {
    var d1 := Sum(d.v1, High26(d.v0));
    var d2 := Sum(d.v2, High26(d1));
    var d3 := Sum(d.v3, High26(d2));
    var d4 := Sum(d.v4, High26(d3));
    var d0 := Sum(Low26(d.v0), Times(High26(d4), 5));
    Limbs(Low26(d0), Sum(Low26(d1), High26(d0)), Low26(d2), Low26(d3), Low26(d4))
  }

  function MulLimbs(h: Limbs, r: Limbs): Limbs {
    Carried(Columns(h, r))
  }

  // ---------------------------------------------------------------- no bit is lost

  function Prod(x: int, y: int): int { x * y }

  lemma TimesExact(x: nat, y: nat)
    requires x < 0x400_0000 && y < 5 * 0x400_0000
    ensures Times(x, y) == Prod(x, y) && 0 <= Prod(x, y) < 5 * 0x10_0000_0000_0000
  {
    MulMonotonic(x, 0, y);
    MulMonotonic(x, y, 5 * 0x400_0000);
    var p := x * y;
    Wrap64Small(p);
    hide Wrap64;
  }

  lemma FiveTimes(x: nat)
    requires x < 0x400_0000
    ensures Times(x, 5) == 5 * x
  {
  }

  lemma SumExact(x: uint64, y: uint64)
    requires x + y < 0x1_0000_0000_0000_0000
    ensures Sum(x, y) == x + y
  {
  }

  /** No sum of five products overflows 64 bits. */
  lemma DotExact(x0: nat, y0: nat, x1: nat, y1: nat, x2: nat, y2: nat, x3: nat, y3: nat, x4: nat, y4: nat)
    requires x0 < 0x400_0000 && x1 < 0x400_0000 && x2 < 0x400_0000 && x3 < 0x400_0000 && x4 < 0x400_0000
    requires y0 < 5 * 0x400_0000 && y1 < 5 * 0x400_0000 && y2 < 5 * 0x400_0000 && y3 < 5 * 0x400_0000 && y4 < 5 * 0x400_0000
    ensures Dot(x0, y0, x1, y1, x2, y2, x3, y3, x4, y4) == Prod(x0, y0) + Prod(x1, y1) + Prod(x2, y2) + Prod(x3, y3) + Prod(x4, y4)
    ensures Dot(x0, y0, x1, y1, x2, y2, x3, y3, x4, y4) < 25 * 0x10_0000_0000_0000
  {
    hide Times, Sum, Prod;
    TimesExact(x0, y0);
    TimesExact(x1, y1);
    TimesExact(x2, y2);
    TimesExact(x3, y3);
    TimesExact(x4, y4);
    SumExact(Times(x0, y0), Times(x1, y1));
    SumExact(Times(x0, y0) + Times(x1, y1), Times(x2, y2));
    SumExact(Times(x0, y0) + Times(x1, y1) + Times(x2, y2), Times(x3, y3));
    SumExact(Times(x0, y0) + Times(x1, y1) + Times(x2, y2) + Times(x3, y3), Times(x4, y4));
  }

  lemma ProdBelow(x: nat, y: nat, a: nat, b: nat)
    requires x < a && y < b
    ensures Prod(x, y) < a * b
  {
    MulMonotonic(x, y, b);
    MulMonotonic(b, x, a - 1);
  }

  lemma ProdCommutes(x: int, y: int)
    ensures Prod(x, y) == Prod(y, x)
  {
  }

  lemma CarryStep(x: uint64, y: nat)
    requires x < 25 * 0x10_0000_0000_0000 && y < 26 * 0x10_0000_0000_0000
    ensures Sum(x, High26(y)) == x + High26(y) && High26(y) < 0x6800_0000
  {
  }

  lemma LastCarry(x: nat, d4: nat)
    requires d4 < 7 * 0x8_0000_0000_0000 + 0x6800_0000
    ensures Sum(Low26(x), Times(High26(d4), 5)) == Low26(x) + 5 * High26(d4) < 19 * 0x400_0000
  {
  }

  lemma TopUp(x: nat, d0: nat)
    requires d0 < 19 * 0x400_0000
    ensures Sum(Low26(x), High26(d0)) == Low26(x) + High26(d0) < 0x400_0000 + 18
  {
  }

  /** Moving bits 26 and up of every limb one limb on leaves the value, except for what leaves the top. */
  lemma CarryKeepsValue(d0: nat, d1: nat, d2: nat, d3: nat, d4: nat)
    ensures var e1 := d1 + High26(d0);
            var e2 := d2 + High26(e1);
            var e3 := d3 + High26(e2);
            var e4 := d4 + High26(e3);
            var e0 := Low26(d0) + 5 * High26(e4);
            Value5(Low26(e0), Low26(e1) + High26(e0), Low26(e2), Low26(e3), Low26(e4))
            == Value5(d0, d1, d2, d3, d4) - TimesP(High26(e4))
  {
  }

  /**
   Carrying loses no bit, leaves four limbs below 2^26 and the second below 2^26 + 18, and keeps
   the value modulo 2^130 - 5.
   */
  lemma CarriedExact(d: Limbs) returns (c: nat)
    requires d.v0 < 25 * 0x10_0000_0000_0000 && d.v1 < 25 * 0x10_0000_0000_0000 && d.v2 < 25 * 0x10_0000_0000_0000
    requires d.v3 < 25 * 0x10_0000_0000_0000 && d.v4 < 7 * 0x8_0000_0000_0000
    ensures var e := Carried(d);
            && e.v0 < 0x400_0000 && e.v1 < 0x400_0000 + 18 && e.v2 < 0x400_0000 && e.v3 < 0x400_0000 && e.v4 < 0x400_0000
            && Value(e) == Value(d) - TimesP(c)
  {
    hide Sum, Times, Low26, High26, Value5, TimesP;
    var d1 := d.v1 + High26(d.v0);
    CarryStep(d.v1, d.v0);
    var d2 := d.v2 + High26(d1);
    CarryStep(d.v2, d1);
    var d3 := d.v3 + High26(d2);
    CarryStep(d.v3, d2);
    var d4 := d.v4 + High26(d3);
    CarryStep(d.v4, d3);
    var d0 := Low26(d.v0) + 5 * High26(d4);
    LastCarry(d.v0, d4);
    TopUp(d1, d0);
    CarryKeepsValue(d.v0, d.v1, d.v2, d.v3, d.v4);
    c := High26(d4);
  }

  // ---------------------------------------------------------------- the product modulo p

  lemma Distribute(x: int, v0: int, v1: int, v2: int, v3: int, v4: int)
    ensures Prod(x, Value5(v0, v1, v2, v3, v4)) == Value5(Prod(x, v0), Prod(x, v1), Prod(x, v2), Prod(x, v3), Prod(x, v4))
  {
  }

  lemma ProductRows(h: Limbs, r: Limbs)
    ensures Prod(Value(h), Value(r))
         == Value5(Prod(h.v0, Value(r)), Prod(h.v1, Value(r)), Prod(h.v2, Value(r)), Prod(h.v3, Value(r)), Prod(h.v4, Value(r)))
  {
    hide Prod, Value5;
    var v := Value(r);
    ProdCommutes(Value(h), v);
    Distribute(v, h.v0, h.v1, h.v2, h.v3, h.v4);
    ProdCommutes(v, h.v0);
    ProdCommutes(v, h.v1);
    ProdCommutes(v, h.v2);
    ProdCommutes(v, h.v3);
    ProdCommutes(v, h.v4);
  }

  /** Products of weight 2^130 and above come back times 5. */
  lemma FoldHighProducts(p00: int, p01: int, p02: int, p03: int, p04: int,
                         p10: int, p11: int, p12: int, p13: int, p14: int,
                         p20: int, p21: int, p22: int, p23: int, p24: int,
                         p30: int, p31: int, p32: int, p33: int, p34: int,
                         p40: int, p41: int, p42: int, p43: int, p44: int)
    ensures Value5(Value5(p00, p01, p02, p03, p04),
                   Value5(p10, p11, p12, p13, p14),
                   Value5(p20, p21, p22, p23, p24),
                   Value5(p30, p31, p32, p33, p34),
                   Value5(p40, p41, p42, p43, p44))
         == Value5(p00 + 5 * p14 + 5 * p23 + 5 * p32 + 5 * p41,
                   p01 + p10 + 5 * p24 + 5 * p33 + 5 * p42,
                   p02 + p11 + p20 + 5 * p34 + 5 * p43,
                   p03 + p12 + p21 + p30 + 5 * p44,
                   p04 + p13 + p22 + p31 + p40)
            + TimesP(Value5(p14 + p23 + p32 + p41, p24 + p33 + p42, p34 + p43, p44, 0))
  {
  }

  lemma ProdFive(x: int, y: int)
    ensures Prod(x, 5 * y) == 5 * Prod(x, y)
  {
  }

  /** The five columns, with no overflow, hold the product up to a multiple of p. */
  lemma ColumnsExact(h: Limbs, r: Limbs) returns (c: int)
    requires InRange(h) && InRange(r)
    ensures var d := Columns(h, r);
            && d.v0 < 25 * 0x10_0000_0000_0000 && d.v1 < 25 * 0x10_0000_0000_0000 && d.v2 < 25 * 0x10_0000_0000_0000
            && d.v3 < 25 * 0x10_0000_0000_0000
            && Prod(Value(h), Value(r)) == Value(d) + TimesP(c)
  {
    hide Prod, Value5, TimesP, Dot, Times;
    FiveTimes(r.v1);
    FiveTimes(r.v2);
    FiveTimes(r.v3);
    FiveTimes(r.v4);
    ColumnSums(h, r);
    ProductRows(h, r);
    Distribute(h.v0, r.v0, r.v1, r.v2, r.v3, r.v4);
    Distribute(h.v1, r.v0, r.v1, r.v2, r.v3, r.v4);
    Distribute(h.v2, r.v0, r.v1, r.v2, r.v3, r.v4);
    Distribute(h.v3, r.v0, r.v1, r.v2, r.v3, r.v4);
    Distribute(h.v4, r.v0, r.v1, r.v2, r.v3, r.v4);
    FoldHighProducts(Prod(h.v0, r.v0), Prod(h.v0, r.v1), Prod(h.v0, r.v2), Prod(h.v0, r.v3), Prod(h.v0, r.v4),
      Prod(h.v1, r.v0), Prod(h.v1, r.v1), Prod(h.v1, r.v2), Prod(h.v1, r.v3), Prod(h.v1, r.v4),
      Prod(h.v2, r.v0), Prod(h.v2, r.v1), Prod(h.v2, r.v2), Prod(h.v2, r.v3), Prod(h.v2, r.v4),
      Prod(h.v3, r.v0), Prod(h.v3, r.v1), Prod(h.v3, r.v2), Prod(h.v3, r.v3), Prod(h.v3, r.v4),
      Prod(h.v4, r.v0), Prod(h.v4, r.v1), Prod(h.v4, r.v2), Prod(h.v4, r.v3), Prod(h.v4, r.v4));
    c := Value5(Prod(h.v1, r.v4) + Prod(h.v2, r.v3) + Prod(h.v3, r.v2) + Prod(h.v4, r.v1),
                Prod(h.v2, r.v4) + Prod(h.v3, r.v3) + Prod(h.v4, r.v2),
                Prod(h.v3, r.v4) + Prod(h.v4, r.v3),
                Prod(h.v4, r.v4),
                0);
  }

  lemma ColumnSums(h: Limbs, r: Limbs)
    requires InRange(h) && InRange(r)
    ensures var d := Columns(h, r);
            && d.v0 == Prod(h.v0, r.v0) + 5 * Prod(h.v1, r.v4) + 5 * Prod(h.v2, r.v3) + 5 * Prod(h.v3, r.v2) + 5 * Prod(h.v4, r.v1)
            && d.v1 == Prod(h.v0, r.v1) + Prod(h.v1, r.v0) + 5 * Prod(h.v2, r.v4) + 5 * Prod(h.v3, r.v3) + 5 * Prod(h.v4, r.v2)
            && d.v2 == Prod(h.v0, r.v2) + Prod(h.v1, r.v1) + Prod(h.v2, r.v0) + 5 * Prod(h.v3, r.v4) + 5 * Prod(h.v4, r.v3)
            && d.v3 == Prod(h.v0, r.v3) + Prod(h.v1, r.v2) + Prod(h.v2, r.v1) + Prod(h.v3, r.v0) + 5 * Prod(h.v4, r.v4)
            && d.v4 == Prod(h.v0, r.v4) + Prod(h.v1, r.v3) + Prod(h.v2, r.v2) + Prod(h.v3, r.v1) + Prod(h.v4, r.v0)
            && d.v0 < 25 * 0x10_0000_0000_0000 && d.v1 < 25 * 0x10_0000_0000_0000 && d.v2 < 25 * 0x10_0000_0000_0000
            && d.v3 < 25 * 0x10_0000_0000_0000
  {
    hide Prod, Dot, Times;
    var s1, s2, s3, s4 := 5 * r.v1, 5 * r.v2, 5 * r.v3, 5 * r.v4;
    FiveTimes(r.v1);
    FiveTimes(r.v2);
    FiveTimes(r.v3);
    FiveTimes(r.v4);
    DotExact(h.v0, r.v0, h.v1, s4, h.v2, s3, h.v3, s2, h.v4, s1);
    DotExact(h.v0, r.v1, h.v1, r.v0, h.v2, s4, h.v3, s3, h.v4, s2);
    DotExact(h.v0, r.v2, h.v1, r.v1, h.v2, r.v0, h.v3, s4, h.v4, s3);
    DotExact(h.v0, r.v3, h.v1, r.v2, h.v2, r.v1, h.v3, r.v0, h.v4, s4);
    DotExact(h.v0, r.v4, h.v1, r.v3, h.v2, r.v2, h.v3, r.v1, h.v4, r.v0);
    ProdFive(h.v1, r.v4);
    ProdFive(h.v2, r.v3);
    ProdFive(h.v3, r.v2);
    ProdFive(h.v4, r.v1);
    ProdFive(h.v2, r.v4);
    ProdFive(h.v3, r.v3);
    ProdFive(h.v4, r.v2);
    ProdFive(h.v3, r.v4);
    ProdFive(h.v4, r.v3);
    ProdFive(h.v4, r.v4);
  }

  /** The top column has no factor 5, and its outer products involve a 24-bit limb. */
  lemma TopColumn(h: Limbs, r: Limbs)
    requires InRange(h) && InRange(r)
    ensures Columns(h, r).v4 < 7 * 0x8_0000_0000_0000
  {
    hide Prod, Columns;
    ColumnSums(h, r);
    ProdCommutes(h.v0, r.v4);
    ProdBelow(r.v4, h.v0, 0x100_0000, 0x400_0000);
    ProdBelow(h.v1, r.v3, 0x400_0000, 0x400_0000);
    ProdBelow(h.v2, r.v2, 0x400_0000, 0x400_0000);
    ProdBelow(h.v3, r.v1, 0x400_0000, 0x400_0000);
    ProdBelow(h.v4, r.v0, 0x100_0000, 0x400_0000);
  }

  lemma AddMultipleOfP(x: int, c: int)
    ensures Congruent(x + TimesP(c), x)
  {
    var q := x / P;
    assert x + TimesP(c) == P * (q + c) + x % P;
    DivModUnique(x + TimesP(c), P, q + c, x % P);
  }

  /**
   For all operands: the carried limbs are congruent to the product modulo 2^130 - 5 (section 2.5
   of RFC 8439); four of them are below 2^26 and the second is below 2^26 + 18.
   */
  lemma MulCorrect(h: Limbs, r: Limbs)
    requires InRange(h) && InRange(r)
    ensures var d := MulLimbs(h, r);
            && Congruent(Value(d), Value(h) * Value(r))
            && d.v0 < 0x400_0000 && d.v1 < 0x400_0000 + 18 && d.v2 < 0x400_0000 && d.v3 < 0x400_0000 && d.v4 < 0x400_0000
  {
    var d := MulUpToP(h, r);
    hide MulLimbs, Value, Congruent, TimesP;
    UpToP(Value(h) * Value(r), Value(MulLimbs(h, r)), d);
  }

  /** The product and the carried limbs differ by a multiple of p. */
  lemma MulUpToP(h: Limbs, r: Limbs) returns (c: int)
    requires InRange(h) && InRange(r)
    ensures var d := MulLimbs(h, r);
            && Value(h) * Value(r) == Value(d) + TimesP(c)
            && d.v0 < 0x400_0000 && d.v1 < 0x400_0000 + 18 && d.v2 < 0x400_0000 && d.v3 < 0x400_0000 && d.v4 < 0x400_0000
  {
    hide Columns, Carried, TimesP, Value5;
    var e := ColumnsExact(h, r);
    TopColumn(h, r);
    var f := CarriedExact(Columns(h, r));
    c := e + f;
    TimesPSum(e, f);
  }

  lemma TimesPSum(x: int, y: int)
    ensures TimesP(x + y) == TimesP(x) + TimesP(y)
  {
  }

  lemma UpToP(x: int, y: int, c: int)
    requires x == y + TimesP(c)
    ensures Congruent(y, x)
  {
    AddMultipleOfP(y, c);
    hide TimesP;
  }

  // ---------------------------------------------------------------- back to bytes

  /** One output word: the tail of one limb and the head of the next, combined with `|`. */
  function Pack(x: nat, y: nat, shift: nat): (w: uint32)
  {
    Pow2Of32();
    OrBound(Wrap32(x), Wrap32(y * shift), 32);
    Or(Wrap32(x), Wrap32(y * shift))
  }

  function Packed(d: Limbs): (w: seq<uint32>)
    ensures |w| == 4
  {
    [Pack(d.v0, d.v1, 0x400_0000), Pack(d.v1 / 0x40, d.v2, 0x10_0000), Pack(d.v2 / 0x1000, d.v3, 0x4000),
     Pack(d.v3 / 0x4_0000, d.v4, 0x100)]
  }

  /** poly1305_mul on values. */
  function Mul(h: seq<byte>, r: seq<byte>): (s: seq<byte>)
    requires |h| == 16 && |r| == 16
    ensures |s| == 16
  {
    BytesOfWords(Packed(MulLimbs(Split(h), Split(r))))
  }

  function Value4(w0: int, w1: int, w2: int, w3: int): int {
    w0 + 0x1_0000_0000 * (w1 + 0x1_0000_0000 * (w2 + 0x1_0000_0000 * w3))
  }

  /** The number four words stand for, lowest first. */
  function WordsValue(w: seq<uint32>): int
    requires |w| == 4
  {
    Value4(w[0], w[1], w[2], w[3])
  }

  function Up(z: nat, k: nat): nat { Pow2(k) * z }

  function Head(x: nat, k: nat): nat { Quotient(x, Pow2(k)) }

  function Tail(x: nat, k: nat): nat { x % Pow2(k) }

  lemma OneBit(x: nat, k: nat)
    ensures Up(x, k + 1) == 2 * Up(x, k)
    ensures Head(x, k + 1) == Head(x / 2, k)
    ensures Tail(x, k + 1) == x % 2 + 2 * Tail(x / 2, k)
  {
    ModStep(x, 2, Pow2(k));
    MulAssociates(2, Pow2(k), x);
  }

  lemma OrDoubled(x: nat, y: nat)
    ensures Or(x, 2 * y) == x % 2 + 2 * Or(x / 2, y)
  {
    OrStep(x, 2 * y);
    hide Or;
  }

  /** The low part of `x` is kept, the rest is combined with `z`. */
  lemma {:induction false} OrParts(x: nat, z: nat, k: nat)
    ensures Or(x, Up(z, k)) == Tail(x, k) + Up(Or(Head(x, k), z), k)
  {
    hide Or;
    if k > 0 {
      hide Up, Head, Tail;
      OrParts(x / 2, z, k - 1);
      OneBit(x, k - 1);
      OneBit(z, k - 1);
      OneBit(Or(Head(x, k), z), k - 1);
      OrDoubled(x, Up(z, k - 1));
    }
  }

  /** A word packed from `x` and the limb `y`, shifted left by `k` and truncated to 32 bits. */
  lemma PackIs(x: uint32, y: nat, k: nat, m: nat)
    requires k + m == 32
    ensures Pack(x, y, Pow2(k)) == Tail(x, k) + Up(Or(Head(x, k), Tail(y, m)), k)
  {
    hide Or, Pow2;
    Pow2Of32();
    Pow2Sum(k, m);
    ShiftedPart(y, Pow2(k), Pow2(m));
    OrParts(x, Tail(y, m), k);
    SmallMod(x, 0x1_0000_0000);
  }

  lemma PackDisjoint(x: uint32, y: nat, k: nat, m: nat)
    requires k + m == 32 && x < Pow2(k)
    ensures Pack(x, y, Pow2(k)) == x + Up(Tail(y, m), k)
  {
    hide Or, Pow2, Pack;
    PackIs(x, y, k, m);
    SmallMod(x, Pow2(k));
    OrZero(Tail(y, m));
  }

  lemma LimbPowers()
    ensures Pow2(26) == 0x400_0000 && Pow2(6) == 0x40 && Pow2(20) == 0x10_0000 && Pow2(12) == 0x1000
    ensures Pow2(14) == 0x4000 && Pow2(18) == 0x4_0000 && Pow2(8) == 0x100 && Pow2(24) == 0x100_0000
  {
    assert Pow2(6) == 0x40;
    Pow2Sum(6, 6);
    Pow2Sum(6, 8);
    Pow2Sum(6, 12);
    Pow2Sum(6, 14);
    Pow2Sum(6, 18);
    Pow2Sum(6, 20);
  }

  lemma OrOne(x: nat)
    ensures Or(1, x) == if x % 2 == 1 then x else x + 1
  {
    OrStep(1, x);
    OrZero(x / 2);
  }

  /** Whether the second word has to hold the same bit twice. */
  predicate Overlaps(d: Limbs) {
    d.v1 >= 0x400_0000 && d.v2 % 2 == 1
  }

  lemma FirstWord(d: Limbs)
    requires d.v0 < 0x400_0000
    ensures Packed(d)[0] == d.v0 + 0x400_0000 * (d.v1 % 0x40)
  {
    hide Pow2, Pack;
    LimbPowers();
    PackDisjoint(d.v0, d.v1, 26, 6);
  }

  lemma SecondWord(d: Limbs)
    requires d.v1 < 0x800_0000
    ensures Packed(d)[1] == d.v1 / 0x40 + 0x10_0000 * (d.v2 % 0x1000) - if Overlaps(d) then 0x10_0000 else 0
  {
    hide Pow2, Pack, Or;
    LimbPowers();
    var x := d.v1 / 0x40;
    PackIs(x, d.v2, 20, 12);
    OrZero(d.v2 % 0x1000);
    OrOne(d.v2 % 0x1000);
    assert d.v2 % 0x1000 % 2 == d.v2 % 2;
    assert Head(x, 20) == if d.v1 >= 0x400_0000 then 1 else 0;
  }

  lemma OtherWords(d: Limbs)
    requires d.v2 < 0x400_0000 && d.v3 < 0x400_0000
    ensures Packed(d)[2] == d.v2 / 0x1000 + 0x4000 * (d.v3 % 0x4_0000)
    ensures Packed(d)[3] == d.v3 / 0x4_0000 + 0x100 * (d.v4 % 0x100_0000)
  {
    hide Pow2, Pack;
    LimbPowers();
    PackDisjoint(d.v2 / 0x1000, d.v3, 14, 18);
    PackDisjoint(d.v3 / 0x4_0000, d.v4, 8, 24);
  }

  /** Regrouping 26-bit limbs as 32-bit words. */
  lemma Regrouped(d0: nat, d1: nat, d2: nat, d3: nat, d4: nat)
    ensures Value4(d0 + 0x400_0000 * (d1 % 0x40), d1 / 0x40 + 0x10_0000 * (d2 % 0x1000),
                   d2 / 0x1000 + 0x4000 * (d3 % 0x4_0000), d3 / 0x4_0000 + 0x100 * (d4 % 0x100_0000))
         == Value5(d0, d1, d2, d3, d4) - 0x1_0000_0000_0000_0000_0000_0000_0000_0000 * (d4 / 0x100_0000)
  {
  }

  /**
   The sixteen bytes written keep the carried limbs modulo 2^128 exactly when the 27th bit of the
   second limb, where the last carry may end up, does not meet a one in the third.
   */
  lemma PackedValue(d: Limbs)
    requires d.v0 < 0x400_0000 && d.v1 < 0x800_0000 && d.v2 < 0x400_0000 && d.v3 < 0x400_0000
    ensures WordsValue(Packed(d)) == Value(d) % 0x1_0000_0000_0000_0000_0000_0000_0000_0000 <==> !Overlaps(d)
  {
    FirstWord(d);
    SecondWord(d);
    OtherWords(d);
    var w := Packed(d);
    hide Packed;
    Regrouped(d.v0, d.v1, d.v2, d.v3, d.v4);
    var lost := if Overlaps(d) then 0x10_0000 else 0;
    Value4Minus(w[0], w[1], w[2], w[3], lost);
    ReducedIs(WordsValue(w), Value(d), d.v4 / 0x100_0000, 0x1_0000_0000 * lost);
  }

  lemma Value4Minus(w0: uint32, w1: uint32, w2: uint32, w3: uint32, lost: nat)
    ensures Value4(w0, w1 + lost, w2, w3) == Value4(w0, w1, w2, w3) + 0x1_0000_0000 * lost
    ensures 0 <= Value4(w0, w1, w2, w3) < 0x1_0000_0000_0000_0000_0000_0000_0000_0000
  {
  }

  lemma ReducedIs(x: nat, v: int, q: nat, lost: nat)
    requires x < 0x1_0000_0000_0000_0000_0000_0000_0000_0000 && lost < 0x1_0000_0000_0000_0000_0000_0000_0000_0000
    requires x + lost == v - 0x1_0000_0000_0000_0000_0000_0000_0000_0000 * q
    ensures x == v % 0x1_0000_0000_0000_0000_0000_0000_0000_0000 <==> lost == 0
  {
  }

  // ---------------------------------------------------------------- the tag

  /** The multiplier: the first sixteen key bytes with 22 bits cleared, at the byte positions of a little-endian number. */
  function ClampedKey(key: seq<byte>): (r: seq<byte>)
    requires |key| >= 32
    ensures |r| == 16
  {
    key[..16][3 := Masked(key[3], 0x0f)][4 := Masked(key[4], 0xfc)][7 := Masked(key[7], 0x0f)][8 := Masked(key[8], 0xfc)]
    [11 := Masked(key[11], 0x0f)][12 := Masked(key[12], 0xfc)][15 := Masked(key[15], 0x0f)]
  }

  function Masked(x: byte, mask: byte): byte {
    AndBound(x, mask);
    And(x, mask)
  }

  /** Block `k` of the data; a last, shorter block is followed by a one, a full block is not. */
  function DataBlock(data: seq<byte>, k: nat): (b: seq<byte>)
    requires 16 * k < |data|
    ensures |b| == 16
  {
    seq(16, j requires 0 <= j < 16 =>
      if 16 * k + j < |data| then data[16 * k + j] else if 16 * k + j == |data| then 1 else 0)
  }

  /** Multiply, then add the next block in, `n` times. */
  function Absorbed(h: seq<byte>, r: seq<byte>, data: seq<byte>, n: nat): (s: seq<byte>)
    requires |h| == 16 && |r| == 16 && 16 * n < |data| + 16
    ensures |s| == 16
  {
    if n == 0 then h else XorBytes(Mul(Absorbed(h, r, data, n - 1), r), DataBlock(data, n - 1))
  }

  function AbsorbedAll(h: seq<byte>, r: seq<byte>, data: seq<byte>): (s: seq<byte>)
    requires |h| == 16 && |r| == 16
    ensures |s| == 16
  {
    Absorbed(h, r, data, (|data| + 15) / 16)
  }

  /** Bytewise sums modulo 256. */
  function SumBytes(x: seq<byte>, y: seq<byte>): (s: seq<byte>)
    requires |x| == 16 && |y| == 16
    ensures |s| == 16
  {
    seq(16, i requires 0 <= i < 16 => SumByte(x[i], y[i]))
  }

  /** poly1305_mac on values. */
  function Tag(key: seq<byte>, data: seq<byte>): (t: seq<byte>)
    requires |key| >= 32
    ensures |t| == 16
  {
    var r := ClampedKey(key);
    SumBytes(Mul(AbsorbedAll(Zeros(16), r, data), r), key[16..32])
  }

  lemma {:induction false} AbsorbedPrefix(h: seq<byte>, r: seq<byte>, x: seq<byte>, y: seq<byte>, n: nat)
    requires |h| == 16 && |r| == 16 && |x| % 16 == 0 && 16 * n <= |x|
    ensures Absorbed(h, r, x + y, n) == Absorbed(h, r, x, n)
  {
    hide Mul, XorBytes;
    if n > 0 {
      AbsorbedPrefix(h, r, x, y, n - 1);
      assert DataBlock(x + y, n - 1) == DataBlock(x, n - 1);
    }
  }

  lemma {:induction false} AbsorbedRest(h: seq<byte>, r: seq<byte>, x: seq<byte>, y: seq<byte>, n: nat)
    requires |h| == 16 && |r| == 16 && |x| % 16 == 0 && 16 * n < |y| + 16
    ensures Absorbed(h, r, x + y, |x| / 16 + n) == Absorbed(AbsorbedAll(h, r, x), r, y, n)
  {
    hide Mul, XorBytes;
    var k := |x| / 16;
    if n > 0 {
      AbsorbedRest(h, r, x, y, n - 1);
      assert DataBlock(x + y, k + n - 1) == DataBlock(y, n - 1);
    } else {
      AbsorbedPrefix(h, r, x, y, k);
      assert (|x| + 15) / 16 == k;
    }
  }

  /** Absorbing can be resumed at any block boundary. */
  lemma AbsorbingResumes(h: seq<byte>, r: seq<byte>, x: seq<byte>, y: seq<byte>)
    requires |h| == 16 && |r| == 16 && |x| % 16 == 0
    ensures AbsorbedAll(h, r, x + y) == AbsorbedAll(AbsorbedAll(h, r, x), r, y)
  {
    hide Absorbed;
    AbsorbedRest(h, r, x, y, (|y| + 15) / 16);
    assert (|x + y| + 15) / 16 == |x| / 16 + (|y| + 15) / 16;
  }

  // ---------------------------------------------------------------- a run in which the packing loses a bit

  /** The bytes poly1305_mul writes for these limbs are not the limbs modulo 2^128. */
  ghost predicate Lossy(d: Limbs) {
    Overlaps(d) && WordsValue(Packed(d)) != Value(d) % 0x1_0000_0000_0000_0000_0000_0000_0000_0000
  }

  /** A key whose clamped multiplier is a single bit, and a block of ones. */
  const ONE_BIT: seq<byte> := [0, 0, 1, 0, 0, 0, 0, 0, 0, 0, 0, 0, 0, 0, 0, 0]
  const ONES: seq<byte> :=
    [0xff, 0xff, 0xff, 0xff, 0xff, 0xff, 0xff, 0xff, 0xff, 0xff, 0xff, 0xff, 0xff, 0xff, 0xff, 0xff]

  lemma SplitOnes()
    ensures Split(ONES) == Limbs(0x3ff_ffff, 0x3ff_ffff, 0x3ff_ffff, 0x3ff_ffff, 0xff_ffff)
  {
    hide Load32;
    Load32Is(ONES, 0, 0xffff_ffff);
    Load32Is(ONES, 3, 0xffff_ffff);
    Load32Is(ONES, 6, 0xffff_ffff);
    Load32Is(ONES, 9, 0xffff_ffff);
    Load32Is(ONES, 12, 0xffff_ffff);
  }

  lemma SplitOneBit()
    ensures Split(ONE_BIT) == Limbs(256, 0, 0, 0, 0)
  {
    hide Load32;
    Load32Is(ONE_BIT, 0, 256);
    Load32Is(ONE_BIT, 3, 0);
    Load32Is(ONE_BIT, 6, 0);
    Load32Is(ONE_BIT, 9, 0);
    Load32Is(ONE_BIT, 12, 0);
  }

  lemma ProdOf(x: int)
    ensures Prod(x, 0) == 0 && Prod(x, 256) == 256 * x
  {
  }

  /** Under that multiplier every column is one limb times 256. */
  lemma ColumnsOfOneBit(h: Limbs)
    requires InRange(h)
    ensures Columns(h, Limbs(256, 0, 0, 0, 0))
         == Limbs(256 * (h.v0 as int), 256 * (h.v1 as int), 256 * (h.v2 as int), 256 * (h.v3 as int), 256 * (h.v4 as int))
  {
    hide Prod, Columns;
    ColumnSums(h, Limbs(256, 0, 0, 0, 0));
    ProdOf(h.v0);
    ProdOf(h.v1);
    ProdOf(h.v2);
    ProdOf(h.v3);
    ProdOf(h.v4);
  }

  lemma CarriesOfOnes()
    ensures Low26(0x3_ffff_ff00) == 0x3ff_ff00 && High26(0x3_ffff_ff00) == 255
    ensures Low26(0x3_ffff_ffff) == 0x3ff_ffff && High26(0x3_ffff_ffff) == 255
    ensures Low26(0xffff_ffff) == 0x3ff_ffff && High26(0xffff_ffff) == 63
    ensures Low26(0x400_003b) == 59 && High26(0x400_003b) == 1
  {
  }

  lemma CarriedOnes()
    ensures Carried(Limbs(0x3_ffff_ff00, 0x3_ffff_ff00, 0x3_ffff_ff00, 0x3_ffff_ff00, 0xffff_ff00))
         == Limbs(59, 0x400_0000, 0x3ff_ffff, 0x3ff_ffff, 0x3ff_ffff)
  {
    CarriesOfOnes();
    SumExact(0x3_ffff_ff00, 255);
    SumExact(0xffff_ff00, 255);
    FiveTimes(63);
    SumExact(0x3ff_ff00, 315);
    SumExact(0x3ff_ffff, 1);
    hide Sum, Times, Low26, High26;
  }

  lemma CarriedZero()
    ensures Carried(Limbs(0, 0, 0, 0, 0)) == Limbs(0, 0, 0, 0, 0)
  {
    assert Low26(0) == High26(0) == 0;
    SumExact(0, 0);
    FiveTimes(0);
    hide Sum, Times, Low26, High26;
  }

  lemma SplitZero(z: seq<byte>)
    requires |z| == 16 && forall i :: 0 <= i < 16 ==> z[i] == 0
    ensures Split(z) == Limbs(0, 0, 0, 0, 0)
  {
    hide Load32;
    Load32Is(z, 0, 0);
    Load32Is(z, 3, 0);
    Load32Is(z, 6, 0);
    Load32Is(z, 9, 0);
    Load32Is(z, 12, 0);
  }

  lemma PackedZero()
    ensures BytesOfWords(Packed(Limbs(0, 0, 0, 0, 0))) == Zeros(16)
  {
    var w := Packed(Limbs(0, 0, 0, 0, 0));
    assert Pack(0, 0, 0x400_0000) == Pack(0, 0, 0x10_0000) == Pack(0, 0, 0x4000) == Pack(0, 0, 0x100) == 0 by {
      OrZero(0);
    }
    assert w == [0, 0, 0, 0];
    assert BigEndian(0, 4) == [0, 0, 0, 0];
    hide Packed, BigEndian;
    assert w[..3][..2] == w[..2] && w[..2][..1] == w[..1] && w[..1][..0] == [];
    assert BytesOfWords(w[..1]) == Zeros(4);
    assert BytesOfWords(w[..2]) == Zeros(8);
    assert BytesOfWords(w[..3]) == Zeros(12);
  }

  lemma ZeroStays()
    ensures Mul(Zeros(16), ONE_BIT) == Zeros(16)
  {
    SplitZero(Zeros(16));
    SplitOneBit();
    ColumnsOfOneBit(Limbs(0, 0, 0, 0, 0));
    CarriedZero();
    PackedZero();
    hide Split, Columns, Carried, Packed, BytesOfWords;
  }

  /**
   Absorbing a block of ones under that key and multiplying again sets the overlapping bit, and
   the bytes written are not the limbs modulo 2^128.
   */
  lemma OverlapHappens(pad: seq<byte>)
    requires |pad| == 16
    ensures ClampedKey(ONE_BIT + pad) == ONE_BIT
    ensures AbsorbedAll(Zeros(16), ONE_BIT, ONES) == ONES
    ensures Lossy(MulLimbs(Split(ONES), Split(ONE_BIT)))
  {
    OneBitIsClamped(pad);
    OnesAbsorbed();
    ProductOfOnes();
    hide *;
  }

  lemma ProductOfOnes()
    ensures Lossy(MulLimbs(Split(ONES), Split(ONE_BIT)))
  {
    hide Columns, Carried, Split, Packed, WordsValue, Value;
    SplitOnes();
    SplitOneBit();
    ColumnsOfOneBit(Limbs(0x3ff_ffff, 0x3ff_ffff, 0x3ff_ffff, 0x3ff_ffff, 0xff_ffff));
    CarriedOnes();
    var d := MulLimbs(Split(ONES), Split(ONE_BIT));
    hide MulLimbs;
    assert d == Limbs(59, 0x400_0000, 0x3ff_ffff, 0x3ff_ffff, 0x3ff_ffff);
    PackedValue(d);
  }

  lemma OneBitIsClamped(pad: seq<byte>)
    requires |pad| == 16
    ensures ClampedKey(ONE_BIT + pad) == ONE_BIT
  {
    var key := ONE_BIT + pad;
    assert key[..16] == ONE_BIT;
    assert Masked(0, 0x0f) == Masked(0, 0xfc) == 0;
  }

  lemma OnesAbsorbed()
    ensures AbsorbedAll(Zeros(16), ONE_BIT, ONES) == ONES
  {
    ZeroStays();
    hide Mul, Xor;
    assert DataBlock(ONES, 0) == ONES;
    assert Absorbed(Zeros(16), ONE_BIT, ONES, 0) == Zeros(16);
    forall i | 0 <= i < 16
      ensures XorBytes(Zeros(16), ONES)[i] == ONES[i]
    {
      XorCommutes(0, 0xff);
      XorZero(0xff);
    }
  }

  // ---------------------------------------------------------------- shifts, masks and an example

  /** The limbs in the C operators: shifts right by 2, 4 and 6 bits, then the 26-bit mask. */
  lemma SplitMasks(s: seq<byte>)
    requires |s| == 16
    ensures Split(s).v0 == And(Load32(s, 0), 0x3ff_ffff) && Split(s).v1 == And(Load32(s, 3) / 4, 0x3ff_ffff)
    ensures Split(s).v2 == And(Load32(s, 6) / 16, 0x3ff_ffff) && Split(s).v3 == And(Load32(s, 9) / 64, 0x3ff_ffff)
    ensures Split(s).v4 == Load32(s, 12) / 256
  {
    hide And, Load32, Pow2;
    LimbPowers();
    AndMask(Load32(s, 0), 26);
    AndMask(Load32(s, 3) / 4, 26);
    AndMask(Load32(s, 6) / 16, 26);
    AndMask(Load32(s, 9) / 64, 26);
  }

  /** Seven bytes of the multiplier are masked, the others are the key's. */
  lemma ClampMasks(key: seq<byte>, i: nat)
    requires |key| >= 32 && i < 16
    ensures ClampedKey(key)[i] == if i in {3, 7, 11, 15} then And(key[i], 0x0f)
                                  else if i in {4, 8, 12} then And(key[i], 0xfc) else key[i]
  {
    hide And;
  }

  /** A block is the data at its place; the first byte missing from a short one is a one, the others are zeros. */
  lemma BlockBytes(data: seq<byte>, k: nat)
    requires 16 * k < |data|
    ensures |data| >= 16 * k + 16 ==> DataBlock(data, k) == data[16 * k..16 * k + 16]
    ensures |data| < 16 * k + 16 ==> DataBlock(data, k) == data[16 * k..] + [1] + Zeros(16 * k + 15 - |data|)
  {
  }

  lemma PackedOnes(d: Limbs)
    requires d.v0 == 59 && d.v1 == 0x400_0000 && d.v2 == d.v3 == d.v4 == 0x3ff_ffff
    ensures Packed(d)[0] == 59 && Packed(d)[1] == 0xfff0_0000 && Packed(d)[2] == Packed(d)[3] == 0xffff_ffff
  {
    hide Packed;
    FirstWord(d);
    SecondWord(d);
    OtherWords(d);
  }

  lemma FourWordBytes(w: seq<uint32>)
    requires |w| == 4
    ensures BytesOfWords(w) == BigEndian(w[0], 4) + BigEndian(w[1], 4) + BigEndian(w[2], 4) + BigEndian(w[3], 4)
  {
    hide BigEndian;
    assert w[..3][..2] == w[..2] && w[..2][..1] == w[..1] && w[..1][..0] == [];
    assert BytesOfWords(w[..1]) == BigEndian(w[0], 4);
    assert BytesOfWords(w[..2]) == BigEndian(w[0], 4) + BigEndian(w[1], 4);
    assert BytesOfWords(w[..3]) == BigEndian(w[0], 4) + BigEndian(w[1], 4) + BigEndian(w[2], 4);
  }

  lemma WordsOfExample()
    ensures BigEndian(59, 4) == [0, 0, 0, 0x3b] && BigEndian(0xfff0_0000, 4) == [0xff, 0xf0, 0, 0]
    ensures BigEndian(0xffff_ffff, 4) == [0xff, 0xff, 0xff, 0xff]
  {
  }

  lemma ProductBytes(i: nat)
    requires i < 16
    ensures Mul(ONES, ONE_BIT)[i] == if i == 3 then 0x3b else if i == 5 then 0xf0 else if i == 4 || i > 7 then 0xff else 0
  {
    hide Columns, Carried, Split, Packed, BytesOfWords, BigEndian;
    SplitOnes();
    SplitOneBit();
    ColumnsOfOneBit(Limbs(0x3ff_ffff, 0x3ff_ffff, 0x3ff_ffff, 0x3ff_ffff, 0xff_ffff));
    CarriedOnes();
    var d := MulLimbs(Split(ONES), Split(ONE_BIT));
    hide MulLimbs;
    PackedOnes(d);
    FourWordBytes(Packed(d));
    WordsOfExample();
  }

  /**
   The tag of a block of ones under a key whose multiplier is a single bit, byte by byte: the block
   times that bit as packed, plus the other half of the key.
   */
  lemma TagOfOnes(key: seq<byte>, ones: seq<byte>, i: nat)
    requires |key| >= 32 && |ones| == 16 && i < 16
    requires forall k :: 0 <= k < 16 ==> key[k] == (if k == 2 then 1 else 0) && ones[k] == 0xff
    ensures var x := if i == 3 then 0x3b else if i == 5 then 0xf0 else if i == 4 || i > 7 then 0xff else 0;
            Tag(key, ones)[i] == (x + (key[16 + i] as int)) % 256
  {
    hide *;
    ExampleInputs(key, ones);
    OneBitIsClamped(key[16..32]);
    SameClamp(key, ONE_BIT + key[16..32]);
    OnesAbsorbed();
    ProductBytes(i);
    TagIs(key, ones);
    SumAt(Mul(ONES, ONE_BIT), key[16..32], i);
  }

  lemma ExampleInputs(key: seq<byte>, ones: seq<byte>)
    requires |key| >= 32 && |ones| == 16
    requires forall k :: 0 <= k < 16 ==> key[k] == (if k == 2 then 1 else 0) && ones[k] == 0xff
    ensures ones == ONES && key[..16] == (ONE_BIT + key[16..32])[..16] == ONE_BIT
  {
  }

  lemma SameClamp(key: seq<byte>, other: seq<byte>)
    requires |key| >= 32 && |other| >= 32 && key[..16] == other[..16]
    ensures ClampedKey(key) == ClampedKey(other)
  {
    hide Masked;
    assert forall k :: 0 <= k < 16 ==> key[k] == key[..16][k] && other[k] == other[..16][k];
  }

  lemma TagIs(key: seq<byte>, data: seq<byte>)
    requires |key| >= 32
    ensures Tag(key, data) == SumBytes(Mul(AbsorbedAll(Zeros(16), ClampedKey(key), data), ClampedKey(key)), key[16..32])
  {
    hide SumBytes, Mul, AbsorbedAll, ClampedKey;
  }

  lemma SumAt(x: seq<byte>, y: seq<byte>, i: nat)
    requires |x| == |y| == 16 && i < 16
    ensures SumBytes(x, y)[i] == ((x[i] as int) + y[i]) % 256
  {
  }

  // ---------------------------------------------------------------- as coded

  /** poly1305_mul: `h` is replaced by the packed product. */
  method PolyMul(h: array<byte>, r: array<byte>)
    requires h.Length == 16 && r.Length == 16
    modifies h
    ensures h[..] == Mul(old(h[..]), old(r[..]))
  {
    hide Times, Sum, Low26, High26, Load32, Pack, BigEndian;
    var x := Split(h[..]);
    var y := Split(r[..]);
    var s1, s2, s3, s4 := Times(y.v1, 5), Times(y.v2, 5), Times(y.v3, 5), Times(y.v4, 5);
    var d0 := Dot(x.v0, y.v0, x.v1, s4, x.v2, s3, x.v3, s2, x.v4, s1);
    var d1 := Dot(x.v0, y.v1, x.v1, y.v0, x.v2, s4, x.v3, s3, x.v4, s2);
    var d2 := Dot(x.v0, y.v2, x.v1, y.v1, x.v2, y.v0, x.v3, s4, x.v4, s3);
    var d3 := Dot(x.v0, y.v3, x.v1, y.v2, x.v2, y.v1, x.v3, y.v0, x.v4, s4);
    var d4 := Dot(x.v0, y.v4, x.v1, y.v3, x.v2, y.v2, x.v3, y.v1, x.v4, y.v0);
    hide Dot, Split;
    var d := Carry(d0, d1, d2, d3, d4);
    assert d == MulLimbs(x, y);
    var w := Packed(d);
    var out := BytesOfWords(w);
    forall i | 0 <= i < 16 {
      h[i] := out[i];
    }
    assert h[..] == out;
  }

  /** The carry chain of poly1305_mul. */
  method Carry(a0: uint64, a1: uint64, a2: uint64, a3: uint64, a4: uint64) returns (d: Limbs)
    ensures d == Carried(Limbs(a0, a1, a2, a3, a4))
  {
    hide Sum, Times, Low26, High26;
    var d0, d1, d2, d3, d4 := a0, a1, a2, a3, a4;
    var carry := High26(d0);
    d0 := Low26(d0);
    d1 := Sum(d1, carry);
    carry := High26(d1);
    d1 := Low26(d1);
    d2 := Sum(d2, carry);
    carry := High26(d2);
    d2 := Low26(d2);
    d3 := Sum(d3, carry);
    carry := High26(d3);
    d3 := Low26(d3);
    d4 := Sum(d4, carry);
    carry := High26(d4);
    d4 := Low26(d4);
    d0 := Sum(d0, Times(carry, 5));
    carry := High26(d0);
    d0 := Low26(d0);
    d1 := Sum(d1, carry);
    d := Limbs(d0, d1, d2, d3, d4);
  }

  /** The multiplier read from the key, with the masks of the source. */
  method Clamp(key: array<byte>) returns (r: array<byte>)
    requires key.Length >= 32
    ensures fresh(r) && r.Length == 16 && r[..] == ClampedKey(key[..])
  {
    hide Masked;
    r := new byte[16](i requires 0 <= i < 16 reads key => key[i]);
    assert r[..] == key[..16];
    r[3] := Masked(r[3], 0x0f);
    r[4] := Masked(r[4], 0xfc);
    r[7] := Masked(r[7], 0x0f);
    r[8] := Masked(r[8], 0xfc);
    r[11] := Masked(r[11], 0x0f);
    r[12] := Masked(r[12], 0xfc);
    r[15] := Masked(r[15], 0x0f);
  }

  /** Clear the first sixteen bytes, copy the data, put a one behind it. */
  method FillBlock(block: array<byte>, data: array<byte>, offset: nat, blockSize: nat)
    requires block.Length == 17 && blockSize <= 16 && offset + blockSize <= data.Length && block != data
    modifies block
    ensures forall j :: 0 <= j < 16 ==> block[j] == if j < blockSize then data[offset + j] else if j == blockSize then 1 else 0
  {
    forall j | 0 <= j < 16 {
      block[j] := 0;
    }
    forall j | 0 <= j < blockSize {
      block[j] := data[offset + j];
    }
    block[blockSize] := 1;
  }

  method FoldBlock(h: array<byte>, block: array<byte>)
    requires h.Length == 16 && block.Length == 17 && h != block
    modifies h
    ensures h[..] == XorBytes(old(h[..]), block[..16])
  {
    ghost var b := block[..16];
    for i := 0 to 16
      invariant forall j :: 0 <= j < i ==> h[j] == XorByte(old(h[j]), b[j])
      invariant forall j :: i <= j < 16 ==> h[j] == old(h[j])
      invariant block[..16] == b
    {
      h[i] := XorByte(h[i], block[i]);
    }
  }

  method Finish(h: array<byte>, pad: array<byte>, tag: array<byte>)
    requires h.Length == 16 && pad.Length == 16 && tag.Length >= 16 && h != pad && h != tag && pad != tag
    modifies h, tag
    ensures tag[..16] == SumBytes(old(h[..]), pad[..]) && tag[16..] == old(tag[16..])
  {
    ghost var x := h[..];
    for i := 0 to 16
      invariant forall j :: 0 <= j < i ==> tag[j] == SumByte(x[j], pad[j])
      invariant forall j :: i <= j < 16 ==> h[j] == x[j]
      invariant tag[16..] == old(tag[16..]) && pad[..] == old(pad[..])
    {
      h[i] := SumByte(h[i], pad[i]);
      tag[i] := h[i];
    }
  }

  /** One turn of the loop of poly1305_mac. */
  method AbsorbNext(h: array<byte>, r: array<byte>, block: array<byte>, data: array<byte>, offset: nat, len: nat,
                    ghost d: seq<byte>, ghost n: nat)
    returns (blockSize: nat)
    requires h.Length == 16 && r.Length == 16 && block.Length == 17 && len <= data.Length
    requires h != r && h != block && h != data && block != r && block != data
    requires offset == 16 * n < len && d == data[..len]
    modifies h, block
    ensures blockSize == if len - offset < 16 then len - offset else 16
    ensures h[..] == XorBytes(Mul(old(h[..]), r[..]), DataBlock(d, n))
  {
    hide Mul, XorBytes;
    blockSize := if len - offset < 16 then len - offset else 16;
    FillBlock(block, data, offset, blockSize);
    assert block[..16] == DataBlock(d, n);
    hide DataBlock;
    PolyMul(h, r);
    FoldBlock(h, block);
  }

  /** poly1305_mac; its scratch block needs a seventeenth byte for the one after a full block. */
  method PolyMac(key: array<byte>, data: array<byte>, len: nat, tag: array<byte>)
    requires key.Length >= 32 && len <= data.Length && tag.Length >= 16
    modifies tag
    ensures tag[..16] == Tag(old(key[..]), old(data[..len]))
    ensures tag[16..] == old(tag[16..])
  {
    hide Mul, XorBytes, ClampedKey, SumBytes, DataBlock;
    ghost var k, d, before := key[..], data[..len], tag[..];
    var r := Clamp(key);
    var h := new byte[16](_ => 0);
    var pad := new byte[16](i requires 0 <= i < 16 reads key => key[16 + i]);
    var block := new byte[17](_ => 0);
    assert h[..] == Zeros(16) && pad[..] == k[16..32];
    ghost var rk := r[..];
    var offset := 0;
    ghost var n := 0;
    while offset < len
      invariant 0 <= n && offset == (if 16 * n < len then 16 * n else len) && 16 * n < len + 16
      invariant h[..] == Absorbed(Zeros(16), rk, d, n)
      invariant r[..] == rk && data[..len] == d && pad[..] == k[16..32] && tag[..] == before
    {
      var blockSize := AbsorbNext(h, r, block, data, offset, len, d, n);
      offset := offset + blockSize;
      n := n + 1;
    }
    assert n == (len + 15) / 16;
    PolyMul(h, r);
    Finish(h, pad, tag);
  }
}
