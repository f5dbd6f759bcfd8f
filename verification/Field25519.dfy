/**
 Field arithmetic of X25519: five 64-bit limbs in radix 2^51, multiplied modulo
 2^255 - 19 with 128-bit accumulators. Every truncation the C types perform is written out.
 */
module Field25519 {
  import opened Bytes

  // 2^51, 2^54, 2^64, 2^108, 2^128 and 2^255 - 19 appear as literals below so that the
  // arithmetic stays linear for the verifier.
  const P: nat := 0x7fff_ffff_ffff_ffff_ffff_ffff_ffff_ffff_ffff_ffff_ffff_ffff_ffff_ffff_ffff_ffed

  /** The C struct fe. */
  type Fe = s: seq<uint64> | |s| == 5 witness [0, 0, 0, 0, 0]

  function Low51(x: nat): nat { x % 0x8_0000_0000_0000 }

  function High51(x: nat): nat { x / 0x8_0000_0000_0000 }

  function Wrap128(x: nat): nat { x % 0x1_0000_0000_0000_0000_0000_0000_0000_0000 }

  /** The number five limbs stand for. */
  function Value5(v0: int, v1: int, v2: int, v3: int, v4: int): int {
    v0 + 0x8_0000_0000_0000 * (v1 + 0x8_0000_0000_0000 * (v2 + 0x8_0000_0000_0000 * (v3 + 0x8_0000_0000_0000 * v4)))
  }

  function Value(f: Fe): int {
    Value5(f[0], f[1], f[2], f[3], f[4])
  }

  predicate Below54(f: Fe) {
    forall i :: 0 <= i < 5 ==> f[i] < 0x40_0000_0000_0000
  }

  function TimesP(x: int): int {
    0x7fff_ffff_ffff_ffff_ffff_ffff_ffff_ffff_ffff_ffff_ffff_ffff_ffff_ffff_ffff_ffed * x
  }

  predicate Congruent(x: int, y: int) {
    x % P == y % P
  }

  // ---------------------------------------------------------------- multiplication as coded

  /** One term added into accumulator `k`, in 128-bit arithmetic. */
  function Term(x: uint64, y: uint64, times19: bool): (t: nat)
    ensures t < 0x1_0000_0000_0000_0000_0000_0000_0000_0000
  {
    var product: nat := x * y;
    Wrap128(product * (if times19 then 19 else 1))
  }

  /** Accumulator `k` after the first `n` turns of the loop. */
  function Acc(a: Fe, b: Fe, k: nat, n: nat): (t: nat)
    requires k < 5 && n <= 5
  {
    if n == 0 then 0 else Wrap128(Acc(a, b, k, n - 1) + Term(a[n - 1], b[(k - (n - 1) + 5) % 5], n - 1 > k))
  }

  /** The output limbs: low 51 bits plus the truncated carry of the limb below. */
  function Carry(t0: nat, t1: nat, t2: nat, t3: nat, t4: nat): Fe {
    [Wrap64(Low51(t0) + 19 * Wrap64(High51(t4))),
     Wrap64(Low51(t1) + Wrap64(High51(t0))),
     Wrap64(Low51(t2) + Wrap64(High51(t1))),
     Wrap64(Low51(t3) + Wrap64(High51(t2))),
     Wrap64(Low51(t4) + Wrap64(High51(t3)))]
  }

  function Mul(a: Fe, b: Fe): Fe {
    Carry(Acc(a, b, 0, 5), Acc(a, b, 1, 5), Acc(a, b, 2, 5), Acc(a, b, 3, 5), Acc(a, b, 4, 5))
  }

  function LimbsOf(a: array<uint64>): Fe
    requires a.Length == 5
    reads a
  {
    a[..]
  }

  /** fe_mul: `out` may be the same array as `a`, as `b`, or as both. */
  method FeMul(out: array<uint64>, a: array<uint64>, b: array<uint64>)
    requires out.Length == 5 && a.Length == 5 && b.Length == 5
    modifies out
    ensures LimbsOf(out) == Mul(old(LimbsOf(a)), old(LimbsOf(b)))
  {
    hide Term, Wrap128, Wrap64, Low51, High51;
    ghost var fa, fb := LimbsOf(a), LimbsOf(b);
    var t0, t1, t2, t3, t4 := 0, 0, 0, 0, 0;
    for i := 0 to 5
      invariant LimbsOf(a) == fa && LimbsOf(b) == fb
      invariant t0 == Acc(fa, fb, 0, i) && t1 == Acc(fa, fb, 1, i) && t2 == Acc(fa, fb, 2, i)
      invariant t3 == Acc(fa, fb, 3, i) && t4 == Acc(fa, fb, 4, i)
    {
      var ai := a[i];
      t0 := Wrap128(t0 + Term(ai, b[(0 - i + 5) % 5], i > 0));
      t1 := Wrap128(t1 + Term(ai, b[(1 - i + 5) % 5], i > 1));
      t2 := Wrap128(t2 + Term(ai, b[(2 - i + 5) % 5], i > 2));
      t3 := Wrap128(t3 + Term(ai, b[(3 - i + 5) % 5], i > 3));
      t4 := Wrap128(t4 + Term(ai, b[(4 - i + 5) % 5], false));
    }
    out[0] := Wrap64(Low51(t0) + 19 * Wrap64(High51(t4)));
    out[1] := Wrap64(Low51(t1) + Wrap64(High51(t0)));
    out[2] := Wrap64(Low51(t2) + Wrap64(High51(t1)));
    out[3] := Wrap64(Low51(t3) + Wrap64(High51(t2)));
    out[4] := Wrap64(Low51(t4) + Wrap64(High51(t3)));
  }

  method FeSq(out: array<uint64>, a: array<uint64>)
    requires out.Length == 5 && a.Length == 5
    modifies out
    ensures LimbsOf(out) == Mul(old(LimbsOf(a)), old(LimbsOf(a)))
  {
    FeMul(out, a, a);
  }

  // ---------------------------------------------------------------- no bit is lost

  /** A term of limbs below 2^54 fits far below 128 bits. */
  lemma TermExact(x: uint64, y: uint64, times19: bool)
    requires x < 0x40_0000_0000_0000 && y < 0x40_0000_0000_0000
    ensures 0 <= x * y < 0x1000_0000_0000_0000_0000_0000_0000
    ensures Term(x, y, times19) == if times19 then 19 * (x * y) else x * y
  {
    MulMonotonic(x, 0, y);
    MulMonotonic(x, y, 0x40_0000_0000_0000);
    var p := x * y;
    Wrap128Small(p);
    Wrap128Small(p * 19);
    hide Wrap128;
  }

  lemma Wrap128Small(x: nat)
    requires x < 0x1_0000_0000_0000_0000_0000_0000_0000_0000
    ensures Wrap128(x) == x
  {
  }

  /** Carrying keeps the value modulo p: what leaves the top limb comes back times 19. */
  lemma CarryKeepsValue(t0: nat, t1: nat, t2: nat, t3: nat, t4: nat)
    ensures Value5(Low51(t0) + 19 * High51(t4), Low51(t1) + High51(t0), Low51(t2) + High51(t1),
                   Low51(t3) + High51(t2), Low51(t4) + High51(t3))
         == Value5(t0, t1, t2, t3, t4) - TimesP(High51(t4))
  {
  }

  // ---------------------------------------------------------------- the product modulo p

  /** The part of the product of limbs `a[i]` that lands in limb `k`. */
  function Scaled(a: Fe, b: Fe, k: nat, i: nat): int
    requires k < 5 && i < 5
  {
    var p := Prod(a[i], b[(k - i + 5) % 5]);
    if i > k then 19 * p else p
  }

  /** Accumulator `k` without truncation. */
  function Exact(a: Fe, b: Fe, k: nat, n: nat): int
    requires k < 5 && n <= 5
  {
    if n == 0 then 0 else Exact(a, b, k, n - 1) + Scaled(a, b, k, n - 1)
  }

  function Prod(x: int, y: int): int {
    x * y
  }

  lemma TermIsProd(x: uint64, y: uint64, times19: bool)
    requires x < 0x40_0000_0000_0000 && y < 0x40_0000_0000_0000
    ensures Prod(x, y) < 0x1000_0000_0000_0000_0000_0000_0000
    ensures Term(x, y, times19) == if times19 then 19 * Prod(x, y) else Prod(x, y)
  {
    TermExact(x, y, times19);
  }

  /** No accumulator overflows 128 bits. */
  lemma {:induction false} AccExact(a: Fe, b: Fe, k: nat, n: nat)
    requires k < 5 && n <= 5 && Below54(a) && Below54(b)
    ensures Acc(a, b, k, n) == Exact(a, b, k, n)
    ensures k < 4 && n > 0 ==> Exact(a, b, k, n) < (1 + 19 * (n - 1)) * 0x1000_0000_0000_0000_0000_0000_0000
    ensures k == 4 && n > 0 ==> Exact(a, b, k, n) < n * 0x1000_0000_0000_0000_0000_0000_0000
  {
    hide Term, Prod;
    if n > 0 {
      AccExact(a, b, k, n - 1);
      TermIsProd(a[n - 1], b[(k - (n - 1) + 5) % 5], n - 1 > k);
    }
  }

  lemma Distribute(x: int, v0: int, v1: int, v2: int, v3: int, v4: int)
    ensures Prod(x, Value5(v0, v1, v2, v3, v4)) == Value5(Prod(x, v0), Prod(x, v1), Prod(x, v2), Prod(x, v3), Prod(x, v4))
  {
  }

  /** Folding the products of weight 2^255 and above back in, times 19. */
  lemma FoldHighProducts(p00: int, p01: int, p02: int, p03: int, p04: int,
                         p10: int, p11: int, p12: int, p13: int, p14: int,
                         p20: int, p21: int, p22: int, p23: int, p24: int,
                         p30: int, p31: int, p32: int, p33: int, p34: int,
                         p40: int, p41: int, p42: int, p43: int, p44: int)
    ensures Value5(Value5(p00, p01, p02, p03, p04),
                   Value5(p10, p11, p12, p13, p14),
                   Value5(p20, p21, p22, p23, p24),
                   Value5(p30, p31, p32, p33, p34),
                   Value5(p40, p41, p42, p43, p44))
         == Value5(p00 + 19 * p14 + 19 * p23 + 19 * p32 + 19 * p41,
                   p01 + p10 + 19 * p24 + 19 * p33 + 19 * p42,
                   p02 + p11 + p20 + 19 * p34 + 19 * p43,
                   p03 + p12 + p21 + p30 + 19 * p44,
                   p04 + p13 + p22 + p31 + p40)
            + TimesP(Value5(p14 + p23 + p32 + p41, p24 + p33 + p42, p34 + p43, p44, 0))
  {
  }

  lemma ExactUnfolds(a: Fe, b: Fe, k: nat)
    requires k < 5
    ensures Exact(a, b, k, 5)
         == Scaled(a, b, k, 0) + Scaled(a, b, k, 1) + Scaled(a, b, k, 2) + Scaled(a, b, k, 3) + Scaled(a, b, k, 4)
  {
    hide Scaled;
    assert Exact(a, b, k, 1) == Scaled(a, b, k, 0);
    assert Exact(a, b, k, 2) == Scaled(a, b, k, 0) + Scaled(a, b, k, 1);
    assert Exact(a, b, k, 4) == Exact(a, b, k, 2) + Scaled(a, b, k, 2) + Scaled(a, b, k, 3);
  }

  lemma ExactSums(a: Fe, b: Fe)
    ensures Exact(a, b, 0, 5) == Prod(a[0], b[0]) + 19 * Prod(a[1], b[4]) + 19 * Prod(a[2], b[3]) + 19 * Prod(a[3], b[2]) + 19 * Prod(a[4], b[1])
    ensures Exact(a, b, 1, 5) == Prod(a[0], b[1]) + Prod(a[1], b[0]) + 19 * Prod(a[2], b[4]) + 19 * Prod(a[3], b[3]) + 19 * Prod(a[4], b[2])
    ensures Exact(a, b, 2, 5) == Prod(a[0], b[2]) + Prod(a[1], b[1]) + Prod(a[2], b[0]) + 19 * Prod(a[3], b[4]) + 19 * Prod(a[4], b[3])
    ensures Exact(a, b, 3, 5) == Prod(a[0], b[3]) + Prod(a[1], b[2]) + Prod(a[2], b[1]) + Prod(a[3], b[0]) + 19 * Prod(a[4], b[4])
    ensures Exact(a, b, 4, 5) == Prod(a[0], b[4]) + Prod(a[1], b[3]) + Prod(a[2], b[2]) + Prod(a[3], b[1]) + Prod(a[4], b[0])
  {
    hide Prod;
    ExactUnfolds(a, b, 0);
    ExactUnfolds(a, b, 1);
    ExactUnfolds(a, b, 2);
    ExactUnfolds(a, b, 3);
    ExactUnfolds(a, b, 4);
  }

  lemma Row(x: nat, b: Fe)
    ensures Prod(x, Value(b)) == Value5(Prod(x, b[0]), Prod(x, b[1]), Prod(x, b[2]), Prod(x, b[3]), Prod(x, b[4]))
  {
    Distribute(x, b[0], b[1], b[2], b[3], b[4]);
  }

  lemma ProdCommutes(x: int, y: int)
    ensures Prod(x, y) == Prod(y, x)
  {
  }

  lemma ProductRows(a: Fe, b: Fe)
    ensures Prod(Value(a), Value(b))
         == Value5(Prod(a[0], Value(b)), Prod(a[1], Value(b)), Prod(a[2], Value(b)), Prod(a[3], Value(b)), Prod(a[4], Value(b)))
  {
    hide Prod, Value5;
    var v := Value(b);
    ProdCommutes(Value(a), v);
    Distribute(v, a[0], a[1], a[2], a[3], a[4]);
    ProdCommutes(v, a[0]);
    ProdCommutes(v, a[1]);
    ProdCommutes(v, a[2]);
    ProdCommutes(v, a[3]);
    ProdCommutes(v, a[4]);
  }

  /** The exact accumulators hold the product of the two values, up to a multiple of p. */
  lemma ProductOfValues(a: Fe, b: Fe) returns (c: int)
    ensures Prod(Value(a), Value(b))
         == Value5(Exact(a, b, 0, 5), Exact(a, b, 1, 5), Exact(a, b, 2, 5), Exact(a, b, 3, 5), Exact(a, b, 4, 5)) + TimesP(c)
  {
    hide Prod, Value5, TimesP, Exact;
    ProductRows(a, b);
    Row(a[0], b);
    Row(a[1], b);
    Row(a[2], b);
    Row(a[3], b);
    Row(a[4], b);
    ExactSums(a, b);
    FoldHighProducts(Prod(a[0], b[0]), Prod(a[0], b[1]), Prod(a[0], b[2]), Prod(a[0], b[3]), Prod(a[0], b[4]),
      Prod(a[1], b[0]), Prod(a[1], b[1]), Prod(a[1], b[2]), Prod(a[1], b[3]), Prod(a[1], b[4]),
      Prod(a[2], b[0]), Prod(a[2], b[1]), Prod(a[2], b[2]), Prod(a[2], b[3]), Prod(a[2], b[4]),
      Prod(a[3], b[0]), Prod(a[3], b[1]), Prod(a[3], b[2]), Prod(a[3], b[3]), Prod(a[3], b[4]),
      Prod(a[4], b[0]), Prod(a[4], b[1]), Prod(a[4], b[2]), Prod(a[4], b[3]), Prod(a[4], b[4]));
    c := Value5(Prod(a[1], b[4]) + Prod(a[2], b[3]) + Prod(a[3], b[2]) + Prod(a[4], b[1]),
                Prod(a[2], b[4]) + Prod(a[3], b[3]) + Prod(a[4], b[2]),
                Prod(a[3], b[4]) + Prod(a[4], b[3]),
                Prod(a[4], b[4]),
                0);
  }

  lemma AddMultipleOfP(x: int, c: int)
    ensures Congruent(x + TimesP(c), x)
  {
    var q := x / P;
    assert x + TimesP(c) == P * (q + c) + x % P;
    DivModUnique(x + TimesP(c), P, q + c, x % P);
  }

  // ---------------------------------------------------------------- what the machine words keep

  /** One term without truncation. */
  lemma TermWraps(x: uint64, y: uint64, times19: bool)
    ensures Term(x, y, times19) == Wrap128(if times19 then 19 * Prod(x, y) else Prod(x, y))
    ensures 0 <= Prod(x, y) < 0x1_0000_0000_0000_0000_0000_0000_0000_0000
  {
    MulMonotonic(x, 0, y);
    MulMonotonic(x, y, 0x1_0000_0000_0000_0000);
    var p: nat := x * y;
    assert Term(x, y, times19) == Wrap128(p * (if times19 then 19 else 1));
    hide Wrap128;
  }

  lemma Wrap128Sum(x: nat, y: nat)
    ensures Wrap128(Wrap128(x) + Wrap128(y)) == Wrap128(x + y)
  {
  }

  /** Whatever the limbs, the accumulators hold the exact sums modulo 2^128. */
  lemma {:induction false} AccWraps(a: Fe, b: Fe, k: nat, n: nat)
    requires k < 5 && n <= 5
    ensures 0 <= Exact(a, b, k, n) <= 19 * n * 0x1_0000_0000_0000_0000_0000_0000_0000_0000
    ensures Acc(a, b, k, n) == Wrap128(Exact(a, b, k, n))
  {
    hide Term, Prod, Wrap128;
    if n == 0 {
      Wrap128Small(0);
    } else {
      AccWraps(a, b, k, n - 1);
      TermWraps(a[n - 1], b[(k - (n - 1) + 5) % 5], n - 1 > k);
      Wrap128Sum(Exact(a, b, k, n - 1), Scaled(a, b, k, n - 1));
    }
  }

  /** Limb `k` of the product before it is cut to 64 bits. */
  function Unreduced(a: Fe, b: Fe, k: nat): nat
    requires k < 5
  {
    AccWraps(a, b, k, 5);
    AccWraps(a, b, (k + 4) % 5, 5);
    Low51(Exact(a, b, k, 5)) + (if k == 0 then 19 else 1) * High51(Exact(a, b, (k + 4) % 5, 5))
  }

  /** Every limb of the product fits a 64-bit word. */
  ghost predicate Fits(a: Fe, b: Fe) {
    forall k :: 0 <= k < 5 ==> Unreduced(a, b, k) < 0x1_0000_0000_0000_0000
  }

  lemma CarryWraps(t: nat, u: nat, factor: nat)
    requires factor == 1 || factor == 19
    ensures Wrap64(Low51(Wrap128(t)) + factor * Wrap64(High51(Wrap128(u)))) == Wrap64(Low51(t) + factor * High51(u))
  {
    hide Low51, High51, Wrap128, Wrap64;
    LowOfWrapped(t);
    HighOfWrapped(u);
    WrapInside(Low51(t), High51(u));
  }

  lemma WrapInside(l: nat, h: nat)
    ensures Wrap64(l + 1 * Wrap64(h)) == Wrap64(l + 1 * h)
    ensures Wrap64(l + 19 * Wrap64(h)) == Wrap64(l + 19 * h)
  {
    var q := h / 0x1_0000_0000_0000_0000;
    assert h == Wrap64(h) + 0x1_0000_0000_0000_0000 * q;
    DropWords(l + 19 * Wrap64(h), 19 * q);
    DropWords(l + Wrap64(h), q);
  }

  lemma DropWords(x: int, q: int)
    ensures Wrap64(x + 0x1_0000_0000_0000_0000 * q) == Wrap64(x)
  {
  }

  lemma LowOfWrapped(t: nat)
    ensures Low51(Wrap128(t)) == Low51(t)
  {
  }

  lemma HighOfWrapped(u: nat)
    ensures Wrap64(High51(Wrap128(u))) == Wrap64(High51(u))
  {
    var q, r := u / 0x1_0000_0000_0000_0000_0000_0000_0000_0000, Wrap128(u);
    DivModUnique(u, 0x8_0000_0000_0000, 0x2000 * 0x1_0000_0000_0000_0000 * q + High51(r), Low51(r));
    DropWords(High51(r), 0x2000 * q);
  }

  /** Whatever the limbs, fe_mul returns the limbs of the product modulo 2^64. */
  lemma MulWraps(a: Fe, b: Fe, k: nat)
    requires k < 5
    ensures Mul(a, b)[k] == Wrap64(Unreduced(a, b, k))
  {
    hide Acc, Exact, Low51, High51, Wrap64, Wrap128;
    AccWraps(a, b, k, 5);
    AccWraps(a, b, (k + 4) % 5, 5);
    CarryWraps(Exact(a, b, k, 5), Exact(a, b, (k + 4) % 5, 5), if k == 0 then 19 else 1);
  }

  /** No bit is lost exactly when every limb of the product fits. */
  lemma MulExactIff(a: Fe, b: Fe)
    ensures (forall k :: 0 <= k < 5 ==> Mul(a, b)[k] == Unreduced(a, b, k)) <==> Fits(a, b)
  {
    hide Mul, Unreduced;
    forall k | 0 <= k < 5
      ensures Mul(a, b)[k] == Unreduced(a, b, k) <==> Unreduced(a, b, k) < 0x1_0000_0000_0000_0000
    {
      MulWraps(a, b, k);
    }
  }

  // ---------------------------------------------------------------- a lost bit is never harmless

  /** Numbers below 2^24 in radix 2^51 make zero only if they all are. */
  lemma ZeroDigits(w0: int, w1: int, w2: int, w3: int, w4: int)
    requires -0x100_0000 < w0 < 0x100_0000 && -0x100_0000 < w1 < 0x100_0000 && -0x100_0000 < w2 < 0x100_0000
    requires -0x100_0000 < w3 < 0x100_0000 && -0x100_0000 < w4 < 0x100_0000
    ensures Value5(w0, w1, w2, w3, w4) == 0 <==> w0 == w1 == w2 == w3 == w4 == 0
    ensures 0 - P < 19 * Value5(w0, w1, w2, w3, w4) < P
  {
  }

  /** 2^64 times a number that small is a multiple of p only for zero, since 2^255 is 19 modulo p. */
  lemma NoMultiple(v: int, m: int)
    requires 0x1_0000_0000_0000_0000 * v == TimesP(m)
    requires 0 - P < 19 * v < P
    ensures v == 0
  {
    var n := 0x8000_0000_0000_0000_0000_0000_0000_0000_0000_0000_0000_0000 * m - v;
    assert 19 * v == TimesP(n);
  }

  /** Limbs that lost `w` times 2^64 still have the right residue only when nothing was lost. */
  lemma LossShows(x: int, y: int, d: int, w0: int, w1: int, w2: int, w3: int, w4: int)
    requires x == y + 0x1_0000_0000_0000_0000 * Value5(w0, w1, w2, w3, w4) + TimesP(d)
    requires -0x100_0000 < w0 < 0x100_0000 && -0x100_0000 < w1 < 0x100_0000 && -0x100_0000 < w2 < 0x100_0000
    requires -0x100_0000 < w3 < 0x100_0000 && -0x100_0000 < w4 < 0x100_0000
    ensures Congruent(y, x) <==> w0 == w1 == w2 == w3 == w4 == 0
  {
    ZeroDigits(w0, w1, w2, w3, w4);
    var v := Value5(w0, w1, w2, w3, w4);
    hide Value5;
    if v == 0 {
      UpToP(x, y, d);
    } else if Congruent(y, x) {
      var m := MultipleOfP(x, y);
      TimesPSum(m - d, d);
      NoMultiple(v, m - d);
    }
  }

  lemma MultipleOfP(x: int, y: int) returns (m: int)
    requires Congruent(y, x)
    ensures x - y == TimesP(m)
  {
    m := x / P - y / P;
    assert x == P * (x / P) + x % P && y == P * (y / P) + y % P;
  }

  function High64(x: nat): nat { x / 0x1_0000_0000_0000_0000 }

  lemma ValueWithLoss(u0: nat, u1: nat, u2: nat, u3: nat, u4: nat)
    ensures Value5(u0, u1, u2, u3, u4)
         == Value5(Wrap64(u0), Wrap64(u1), Wrap64(u2), Wrap64(u3), Wrap64(u4))
            + 0x1_0000_0000_0000_0000 * Value5(High64(u0), High64(u1), High64(u2), High64(u3), High64(u4))
  {
  }

  lemma UnreducedBound(a: Fe, b: Fe, k: nat)
    requires k < 5
    ensures High64(Unreduced(a, b, k)) < 0x100_0000
    ensures High64(Unreduced(a, b, k)) == 0 <==> Unreduced(a, b, k) < 0x1_0000_0000_0000_0000
  {
    AccWraps(a, b, k, 5);
    AccWraps(a, b, (k + 4) % 5, 5);
    hide Exact;
  }

  /** The exact product, and the limbs of fe_mul before they are cut. */
  lemma ProductUnreduced(a: Fe, b: Fe) returns (d: int)
    ensures Value(a) * Value(b)
         == Value5(Unreduced(a, b, 0), Unreduced(a, b, 1), Unreduced(a, b, 2), Unreduced(a, b, 3), Unreduced(a, b, 4)) + TimesP(d)
  {
    var c := ProductOfValues(a, b);
    AccWraps(a, b, 0, 5);
    AccWraps(a, b, 1, 5);
    AccWraps(a, b, 2, 5);
    AccWraps(a, b, 3, 5);
    AccWraps(a, b, 4, 5);
    hide Acc, Exact, Value5, TimesP, High51, Low51;
    CarryKeepsValue(Exact(a, b, 0, 5), Exact(a, b, 1, 5), Exact(a, b, 2, 5), Exact(a, b, 3, 5), Exact(a, b, 4, 5));
    d := c + High51(Exact(a, b, 4, 5));
    TimesPSum(c, High51(Exact(a, b, 4, 5)));
  }

  /** What the cut to 64 bits removes from limb `k`. */
  function High(a: Fe, b: Fe, k: nat): nat
    requires k < 5
  {
    High64(Unreduced(a, b, k))
  }

  lemma NothingHigh(a: Fe, b: Fe)
    ensures forall k :: 0 <= k < 5 ==> High(a, b, k) < 0x100_0000
    ensures Fits(a, b) <==> High(a, b, 0) == High(a, b, 1) == High(a, b, 2) == High(a, b, 3) == High(a, b, 4) == 0
  {
    hide Unreduced, High64;
    UnreducedBound(a, b, 0);
    UnreducedBound(a, b, 1);
    UnreducedBound(a, b, 2);
    UnreducedBound(a, b, 3);
    UnreducedBound(a, b, 4);
  }

  lemma CutValue(a: Fe, b: Fe)
    ensures Value5(Unreduced(a, b, 0), Unreduced(a, b, 1), Unreduced(a, b, 2), Unreduced(a, b, 3), Unreduced(a, b, 4))
         == Value(Mul(a, b))
            + 0x1_0000_0000_0000_0000 * Value5(High(a, b, 0), High(a, b, 1), High(a, b, 2), High(a, b, 3), High(a, b, 4))
  {
    hide Mul, Unreduced, Value5, High64, Wrap64;
    MulWraps(a, b, 0);
    MulWraps(a, b, 1);
    MulWraps(a, b, 2);
    MulWraps(a, b, 3);
    MulWraps(a, b, 4);
    ValueWithLoss(Unreduced(a, b, 0), Unreduced(a, b, 1), Unreduced(a, b, 2), Unreduced(a, b, 3), Unreduced(a, b, 4));
  }

  /**
   For all limbs whatsoever: fe_mul multiplies modulo 2^255 - 19 if and only if every limb of the
   product fits 64 bits. A lost bit always gives a wrong residue.
   */
  lemma MulCorrect(a: Fe, b: Fe)
    ensures Congruent(Value(Mul(a, b)), Value(a) * Value(b)) <==> Fits(a, b)
  {
    var d := ProductUnreduced(a, b);
    NothingHigh(a, b);
    CutValue(a, b);
    hide *;
    LossShows(Value(a) * Value(b), Value(Mul(a, b)), d, High(a, b, 0), High(a, b, 1), High(a, b, 2), High(a, b, 3), High(a, b, 4));
  }

  lemma SmallUnreduced(a: Fe, b: Fe, k: nat)
    requires k < 5 && Below54(a) && Below54(b)
    ensures Unreduced(a, b, k) < 0x1_0000_0000_0000_0000
  {
    hide Exact;
    AccExact(a, b, k, 5);
    AccExact(a, b, (k + 4) % 5, 5);
  }

  /** Limbs below 2^54 are enough. */
  lemma SmallLimbsFit(a: Fe, b: Fe)
    requires Below54(a) && Below54(b)
    ensures Fits(a, b) && Congruent(Value(Mul(a, b)), Value(a) * Value(b))
  {
    hide Unreduced, Below54, Value, Mul, Congruent;
    forall k | 0 <= k < 5
      ensures Unreduced(a, b, k) < 0x1_0000_0000_0000_0000
    {
      SmallUnreduced(a, b, k);
    }
    MulCorrect(a, b);
  }

  lemma TimesPSum(x: int, y: int)
    ensures TimesP(x + y) == TimesP(x) + TimesP(y)
  {
  }

  lemma UpToP(x: int, y: int, c: int)
    requires x == y + TimesP(c)
    ensures Congruent(y, x)
  {
    AddMultipleOfP(y, c);
    hide TimesP;
  }

  // ---------------------------------------------------------------- where the bound ends

  /** Squaring an element with only its two top limbs set. */
  lemma TopSquare(f: Fe)
    requires f[0] == f[1] == f[2] == 0
    ensures Exact(f, f, 0, 5) == Exact(f, f, 4, 5) == 0
    ensures Exact(f, f, 1, 5) == 19 * Prod(f[3], f[3])
    ensures Exact(f, f, 2, 5) == 38 * Prod(f[3], f[4])
    ensures Exact(f, f, 3, 5) == 19 * Prod(f[4], f[4])
  {
    ExactSums(f, f);
    ProdZero(f[0]);
    ProdZero(f[1]);
    ProdZero(f[2]);
    ProdZero(f[3]);
    ProdZero(f[4]);
    ProdCommutes(f[3], f[4]);
    hide Prod;
  }

  lemma ProdZero(x: int)
    ensures Prod(0, x) == Prod(x, 0) == 0
  {
  }

  /** The limbs of such a square, from the three products it takes. */
  lemma TopSquareLimbs(f: Fe, p: nat, q: nat, r: nat)
    requires f[0] == f[1] == f[2] == 0
    requires p == 19 * Prod(f[3], f[3]) && q == 38 * Prod(f[3], f[4]) && r == 19 * Prod(f[4], f[4])
    ensures Unreduced(f, f, 0) == 0 && Unreduced(f, f, 1) == Low51(p) && Unreduced(f, f, 2) == Low51(q) + High51(p)
    ensures Unreduced(f, f, 3) == Low51(r) + High51(q) && Unreduced(f, f, 4) == High51(r)
  {
    TopSquare(f);
    assert Low51(0) == High51(0) == 0;
    hide Exact, Prod, Low51, High51;
  }

  /** Right as long as those limbs fit, and then the limbs themselves. */
  lemma SquareOf(f: Fe, g: Fe)
    requires forall k :: 0 <= k < 5 ==> Unreduced(f, f, k) == g[k]
    ensures Mul(f, f) == g && Congruent(Value(Mul(f, f)), Value(f) * Value(f))
  {
    hide Mul, Unreduced;
    MulCorrect(f, f);
    MulExactIff(f, f);
  }

  const REDUCED: Fe := [0, 0, 0, 0, 0x7ffffffffffff]
  const SQUARED: Fe := [0, 0, 0, 0x13, 0x97ffffffffffda]
  const SQUARED_TWICE: Fe := [0, 0x1acb, 0x7ffffffff94d4, 0xa0c1, 0xd657ffffffff94d4]

  lemma FirstSquare()
    ensures Mul(REDUCED, REDUCED) == SQUARED
    ensures Congruent(Value(SQUARED), Value(REDUCED) * Value(REDUCED))
  {
    TopSquareLimbs(REDUCED, 0, 0, 0x4bffffffffffed0000000000013);
    hide Unreduced, Mul, Value;
    SquareOf(REDUCED, SQUARED);
  }

  lemma SecondProducts()
    ensures 19 * Prod(0x13, 0x13) == 0x1acb && 38 * Prod(0x13, 0x97ffffffffffda) == 0x1acafffffffff94d4
    ensures 19 * Prod(0x97ffffffffffda, 0x97ffffffffffda) == 0x6b2bffffffffca6a0000000006b2c
  {
  }

  lemma SecondDigits()
    ensures Low51(0x1acb) == 0x1acb && High51(0x1acb) == 0
    ensures Low51(0x1acafffffffff94d4) == 0x7ffffffff94d4 && High51(0x1acafffffffff94d4) == 0x3595
    ensures Low51(0x6b2bffffffffca6a0000000006b2c) == 0x6b2c && High51(0x6b2bffffffffca6a0000000006b2c) == 0xd657ffffffff94d4
  {
  }

  lemma SecondSquare()
    ensures Mul(SQUARED, SQUARED) == SQUARED_TWICE
    ensures Congruent(Value(SQUARED_TWICE), Value(SQUARED) * Value(SQUARED))
  {
    hide Unreduced, Mul, Value, Low51, High51;
    assert SQUARED[3] == 0x13 && SQUARED[4] == 0x97ffffffffffda;
    SecondProducts();
    TopSquareLimbs(SQUARED, 0x1acb, 0x1acafffffffff94d4, 0x6b2bffffffffca6a0000000006b2c);
    SecondDigits();
    SquareOf(SQUARED, SQUARED_TWICE);
  }

  lemma ThirdSquare()
    ensures !Congruent(Value(Mul(SQUARED_TWICE, SQUARED_TWICE)), Value(SQUARED_TWICE) * Value(SQUARED_TWICE))
  {
    var f := SQUARED_TWICE;
    ExactSums(f, f);
    assert Exact(f, f, 1, 5) == 0xfe887ffff2ada71d00000e26df5bf3;
    assert Unreduced(f, f, 2) >= 0x1_0000_0000_0000_0000 by {
      hide Exact;
      AccWraps(f, f, 2, 5);
    }
    hide Mul, Unreduced, Value, Exact;
    MulCorrect(f, f);
  }

  /**
   Repeated squaring, as the inversion does it, leaves the range: from a fully reduced element the
   first square already has a limb above 2^54, the second is still right, the third is wrong.
   */
  lemma ThirdSquareIsWrong()
    ensures var f := REDUCED;
            var f2 := Mul(f, f);
            var f4 := Mul(f2, f2);
            && (forall k :: 0 <= k < 5 ==> f[k] < 0x8_0000_0000_0000) && !Below54(f2)
            && Congruent(Value(f2), Value(f) * Value(f)) && Congruent(Value(f4), Value(f2) * Value(f2))
            && !Congruent(Value(Mul(f4, f4)), Value(f4) * Value(f4))
  {
    hide Mul, Value;
    FirstSquare();
    SecondSquare();
    ThirdSquare();
    assert SQUARED[4] >= 0x40_0000_0000_0000;
  }
}
