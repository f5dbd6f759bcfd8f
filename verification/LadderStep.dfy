/** What one turn of the X25519 ladder computes modulo 2^255 - 19, and when. */
module LadderStep {
  import opened Bytes
  import opened Field25519
  import X25519

  // ---------------------------------------------------------------- congruences

  lemma TimesPProduct(x: int, y: int)
    ensures TimesP(x) * y == TimesP(x * y)
  {
    MulAssociates(0x7fff_ffff_ffff_ffff_ffff_ffff_ffff_ffff_ffff_ffff_ffff_ffff_ffff_ffff_ffff_ffed, x, y);
  }

  lemma ProductSplits(a: int, b: int, s: int, t: int)
    ensures (a + s) * (b + t) == a * b + (t * a + s * (b + t))
  {
  }

  lemma CongruentProduct(a: int, b: int, x: int, y: int)
    requires Congruent(a, x) && Congruent(b, y)
    ensures Congruent(a * b, x * y)
  {
    var m := MultipleOfP(x, a);
    var n := MultipleOfP(y, b);
    hide Congruent, TimesP;
    ProductSplits(a, b, TimesP(m), TimesP(n));
    TimesPProduct(n, a);
    TimesPProduct(m, y);
    TimesPSum(n * a, m * y);
    UpToP(x * y, a * b, n * a + m * y);
  }

  lemma CongruentSum(a: int, b: int, x: int, y: int)
    requires Congruent(a, x) && Congruent(b, y)
    ensures Congruent(a + b, x + y)
  {
    var m := MultipleOfP(x, a);
    var n := MultipleOfP(y, b);
    hide Congruent, TimesP;
    TimesPSum(m, n);
    UpToP(x + y, a + b, m + n);
  }

  lemma CongruentDifference(a: int, b: int, x: int, y: int)
    requires Congruent(a, x) && Congruent(b, y)
    ensures Congruent(a - b + 74, x - y + 74)
  {
    var m := MultipleOfP(x, a);
    var n := MultipleOfP(b, y);
    hide Congruent, TimesP;
    TimesPSum(m, n);
    UpToP(x - y + 74, a - b + 74, m + n);
  }

  /** Congruence to a number is congruence to any number congruent to it. */
  lemma CongruentTo(a: int, x: int, y: int)
    requires Congruent(x, y)
    ensures Congruent(a, x) <==> Congruent(a, y)
  {
  }

  // ---------------------------------------------------------------- the operations of the loop

  /** No sum of limbs reaches 2^64. */
  ghost predicate SumsFit(a: Fe, b: Fe) {
    forall i :: 0 <= i < 5 ==> X25519.SumAt(a, b, i) < 0x1_0000_0000_0000_0000
  }

  /** No limb of the difference leaves its word. */
  ghost predicate DifferencesFit(a: Fe, b: Fe) {
    forall i :: 0 <= i < 5 ==> 0 <= X25519.DifferenceAt(a, b, i) < 0x1_0000_0000_0000_0000
  }

  lemma MulGives(a: Fe, b: Fe, x: int, y: int)
    requires Congruent(Value(a), x) && Congruent(Value(b), y)
    ensures Congruent(Value(Mul(a, b)), Prod(x, y)) <==> Fits(a, b)
  {
    MulCorrect(a, b);
    hide Congruent, Value, Mul, Fits;
    CongruentProduct(Value(a), Value(b), x, y);
    CongruentTo(Value(Mul(a, b)), Value(a) * Value(b), x * y);
  }

  lemma AddGives(a: Fe, b: Fe, x: int, y: int)
    requires Congruent(Value(a), x) && Congruent(Value(b), y)
    ensures Congruent(Value(X25519.Add(a, b)), x + y) <==> SumsFit(a, b)
  {
    X25519.AddCorrect(a, b);
    hide Congruent, Value, X25519.Add, X25519.SumAt;
    CongruentSum(Value(a), Value(b), x, y);
    CongruentTo(Value(X25519.Add(a, b)), Value(a) + Value(b), x + y);
  }

  lemma SubGives(a: Fe, b: Fe, x: int, y: int)
    requires Congruent(Value(a), x) && Congruent(Value(b), y)
    ensures Congruent(Value(X25519.Sub(a, b)), x - y + 74) <==> DifferencesFit(a, b)
  {
    X25519.SubIsOffBy74(a, b);
    hide Congruent, Value, X25519.Sub, X25519.DifferenceAt;
    CongruentDifference(Value(a), Value(b), x, y);
    CongruentTo(Value(X25519.Sub(a, b)), Value(a) - Value(b) + 74, x - y + 74);
  }

  // ---------------------------------------------------------------- the sum of the two points

  /** The products of sum and difference across the two points, as coded. */
  function FirstCross(p: X25519.Points): Fe {
    Mul(X25519.Sub(p.x3, p.z3), X25519.Add(p.x2, p.z2))
  }

  function SecondCross(p: X25519.Points): Fe {
    Mul(X25519.Add(p.x3, p.z3), X25519.Sub(p.x2, p.z2))
  }

  /** Nothing is lost up to the two cross products. */
  ghost predicate CrossFits(p: X25519.Points) {
    && SumsFit(p.x2, p.z2) && DifferencesFit(p.x2, p.z2) && SumsFit(p.x3, p.z3) && DifferencesFit(p.x3, p.z3)
    && Fits(X25519.Sub(p.x3, p.z3), X25519.Add(p.x2, p.z2)) && Fits(X25519.Add(p.x3, p.z3), X25519.Sub(p.x2, p.z2))
  }

  lemma CrossGives(p: X25519.Points)
    requires CrossFits(p)
    ensures Congruent(Value(FirstCross(p)), (Value(p.x3) - Value(p.z3) + 74) * (Value(p.x2) + Value(p.z2)))
    ensures Congruent(Value(SecondCross(p)), (Value(p.x3) + Value(p.z3)) * (Value(p.x2) - Value(p.z2) + 74))
  {
    hide Value, Mul, Fits, SumsFit, DifferencesFit, X25519.Add, X25519.Sub;
    SameIsCongruent(Value(p.x2));
    SameIsCongruent(Value(p.z2));
    SameIsCongruent(Value(p.x3));
    SameIsCongruent(Value(p.z3));
    hide Congruent;
    AddGives(p.x2, p.z2, Value(p.x2), Value(p.z2));
    SubGives(p.x2, p.z2, Value(p.x2), Value(p.z2));
    AddGives(p.x3, p.z3, Value(p.x3), Value(p.z3));
    SubGives(p.x3, p.z3, Value(p.x3), Value(p.z3));
    MulGives(X25519.Sub(p.x3, p.z3), X25519.Add(p.x2, p.z2), Value(p.x3) - Value(p.z3) + 74, Value(p.x2) + Value(p.z2));
    MulGives(X25519.Add(p.x3, p.z3), X25519.Sub(p.x2, p.z2), Value(p.x3) + Value(p.z3), Value(p.x2) - Value(p.z2) + 74);
  }

  lemma SameIsCongruent(x: int)
    ensures Congruent(x, x)
  {
  }

  /** The operations behind the four new coordinates. */
  lemma StepPoints(x1: Fe, p: X25519.Points)
    ensures var sum, diff := X25519.Add(FirstCross(p), SecondCross(p)), X25519.Sub(FirstCross(p), SecondCross(p));
            var e := X25519.Sub(SumSquare(p), DifferenceSquare(p));
            var q := X25519.Step(x1, p);
            && q.x2 == Mul(SumSquare(p), DifferenceSquare(p))
            && q.z2 == Mul(e, X25519.Add(DifferenceSquare(p), Mul(e, [121665, 0, 0, 0, 0])))
            && q.x3 == Mul(sum, sum) && q.z3 == Mul(x1, Mul(diff, diff))
  {
    hide Mul, X25519.Add, X25519.Sub;
  }

  lemma CrossesCombine(x1: Fe, p: X25519.Points, x: int, y: int)
    requires Congruent(Value(FirstCross(p)), x) && Congruent(Value(SecondCross(p)), y)
    ensures var sum, diff := X25519.Add(FirstCross(p), SecondCross(p)), X25519.Sub(FirstCross(p), SecondCross(p));
            var q := X25519.Step(x1, p);
            && (SumsFit(FirstCross(p), SecondCross(p)) ==> (Congruent(Value(q.x3), Prod(x + y, x + y)) <==> Fits(sum, sum)))
            && (DifferencesFit(FirstCross(p), SecondCross(p)) && Fits(diff, diff) ==>
                  (Congruent(Value(q.z3), Prod(Value(x1), Prod(x - y + 74, x - y + 74))) <==> Fits(x1, Mul(diff, diff))))
  {
    var sum, diff := X25519.Add(FirstCross(p), SecondCross(p)), X25519.Sub(FirstCross(p), SecondCross(p));
    SameIsCongruent(Value(x1));
    StepPoints(x1, p);
    hide *;
    AddGives(FirstCross(p), SecondCross(p), x, y);
    SubGives(FirstCross(p), SecondCross(p), x, y);
    if SumsFit(FirstCross(p), SecondCross(p)) {
      MulGives(sum, sum, x + y, x + y);
    }
    if DifferencesFit(FirstCross(p), SecondCross(p)) {
      MulGives(diff, diff, x - y + 74, x - y + 74);
      if Fits(diff, diff) {
        MulGives(x1, Mul(diff, diff), Value(x1), Prod(x - y + 74, x - y + 74));
      }
    }
  }

  /**
   The new x3 is the square of the sum of the cross products, the new z3 the square of their
   difference times x1; each exactly when its last product fits.
   */
  lemma AddsPoints(x1: Fe, p: X25519.Points, a: int, b: int, c: int, d: int)
    requires a == Value(p.x2) + Value(p.z2) && b == Value(p.x2) - Value(p.z2) + 74
    requires c == Value(p.x3) + Value(p.z3) && d == Value(p.x3) - Value(p.z3) + 74
    requires CrossFits(p)
    ensures var sum, diff := X25519.Add(FirstCross(p), SecondCross(p)), X25519.Sub(FirstCross(p), SecondCross(p));
            var q := X25519.Step(x1, p);
            && (SumsFit(FirstCross(p), SecondCross(p)) ==>
                  (Congruent(Value(q.x3), (d * a + c * b) * (d * a + c * b)) <==> Fits(sum, sum)))
            && (DifferencesFit(FirstCross(p), SecondCross(p)) && Fits(diff, diff) ==>
                  (Congruent(Value(q.z3), Value(x1) * ((d * a - c * b + 74) * (d * a - c * b + 74))) <==> Fits(x1, Mul(diff, diff))))
  {
    hide *;
    CrossGives(p);
    CrossesCombine(x1, p, d * a, c * b);
    ProdIs(d * a + c * b, d * a + c * b);
    ProdIs(d * a - c * b + 74, d * a - c * b + 74);
    ProdIs(Value(x1), (d * a - c * b + 74) * (d * a - c * b + 74));
  }

  lemma ProdIs(x: int, y: int)
    ensures Prod(x, y) == x * y
  {
  }

  // ---------------------------------------------------------------- the doubled point

  /** Nothing is lost up to the two squares. */
  ghost predicate SquaresFit(p: X25519.Points) {
    && SumsFit(p.x2, p.z2) && DifferencesFit(p.x2, p.z2)
    && Fits(X25519.Add(p.x2, p.z2), X25519.Add(p.x2, p.z2)) && Fits(X25519.Sub(p.x2, p.z2), X25519.Sub(p.x2, p.z2))
  }

  function SumSquare(p: X25519.Points): Fe {
    Mul(X25519.Add(p.x2, p.z2), X25519.Add(p.x2, p.z2))
  }

  function DifferenceSquare(p: X25519.Points): Fe {
    Mul(X25519.Sub(p.x2, p.z2), X25519.Sub(p.x2, p.z2))
  }

  lemma SquaresGive(p: X25519.Points)
    requires SquaresFit(p)
    ensures var a, b := Value(p.x2) + Value(p.z2), Value(p.x2) - Value(p.z2) + 74;
            Congruent(Value(SumSquare(p)), a * a) && Congruent(Value(DifferenceSquare(p)), b * b)
  {
    var a, b := Value(p.x2) + Value(p.z2), Value(p.x2) - Value(p.z2) + 74;
    SameIsCongruent(Value(p.x2));
    SameIsCongruent(Value(p.z2));
    hide Value, Congruent, Mul, Fits, SumsFit, DifferencesFit, X25519.Add, X25519.Sub;
    AddGives(p.x2, p.z2, Value(p.x2), Value(p.z2));
    SubGives(p.x2, p.z2, Value(p.x2), Value(p.z2));
    MulGives(X25519.Add(p.x2, p.z2), X25519.Add(p.x2, p.z2), a, a);
    MulGives(X25519.Sub(p.x2, p.z2), X25519.Sub(p.x2, p.z2), b, b);
  }

  lemma SmallValue(n: uint64)
    ensures Value([n, 0, 0, 0, 0]) == n
  {
  }

  lemma SquaresCombine(x1: Fe, p: X25519.Points, x: int, y: int)
    requires Congruent(Value(SumSquare(p)), x) && Congruent(Value(DifferenceSquare(p)), y)
    ensures Congruent(Value(X25519.Step(x1, p).x2), Prod(x, y)) <==> Fits(SumSquare(p), DifferenceSquare(p))
  {
    hide *;
    StepPoints(x1, p);
    MulGives(SumSquare(p), DifferenceSquare(p), x, y);
  }

  lemma SquaresDiffer(x1: Fe, p: X25519.Points, x: int, y: int)
    requires Congruent(Value(SumSquare(p)), x) && Congruent(Value(DifferenceSquare(p)), y)
    requires DifferencesFit(SumSquare(p), DifferenceSquare(p))
    requires Fits(X25519.Sub(SumSquare(p), DifferenceSquare(p)), [121665, 0, 0, 0, 0])
    requires SumsFit(DifferenceSquare(p), Mul(X25519.Sub(SumSquare(p), DifferenceSquare(p)), [121665, 0, 0, 0, 0]))
    ensures var e := X25519.Sub(SumSquare(p), DifferenceSquare(p));
            Congruent(Value(X25519.Step(x1, p).z2), Prod(x - y + 74, y + Prod(x - y + 74, 121665)))
            <==> Fits(e, X25519.Add(DifferenceSquare(p), Mul(e, [121665, 0, 0, 0, 0])))
  {
    hide *;
    SmallValue(121665);
    SameIsCongruent(121665);
    StepPoints(x1, p);
    var aa, bb, a24 := SumSquare(p), DifferenceSquare(p), [121665, 0, 0, 0, 0];
    var e, ea := X25519.Sub(aa, bb), Mul(X25519.Sub(aa, bb), a24);
    SubGives(aa, bb, x, y);
    MulGives(e, a24, x - y + 74, 121665);
    AddGives(bb, ea, y, Prod(x - y + 74, 121665));
    MulGives(e, X25519.Add(bb, ea), x - y + 74, y + Prod(x - y + 74, 121665));
  }

  /**
   The new x2 is the product of the squares of sum and difference, exactly when that product fits;
   the new z2 is E (B^2 + 121665 E) with E the difference of the squares plus 74.
   */
  lemma DoublesPoint(x1: Fe, p: X25519.Points, a: int, b: int, e: int)
    requires a == Value(p.x2) + Value(p.z2) && b == Value(p.x2) - Value(p.z2) + 74 && e == a * a - b * b + 74
    requires SquaresFit(p)
    ensures var aa, bb := SumSquare(p), DifferenceSquare(p);
            var ee, ea := X25519.Sub(aa, bb), Mul(X25519.Sub(aa, bb), [121665, 0, 0, 0, 0]);
            var q := X25519.Step(x1, p);
            && (Congruent(Value(q.x2), a * a * (b * b)) <==> Fits(aa, bb))
            && (DifferencesFit(aa, bb) && Fits(ee, [121665, 0, 0, 0, 0]) && SumsFit(bb, ea) ==>
                  (Congruent(Value(q.z2), e * (b * b + e * 121665)) <==> Fits(ee, X25519.Add(bb, ea))))
  {
    hide *;
    SquaresGive(p);
    SquaresCombine(x1, p, a * a, b * b);
    ProdIs(a * a, b * b);
    var aa, bb := SumSquare(p), DifferenceSquare(p);
    var ee, ea := X25519.Sub(aa, bb), Mul(X25519.Sub(aa, bb), [121665, 0, 0, 0, 0]);
    if DifferencesFit(aa, bb) && Fits(ee, [121665, 0, 0, 0, 0]) && SumsFit(bb, ea) {
      SquaresDiffer(x1, p, a * a, b * b);
      ProdIs(e, 121665);
      ProdIs(e, b * b + e * 121665);
    }
  }

  // ---------------------------------------------------------------- small limbs lose nothing

  predicate AtMost(f: Fe, n: nat) {
    f[0] <= n && f[1] <= n && f[2] <= n && f[3] <= n && f[4] <= n
  }

  lemma ProdAtMost(x: nat, y: nat, r: nat, s: nat, m: nat)
    requires x <= r && y <= s && r * s <= m
    ensures 0 <= Prod(x, y) <= m
  {
    MulMonotonic(x, y, s);
    MulMonotonic(s, x, r);
  }

  lemma RowAtMost(x: nat, b: Fe, r: nat, s: nat, m: nat)
    requires x <= r && AtMost(b, s) && r * s <= m
    ensures 0 <= Prod(x, b[0]) <= m && 0 <= Prod(x, b[1]) <= m && 0 <= Prod(x, b[2]) <= m
    ensures 0 <= Prod(x, b[3]) <= m && 0 <= Prod(x, b[4]) <= m
  {
    ProdAtMost(x, b[0], r, s, m);
    ProdAtMost(x, b[1], r, s, m);
    ProdAtMost(x, b[2], r, s, m);
    ProdAtMost(x, b[3], r, s, m);
    ProdAtMost(x, b[4], r, s, m);
    hide Prod;
  }

  /** Columns of products of limbs at most `r` and `s`. */
  lemma ExactAtMost(a: Fe, b: Fe, r: nat, s: nat, m: nat)
    requires AtMost(a, r) && AtMost(b, s) && r * s <= m
    ensures 0 <= Exact(a, b, 0, 5) <= 95 * m && 0 <= Exact(a, b, 1, 5) <= 95 * m && 0 <= Exact(a, b, 2, 5) <= 95 * m
    ensures 0 <= Exact(a, b, 3, 5) <= 95 * m && 0 <= Exact(a, b, 4, 5) <= 5 * m
  {
    RowAtMost(a[0], b, r, s, m);
    RowAtMost(a[1], b, r, s, m);
    RowAtMost(a[2], b, r, s, m);
    RowAtMost(a[3], b, r, s, m);
    RowAtMost(a[4], b, r, s, m);
    hide Prod, Exact;
    ExactSums(a, b);
  }

  lemma CarryAtMost(l: nat, h: nat, m: nat)
    requires h <= m * 0x8_0000_0000_0000
    ensures 0 <= Low51(l) < 0x8_0000_0000_0000 && 0 <= High51(h) <= m
  {
  }

  lemma LimbAtMost(l: nat, h: nat, m: nat, times19: bool)
    requires h <= (if times19 then 5 else 95) * (m * 0x8_0000_0000_0000)
    ensures 0 <= Low51(l) + (if times19 then 19 else 1) * High51(h) < 0x8_0000_0000_0000 + 95 * m + 1
  {
    CarryAtMost(l, h, (if times19 then 5 else 95) * m);
    hide Low51, High51;
  }

  lemma UnreducedAtMost(a: Fe, b: Fe, r: nat, s: nat, m: nat, k: nat)
    requires k < 5 && AtMost(a, r) && AtMost(b, s) && r * s <= m * 0x8_0000_0000_0000
    ensures Unreduced(a, b, k) <= 0x8_0000_0000_0000 + 95 * m
  {
    ExactAtMost(a, b, r, s, m * 0x8_0000_0000_0000);
    AccWraps(a, b, k, 5);
    AccWraps(a, b, (k + 4) % 5, 5);
    LimbAtMost(Exact(a, b, k, 5), Exact(a, b, (k + 4) % 5, 5), m, k == 0);
    hide Exact, Low51, High51;
  }

  /** The product of small limbs fits, and its limbs are not much larger than 2^51. */
  lemma MulAtMost(a: Fe, b: Fe, r: nat, s: nat, m: nat)
    requires AtMost(a, r) && AtMost(b, s) && r * s <= m * 0x8_0000_0000_0000 && m <= 0x200_0000_0000_0000
    ensures Fits(a, b) && AtMost(Mul(a, b), 0x8_0000_0000_0000 + 95 * m)
  {
    forall k | 0 <= k < 5
      ensures Unreduced(a, b, k) <= 0x8_0000_0000_0000 + 95 * m
    {
      UnreducedAtMost(a, b, r, s, m, k);
    }
    hide Unreduced, Mul;
    MulExactIff(a, b);
  }

  lemma AddAtMost(a: Fe, b: Fe, r: nat, s: nat)
    requires AtMost(a, r) && AtMost(b, s) && r + s < 0x1_0000_0000_0000_0000
    ensures SumsFit(a, b) && AtMost(X25519.Add(a, b), r + s)
  {
    hide X25519.Plus;
    PlusInside(a[0], b[0]);
    PlusInside(a[1], b[1]);
    PlusInside(a[2], b[2]);
    PlusInside(a[3], b[3]);
    PlusInside(a[4], b[4]);
  }

  lemma PlusInside(x: nat, y: nat)
    requires x + y < 0x1_0000_0000_0000_0000
    ensures X25519.Plus(x, y) == x + y
  {
  }

  lemma MinusInside(x: int, y: int, c: int)
    requires 0 <= x - y + c < 0x1_0000_0000_0000_0000
    ensures X25519.Minus(x, y, c) == x - y + c
  {
  }

  lemma SubAtMost(a: Fe, b: Fe, r: nat)
    requires AtMost(a, r) && AtMost(b, 0xf_ffff_ffff_fffe) && r < 0x1000_0000_0000_0000
    ensures DifferencesFit(a, b) && AtMost(X25519.Sub(a, b), r + 0x10_0000_0000_0024)
  {
    hide X25519.Minus;
    MinusInside(a[0], b[0], 0x10_0000_0000_0024);
    MinusInside(a[1], b[1], 0xf_ffff_ffff_fffe);
    MinusInside(a[2], b[2], 0xf_ffff_ffff_fffe);
    MinusInside(a[3], b[3], 0xf_ffff_ffff_fffe);
    MinusInside(a[4], b[4], 0xf_ffff_ffff_fffe);
  }

  lemma AtMostMore(f: Fe, m: nat, n: nat)
    requires AtMost(f, m) && m <= n
    ensures AtMost(f, n)
  {
  }

  /** Points with limbs below 2^41 lose nothing on the way to the cross products. */
  lemma SmallCross(p: X25519.Points)
    requires AtMost(p.x2, 0x1ff_ffff_ffff) && AtMost(p.z2, 0x1ff_ffff_ffff)
    requires AtMost(p.x3, 0x1ff_ffff_ffff) && AtMost(p.z3, 0x1ff_ffff_ffff)
    ensures CrossFits(p) && AtMost(FirstCross(p), 0xd_f000_0000_0000) && AtMost(SecondCross(p), 0xd_f000_0000_0000)
  {
    AtMostMore(p.z2, 0x1ff_ffff_ffff, 0xf_ffff_ffff_fffe);
    AtMostMore(p.z3, 0x1ff_ffff_ffff, 0xf_ffff_ffff_fffe);
    hide AtMost, SumsFit, DifferencesFit, Fits, Mul, X25519.Add, X25519.Sub;
    AddAtMost(p.x2, p.z2, 0x1ff_ffff_ffff, 0x1ff_ffff_ffff);
    AddAtMost(p.x3, p.z3, 0x1ff_ffff_ffff, 0x1ff_ffff_ffff);
    SubAtMost(p.x2, p.z2, 0x1ff_ffff_ffff);
    SubAtMost(p.x3, p.z3, 0x1ff_ffff_ffff);
    MulAtMost(X25519.Sub(p.x3, p.z3), X25519.Add(p.x2, p.z2), 0x10_0200_0000_0023, 0x3ff_ffff_fffe, 0x1000_0000_0000);
    MulAtMost(X25519.Add(p.x3, p.z3), X25519.Sub(p.x2, p.z2), 0x3ff_ffff_fffe, 0x10_0200_0000_0023, 0x1000_0000_0000);
  }

  lemma SmallRest(x1: Fe, u: Fe, v: Fe)
    requires AtMost(x1, 0x1ff_ffff_ffff) && AtMost(u, 0xd_f000_0000_0000) && AtMost(v, 0xd_f000_0000_0000)
    ensures var sum, diff := X25519.Add(u, v), X25519.Sub(u, v);
            SumsFit(u, v) && DifferencesFit(u, v) && Fits(sum, sum) && Fits(diff, diff) && Fits(x1, Mul(diff, diff))
  {
    AtMostMore(v, 0xd_f000_0000_0000, 0xf_ffff_ffff_fffe);
    hide AtMost, SumsFit, DifferencesFit, Fits, Mul, X25519.Add, X25519.Sub;
    AddAtMost(u, v, 0xd_f000_0000_0000, 0xd_f000_0000_0000);
    SubAtMost(u, v, 0xd_f000_0000_0000);
    var sum, diff := X25519.Add(u, v), X25519.Sub(u, v);
    MulAtMost(sum, sum, 0x1b_e000_0000_0000, 0x1b_e000_0000_0000, 0x80_0000_0000_0000);
    MulAtMost(diff, diff, 0x1d_f000_0000_0024, 0x1d_f000_0000_0024, 0x80_0000_0000_0000);
    MulAtMost(x1, Mul(diff, diff), 0x1ff_ffff_ffff, 0x2f88_0000_0000_0000, 0x10_0000_0000_0000);
  }

  /**
   Whatever limbs below 2^41: with A, B the sum and the difference plus 74 of the first point's
   coordinates and C, D those of the second, the new x3 is (DA + CB)^2 and the new z3 is
   x1 (DA - CB + 74)^2 modulo 2^255 - 19.
   */
  lemma SmallLimbsAdd(x1: Fe, p: X25519.Points, a: int, b: int, c: int, d: int)
    requires forall i :: 0 <= i < 5 ==> x1[i] < 0x200_0000_0000
    requires forall i :: 0 <= i < 5 ==> p.x2[i] < 0x200_0000_0000 && p.z2[i] < 0x200_0000_0000
    requires forall i :: 0 <= i < 5 ==> p.x3[i] < 0x200_0000_0000 && p.z3[i] < 0x200_0000_0000
    requires a == Value(p.x2) + Value(p.z2) && b == Value(p.x2) - Value(p.z2) + 74
    requires c == Value(p.x3) + Value(p.z3) && d == Value(p.x3) - Value(p.z3) + 74
    ensures Congruent(Value(X25519.Step(x1, p).x3), (d * a + c * b) * (d * a + c * b))
    ensures Congruent(Value(X25519.Step(x1, p).z3), Value(x1) * ((d * a - c * b + 74) * (d * a - c * b + 74)))
  {
    SmallCross(p);
    SmallRest(x1, FirstCross(p), SecondCross(p));
    AddsPoints(x1, p, a, b, c, d);
    hide *;
  }

  lemma SmallSquares(p: X25519.Points)
    requires AtMost(p.x2, 0x1ff_ffff_ffff) && AtMost(p.z2, 0x1ff_ffff_ffff)
    ensures SquaresFit(p) && AtMost(SumSquare(p), 0xf_ffff_ffff_ffff)
  {
    AtMostMore(p.z2, 0x1ff_ffff_ffff, 0xf_ffff_ffff_fffe);
    hide AtMost, SumsFit, DifferencesFit, Fits, Mul, X25519.Add, X25519.Sub;
    AddAtMost(p.x2, p.z2, 0x1ff_ffff_ffff, 0x1ff_ffff_ffff);
    SubAtMost(p.x2, p.z2, 0x1ff_ffff_ffff);
    var s, d := X25519.Add(p.x2, p.z2), X25519.Sub(p.x2, p.z2);
    MulAtMost(s, s, 0x3ff_ffff_fffe, 0x3ff_ffff_fffe, 0x2_0000_0000);
    MulAtMost(d, d, 0x10_0200_0000_0023, 0x10_0200_0000_0023, 0x80_0000_0000_0000);
    AtMostMore(Mul(s, s), 0x8_0000_0000_0000 + 95 * 0x2_0000_0000, 0xf_ffff_ffff_ffff);
  }

  lemma ProdAtLeast(x: nat, y: nat)
    requires x >= 0x8_0000_0000_0000 && y >= 0x8_0000_0000_0000
    ensures Prod(x, y) >= 0x40_0000_0000_0000_0000_0000_0000
  {
    MulMonotonic(x, 0x8_0000_0000_0000, y);
    MulMonotonic(0x8_0000_0000_0000, 0x8_0000_0000_0000, x);
  }

  /** The lowest limb of the square takes 19 times the carry out of the highest. */
  lemma LargeSquare(f: Fe)
    requires forall k :: 0 <= k < 5 ==> f[k] >= 0x8_0000_0000_0000
    requires Fits(f, f)
    ensures Mul(f, f)[0] >= 0x40_0000_0000_0000
  {
    ProdAtLeast(f[0], f[4]);
    ProdAtLeast(f[1], f[3]);
    ProdAtLeast(f[2], f[2]);
    ProdAtLeast(f[3], f[1]);
    ProdAtLeast(f[4], f[0]);
    ExactSums(f, f);
    AccWraps(f, f, 0, 5);
    var t := Exact(f, f, 4, 5);
    hide Prod, Exact;
    assert High51(t) >= 0x8_0000_0000_0000;
    assert Unreduced(f, f, 0) >= 19 * 0x8_0000_0000_0000;
    hide Mul, Unreduced;
    MulExactIff(f, f);
  }

  /**
   Whatever limbs below 2^41: the new x2 is A^2 B^2 exactly when that last product fits. The
   difference of the two squares, which the new z2 is made from, always loses a bit, so it is never
   right modulo 2^255 - 19.
   */
  lemma SmallLimbsDouble(x1: Fe, p: X25519.Points, a: int, b: int)
    requires forall i :: 0 <= i < 5 ==> p.x2[i] < 0x200_0000_0000 && p.z2[i] < 0x200_0000_0000
    requires a == Value(p.x2) + Value(p.z2) && b == Value(p.x2) - Value(p.z2) + 74
    ensures Congruent(Value(X25519.Step(x1, p).x2), a * a * (b * b)) <==> Fits(SumSquare(p), DifferenceSquare(p))
    ensures !Congruent(Value(X25519.Sub(SumSquare(p), DifferenceSquare(p))), a * a - b * b + 74)
  {
    SquaresNeverFit(p);
    SquaresGive(p);
    SubGives(SumSquare(p), DifferenceSquare(p), a * a, b * b);
    DoublesPoint(x1, p, a, b, a * a - b * b + 74);
    hide *;
  }

  lemma SquaresNeverFit(p: X25519.Points)
    requires AtMost(p.x2, 0x1ff_ffff_ffff) && AtMost(p.z2, 0x1ff_ffff_ffff)
    ensures SquaresFit(p) && !DifferencesFit(SumSquare(p), DifferenceSquare(p))
  {
    SmallSquares(p);
    SmallDifferenceIsLarge(p);
    hide Mul, Fits, X25519.Add, X25519.Sub;
    LargeSquare(X25519.Sub(p.x2, p.z2));
    hide AtMost, DifferencesFit;
    FirstLimbNegative(SumSquare(p), DifferenceSquare(p));
  }

  lemma FirstLimbNegative(a: Fe, b: Fe)
    requires AtMost(a, 0xf_ffff_ffff_ffff) && b[0] >= 0x40_0000_0000_0000
    ensures !DifferencesFit(a, b)
  {
    assert X25519.DifferenceAt(a, b, 0) < 0;
  }

  lemma SmallDifferenceIsLarge(p: X25519.Points)
    requires AtMost(p.x2, 0x1ff_ffff_ffff) && AtMost(p.z2, 0x1ff_ffff_ffff)
    ensures forall k :: 0 <= k < 5 ==> X25519.Sub(p.x2, p.z2)[k] >= 0x8_0000_0000_0000
  {
    hide X25519.Minus;
    MinusInside(p.x2[0], p.z2[0], 0x10_0000_0000_0024);
    MinusInside(p.x2[1], p.z2[1], 0xf_ffff_ffff_fffe);
    MinusInside(p.x2[2], p.z2[2], 0xf_ffff_ffff_fffe);
    MinusInside(p.x2[3], p.z2[3], 0xf_ffff_ffff_fffe);
    MinusInside(p.x2[4], p.z2[4], 0xf_ffff_ffff_fffe);
  }

  // ---------------------------------------------------------------- a point whose double is right

  /** Five columns given with their low 51 bits and the rest, and the limbs they carry to. */
  lemma CarriesTo(a: Fe, b: Fe, l: seq<nat>, h: seq<nat>, g: Fe)
    requires |l| == |h| == 5
    requires forall k :: 0 <= k < 5 ==> l[k] < 0x8_0000_0000_0000 && Exact(a, b, k, 5) == l[k] + 0x8_0000_0000_0000 * h[k]
    requires g[0] == l[0] + 19 * h[4] && g[1] == l[1] + h[0] && g[2] == l[2] + h[1] && g[3] == l[3] + h[2] && g[4] == l[4] + h[3]
    ensures Mul(a, b) == g && Fits(a, b)
  {
    hide *;
    CarriedLimb(a, b, 0, l[0], h[0], l[4], h[4]);
    CarriedLimb(a, b, 1, l[1], h[1], l[0], h[0]);
    CarriedLimb(a, b, 2, l[2], h[2], l[1], h[1]);
    CarriedLimb(a, b, 3, l[3], h[3], l[2], h[2]);
    CarriedLimb(a, b, 4, l[4], h[4], l[3], h[3]);
    LimbsFound(a, b, g);
  }

  lemma LimbsFound(a: Fe, b: Fe, g: Fe)
    requires Unreduced(a, b, 0) == g[0] && Unreduced(a, b, 1) == g[1] && Unreduced(a, b, 2) == g[2]
    requires Unreduced(a, b, 3) == g[3] && Unreduced(a, b, 4) == g[4]
    ensures Mul(a, b) == g && Fits(a, b)
  {
    hide Mul, Unreduced;
    assert forall k :: 0 <= k < 5 ==> Unreduced(a, b, k) == g[k];
    MulExactIff(a, b);
  }

  lemma CarriedLimb(a: Fe, b: Fe, k: nat, l: nat, h: nat, m: nat, c: nat)
    requires k < 5 && l < 0x8_0000_0000_0000 && m < 0x8_0000_0000_0000
    requires Exact(a, b, k, 5) == l + 0x8_0000_0000_0000 * h && Exact(a, b, (k + 4) % 5, 5) == m + 0x8_0000_0000_0000 * c
    ensures Unreduced(a, b, k) == l + (if k == 0 then 19 else 1) * c
  {
    SplitAt51(l, h);
    SplitAt51(m, c);
    hide Exact, Low51, High51;
  }

  lemma SplitAt51(l: nat, h: nat)
    requires l < 0x8_0000_0000_0000
    ensures Low51(l + 0x8_0000_0000_0000 * h) == l && High51(l + 0x8_0000_0000_0000 * h) == h
  {
  }

  const HALF: Fe := [0x8200000000000, 0x7e00000000000, 0x8200000000000, 0x8000000000000, 0x7e00000000000]
  const HALF_LESS: Fe := [0x7e00000000024, 0x81ffffffffffe, 0x7dffffffffffe, 0x7fffffffffffe, 0x81ffffffffffe]
  const SQUARE_OF_SUM: Fe := [0x2f7f68000000000, 0x263938000000000, 0x1d7ec0000000000, 0x143818000000000, 0xb3888000000000]
  const SQUARE_OF_DIFFERENCE: Fe := [0x2fd768000000a7b, 0x26e137fffffff69, 0x1dd6bffffffff6d, 0x153817fffffff69, 0xbe087fffffff6a]
  const E_LIMBS: Fe := [0xa7ffffffff5a9, 0x5800000000095, 0xa800000000091, 0x95, 0x5800000000094]
  const E_SCALED: Fe := [0x27fffece632dd, 0x5800001170c9a, 0x28000010e768d, 0x1170c9a, 0x580000112c194]
  const LAST_FACTOR: Fe := [0x2fff67fece63d58, 0x273938001170c03, 0x1dfec00010e75fa, 0x153818001170c03, 0xc388800112c0fe]

  lemma SumSquared()
    ensures Mul(HALF, HALF) == SQUARE_OF_SUM && Fits(HALF, HALF)
  {
    var a: Fe, b: Fe := HALF, HALF;
    ExactSums(a, b);
    assert Exact(a, b, 0, 5) == 0x131c9c0000000000000000000000;
    assert Exact(a, b, 1, 5) == 0xebf600000000000000000000000;
    assert Exact(a, b, 2, 5) == 0xa1c0c0000000000000000000000;
    assert Exact(a, b, 3, 5) == 0x59c440000000000000000000000;
    assert Exact(a, b, 4, 5) == 0x13ffc0000000000000000000000;
    CarriesTo(a, b, [0, 0, 0, 0, 0],
      [0x263938000000000, 0x1d7ec0000000000, 0x143818000000000, 0xb3888000000000, 0x27ff8000000000], SQUARE_OF_SUM);
  }

  lemma DifferenceSquared()
    ensures Mul(HALF_LESS, HALF_LESS) == SQUARE_OF_DIFFERENCE && Fits(HALF_LESS, HALF_LESS)
  {
    var a: Fe, b: Fe := HALF_LESS, HALF_LESS;
    ExactSums(a, b);
    assert Exact(a, b, 0, 5) == 0x13649bfffffff8ad800000000640;
    assert Exact(a, b, 1, 5) == 0xebf5ffffffffb09800000000054;
    assert Exact(a, b, 2, 5) == 0xa640bfffffffd2d80000000000c;
    assert Exact(a, b, 3, 5) == 0x5e443ffffffff76ffffffffffc4;
    assert Exact(a, b, 4, 5) == 0x13ffc00000001c97fffffffff7c;
    CarriesTo(a, b, [0x5800000000640, 0x1800000000054, 0x580000000000c, 0x6ffffffffffc4, 0x17fffffffff7c],
      [0x26c937fffffff15, 0x1d7ebffffffff61, 0x14c817fffffffa5, 0xbc887fffffffee, 0x27ff8000000039], SQUARE_OF_DIFFERENCE);
  }

  /** Multiplication by a number of one limb. */
  lemma ByOneLimb(a: Fe, b: Fe)
    requires b[1] == b[2] == b[3] == b[4] == 0
    ensures forall k :: 0 <= k < 5 ==> Exact(a, b, k, 5) == Prod(a[k], b[0])
  {
    ExactSums(a, b);
    ProdZero(a[0]);
    ProdZero(a[1]);
    ProdZero(a[2]);
    ProdZero(a[3]);
    ProdZero(a[4]);
    hide Prod, Exact;
  }

  lemma ScaledE()
    ensures Mul(E_LIMBS, [121665, 0, 0, 0, 0]) == E_SCALED && Fits(E_LIMBS, [121665, 0, 0, 0, 0])
  {
    var a: Fe, b: Fe := E_LIMBS, [121665, 0, 0, 0, 0];
    ByOneLimb(a, b);
    assert Exact(a, b, 0, 5) == 0x137e2a7fffeccdf2e9;
    assert Exact(a, b, 1, 5) == 0xa35e5800001149cd5;
    assert Exact(a, b, 2, 5) == 0x137e2a8000010d2fd1;
    assert Exact(a, b, 3, 5) == 0x1149cd5;
    assert Exact(a, b, 4, 5) == 0xa35e580000112c194;
    CarriesTo(a, b, [0x27fffeccdf2e9, 0x5800001149cd5, 0x28000010d2fd1, 0x1149cd5, 0x580000112c194],
      [0x26fc5, 0x146bc, 0x26fc5, 0, 0x146bc], E_SCALED);
  }

  lemma LastProduct()
    ensures Fits(E_LIMBS, LAST_FACTOR)
  {
    var a: Fe, b: Fe := E_LIMBS, LAST_FACTOR;
    ExactSums(a, b);
    assert Exact(a, b, 0, 5) == 0x27811f580f31eeb856574c0d8ccdd;
    assert Exact(a, b, 1, 5) == 0x186860e40e6fcbe51380cd23d29f2;
    assert Exact(a, b, 2, 5) == 0xcb40d23fba7745aa3d82bbd90a77;
    assert Exact(a, b, 3, 5) == 0x81cb26c08cda33f1bb76a22cdf70;
    assert Exact(a, b, 4, 5) == 0x337f5b3fb34aed86836bba36c2a6;
    CarriesTo(a, b, [0x56574c0d8ccdd, 0x1380cd23d29f2, 0x23d82bbd90a77, 0x1bb76a22cdf70, 0x6836bba36c2a6],
      [0x4f023eb01e63dd70, 0x30d0c1c81cdf97ca, 0x19681a47f74ee8b5, 0x103964d8119b467e, 0x66feb67f6695db0], [0x7a53de2c0aaac0ed, 0x4f0376bcf0a10762, 0x30d2ff4ad8b8a241, 0x1969d5be997bc825, 0x103fe843cbd20924]);
  }

  /** The conditions on the new z2 can be met: for this point it is right. */
  lemma DoubleCanBeRight(x1: Fe, p: X25519.Points, a: int, b: int, e: int)
    requires p.x2 == [0, 0, 0, 0, 0] && p.z2 == [0x8200000000000, 0x7e00000000000, 0x8200000000000, 0x8000000000000, 0x7e00000000000]
    requires a == Value(p.x2) + Value(p.z2) && b == Value(p.x2) - Value(p.z2) + 74 && e == a * a - b * b + 74
    ensures Congruent(Value(X25519.Step(x1, p).z2), e * (b * b + e * 121665))
  {
    assert p.z2 == HALF;
    PointOfHalf(p);
    SumSquared();
    DifferenceSquared();
    LimbsOfE();
    ScaledE();
    LastProduct();
    hide Mul, Fits, X25519.Add, X25519.Sub, Value, Congruent, X25519.Step, SumsFit, DifferencesFit;
    DoublesPoint(x1, p, a, b, e);
  }

  lemma PointOfHalf(p: X25519.Points)
    requires p.x2 == [0, 0, 0, 0, 0] && p.z2 == HALF
    ensures X25519.Add(p.x2, p.z2) == HALF && SumsFit(p.x2, p.z2)
    ensures X25519.Sub(p.x2, p.z2) == HALF_LESS && DifferencesFit(p.x2, p.z2)
  {
  }

  lemma LimbsOfE()
    ensures X25519.Sub(SQUARE_OF_SUM, SQUARE_OF_DIFFERENCE) == E_LIMBS && DifferencesFit(SQUARE_OF_SUM, SQUARE_OF_DIFFERENCE)
    ensures X25519.Add(SQUARE_OF_DIFFERENCE, E_SCALED) == LAST_FACTOR && SumsFit(SQUARE_OF_DIFFERENCE, E_SCALED)
  {
  }
}
