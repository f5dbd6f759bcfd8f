/** The X25519 scalar ladder: clamping, conditional swaps and the deferred-swap loop. */
module X25519 {
  import opened Bytes
  import opened Field25519
  import FieldBytes

  // ---------------------------------------------------------------- field operations of the loop

  function Plus(x: int, y: int): uint64 { Wrap64(x + y) }

  function Minus(x: int, y: int, c: int): uint64 { Wrap64(x - y + c) }

  function Add(a: Fe, b: Fe): Fe {
    [Plus(a[0], b[0]), Plus(a[1], b[1]), Plus(a[2], b[2]), Plus(a[3], b[3]), Plus(a[4], b[4])]
  }

  function Sub(a: Fe, b: Fe): Fe {
    var c := 2 * 0x7_ffff_ffff_ffff;
    [Minus(a[0], b[0], c + 38), Minus(a[1], b[1], c), Minus(a[2], b[2], c), Minus(a[3], b[3], c), Minus(a[4], b[4], c)]
  }

  method FeAdd(out: array<uint64>, a: array<uint64>, b: array<uint64>)
    requires out.Length == 5 && a.Length == 5 && b.Length == 5
    modifies out
    ensures LimbsOf(out) == Add(old(LimbsOf(a)), old(LimbsOf(b)))
  {
    ghost var fa, fb := LimbsOf(a), LimbsOf(b);
    for i := 0 to 5
      invariant forall j :: 0 <= j < i ==> out[j] == Add(fa, fb)[j]
      invariant forall j :: i <= j < 5 ==> a[j] == fa[j] && b[j] == fb[j]
    {
      out[i] := Plus(a[i], b[i]);
    }
  }

  method FeSub(out: array<uint64>, a: array<uint64>, b: array<uint64>)
    requires out.Length == 5 && a.Length == 5 && b.Length == 5
    modifies out
    ensures LimbsOf(out) == Sub(old(LimbsOf(a)), old(LimbsOf(b)))
  {
    var c := 2 * 0x7_ffff_ffff_ffff;
    out[0] := Minus(a[0], b[0], c + 38);
    out[1] := Minus(a[1], b[1], c);
    out[2] := Minus(a[2], b[2], c);
    out[3] := Minus(a[3], b[3], c);
    out[4] := Minus(a[4], b[4], c);
  }

  /** How often 2^64 fits a sum or difference of words: what the cut to 64 bits removes. */
  function Over(x: int): int { x / 0x1_0000_0000_0000_0000 }

  lemma OverOf(x: int)
    requires 0 - 0x1_0000_0000_0000_0000 <= x < 2 * 0x1_0000_0000_0000_0000
    ensures x == Wrap64(x) + 0x1_0000_0000_0000_0000 * Over(x)
    ensures -1 <= Over(x) <= 1 && (Over(x) == 0 <==> 0 <= x < 0x1_0000_0000_0000_0000)
  {
  }

  /** Five numbers cut to 64 bits, and what the cut removes. */
  lemma CutFive(x0: int, x1: int, x2: int, x3: int, x4: int)
    requires 0 - 0x1_0000_0000_0000_0000 <= x0 < 2 * 0x1_0000_0000_0000_0000
    requires 0 - 0x1_0000_0000_0000_0000 <= x1 < 2 * 0x1_0000_0000_0000_0000
    requires 0 - 0x1_0000_0000_0000_0000 <= x2 < 2 * 0x1_0000_0000_0000_0000
    requires 0 - 0x1_0000_0000_0000_0000 <= x3 < 2 * 0x1_0000_0000_0000_0000
    requires 0 - 0x1_0000_0000_0000_0000 <= x4 < 2 * 0x1_0000_0000_0000_0000
    ensures Value5(x0, x1, x2, x3, x4)
         == Value5(Wrap64(x0), Wrap64(x1), Wrap64(x2), Wrap64(x3), Wrap64(x4))
            + 0x1_0000_0000_0000_0000 * Value5(Over(x0), Over(x1), Over(x2), Over(x3), Over(x4))
  {
    OverOf(x0);
    OverOf(x1);
    OverOf(x2);
    OverOf(x3);
    OverOf(x4);
    hide Wrap64, Over;
  }

  function SumAt(a: Fe, b: Fe, k: nat): int
    requires k < 5
  {
    (a[k] as int) + b[k]
  }

  lemma ValueOfSums(a0: int, a1: int, a2: int, a3: int, a4: int, b0: int, b1: int, b2: int, b3: int, b4: int)
    ensures Value5(a0 + b0, a1 + b1, a2 + b2, a3 + b3, a4 + b4) == Value5(a0, a1, a2, a3, a4) + Value5(b0, b1, b2, b3, b4)
    ensures Value5(a0 - b0, a1 - b1, a2 - b2, a3 - b3, a4 - b4) == Value5(a0, a1, a2, a3, a4) - Value5(b0, b1, b2, b3, b4)
  {
  }

  /** What fe_add returns, with all it loses. */
  lemma AddValue(a: Fe, b: Fe) returns (w0: int, w1: int, w2: int, w3: int, w4: int)
    ensures Value(a) + Value(b) == Value(Add(a, b)) + 0x1_0000_0000_0000_0000 * Value5(w0, w1, w2, w3, w4)
    ensures -1 <= w0 <= 1 && -1 <= w1 <= 1 && -1 <= w2 <= 1 && -1 <= w3 <= 1 && -1 <= w4 <= 1
    ensures w0 == w1 == w2 == w3 == w4 == 0 <==> forall i :: 0 <= i < 5 ==> SumAt(a, b, i) < 0x1_0000_0000_0000_0000
  {
    hide Over, Wrap64, Value5;
    var s0, s1, s2, s3, s4 := SumAt(a, b, 0), SumAt(a, b, 1), SumAt(a, b, 2), SumAt(a, b, 3), SumAt(a, b, 4);
    ValueOfSums(a[0], a[1], a[2], a[3], a[4], b[0], b[1], b[2], b[3], b[4]);
    CutFive(s0, s1, s2, s3, s4);
    w0, w1, w2, w3, w4 := Over(s0), Over(s1), Over(s2), Over(s3), Over(s4);
    OverOf(s0);
    OverOf(s1);
    OverOf(s2);
    OverOf(s3);
    OverOf(s4);
    assert Value5(s0, s1, s2, s3, s4) == Value(a) + Value(b);
    assert Value(Add(a, b)) == Value5(Wrap64(s0), Wrap64(s1), Wrap64(s2), Wrap64(s3), Wrap64(s4));
    assert forall i :: 0 <= i < 5 ==> SumAt(a, b, i) >= 0;
    hide SumAt, Add, Value;
    assert (forall i :: 0 <= i < 5 ==> SumAt(a, b, i) < 0x1_0000_0000_0000_0000) ==>
      s0 < 0x1_0000_0000_0000_0000 && s1 < 0x1_0000_0000_0000_0000 && s2 < 0x1_0000_0000_0000_0000
      && s3 < 0x1_0000_0000_0000_0000 && s4 < 0x1_0000_0000_0000_0000;
  }

  lemma SumLoss(x: int, y: int, w0: int, w1: int, w2: int, w3: int, w4: int)
    requires x == y + 0x1_0000_0000_0000_0000 * Value5(w0, w1, w2, w3, w4)
    requires -1 <= w0 <= 1 && -1 <= w1 <= 1 && -1 <= w2 <= 1 && -1 <= w3 <= 1 && -1 <= w4 <= 1
    ensures Congruent(y, x) <==> w0 == w1 == w2 == w3 == w4 == 0
    ensures x == y <==> w0 == w1 == w2 == w3 == w4 == 0
  {
    assert TimesP(0) == 0;
    hide Value5, Congruent, TimesP;
    ZeroDigits(w0, w1, w2, w3, w4);
    LossShows(x, y, 0, w0, w1, w2, w3, w4);
  }

  /** For all limbs: fe_add adds modulo p, and exactly, if and only if no sum of limbs reaches 2^64. */
  lemma AddCorrect(a: Fe, b: Fe)
    ensures Congruent(Value(Add(a, b)), Value(a) + Value(b)) <==> forall i :: 0 <= i < 5 ==> SumAt(a, b, i) < 0x1_0000_0000_0000_0000
    ensures Value(Add(a, b)) == Value(a) + Value(b) <==> forall i :: 0 <= i < 5 ==> SumAt(a, b, i) < 0x1_0000_0000_0000_0000
  {
    var w0, w1, w2, w3, w4 := AddValue(a, b);
    hide Value, Value5, Congruent, Add, SumAt;
    SumLoss(Value(a) + Value(b), Value(Add(a, b)), w0, w1, w2, w3, w4);
  }

  /** Limb `k` of the difference with its constant, before the cut to 64 bits. */
  function DifferenceAt(a: Fe, b: Fe, k: nat): int
    requires k < 5
  {
    (a[k] as int) - b[k] + if k == 0 then 0xf_ffff_ffff_fffe + 38 else 0xf_ffff_ffff_fffe
  }

  /** What fe_sub returns, with all it loses. */
  lemma SubValue(a: Fe, b: Fe) returns (w0: int, w1: int, w2: int, w3: int, w4: int)
    ensures Value(a) - Value(b) + 74 == Value(Sub(a, b)) + 0x1_0000_0000_0000_0000 * Value5(w0, w1, w2, w3, w4) + TimesP(-2)
    ensures -1 <= w0 <= 1 && -1 <= w1 <= 1 && -1 <= w2 <= 1 && -1 <= w3 <= 1 && -1 <= w4 <= 1
    ensures w0 == w1 == w2 == w3 == w4 == 0 <==> forall i :: 0 <= i < 5 ==> 0 <= DifferenceAt(a, b, i) < 0x1_0000_0000_0000_0000
  {
    hide Over, Wrap64, Value5, TimesP;
    var d0, d1, d2 := DifferenceAt(a, b, 0), DifferenceAt(a, b, 1), DifferenceAt(a, b, 2);
    var d3, d4 := DifferenceAt(a, b, 3), DifferenceAt(a, b, 4);
    var c := 0xf_ffff_ffff_fffe;
    ValueOfSums(a[0], a[1], a[2], a[3], a[4], b[0], b[1], b[2], b[3], b[4]);
    ValueOfSums((a[0] as int) - b[0], (a[1] as int) - b[1], (a[2] as int) - b[2], (a[3] as int) - b[3], (a[4] as int) - b[4],
      c + 38, c, c, c, c);
    ConstantOfSub();
    CutFive(d0, d1, d2, d3, d4);
    OverOf(d0);
    OverOf(d1);
    OverOf(d2);
    OverOf(d3);
    OverOf(d4);
    w0, w1, w2, w3, w4 := Over(d0), Over(d1), Over(d2), Over(d3), Over(d4);
  }

  /** The constant fe_sub adds is 2p + 74. */
  lemma ConstantOfSub()
    ensures var c := 0xf_ffff_ffff_fffe; Value5(c + 38, c, c, c, c) == 74 - TimesP(-2)
  {
  }

  /** Since 2^268 is 19 * 2^13 modulo p, lost words are multiples of 2^13 and never make up for 74. */
  lemma NeverZero(w0: int, w1: int, w2: int, w3: int, w4: int, m: int)
    requires -1 <= w0 <= 1 && -1 <= w1 <= 1 && -1 <= w2 <= 1 && -1 <= w3 <= 1 && -1 <= w4 <= 1
    ensures TimesP(m) + 74 != 0x1_0000_0000_0000_0000 * Value5(w0, w1, w2, w3, w4)
  {
    var s := 0x8_0000_0000_0000 * (w0 + 0x8_0000_0000_0000 * (w1 + 0x8_0000_0000_0000 * (w2 + 0x8_0000_0000_0000 * w3))) + 19 * w4;
    var n := m - 0x2000 * w4;
    assert 0x1_0000_0000_0000_0000 * Value5(w0, w1, w2, w3, w4) - TimesP(m) == 0x2000 * s - TimesP(n);
    assert 0 - P < 0x2000 * s - 74 < P;
    hide Value5;
    assert TimesP(n) != 0x2000 * s - 74;
  }

  /**
   For all limbs: fe_sub gives the difference plus 74 modulo p if and only if no limb of the
   difference leaves its word, and it never gives the difference.
   */
  lemma SubIsOffBy74(a: Fe, b: Fe)
    ensures Congruent(Value(Sub(a, b)), Value(a) - Value(b) + 74)
       <==> forall i :: 0 <= i < 5 ==> 0 <= DifferenceAt(a, b, i) < 0x1_0000_0000_0000_0000
    ensures !Congruent(Value(Sub(a, b)), Value(a) - Value(b))
  {
    var w0, w1, w2, w3, w4 := SubValue(a, b);
    var x, y := Value(a) - Value(b), Value(Sub(a, b));
    hide Value, Sub, Congruent, Value5, TimesP, DifferenceAt;
    LossShows(x + 74, y, -2, w0, w1, w2, w3, w4);
    if Congruent(y, x) {
      var m := MultipleOfP(x, y);
      TimesPSum(m + 2, -2);
      NeverZero(w0, w1, w2, w3, w4, m + 2);
      assert false;
    }
  }

  /** One limb pair of fe_cswap: exclusive or with a mask of all ones swaps, with zero keeps. */
  lemma MaskedSwap(x: uint64, y: uint64, mask: nat)
    requires mask == 0 || mask == 0xffff_ffff_ffff_ffff
    ensures var t := And(Xor(x, y), mask);
            (Xor(x, t), Xor(y, t)) == if mask == 0 then (x, y) else (y, x)
  {
    hide Xor, And, Pow2;
    if mask == 0 {
      AndZero(Xor(x, y));
      XorZero(x);
      XorZero(y);
    } else {
      Pow2Of64();
      XorBound(x, y, 64);
      AndMask(Xor(x, y), 64);
      XorUndo(x, y);
      XorCommutes(x, y);
      XorUndo(y, x);
      XorCommutes(x, Xor(x, y));
      XorCommutes(y, Xor(x, y));
    }
  }

  /** fe_cswap: the two arrays may be the same one. */
  method FeCswap(a: array<uint64>, b: array<uint64>, swap: uint64)
    requires a.Length == 5 && b.Length == 5
    modifies a, b
    ensures LimbsOf(a) == old(if swap % 2 == 1 then LimbsOf(b) else LimbsOf(a))
    ensures LimbsOf(b) == old(if swap % 2 == 1 then LimbsOf(a) else LimbsOf(b))
  {
    ghost var fa, fb := LimbsOf(a), LimbsOf(b);
    var mask := Wrap64(-(swap % 2));
    for i := 0 to 5
      invariant forall j :: i <= j < 5 ==> a[j] == fa[j] && b[j] == fb[j]
      invariant forall j :: 0 <= j < i ==> a[j] == (if swap % 2 == 1 then fb[j] else fa[j])
      invariant forall j :: 0 <= j < i ==> b[j] == (if swap % 2 == 1 then fa[j] else fb[j])
    {
      MaskedSwap(a[i], b[i], mask);
      var t := And(Xor(a[i], b[i]), mask);
      if a == b {
        XorSelf(a[i]);
        assert t == 0;
        XorZero(a[i]);
      }
      a[i] := Xor(a[i], t);
      b[i] := Xor(b[i], t);
    }
  }

  // ---------------------------------------------------------------- the ladder with any step

  /** The four field elements the loop carries: a point pair (x2, z2) and (x3, z3). */
  datatype Points = Points(x2: Fe, z2: Fe, x3: Fe, z3: Fe)

  function SwapIf(b: bool, p: Points): Points {
    if b then Points(p.x3, p.z3, p.x2, p.z2) else p
  }

  /** The C expression `n >> i`. */
  function HighBits(n: nat, i: nat): int {
    n / Pow2(i)
  }

  predicate Bit(n: nat, i: nat) {
    HighBits(n, i) % 2 == 1
  }

  /** The loop as coded: swap only where the bit differs from the one before, and once at the end. */
  function Deferred(step: Points -> Points, n: nat, i: nat, swap: bool, p: Points): Points
  {
    if i == 0 then SwapIf(swap, p) else
      var bit := Bit(n, i - 1);
      Deferred(step, n, i - 1, bit, step(SwapIf(swap != bit, p)))
  }

  /** The textbook loop: swap before and after every step whose bit is set. */
  function Plain(step: Points -> Points, n: nat, i: nat, p: Points): Points
  {
    if i == 0 then p else
      var bit := Bit(n, i - 1);
      Plain(step, n, i - 1, SwapIf(bit, step(SwapIf(bit, p))))
  }

  /** Deferring the swaps changes nothing, whatever the step computes. */
  lemma {:induction false} DeferredIsPlain(step: Points -> Points, n: nat, i: nat, swap: bool, p: Points)
    ensures Deferred(step, n, i, swap, p) == Plain(step, n, i, SwapIf(swap, p))
  {
    if i > 0 {
      var bit := Bit(n, i - 1);
      assert SwapIf(bit, SwapIf(swap, p)) == SwapIf(swap != bit, p);
      DeferredIsPlain(step, n, i - 1, bit, step(SwapIf(swap != bit, p)));
    }
  }

  /**
   Scalar multiplication: if `step` takes representations of the multiples m and m + 1 to those
   of 2m and 2m + 1, then from the multiples 0 and 1 the ladder reaches n and n + 1.
   */
  ghost predicate Doubles(step: Points -> Points, rep: (Points, nat) -> bool) {
    forall p, m: nat :: DoublesAt(step, rep, p, m)
  }

  ghost predicate DoublesAt(step: Points -> Points, rep: (Points, nat) -> bool, p: Points, m: nat) {
    rep(p, m) ==> rep(step(p), 2 * m) && rep(SwapIf(true, step(SwapIf(true, p))), 2 * m + 1)
  }

  lemma {:induction false} PlainReaches(step: Points -> Points, rep: (Points, nat) -> bool, n: nat, i: nat, p: Points, m: nat)
    requires Doubles(step, rep) && rep(p, m) && m == HighBits(n, i)
    ensures rep(Plain(step, n, i, p), n)
  {
    if i > 0 {
      var bit := Bit(n, i - 1);
      HalvesTo(n, i - 1);
      hide Bit, HighBits;
      assert DoublesAt(step, rep, p, m);
      PlainReaches(step, rep, n, i - 1, SwapIf(bit, step(SwapIf(bit, p))), 2 * m + if bit then 1 else 0);
    }
  }

  lemma HalvesTo(n: nat, i: nat)
    ensures HighBits(n, i) == 2 * HighBits(n, i + 1) + if Bit(n, i) then 1 else 0
  {
    ModStep(n, Pow2(i), 2);
  }

  lemma LadderReachesMultiple(step: Points -> Points, rep: (Points, nat) -> bool, n: nat, i: nat, p: Points)
    requires Doubles(step, rep) && rep(p, 0) && n < Pow2(i)
    ensures rep(Deferred(step, n, i, false, p), n)
  {
    DivModUnique(n, Pow2(i), 0, n);
    DeferredIsPlain(step, n, i, false, p);
    PlainReaches(step, rep, n, i, p, 0);
  }

  // ---------------------------------------------------------------- the scalar

  function Clamped(k: seq<byte>): (r: seq<byte>)
    requires |k| == 32
    ensures |r| == 32
  {
    k[0 := Low(k[0])][31 := High(k[31])]
  }

  /** `x & 248` */
  function Low(x: byte): byte {
    AndBelow(x, 248);
    And(x, 248)
  }

  /** `(x & 127) | 64` */
  function High(x: byte): byte {
    AndBelow(x, 127);
    OrPow2Is(And(x, 127), 6, 64);
    Or(And(x, 127), 64)
  }

  lemma {:induction false} AndBelow(x: nat, m: nat)
    ensures And(x, m) <= m
    decreases x + m
  {
    if x > 0 && m > 0 {
      AndBelow(x / 2, m / 2);
    }
  }

  lemma OrEven(y: nat, p: nat)
    requires p > 0
    ensures Or(y, 2 * p) == y % 2 + 2 * Or(y / 2, p)
  {
    assert 2 * p / 2 == p && 2 * p % 2 == 0;
    assert y != 0 || 2 * p != 0;
  }

  lemma {:induction false} OrPow2(y: nat, k: nat)
    requires y < 2 * Pow2(k)
    ensures Or(y, Pow2(k)) == Pow2(k) + y % Pow2(k) < 2 * Pow2(k)
  {
    if k > 0 {
      var p := Pow2(k - 1);
      OrPow2(y / 2, k - 1);
      OrEven(y, p);
      hide Or;
      ModDouble(y, p);
    }
  }

  lemma OrPow2Is(y: nat, k: nat, p: nat)
    requires p == Pow2(k) && y < 2 * p
    ensures Or(y, p) == p + y % p < 2 * p
  {
    OrPow2(y, k);
  }

  method Clamp(k: array<byte>)
    requires k.Length == 32
    modifies k
    ensures k[..] == Clamped(old(k[..]))
  {
    hide Low, High;
    k[0] := Low(k[0]);
    k[31] := High(k[31]);
  }

  lemma AndMaskIs(x: nat, k: nat, p: nat)
    requires p == Pow2(k)
    ensures And(x, p - 1) == x % p
  {
    AndMask(x, k);
  }

  lemma ClearLowBits(x: byte)
    ensures Low(x) == 8 * (x / 8)
  {
    hide And;
    assert And(x / 8, 31) == x / 8 by {
      assert Pow2(5) == 32;
      AndMaskIs(x / 8, 5, 32);
    }
    hide Pow2;
    AndEvenMask(x, 124);
    AndEvenMask(x / 2, 62);
    AndEvenMask(x / 4, 31);
    assert x / 2 / 2 == x / 4 && x / 4 / 2 == x / 8;
  }

  lemma AndEvenMask(x: nat, m: nat)
    ensures And(x, 2 * m) == 2 * And(x / 2, m)
  {
  }

  lemma ForceTopBits(x: byte)
    ensures High(x) == 64 + x % 64
  {
    hide And, Or;
    assert And(x, 127) == x % 128 by {
      assert Pow2(7) == 128;
      AndMaskIs(x, 7, 128);
    }
    assert Or(x % 128, 64) == 64 + x % 128 % 64 by {
      assert Pow2(6) == 64;
      OrPow2Is(x % 128, 6, 64);
    }
  }

  /** First byte, 30 middle bytes, last byte. */
  function Joined(first: int, middle: int, last: int): int {
    first + 256 * middle + 0x100000000000000000000000000000000000000000000000000000000000000 * last
  }

  lemma SplitEnds(k: seq<byte>)
    requires |k| == 32
    ensures LittleValue(k) == Joined(k[0], LittleValue(k[1..31]), k[31])
    ensures LittleValue(k[1..31]) < 0x1000000000000000000000000000000000000000000000000000000000000
  {
    Pow256Of30();
    hide Pow256;
    SplitAt(k[1..], 30, 0x1000000000000000000000000000000000000000000000000000000000000);
    assert k[1..][..30] == k[1..31] && k[1..][30..] == [k[31]];
    assert LittleValue([k[31]]) == k[31];
  }

  lemma Pow256Of30()
    ensures Pow256(30) == 0x1000000000000000000000000000000000000000000000000000000000000
  {
    assert Pow256(10) == 0x100000000000000000000;
    Pow256Sum(10, 10);
    Pow256Sum(20, 10);
  }

  lemma SplitAt(s: seq<byte>, n: nat, p: nat)
    requires n <= |s| && p == Pow256(n)
    ensures LittleValue(s) == LittleValue(s[..n]) + p * LittleValue(s[n..])
    ensures LittleValue(s[..n]) < p
  {
    hide *;
    KeepLowBytes(s, n);
    DropLowBytes(s, n);
    DivisionLaw(LittleValue(s), p);
  }

  lemma DivisionLaw(x: nat, d: nat)
    requires d > 0
    ensures x == x % d + d * (x / d) && x % d < d
  {
  }

  /** Clamping gives 2^254 plus a multiple of 8 below 2^254 (section 5 of RFC 7748). */
  lemma ClampedNumber(k: seq<byte>)
    requires |k| == 32
    ensures LittleValue(Clamped(k)) == 0x4000000000000000000000000000000000000000000000000000000000000000 + 8 * (LittleValue(k) / 8 % 0x800000000000000000000000000000000000000000000000000000000000000)
  {
    hide Low, High, LittleValue;
    var c := Clamped(k);
    SplitEnds(k);
    SplitEnds(c);
    assert c[1..31] == k[1..31];
    ClearLowBits(k[0]);
    ForceTopBits(k[31]);
    ClampArithmetic(k[0], LittleValue(k[1..31]), k[31]);
  }

  lemma ClampArithmetic(b: byte, m: nat, t: byte)
    requires m < 0x1000000000000000000000000000000000000000000000000000000000000
    ensures Joined(8 * (b / 8), m, 64 + t % 64) == 0x4000000000000000000000000000000000000000000000000000000000000000 + 8 * (Joined(b, m, t) / 8 % 0x800000000000000000000000000000000000000000000000000000000000000)
  {
    var n := Joined(b, m, t);
    assert n / 8 == b / 8 + 32 * m + 0x20000000000000000000000000000000000000000000000000000000000000 * (t as int);
    DivModUnique(n / 8, 0x800000000000000000000000000000000000000000000000000000000000000, t / 64, b / 8 + 32 * m + 0x20000000000000000000000000000000000000000000000000000000000000 * (t % 64 as int));
  }

  /** The bit the loop extracts from byte i/8 is binary digit i of the little-endian number. */
  predicate ScalarBit(k: seq<byte>, i: nat)
    requires i / 8 < |k|
  {
    HighBits(k[i / 8], i % 8) % 2 == 1
  }

  lemma ByteBit(b: byte, rest: nat, j: nat)
    requires j < 8
    ensures HighBits(b + 256 * rest, j) % 2 == HighBits(b, j) % 2
  {
    var p, t := Pow2(j), Pow2(7 - j);
    Pow2Sum(j, 7 - j);
    assert p * t == 128 by { assert Pow2(7) == 128; }
    var r := b % p;
    assert b + 256 * rest == p * (b / p + 2 * (t * rest)) + r by {
      assert b == p * (b / p) + r;
      MulDistributes(p, b / p, 2 * (t * rest));
      MulAssociates(p, t, rest);
    }
    DivModUnique(b + 256 * rest, p, b / p + 2 * (t * rest), r);
  }

  lemma {:induction false} Pow256IsPow2(n: nat)
    ensures Pow256(n) == Pow2(8 * n)
  {
    if n > 0 {
      Pow256IsPow2(n - 1);
      Pow2Sum(8, 8 * (n - 1));
      assert Pow2(8) == 256;
    }
  }

  lemma ScalarBitIsBit(k: seq<byte>, i: nat)
    requires i / 8 < |k|
    ensures ScalarBit(k, i) == Bit(LittleValue(k), i)
  {
    var o, j := i / 8, i % 8;
    Pow256IsPow2(o);
    Pow2Sum(8 * o, j);
    ModStep(LittleValue(k), Pow256(o), Pow2(j));
    DropLowBytes(k, o);
    ByteBit(k[o], LittleValue(k[o..][1..]), j);
  }

  // ---------------------------------------------------------------- the ladder as coded

  /** The body of the loop after the conditional swaps. */
  function Step(x1: Fe, p: Points): Points {
    var d3 := Sub(p.x3, p.z3);
    var d2 := Sub(p.x2, p.z2);
    var s2 := Add(p.x2, p.z2);
    var s3 := Add(p.x3, p.z3);
    var da := Mul(d3, s2);
    var cb := Mul(s3, d2);
    var bb := Mul(d2, d2);
    var aa := Mul(s2, s2);
    var sum := Add(da, cb);
    var diff := Sub(da, cb);
    var e := Sub(aa, bb);
    var sqd := Mul(diff, diff);
    var ea := Mul(e, [121665, 0, 0, 0, 0]);
    Points(Mul(aa, bb), Mul(e, Add(bb, ea)), Mul(sum, sum), Mul(x1, sqd))
  }

  class LadderState {
    const x2: array<uint64>
    const z2: array<uint64>
    const x3: array<uint64>
    const z3: array<uint64>
    const tmp0: array<uint64>
    const tmp1: array<uint64>

    ghost predicate Valid() {
      && x2.Length == z2.Length == x3.Length == z3.Length == tmp0.Length == tmp1.Length == 5
      && x2 != z2 && x2 != x3 && x2 != z3 && x2 != tmp0 && x2 != tmp1
      && z2 != x3 && z2 != z3 && z2 != tmp0 && z2 != tmp1
      && x3 != z3 && x3 != tmp0 && x3 != tmp1
      && z3 != tmp0 && z3 != tmp1 && tmp0 != tmp1
    }

    ghost function PointsNow(): Points
      requires Valid()
      reads x2, z2, x3, z3
    {
      Points(LimbsOf(x2), LimbsOf(z2), LimbsOf(x3), LimbsOf(z3))
    }

    constructor ()
      ensures Valid() && fresh(x2) && fresh(z2) && fresh(x3) && fresh(z3) && fresh(tmp0) && fresh(tmp1)
    {
      x2 := new uint64[5];
      z2 := new uint64[5];
      x3 := new uint64[5];
      z3 := new uint64[5];
      tmp0 := new uint64[5];
      tmp1 := new uint64[5];
    }

    method SwapPoints(swap: uint64)
      requires Valid() && swap < 2
      modifies x2, z2, x3, z3
      ensures swap == 0 ==> PointsNow() == old(PointsNow())
      ensures swap == 1 ==> PointsNow() == old(Points(LimbsOf(x3), LimbsOf(z3), LimbsOf(x2), LimbsOf(z2)))
    {
      FeCswap(x2, x3, swap);
      FeCswap(z2, z3, swap);
    }

    /** The initial points: (1, 0) and (x1, 1). */
    method Load(x1: array<uint64>)
      requires Valid() && x1.Length == 5 && x1 !in {x2, z2, x3, z3, tmp0, tmp1}
      modifies x2, z2, x3, z3
      ensures PointsNow() == Points([1, 0, 0, 0, 0], [0, 0, 0, 0, 0], LimbsOf(x1), [1, 0, 0, 0, 0])
    {
      SetSmall(x2, 1);
      SetSmall(z2, 0);
      x3[0], x3[1], x3[2], x3[3], x3[4] := x1[0], x1[1], x1[2], x1[3], x1[4];
      SetSmall(z3, 1);
    }

    /** The 255 turns and the final swap. */
    method Run(x1: array<uint64>, a24: array<uint64>, k: seq<byte>)
      requires Valid() && x1.Length == 5 && a24.Length == 5 && |k| == 32
      requires x1 !in {x2, z2, x3, z3, tmp0, tmp1} && a24 !in {x2, z2, x3, z3, tmp0, tmp1}
      requires LimbsOf(a24) == [121665, 0, 0, 0, 0]
      modifies x2, z2, x3, z3, tmp0, tmp1
      ensures PointsNow() == Deferred(StepFrom(LimbsOf(x1)), LittleValue(k), 255, false, old(PointsNow()))
    {
      hide Step, LittleValue, Bit, ScalarBit;
      ghost var n, f1, start := LittleValue(k), LimbsOf(x1), PointsNow();
      ghost var step := StepFrom(f1);
      var swap: uint64 := 0;
      for i := 255 downto 0
        invariant swap < 2 && LimbsOf(x1) == f1 && LimbsOf(a24) == [121665, 0, 0, 0, 0]
        invariant Deferred(step, n, i, swap == 1, PointsNow()) == Deferred(step, n, 255, false, start)
      {
        var bit: uint64 := if ScalarBit(k, i) then 1 else 0;
        ScalarBitIsBit(k, i);
        var xswap := Xor(swap, bit);
        XorOfBits(swap, bit);
        SwapPoints(xswap);
        swap := bit;
        DoStep(x1, a24);
      }
      SwapPoints(swap);
    }

    /** One turn of the loop below the swaps, every call in place as in the source. */
    method DoStep(x1: array<uint64>, a24: array<uint64>)
      requires Valid() && x1.Length == 5 && a24.Length == 5
      requires x1 !in {x2, z2, x3, z3, tmp0, tmp1} && a24 !in {x2, z2, x3, z3, tmp0, tmp1}
      requires LimbsOf(a24) == [121665, 0, 0, 0, 0]
      modifies x2, z2, x3, z3, tmp0, tmp1
      ensures PointsNow() == Step(LimbsOf(x1), old(PointsNow()))
    {
      hide Mul, Add, Sub;
      FeSub(tmp0, x3, z3);
      FeSub(tmp1, x2, z2);
      FeAdd(x2, x2, z2);
      FeAdd(z2, x3, z3);
      FeMul(z3, tmp0, x2);
      FeMul(z2, z2, tmp1);
      FeSq(tmp0, tmp1);
      FeSq(tmp1, x2);
      FeAdd(x3, z3, z2);
      FeSub(z2, z3, z2);
      FeMul(x2, tmp1, tmp0);
      FeSub(tmp1, tmp1, tmp0);
      FeSq(z2, z2);
      FeMul(z3, tmp1, a24);
      FeSq(x3, x3);
      FeAdd(tmp0, tmp0, z3);
      FeMul(z3, x1, z2);
      FeMul(z2, tmp1, tmp0);
    }
  }

  function StepFrom(x1: Fe): Points -> Points {
    p => Step(x1, p)
  }

  method SetSmall(f: array<uint64>, v: uint64)
    requires f.Length == 5
    modifies f
    ensures LimbsOf(f) == [v, 0, 0, 0, 0]
  {
    f[0], f[1], f[2], f[3], f[4] := v, 0, 0, 0, 0;
  }

  /**
   x25519_ladder up to the final swap. The result is that of the textbook ladder over the
   binary digits of the clamped scalar.
   */
  method Ladder(scalar: seq<byte>, point: seq<byte>) returns (s: LadderState)
    requires |scalar| == 32 && |point| == 32
    ensures s.Valid()
    ensures var x1 := FieldBytes.FromBytes(point);
            var start := Points([1, 0, 0, 0, 0], [0, 0, 0, 0, 0], x1, [1, 0, 0, 0, 0]);
            s.PointsNow() == Plain(StepFrom(x1), LittleValue(Clamped(scalar)), 255, start)
  {
    hide Clamped, LittleValue, FieldBytes.FromBytes, Plain, Deferred;
    var kArray := new byte[32](i requires 0 <= i < 32 => scalar[i]);
    assert kArray[..] == scalar;
    Clamp(kArray);
    var k := kArray[..];
    var x1 := new uint64[5];
    FieldBytes.FeFromBytes(x1, point);
    s := new LadderState();
    var a24 := new uint64[5];
    s.Load(x1);
    SetSmall(a24, 121665);
    ghost var start := s.PointsNow();
    s.Run(x1, a24, k);
    DeferredIsPlain(StepFrom(LimbsOf(x1)), LittleValue(k), 255, false, start);
  }

  lemma XorOfBits(x: nat, y: nat)
    requires x < 2 && y < 2
    ensures Xor(x, y) == if x == y then 0 else 1
  {
    XorSelf(x);
    assert Xor(0, 0) == 0;
  }

  /** The clamped scalar has no bit above 254, so the 255 turns read all of it. */
  lemma LadderReadsWholeScalar(step: Points -> Points, rep: (Points, nat) -> bool, scalar: seq<byte>, p: Points)
    requires |scalar| == 32 && Doubles(step, rep) && rep(p, 0)
    ensures rep(Plain(step, LittleValue(Clamped(scalar)), 255, p), LittleValue(Clamped(scalar)))
  {
    var n := LittleValue(Clamped(scalar));
    ClampedNumber(scalar);
    Pow2Of255();
    hide Clamped, LittleValue;
    LadderReachesMultiple(step, rep, n, 255, p);
    DeferredIsPlain(step, n, 255, false, p);
  }

  lemma Pow2Of255()
    ensures Pow2(255) == 0x8000_0000_0000_0000_0000_0000_0000_0000_0000_0000_0000_0000_0000_0000_0000_0000
  {
    Pow2Of64();
    Pow2Sum(64, 64);
    assert Pow2(7) == 0x80;
    Pow2Sum(7, 8);
    Pow2Sum(15, 16);
    Pow2Sum(31, 32);
    Pow2Sum(63, 64);
    Pow2Sum(128, 127);
  }
}
