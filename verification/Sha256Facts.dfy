/** What pins SHA-256 down: its constants, its use of every message word, its first example (FIPS 180-4). */
module Sha256Facts {
  import opened Bytes
  import opened Sha256
  import Octets

  // ---------------------------------------------------------------- the constants

  /** The first 64 primes, eight to a row. */
  const PRIMES: seq<seq<nat>> := [
    [2, 3, 5, 7, 11, 13, 17, 19],
    [23, 29, 31, 37, 41, 43, 47, 53],
    [59, 61, 67, 71, 73, 79, 83, 89],
    [97, 101, 103, 107, 109, 113, 127, 131],
    [137, 139, 149, 151, 157, 163, 167, 173],
    [179, 181, 191, 193, 197, 199, 211, 223],
    [227, 229, 233, 239, 241, 251, 257, 263],
    [269, 271, 277, 281, 283, 293, 307, 311]]

  function Prime(t: nat): nat
    requires t < 64
  {
    assert |PRIMES| == 8;
    assert forall i :: 0 <= i < 8 ==> |PRIMES[i]| == 8;
    PRIMES[t / 8][t % 8]
  }

  function Cube(n: nat): nat { n * n * n }

  function Square(n: nat): nat { n * n }

  /** `k` is the first 32 bits of the fraction of the cube root of `p`, whose integer part is `c`. */
  ghost predicate CubeRoot(p: nat, c: nat, k: nat) {
    && Cube(c) <= p < Cube(c + 1)
    && Cube(c * 0x1_0000_0000 + k) <= p * 0x1_0000_0000_0000_0000_0000_0000 < Cube(c * 0x1_0000_0000 + k + 1)
  }

  ghost predicate SquareRoot(p: nat, c: nat, k: nat) {
    && Square(c) <= p < Square(c + 1)
    && Square(c * 0x1_0000_0000 + k) <= p * 0x1_0000_0000_0000_0000 < Square(c * 0x1_0000_0000 + k + 1)
  }

  ghost predicate HasCubeRoot(p: nat, k: nat) {
    exists c: nat :: CubeRoot(p, c, k)
  }

  ghost predicate HasSquareRoot(p: nat, k: nat) {
    exists c: nat :: SquareRoot(p, c, k)
  }

  lemma AsCubeRoot(t: nat, p: nat, c: nat, k: Word)
    requires t < 64 && Prime(t) == p && RoundConstant(t) == k && CubeRoot(p, c, k as nat)
    ensures HasCubeRoot(Prime(t), RoundConstant(t) as nat)
  {
  }

  lemma Constants0(t: nat)
    requires 0 <= t < 4
    ensures HasCubeRoot(Prime(t), RoundConstant(t) as nat)
  {
    hide HasCubeRoot;
    if t == 0 {
      AsCubeRoot(0, 2, 1, 0x428a2f98);
    } else if t == 1 {
      AsCubeRoot(1, 3, 1, 0x71374491);
    } else if t == 2 {
      AsCubeRoot(2, 5, 1, 0xb5c0fbcf);
    } else {
      AsCubeRoot(3, 7, 1, 0xe9b5dba5);
    }
  }

  lemma Constants4(t: nat)
    requires 4 <= t < 8
    ensures HasCubeRoot(Prime(t), RoundConstant(t) as nat)
  {
    hide HasCubeRoot;
    if t == 4 {
      AsCubeRoot(4, 11, 2, 0x3956c25b);
    } else if t == 5 {
      AsCubeRoot(5, 13, 2, 0x59f111f1);
    } else if t == 6 {
      AsCubeRoot(6, 17, 2, 0x923f82a4);
    } else {
      AsCubeRoot(7, 19, 2, 0xab1c5ed5);
    }
  }

  lemma Constants8(t: nat)
    requires 8 <= t < 12
    ensures HasCubeRoot(Prime(t), RoundConstant(t) as nat)
  {
    hide HasCubeRoot;
    if t == 8 {
      AsCubeRoot(8, 23, 2, 0xd807aa98);
    } else if t == 9 {
      AsCubeRoot(9, 29, 3, 0x12835b01);
    } else if t == 10 {
      AsCubeRoot(10, 31, 3, 0x243185be);
    } else {
      AsCubeRoot(11, 37, 3, 0x550c7dc3);
    }
  }

  lemma Constants12(t: nat)
    requires 12 <= t < 16
    ensures HasCubeRoot(Prime(t), RoundConstant(t) as nat)
  {
    hide HasCubeRoot;
    if t == 12 {
      AsCubeRoot(12, 41, 3, 0x72be5d74);
    } else if t == 13 {
      AsCubeRoot(13, 43, 3, 0x80deb1fe);
    } else if t == 14 {
      AsCubeRoot(14, 47, 3, 0x9bdc06a7);
    } else {
      AsCubeRoot(15, 53, 3, 0xc19bf174);
    }
  }

  lemma Constants16(t: nat)
    requires 16 <= t < 20
    ensures HasCubeRoot(Prime(t), RoundConstant(t) as nat)
  {
    hide HasCubeRoot;
    if t == 16 {
      AsCubeRoot(16, 59, 3, 0xe49b69c1);
    } else if t == 17 {
      AsCubeRoot(17, 61, 3, 0xefbe4786);
    } else if t == 18 {
      AsCubeRoot(18, 67, 4, 0x0fc19dc6);
    } else {
      AsCubeRoot(19, 71, 4, 0x240ca1cc);
    }
  }

  lemma Constants20(t: nat)
    requires 20 <= t < 24
    ensures HasCubeRoot(Prime(t), RoundConstant(t) as nat)
  {
    hide HasCubeRoot;
    if t == 20 {
      AsCubeRoot(20, 73, 4, 0x2de92c6f);
    } else if t == 21 {
      AsCubeRoot(21, 79, 4, 0x4a7484aa);
    } else if t == 22 {
      AsCubeRoot(22, 83, 4, 0x5cb0a9dc);
    } else {
      AsCubeRoot(23, 89, 4, 0x76f988da);
    }
  }

  lemma Constants24(t: nat)
    requires 24 <= t < 28
    ensures HasCubeRoot(Prime(t), RoundConstant(t) as nat)
  {
    hide HasCubeRoot;
    if t == 24 {
      AsCubeRoot(24, 97, 4, 0x983e5152);
    } else if t == 25 {
      AsCubeRoot(25, 101, 4, 0xa831c66d);
    } else if t == 26 {
      AsCubeRoot(26, 103, 4, 0xb00327c8);
    } else {
      AsCubeRoot(27, 107, 4, 0xbf597fc7);
    }
  }

  lemma Constants28(t: nat)
    requires 28 <= t < 32
    ensures HasCubeRoot(Prime(t), RoundConstant(t) as nat)
  {
    hide HasCubeRoot;
    if t == 28 {
      AsCubeRoot(28, 109, 4, 0xc6e00bf3);
    } else if t == 29 {
      AsCubeRoot(29, 113, 4, 0xd5a79147);
    } else if t == 30 {
      AsCubeRoot(30, 127, 5, 0x06ca6351);
    } else {
      AsCubeRoot(31, 131, 5, 0x14292967);
    }
  }

  lemma Constants32(t: nat)
    requires 32 <= t < 36
    ensures HasCubeRoot(Prime(t), RoundConstant(t) as nat)
  {
    hide HasCubeRoot;
    if t == 32 {
      AsCubeRoot(32, 137, 5, 0x27b70a85);
    } else if t == 33 {
      AsCubeRoot(33, 139, 5, 0x2e1b2138);
    } else if t == 34 {
      AsCubeRoot(34, 149, 5, 0x4d2c6dfc);
    } else {
      AsCubeRoot(35, 151, 5, 0x53380d13);
    }
  }

  lemma Constants36(t: nat)
    requires 36 <= t < 40
    ensures HasCubeRoot(Prime(t), RoundConstant(t) as nat)
  {
    hide HasCubeRoot;
    if t == 36 {
      AsCubeRoot(36, 157, 5, 0x650a7354);
    } else if t == 37 {
      AsCubeRoot(37, 163, 5, 0x766a0abb);
    } else if t == 38 {
      AsCubeRoot(38, 167, 5, 0x81c2c92e);
    } else {
      AsCubeRoot(39, 173, 5, 0x92722c85);
    }
  }

  lemma Constants40(t: nat)
    requires 40 <= t < 44
    ensures HasCubeRoot(Prime(t), RoundConstant(t) as nat)
  {
    hide HasCubeRoot;
    if t == 40 {
      AsCubeRoot(40, 179, 5, 0xa2bfe8a1);
    } else if t == 41 {
      AsCubeRoot(41, 181, 5, 0xa81a664b);
    } else if t == 42 {
      AsCubeRoot(42, 191, 5, 0xc24b8b70);
    } else {
      AsCubeRoot(43, 193, 5, 0xc76c51a3);
    }
  }

  lemma Constants44(t: nat)
    requires 44 <= t < 48
    ensures HasCubeRoot(Prime(t), RoundConstant(t) as nat)
  {
    hide HasCubeRoot;
    if t == 44 {
      AsCubeRoot(44, 197, 5, 0xd192e819);
    } else if t == 45 {
      AsCubeRoot(45, 199, 5, 0xd6990624);
    } else if t == 46 {
      AsCubeRoot(46, 211, 5, 0xf40e3585);
    } else {
      AsCubeRoot(47, 223, 6, 0x106aa070);
    }
  }

  lemma Constants48(t: nat)
    requires 48 <= t < 52
    ensures HasCubeRoot(Prime(t), RoundConstant(t) as nat)
  {
    hide HasCubeRoot;
    if t == 48 {
      AsCubeRoot(48, 227, 6, 0x19a4c116);
    } else if t == 49 {
      AsCubeRoot(49, 229, 6, 0x1e376c08);
    } else if t == 50 {
      AsCubeRoot(50, 233, 6, 0x2748774c);
    } else {
      AsCubeRoot(51, 239, 6, 0x34b0bcb5);
    }
  }

  lemma Constants52(t: nat)
    requires 52 <= t < 56
    ensures HasCubeRoot(Prime(t), RoundConstant(t) as nat)
  {
    hide HasCubeRoot;
    if t == 52 {
      AsCubeRoot(52, 241, 6, 0x391c0cb3);
    } else if t == 53 {
      AsCubeRoot(53, 251, 6, 0x4ed8aa4a);
    } else if t == 54 {
      AsCubeRoot(54, 257, 6, 0x5b9cca4f);
    } else {
      AsCubeRoot(55, 263, 6, 0x682e6ff3);
    }
  }

  lemma Constants56(t: nat)
    requires 56 <= t < 60
    ensures HasCubeRoot(Prime(t), RoundConstant(t) as nat)
  {
    hide HasCubeRoot;
    if t == 56 {
      AsCubeRoot(56, 269, 6, 0x748f82ee);
    } else if t == 57 {
      AsCubeRoot(57, 271, 6, 0x78a5636f);
    } else if t == 58 {
      AsCubeRoot(58, 277, 6, 0x84c87814);
    } else {
      AsCubeRoot(59, 281, 6, 0x8cc70208);
    }
  }

  lemma Constants60(t: nat)
    requires 60 <= t < 64
    ensures HasCubeRoot(Prime(t), RoundConstant(t) as nat)
  {
    hide HasCubeRoot;
    if t == 60 {
      AsCubeRoot(60, 283, 6, 0x90befffa);
    } else if t == 61 {
      AsCubeRoot(61, 293, 6, 0xa4506ceb);
    } else if t == 62 {
      AsCubeRoot(62, 307, 6, 0xbef9a3f7);
    } else {
      AsCubeRoot(63, 311, 6, 0xc67178f2);
    }
  }

  /** Each round constant is the first 32 bits of the fraction of a prime's cube root (section 4.2.2). */
  lemma RoundConstantsAreCubeRoots(t: nat)
    requires t < 64
    ensures HasCubeRoot(Prime(t), RoundConstant(t) as nat)
  {
    hide *;
    if t < 4 {
      Constants0(t);
    } else if t < 8 {
      Constants4(t);
    } else if t < 12 {
      Constants8(t);
    } else if t < 16 {
      Constants12(t);
    } else if t < 20 {
      Constants16(t);
    } else if t < 24 {
      Constants20(t);
    } else if t < 28 {
      Constants24(t);
    } else if t < 32 {
      Constants28(t);
    } else if t < 36 {
      Constants32(t);
    } else if t < 40 {
      Constants36(t);
    } else if t < 44 {
      Constants40(t);
    } else if t < 48 {
      Constants44(t);
    } else if t < 52 {
      Constants48(t);
    } else if t < 56 {
      Constants52(t);
    } else if t < 60 {
      Constants56(t);
    } else {
      Constants60(t);
    }
  }

  lemma AsSquareRoot(i: nat, p: nat, c: nat, k: Word)
    requires i < 8 && Prime(i) == p && INITIAL[i] == k && SquareRoot(p, c, k as nat)
    ensures HasSquareRoot(Prime(i), INITIAL[i] as nat)
  {
  }

  /** And each word of the initial state that of a square root (section 5.3.3). */
  lemma InitialStateIsSquareRoots(i: nat)
    requires i < 8
    ensures HasSquareRoot(Prime(i), INITIAL[i] as nat)
  {
    hide HasSquareRoot;
    if i == 0 {
      AsSquareRoot(0, 2, 1, 0x6a09e667);
    } else if i == 1 {
      AsSquareRoot(1, 3, 1, 0xbb67ae85);
    } else if i == 2 {
      AsSquareRoot(2, 5, 2, 0x3c6ef372);
    } else if i == 3 {
      AsSquareRoot(3, 7, 2, 0xa54ff53a);
    } else if i == 4 {
      AsSquareRoot(4, 11, 3, 0x510e527f);
    } else if i == 5 {
      AsSquareRoot(5, 13, 3, 0x9b05688c);
    } else if i == 6 {
      AsSquareRoot(6, 17, 4, 0x1f83d9ab);
    } else {
      AsSquareRoot(7, 19, 4, 0x5be0cd19);
    }
  }

  // ---------------------------------------------------------------- no message word is left out

  function Minus(p: Word, z: Word): Word { p - z }

  lemma MinusOfSum(x: Word, z: Word)
    ensures Minus(x + z, z) == x
  {
  }

  lemma PlusIs(x: Word, z: Word)
    ensures Plus(x, z) == x + z && Plus(x, z) == Plus(z, x)
  {
  }

  /** A summand is determined by the sum and the other one. */
  lemma PlusCancels(x: Word, y: Word, z: Word)
    requires Plus(x, z) == Plus(y, z) || Plus(z, x) == Plus(z, y)
    ensures x == y
  {
    hide Plus, Minus;
    PlusIs(x, z);
    PlusIs(y, z);
    MinusOfSum(x, z);
    MinusOfSum(y, z);
  }

  /** The two sums of a round (section 6.2.2 step 3). */
  function T1(p: Vars, k: Word, w: Word): Word {
    Plus(Plus(Plus(Plus(p.h, Sig1(p.e)), Ch(p.e, p.f, p.g)), k), w)
  }

  function T2(a: Word, b: Word, c: Word): Word {
    Plus(Sig0(a), Maj(a, b, c))
  }

  lemma RoundParts(p: Vars, k: Word, w: Word)
    ensures Round(p, k, w) == Vars(Plus(T1(p, k, w), T2(p.a, p.b, p.c)), p.a, p.b, p.c, Plus(p.d, T1(p, k, w)), p.e, p.f, p.g)
  {
    hide Plus, Sig0, Sig1, Ch, Maj;
  }

  /** The round reaching step `t + 1`. */
  lemma Reaches(v: Vars, x: Block, t: nat)
    requires t < 64
    ensures var p := Rounds(v, x, t);
            var q := Rounds(v, x, t + 1);
            var s := T1(p, RoundConstant(t), Schedule(x, t));
            && q.a == Plus(s, T2(p.a, p.b, p.c)) && q.b == p.a && q.c == p.b && q.d == p.c
            && q.e == Plus(p.d, s) && q.f == p.e && q.g == p.f && q.h == p.g
  {
    hide Round, T1, T2, Schedule, RoundConstant;
    RoundParts(Rounds(v, x, t), RoundConstant(t), Schedule(x, t));
  }

  /** From the same state the same new `a` comes only of the same message word, and gives the same state. */
  lemma SameStep(v: Vars, x: Block, y: Block, t: nat)
    requires t < 64 && Rounds(v, x, t) == Rounds(v, y, t) && Rounds(v, x, t + 1).a == Rounds(v, y, t + 1).a
    ensures Rounds(v, x, t + 1) == Rounds(v, y, t + 1) && Schedule(x, t) == Schedule(y, t)
  {
    hide Rounds, Plus, Sig0, Sig1, Ch, Maj, Schedule, RoundConstant, T2;
    var p, k := Rounds(v, x, t), RoundConstant(t);
    Reaches(v, x, t);
    Reaches(v, y, t);
    PlusCancels(T1(p, k, Schedule(x, t)), T1(p, k, Schedule(y, t)), T2(p.a, p.b, p.c));
    PlusCancels(Schedule(x, t), Schedule(y, t), Plus(Plus(Plus(p.h, Sig1(p.e)), Ch(p.e, p.f, p.g)), k));
  }

  /** Backwards: if four states in a row have the same `a`, and the last two sums agree, so has the `d` of the third. */
  lemma StepBack(v: Vars, x: Block, y: Block, t: nat)
    requires t < 64
    requires var p, p' := Rounds(v, x, t), Rounds(v, y, t); p.a == p'.a && p.b == p'.b && p.c == p'.c
    requires var q, q' := Rounds(v, x, t + 1), Rounds(v, y, t + 1); q.a == q'.a && q.e == q'.e
    ensures Rounds(v, x, t).d == Rounds(v, y, t).d
  {
    hide Rounds, Plus, T1, T2, Schedule, RoundConstant;
    var p, p' := Rounds(v, x, t), Rounds(v, y, t);
    Reaches(v, x, t);
    Reaches(v, y, t);
    var s, s' := T1(p, RoundConstant(t), Schedule(x, t)), T1(p', RoundConstant(t), Schedule(y, t));
    PlusCancels(s, s', T2(p.a, p.b, p.c));
    PlusCancels(p.d, p'.d, s);
  }

  /** The registers are the last four values of `a` and of `e`. */
  lemma Lanes(v: Vars, x: Block, t: nat)
    requires 3 <= t <= 64
    ensures var q := Rounds(v, x, t);
            && q.b == Rounds(v, x, t - 1).a && q.c == Rounds(v, x, t - 2).a && q.d == Rounds(v, x, t - 3).a
            && q.f == Rounds(v, x, t - 1).e && q.g == Rounds(v, x, t - 2).e && q.h == Rounds(v, x, t - 3).e
  {
    hide Rounds, T1, T2, Schedule, RoundConstant;
    Reaches(v, x, t - 1);
    Reaches(v, x, t - 2);
    Reaches(v, x, t - 3);
  }

  lemma BothLanes(v: Vars, x: Block, y: Block, t: nat)
    requires 3 <= t <= 64
    ensures var q := Rounds(v, x, t);
            && q.b == Rounds(v, x, t - 1).a && q.c == Rounds(v, x, t - 2).a && q.d == Rounds(v, x, t - 3).a
            && q.f == Rounds(v, x, t - 1).e && q.g == Rounds(v, x, t - 2).e && q.h == Rounds(v, x, t - 3).e
    ensures var q := Rounds(v, y, t);
            && q.b == Rounds(v, y, t - 1).a && q.c == Rounds(v, y, t - 2).a && q.d == Rounds(v, y, t - 3).a
            && q.f == Rounds(v, y, t - 1).e && q.g == Rounds(v, y, t - 2).e && q.h == Rounds(v, y, t - 3).e
  {
    hide Rounds;
    Lanes(v, x, t);
    Lanes(v, y, t);
  }

  ghost predicate SameAAt(v: Vars, x: Block, y: Block, t: nat)
    requires t <= 64
  {
    Rounds(v, x, t).a == Rounds(v, y, t).a
  }

  ghost predicate SameEAt(v: Vars, x: Block, y: Block, t: nat)
    requires t <= 64
  {
    Rounds(v, x, t).e == Rounds(v, y, t).e
  }

  lemma LastFour(v: Vars, x: Block, y: Block, t: nat)
    requires 3 <= t <= 64 && Rounds(v, x, t) == Rounds(v, y, t)
    ensures SameAAt(v, x, y, t) && SameAAt(v, x, y, t - 1) && SameAAt(v, x, y, t - 2) && SameAAt(v, x, y, t - 3)
    ensures SameEAt(v, x, y, t) && SameEAt(v, x, y, t - 1) && SameEAt(v, x, y, t - 2) && SameEAt(v, x, y, t - 3)
  {
    hide Rounds;
    BothLanes(v, x, y, t);
  }

  lemma OneBack(v: Vars, x: Block, y: Block, t: nat)
    requires 3 <= t < 64 && SameAAt(v, x, y, t + 1) && SameAAt(v, x, y, t) && SameAAt(v, x, y, t - 1) && SameAAt(v, x, y, t - 2)
    requires SameEAt(v, x, y, t + 1)
    ensures SameAAt(v, x, y, t - 3)
  {
    hide Rounds;
    BothLanes(v, x, y, t);
    StepBack(v, x, y, t);
  }

  /** Equal after eight rounds, the runs have equal `a` all the way. */
  lemma SameA(v: Vars, x: Block, y: Block)
    requires Rounds(v, x, 8) == Rounds(v, y, 8)
    ensures forall t :: 1 <= t <= 8 ==> SameAAt(v, x, y, t)
  {
    hide Rounds, SameAAt, SameEAt;
    LastFour(v, x, y, 8);
    OneBack(v, x, y, 7);
    OneBack(v, x, y, 6);
    OneBack(v, x, y, 5);
    OneBack(v, x, y, 4);
  }

  lemma NoRounds(v: Vars, x: Block)
    ensures Rounds(v, x, 0) == v
  {
  }

  lemma {:induction false} SameStates(v: Vars, x: Block, y: Block, n: nat)
    requires n <= 8 && forall t :: 1 <= t <= 8 ==> SameAAt(v, x, y, t)
    ensures Rounds(v, x, n) == Rounds(v, y, n)
    ensures forall t :: 0 <= t < n ==> Schedule(x, t) == Schedule(y, t)
  {
    hide Rounds, Schedule;
    if n == 0 {
      NoRounds(v, x);
      NoRounds(v, y);
    } else {
      assert SameAAt(v, x, y, n);
      SameStates(v, x, y, n - 1);
      SameStep(v, x, y, n - 1);
    }
  }

  lemma ByteOfWord(b: byte, c: byte)
    requires Widened(b) == Widened(c)
    ensures b == c
  {
    ByteWidens(b);
    ByteWidens(c);
    WideEqual(b as bv8, c as bv8);
    ByteReturns(b);
    ByteReturns(c);
  }

  lemma ByteWidens(b: byte)
    ensures b as Word == (b as bv8) as Word
  {
  }

  lemma WideEqual(b: bv8, c: bv8)
    requires b as Word == c as Word
    ensures b == c
  {
  }

  lemma ByteReturns(b: byte)
    ensures (b as bv8) as int == b
  {
    Octets.ReturnsFromBits(b);
  }

  lemma ByteIsSmall(b: byte)
    ensures b as Word <= 255
  {
  }

  lemma WordParts(a: Word, b: Word, c: Word, d: Word)
    requires a <= 255 && b <= 255 && c <= 255 && d <= 255
    ensures var w := (a << 24) | (b << 16) | (c << 8) | d;
            w >> 24 == a && (w >> 16) & 0xFF == b && (w >> 8) & 0xFF == c && w & 0xFF == d
  {
  }

  function Joined(a: Word, b: Word, c: Word, d: Word): Word {
    (a << 24) | (b << 16) | (c << 8) | d
  }

  function Widened(b: byte): Word { b as Word }

  lemma ToWordIs(a: byte, b: byte, c: byte, d: byte)
    ensures ToWord(a, b, c, d) == Joined(Widened(a), Widened(b), Widened(c), Widened(d))
    ensures Widened(a) <= 255 && Widened(b) <= 255 && Widened(c) <= 255 && Widened(d) <= 255
  {
    ByteIsSmall(a);
    ByteIsSmall(b);
    ByteIsSmall(c);
    ByteIsSmall(d);
  }

  lemma ToWordInjective(a: byte, b: byte, c: byte, d: byte, a': byte, b': byte, c': byte, d': byte)
    requires ToWord(a, b, c, d) == ToWord(a', b', c', d')
    ensures a == a' && b == b' && c == c' && d == d'
  {
    hide ToWord, Joined, Widened;
    ToWordIs(a, b, c, d);
    ToWordIs(a', b', c', d');
    SameParts(Widened(a), Widened(b), Widened(c), Widened(d), Widened(a'), Widened(b'), Widened(c'), Widened(d'));
    ByteOfWord(a, a');
    ByteOfWord(b, b');
    ByteOfWord(c, c');
    ByteOfWord(d, d');
  }

  lemma SameParts(a: Word, b: Word, c: Word, d: Word, a': Word, b': Word, c': Word, d': Word)
    requires a <= 255 && b <= 255 && c <= 255 && d <= 255 && a' <= 255 && b' <= 255 && c' <= 255 && d' <= 255
    requires Joined(a, b, c, d) == Joined(a', b', c', d')
    ensures a == a' && b == b' && c == c' && d == d'
  {
    WordParts(a, b, c, d);
    WordParts(a', b', c', d');
  }

  /** From any state, the first eight rounds determine the first 32 bytes of the block. */
  lemma EightRoundsKeepTheMessage(v: Vars, x: Block, y: Block)
    requires Rounds(v, x, 8) == Rounds(v, y, 8)
    ensures x[..32] == y[..32]
  {
    SameA(v, x, y);
    SameStates(v, x, y, 8);
    hide Rounds, ToWord;
    forall t | 0 <= t < 8
      ensures x[4 * t] == y[4 * t] && x[4 * t + 1] == y[4 * t + 1] && x[4 * t + 2] == y[4 * t + 2] && x[4 * t + 3] == y[4 * t + 3]
    {
      FirstWords(x, t);
      FirstWords(y, t);
      ToWordInjective(x[4 * t], x[4 * t + 1], x[4 * t + 2], x[4 * t + 3], y[4 * t], y[4 * t + 1], y[4 * t + 2], y[4 * t + 3]);
    }
    hide Schedule;
    FourByFour(x, y);
  }

  lemma FourByFour(x: Block, y: Block)
    requires forall t :: 0 <= t < 8 ==>
               x[4 * t] == y[4 * t] && x[4 * t + 1] == y[4 * t + 1] && x[4 * t + 2] == y[4 * t + 2] && x[4 * t + 3] == y[4 * t + 3]
    ensures x[..32] == y[..32]
  {
    forall i | 0 <= i < 32
      ensures x[i] == y[i]
    {
      var t := i / 4;
      assert i == 4 * t + i % 4 && x[4 * t] == y[4 * t];
    }
  }

  // ---------------------------------------------------------------- the digest of "abc"

  /** The one block of the padded message: the three bytes, a one bit, zeros, and the length 24. */
  ghost predicate IsAbc(block: Block) {
    && block[0] == 0x61 && block[1] == 0x62 && block[2] == 0x63 && block[3] == 0x80 && block[63] == 24
    && forall i :: 4 <= i < 63 ==> block[i] == 0
  }

  /** Its message schedule, eight words to a row. */
  const WORDS: seq<seq<Word>> := [
    [0x61626380, 0x00000000, 0x00000000, 0x00000000, 0x00000000, 0x00000000, 0x00000000, 0x00000000],
    [0x00000000, 0x00000000, 0x00000000, 0x00000000, 0x00000000, 0x00000000, 0x00000000, 0x00000018],
    [0x61626380, 0x000f0000, 0x7da86405, 0x600003c6, 0x3e9d7b78, 0x0183fc00, 0x12dcbfdb, 0xe2e2c38e],
    [0xc8215c1a, 0xb73679a2, 0xe5bc3909, 0x32663c5b, 0x9d209d67, 0xec8726cb, 0x702138a4, 0xd3b7973b],
    [0x93f5997f, 0x3b68ba73, 0xaff4ffc1, 0xf10a5c62, 0x0a8b3996, 0x72af830a, 0x9409e33e, 0x24641522],
    [0x9f47bf94, 0xf0a64f5a, 0x3e246a79, 0x27333ba3, 0x0c4763f2, 0x840abf27, 0x7a290d5d, 0x065c43da],
    [0xfb3e89cb, 0xcc7617db, 0xb9e66c34, 0xa9993667, 0x84badedd, 0xc21462bc, 0x1487472c, 0xb20f7a99],
    [0xef57b9cd, 0xebe6b238, 0x9fe3095e, 0x78bc8d4b, 0xa43fcf15, 0x668b2ff8, 0xeeaba2cc, 0x12b1edeb]]

  function AbcWord(t: nat): Word
    requires t < 64
  {
    assert |WORDS| == 8;
    assert forall i :: 0 <= i < 8 ==> |WORDS[i]| == 8;
    WORDS[t / 8][t % 8]
  }

  ghost predicate ScheduleKnown(block: Block, n: nat)
    requires n <= 64
  {
    forall t :: 0 <= t < n ==> Schedule(block, t) == AbcWord(t)
  }

  lemma MessageWords(block: Block)
    requires IsAbc(block)
    ensures ScheduleKnown(block, 16)
  {
    assert ToWord(0x61, 0x62, 0x63, 0x80) == 0x61626380 && ToWord(0, 0, 0, 0) == 0 && ToWord(0, 0, 0, 24) == 24;
    assert AbcWord(0) == 0x61626380 && AbcWord(15) == 24;
    assert forall t :: 0 < t < 15 ==> AbcWord(t) == 0;
    hide ToWord, AbcWord;
    forall t | 0 <= t < 16
      ensures Schedule(block, t) == AbcWord(t)
    {
      FirstWords(block, t);
    }
  }

  /** Word `t` from the four it is made of. */
  lemma NextWord(block: Block, t: nat, a: Word, b: Word, c: Word, d: Word, x: Word)
    requires 16 <= t < 64 && ScheduleKnown(block, t)
    requires AbcWord(t - 2) == a && AbcWord(t - 7) == b && AbcWord(t - 15) == c && AbcWord(t - 16) == d && AbcWord(t) == x
    requires Plus(Plus(Plus(Sig3(a), b), Sig2(c)), d) == x
    ensures ScheduleKnown(block, t + 1)
  {
    hide Plus, Sig2, Sig3, AbcWord, Schedule;
    LaterWords(block, t);
  }

  lemma RowOfWords0()
    ensures AbcWord(0) == 0x61626380 && AbcWord(1) == 0x00000000 && AbcWord(2) == 0x00000000 && AbcWord(3) == 0x00000000
    ensures AbcWord(4) == 0x00000000 && AbcWord(5) == 0x00000000 && AbcWord(6) == 0x00000000 && AbcWord(7) == 0x00000000
  {
  }

  lemma RowOfWords1()
    ensures AbcWord(8) == 0x00000000 && AbcWord(9) == 0x00000000 && AbcWord(10) == 0x00000000 && AbcWord(11) == 0x00000000
    ensures AbcWord(12) == 0x00000000 && AbcWord(13) == 0x00000000 && AbcWord(14) == 0x00000000 && AbcWord(15) == 0x00000018
  {
  }

  lemma RowOfWords2()
    ensures AbcWord(16) == 0x61626380 && AbcWord(17) == 0x000f0000 && AbcWord(18) == 0x7da86405 && AbcWord(19) == 0x600003c6
    ensures AbcWord(20) == 0x3e9d7b78 && AbcWord(21) == 0x0183fc00 && AbcWord(22) == 0x12dcbfdb && AbcWord(23) == 0xe2e2c38e
  {
  }

  lemma RowOfWords3()
    ensures AbcWord(24) == 0xc8215c1a && AbcWord(25) == 0xb73679a2 && AbcWord(26) == 0xe5bc3909 && AbcWord(27) == 0x32663c5b
    ensures AbcWord(28) == 0x9d209d67 && AbcWord(29) == 0xec8726cb && AbcWord(30) == 0x702138a4 && AbcWord(31) == 0xd3b7973b
  {
  }

  lemma RowOfWords4()
    ensures AbcWord(32) == 0x93f5997f && AbcWord(33) == 0x3b68ba73 && AbcWord(34) == 0xaff4ffc1 && AbcWord(35) == 0xf10a5c62
    ensures AbcWord(36) == 0x0a8b3996 && AbcWord(37) == 0x72af830a && AbcWord(38) == 0x9409e33e && AbcWord(39) == 0x24641522
  {
  }

  lemma RowOfWords5()
    ensures AbcWord(40) == 0x9f47bf94 && AbcWord(41) == 0xf0a64f5a && AbcWord(42) == 0x3e246a79 && AbcWord(43) == 0x27333ba3
    ensures AbcWord(44) == 0x0c4763f2 && AbcWord(45) == 0x840abf27 && AbcWord(46) == 0x7a290d5d && AbcWord(47) == 0x065c43da
  {
  }

  lemma RowOfWords6()
    ensures AbcWord(48) == 0xfb3e89cb && AbcWord(49) == 0xcc7617db && AbcWord(50) == 0xb9e66c34 && AbcWord(51) == 0xa9993667
    ensures AbcWord(52) == 0x84badedd && AbcWord(53) == 0xc21462bc && AbcWord(54) == 0x1487472c && AbcWord(55) == 0xb20f7a99
  {
  }

  lemma RowOfWords7()
    ensures AbcWord(56) == 0xef57b9cd && AbcWord(57) == 0xebe6b238 && AbcWord(58) == 0x9fe3095e && AbcWord(59) == 0x78bc8d4b
    ensures AbcWord(60) == 0xa43fcf15 && AbcWord(61) == 0x668b2ff8 && AbcWord(62) == 0xeeaba2cc && AbcWord(63) == 0x12b1edeb
  {
  }

  lemma Words16(block: Block)
    requires ScheduleKnown(block, 16)
    ensures ScheduleKnown(block, 20)
  {
    hide Schedule, AbcWord, ScheduleKnown;
    RowOfWords0();
    RowOfWords1();
    RowOfWords2();
    NextWord(block, 16, 0x00000000, 0x00000000, 0x00000000, 0x61626380, 0x61626380);
    NextWord(block, 17, 0x00000018, 0x00000000, 0x00000000, 0x00000000, 0x000f0000);
    NextWord(block, 18, 0x61626380, 0x00000000, 0x00000000, 0x00000000, 0x7da86405);
    NextWord(block, 19, 0x000f0000, 0x00000000, 0x00000000, 0x00000000, 0x600003c6);
  }

  lemma Words20(block: Block)
    requires ScheduleKnown(block, 20)
    ensures ScheduleKnown(block, 24)
  {
    hide Schedule, AbcWord, ScheduleKnown;
    RowOfWords0();
    RowOfWords1();
    RowOfWords2();
    NextWord(block, 20, 0x7da86405, 0x00000000, 0x00000000, 0x00000000, 0x3e9d7b78);
    NextWord(block, 21, 0x600003c6, 0x00000000, 0x00000000, 0x00000000, 0x0183fc00);
    NextWord(block, 22, 0x3e9d7b78, 0x00000018, 0x00000000, 0x00000000, 0x12dcbfdb);
    NextWord(block, 23, 0x0183fc00, 0x61626380, 0x00000000, 0x00000000, 0xe2e2c38e);
  }

  lemma Words24(block: Block)
    requires ScheduleKnown(block, 24)
    ensures ScheduleKnown(block, 28)
  {
    hide Schedule, AbcWord, ScheduleKnown;
    RowOfWords1();
    RowOfWords2();
    RowOfWords3();
    NextWord(block, 24, 0x12dcbfdb, 0x000f0000, 0x00000000, 0x00000000, 0xc8215c1a);
    NextWord(block, 25, 0xe2e2c38e, 0x7da86405, 0x00000000, 0x00000000, 0xb73679a2);
    NextWord(block, 26, 0xc8215c1a, 0x600003c6, 0x00000000, 0x00000000, 0xe5bc3909);
    NextWord(block, 27, 0xb73679a2, 0x3e9d7b78, 0x00000000, 0x00000000, 0x32663c5b);
  }

  lemma Words28(block: Block)
    requires ScheduleKnown(block, 28)
    ensures ScheduleKnown(block, 32)
  {
    hide Schedule, AbcWord, ScheduleKnown;
    RowOfWords1();
    RowOfWords2();
    RowOfWords3();
    NextWord(block, 28, 0xe5bc3909, 0x0183fc00, 0x00000000, 0x00000000, 0x9d209d67);
    NextWord(block, 29, 0x32663c5b, 0x12dcbfdb, 0x00000000, 0x00000000, 0xec8726cb);
    NextWord(block, 30, 0x9d209d67, 0xe2e2c38e, 0x00000018, 0x00000000, 0x702138a4);
    NextWord(block, 31, 0xec8726cb, 0xc8215c1a, 0x61626380, 0x00000018, 0xd3b7973b);
  }

  lemma Words32(block: Block)
    requires ScheduleKnown(block, 32)
    ensures ScheduleKnown(block, 36)
  {
    hide Schedule, AbcWord, ScheduleKnown;
    RowOfWords2();
    RowOfWords3();
    RowOfWords4();
    NextWord(block, 32, 0x702138a4, 0xb73679a2, 0x000f0000, 0x61626380, 0x93f5997f);
    NextWord(block, 33, 0xd3b7973b, 0xe5bc3909, 0x7da86405, 0x000f0000, 0x3b68ba73);
    NextWord(block, 34, 0x93f5997f, 0x32663c5b, 0x600003c6, 0x7da86405, 0xaff4ffc1);
    NextWord(block, 35, 0x3b68ba73, 0x9d209d67, 0x3e9d7b78, 0x600003c6, 0xf10a5c62);
  }

  lemma Words36(block: Block)
    requires ScheduleKnown(block, 36)
    ensures ScheduleKnown(block, 40)
  {
    hide Schedule, AbcWord, ScheduleKnown;
    RowOfWords2();
    RowOfWords3();
    RowOfWords4();
    NextWord(block, 36, 0xaff4ffc1, 0xec8726cb, 0x0183fc00, 0x3e9d7b78, 0x0a8b3996);
    NextWord(block, 37, 0xf10a5c62, 0x702138a4, 0x12dcbfdb, 0x0183fc00, 0x72af830a);
    NextWord(block, 38, 0x0a8b3996, 0xd3b7973b, 0xe2e2c38e, 0x12dcbfdb, 0x9409e33e);
    NextWord(block, 39, 0x72af830a, 0x93f5997f, 0xc8215c1a, 0xe2e2c38e, 0x24641522);
  }

  lemma Words40(block: Block)
    requires ScheduleKnown(block, 40)
    ensures ScheduleKnown(block, 44)
  {
    hide Schedule, AbcWord, ScheduleKnown;
    RowOfWords3();
    RowOfWords4();
    RowOfWords5();
    NextWord(block, 40, 0x9409e33e, 0x3b68ba73, 0xb73679a2, 0xc8215c1a, 0x9f47bf94);
    NextWord(block, 41, 0x24641522, 0xaff4ffc1, 0xe5bc3909, 0xb73679a2, 0xf0a64f5a);
    NextWord(block, 42, 0x9f47bf94, 0xf10a5c62, 0x32663c5b, 0xe5bc3909, 0x3e246a79);
    NextWord(block, 43, 0xf0a64f5a, 0x0a8b3996, 0x9d209d67, 0x32663c5b, 0x27333ba3);
  }

  lemma Words44(block: Block)
    requires ScheduleKnown(block, 44)
    ensures ScheduleKnown(block, 48)
  {
    hide Schedule, AbcWord, ScheduleKnown;
    RowOfWords3();
    RowOfWords4();
    RowOfWords5();
    NextWord(block, 44, 0x3e246a79, 0x72af830a, 0xec8726cb, 0x9d209d67, 0x0c4763f2);
    NextWord(block, 45, 0x27333ba3, 0x9409e33e, 0x702138a4, 0xec8726cb, 0x840abf27);
    NextWord(block, 46, 0x0c4763f2, 0x24641522, 0xd3b7973b, 0x702138a4, 0x7a290d5d);
    NextWord(block, 47, 0x840abf27, 0x9f47bf94, 0x93f5997f, 0xd3b7973b, 0x065c43da);
  }

  lemma Words48(block: Block)
    requires ScheduleKnown(block, 48)
    ensures ScheduleKnown(block, 52)
  {
    hide Schedule, AbcWord, ScheduleKnown;
    RowOfWords4();
    RowOfWords5();
    RowOfWords6();
    NextWord(block, 48, 0x7a290d5d, 0xf0a64f5a, 0x3b68ba73, 0x93f5997f, 0xfb3e89cb);
    NextWord(block, 49, 0x065c43da, 0x3e246a79, 0xaff4ffc1, 0x3b68ba73, 0xcc7617db);
    NextWord(block, 50, 0xfb3e89cb, 0x27333ba3, 0xf10a5c62, 0xaff4ffc1, 0xb9e66c34);
    NextWord(block, 51, 0xcc7617db, 0x0c4763f2, 0x0a8b3996, 0xf10a5c62, 0xa9993667);
  }

  lemma Words52(block: Block)
    requires ScheduleKnown(block, 52)
    ensures ScheduleKnown(block, 56)
  {
    hide Schedule, AbcWord, ScheduleKnown;
    RowOfWords4();
    RowOfWords5();
    RowOfWords6();
    NextWord(block, 52, 0xb9e66c34, 0x840abf27, 0x72af830a, 0x0a8b3996, 0x84badedd);
    NextWord(block, 53, 0xa9993667, 0x7a290d5d, 0x9409e33e, 0x72af830a, 0xc21462bc);
    NextWord(block, 54, 0x84badedd, 0x065c43da, 0x24641522, 0x9409e33e, 0x1487472c);
    NextWord(block, 55, 0xc21462bc, 0xfb3e89cb, 0x9f47bf94, 0x24641522, 0xb20f7a99);
  }

  lemma Words56(block: Block)
    requires ScheduleKnown(block, 56)
    ensures ScheduleKnown(block, 60)
  {
    hide Schedule, AbcWord, ScheduleKnown;
    RowOfWords5();
    RowOfWords6();
    RowOfWords7();
    NextWord(block, 56, 0x1487472c, 0xcc7617db, 0xf0a64f5a, 0x9f47bf94, 0xef57b9cd);
    NextWord(block, 57, 0xb20f7a99, 0xb9e66c34, 0x3e246a79, 0xf0a64f5a, 0xebe6b238);
    NextWord(block, 58, 0xef57b9cd, 0xa9993667, 0x27333ba3, 0x3e246a79, 0x9fe3095e);
    NextWord(block, 59, 0xebe6b238, 0x84badedd, 0x0c4763f2, 0x27333ba3, 0x78bc8d4b);
  }

  lemma Words60(block: Block)
    requires ScheduleKnown(block, 60)
    ensures ScheduleKnown(block, 64)
  {
    hide Schedule, AbcWord, ScheduleKnown;
    RowOfWords5();
    RowOfWords6();
    RowOfWords7();
    NextWord(block, 60, 0x9fe3095e, 0xc21462bc, 0x840abf27, 0x0c4763f2, 0xa43fcf15);
    NextWord(block, 61, 0x78bc8d4b, 0x1487472c, 0x7a290d5d, 0x840abf27, 0x668b2ff8);
    NextWord(block, 62, 0xa43fcf15, 0xb20f7a99, 0x065c43da, 0x7a290d5d, 0xeeaba2cc);
    NextWord(block, 63, 0x668b2ff8, 0xef57b9cd, 0xfb3e89cb, 0x065c43da, 0x12b1edeb);
  }

  lemma AbcSchedule(block: Block)
    requires IsAbc(block)
    ensures ScheduleKnown(block, 64)
  {
    hide ScheduleKnown, IsAbc;
    MessageWords(block);
    Words16(block);
    Words20(block);
    Words24(block);
    Words28(block);
    Words32(block);
    Words36(block);
    Words40(block);
    Words44(block);
    Words48(block);
    Words52(block);
    Words56(block);
    Words60(block);
  }

  lemma NextRound(block: Block, t: nat, v: Vars, k: Word, x: Word)
    requires t < 64 && ScheduleKnown(block, 64) && Rounds(VarsOf(INITIAL), block, t) == v
    requires RoundConstant(t) == k && AbcWord(t) == x
    ensures Rounds(VarsOf(INITIAL), block, t + 1) == Round(v, k, x)
  {
    hide Round, RoundConstant, AbcWord, Schedule;
    assert Schedule(block, t) == AbcWord(t);
  }

  lemma Rounds0(block: Block)
    requires ScheduleKnown(block, 64)
    requires Rounds(VarsOf(INITIAL), block, 0)
          == Vars(0x6a09e667, 0xbb67ae85, 0x3c6ef372, 0xa54ff53a, 0x510e527f, 0x9b05688c, 0x1f83d9ab, 0x5be0cd19)
    ensures Rounds(VarsOf(INITIAL), block, 4)
         == Vars(0xd550f666, 0xc8c347a7, 0x5a6ad9ad, 0x5d6aebcd, 0x24e00850, 0xf92939eb, 0x78ce7989, 0xfa2a4622)
  {
    hide Rounds, ScheduleKnown, AbcWord;
    RowOfWords0();
    NextRound(block, 0, Vars(0x6a09e667, 0xbb67ae85, 0x3c6ef372, 0xa54ff53a, 0x510e527f, 0x9b05688c, 0x1f83d9ab, 0x5be0cd19),
      0x428a2f98, 0x61626380);
    NextRound(block, 1, Vars(0x5d6aebcd, 0x6a09e667, 0xbb67ae85, 0x3c6ef372, 0xfa2a4622, 0x510e527f, 0x9b05688c, 0x1f83d9ab),
      0x71374491, 0x00000000);
    NextRound(block, 2, Vars(0x5a6ad9ad, 0x5d6aebcd, 0x6a09e667, 0xbb67ae85, 0x78ce7989, 0xfa2a4622, 0x510e527f, 0x9b05688c),
      0xb5c0fbcf, 0x00000000);
    NextRound(block, 3, Vars(0xc8c347a7, 0x5a6ad9ad, 0x5d6aebcd, 0x6a09e667, 0xf92939eb, 0x78ce7989, 0xfa2a4622, 0x510e527f),
      0xe9b5dba5, 0x00000000);
  }

  lemma Rounds4(block: Block)
    requires ScheduleKnown(block, 64)
    requires Rounds(VarsOf(INITIAL), block, 4)
          == Vars(0xd550f666, 0xc8c347a7, 0x5a6ad9ad, 0x5d6aebcd, 0x24e00850, 0xf92939eb, 0x78ce7989, 0xfa2a4622)
    ensures Rounds(VarsOf(INITIAL), block, 8)
         == Vars(0x85a07b5f, 0xe5030380, 0x2b4209f5, 0x04409a6a, 0x0c657a79, 0x9b27a401, 0x714260ad, 0x43ada245)
  {
    hide Rounds, ScheduleKnown, AbcWord;
    RowOfWords0();
    NextRound(block, 4, Vars(0xd550f666, 0xc8c347a7, 0x5a6ad9ad, 0x5d6aebcd, 0x24e00850, 0xf92939eb, 0x78ce7989, 0xfa2a4622),
      0x3956c25b, 0x00000000);
    NextRound(block, 5, Vars(0x04409a6a, 0xd550f666, 0xc8c347a7, 0x5a6ad9ad, 0x43ada245, 0x24e00850, 0xf92939eb, 0x78ce7989),
      0x59f111f1, 0x00000000);
    NextRound(block, 6, Vars(0x2b4209f5, 0x04409a6a, 0xd550f666, 0xc8c347a7, 0x714260ad, 0x43ada245, 0x24e00850, 0xf92939eb),
      0x923f82a4, 0x00000000);
    NextRound(block, 7, Vars(0xe5030380, 0x2b4209f5, 0x04409a6a, 0xd550f666, 0x9b27a401, 0x714260ad, 0x43ada245, 0x24e00850),
      0xab1c5ed5, 0x00000000);
  }

  lemma Rounds8(block: Block)
    requires ScheduleKnown(block, 64)
    requires Rounds(VarsOf(INITIAL), block, 8)
          == Vars(0x85a07b5f, 0xe5030380, 0x2b4209f5, 0x04409a6a, 0x0c657a79, 0x9b27a401, 0x714260ad, 0x43ada245)
    ensures Rounds(VarsOf(INITIAL), block, 12)
         == Vars(0xf71fc5a9, 0x4798a3f4, 0x8c87346b, 0x8e04ecb9, 0x816fd6e9, 0x436b23e8, 0x1cc92596, 0x32ca2d8c)
  {
    hide Rounds, ScheduleKnown, AbcWord;
    RowOfWords1();
    NextRound(block, 8, Vars(0x85a07b5f, 0xe5030380, 0x2b4209f5, 0x04409a6a, 0x0c657a79, 0x9b27a401, 0x714260ad, 0x43ada245),
      0xd807aa98, 0x00000000);
    NextRound(block, 9, Vars(0x8e04ecb9, 0x85a07b5f, 0xe5030380, 0x2b4209f5, 0x32ca2d8c, 0x0c657a79, 0x9b27a401, 0x714260ad),
      0x12835b01, 0x00000000);
    NextRound(block, 10, Vars(0x8c87346b, 0x8e04ecb9, 0x85a07b5f, 0xe5030380, 0x1cc92596, 0x32ca2d8c, 0x0c657a79, 0x9b27a401),
      0x243185be, 0x00000000);
    NextRound(block, 11, Vars(0x4798a3f4, 0x8c87346b, 0x8e04ecb9, 0x85a07b5f, 0x436b23e8, 0x1cc92596, 0x32ca2d8c, 0x0c657a79),
      0x550c7dc3, 0x00000000);
  }

  lemma Rounds12(block: Block)
    requires ScheduleKnown(block, 64)
    requires Rounds(VarsOf(INITIAL), block, 12)
          == Vars(0xf71fc5a9, 0x4798a3f4, 0x8c87346b, 0x8e04ecb9, 0x816fd6e9, 0x436b23e8, 0x1cc92596, 0x32ca2d8c)
    ensures Rounds(VarsOf(INITIAL), block, 16)
         == Vars(0xb0fa238e, 0xc0645fde, 0xd932eb16, 0x87912990, 0x07590dcd, 0x0b92f20c, 0x745a48de, 0x1e578218)
  {
    hide Rounds, ScheduleKnown, AbcWord;
    RowOfWords1();
    NextRound(block, 12, Vars(0xf71fc5a9, 0x4798a3f4, 0x8c87346b, 0x8e04ecb9, 0x816fd6e9, 0x436b23e8, 0x1cc92596, 0x32ca2d8c),
      0x72be5d74, 0x00000000);
    NextRound(block, 13, Vars(0x87912990, 0xf71fc5a9, 0x4798a3f4, 0x8c87346b, 0x1e578218, 0x816fd6e9, 0x436b23e8, 0x1cc92596),
      0x80deb1fe, 0x00000000);
    NextRound(block, 14, Vars(0xd932eb16, 0x87912990, 0xf71fc5a9, 0x4798a3f4, 0x745a48de, 0x1e578218, 0x816fd6e9, 0x436b23e8),
      0x9bdc06a7, 0x00000000);
    NextRound(block, 15, Vars(0xc0645fde, 0xd932eb16, 0x87912990, 0xf71fc5a9, 0x0b92f20c, 0x745a48de, 0x1e578218, 0x816fd6e9),
      0xc19bf174, 0x00000018);
  }

  lemma Rounds16(block: Block)
    requires ScheduleKnown(block, 64)
    requires Rounds(VarsOf(INITIAL), block, 16)
          == Vars(0xb0fa238e, 0xc0645fde, 0xd932eb16, 0x87912990, 0x07590dcd, 0x0b92f20c, 0x745a48de, 0x1e578218)
    ensures Rounds(VarsOf(INITIAL), block, 20)
         == Vars(0xe1f20c33, 0xfe777bbf, 0xc2fbd9d1, 0x21da9a9b, 0xb0638179, 0xcc899961, 0x846ee454, 0x8034229c)
  {
    hide Rounds, ScheduleKnown, AbcWord;
    RowOfWords2();
    NextRound(block, 16, Vars(0xb0fa238e, 0xc0645fde, 0xd932eb16, 0x87912990, 0x07590dcd, 0x0b92f20c, 0x745a48de, 0x1e578218),
      0xe49b69c1, 0x61626380);
    NextRound(block, 17, Vars(0x21da9a9b, 0xb0fa238e, 0xc0645fde, 0xd932eb16, 0x8034229c, 0x07590dcd, 0x0b92f20c, 0x745a48de),
      0xefbe4786, 0x000f0000);
    NextRound(block, 18, Vars(0xc2fbd9d1, 0x21da9a9b, 0xb0fa238e, 0xc0645fde, 0x846ee454, 0x8034229c, 0x07590dcd, 0x0b92f20c),
      0x0fc19dc6, 0x7da86405);
    NextRound(block, 19, Vars(0xfe777bbf, 0xc2fbd9d1, 0x21da9a9b, 0xb0fa238e, 0xcc899961, 0x846ee454, 0x8034229c, 0x07590dcd),
      0x240ca1cc, 0x600003c6);
  }

  lemma Rounds20(block: Block)
    requires ScheduleKnown(block, 64)
    requires Rounds(VarsOf(INITIAL), block, 20)
          == Vars(0xe1f20c33, 0xfe777bbf, 0xc2fbd9d1, 0x21da9a9b, 0xb0638179, 0xcc899961, 0x846ee454, 0x8034229c)
    ensures Rounds(VarsOf(INITIAL), block, 24)
         == Vars(0xc5d53d8d, 0xa7a3623f, 0xc2606d6d, 0x9dc68b63, 0xaa47c347, 0x49f5114a, 0xe1257970, 0x8ada8930)
  {
    hide Rounds, ScheduleKnown, AbcWord;
    RowOfWords2();
    NextRound(block, 20, Vars(0xe1f20c33, 0xfe777bbf, 0xc2fbd9d1, 0x21da9a9b, 0xb0638179, 0xcc899961, 0x846ee454, 0x8034229c),
      0x2de92c6f, 0x3e9d7b78);
    NextRound(block, 21, Vars(0x9dc68b63, 0xe1f20c33, 0xfe777bbf, 0xc2fbd9d1, 0x8ada8930, 0xb0638179, 0xcc899961, 0x846ee454),
      0x4a7484aa, 0x0183fc00);
    NextRound(block, 22, Vars(0xc2606d6d, 0x9dc68b63, 0xe1f20c33, 0xfe777bbf, 0xe1257970, 0x8ada8930, 0xb0638179, 0xcc899961),
      0x5cb0a9dc, 0x12dcbfdb);
    NextRound(block, 23, Vars(0xa7a3623f, 0xc2606d6d, 0x9dc68b63, 0xe1f20c33, 0x49f5114a, 0xe1257970, 0x8ada8930, 0xb0638179),
      0x76f988da, 0xe2e2c38e);
  }

  lemma Rounds24(block: Block)
    requires ScheduleKnown(block, 64)
    requires Rounds(VarsOf(INITIAL), block, 24)
          == Vars(0xc5d53d8d, 0xa7a3623f, 0xc2606d6d, 0x9dc68b63, 0xaa47c347, 0x49f5114a, 0xe1257970, 0x8ada8930)
    ensures Rounds(VarsOf(INITIAL), block, 28)
         == Vars(0x77d37528, 0xb62ec4bc, 0xcde8037d, 0x1c2c2838, 0xedffbff8, 0xc74c6516, 0x14383d8e, 0x2823ef91)
  {
    hide Rounds, ScheduleKnown, AbcWord;
    RowOfWords3();
    NextRound(block, 24, Vars(0xc5d53d8d, 0xa7a3623f, 0xc2606d6d, 0x9dc68b63, 0xaa47c347, 0x49f5114a, 0xe1257970, 0x8ada8930),
      0x983e5152, 0xc8215c1a);
    NextRound(block, 25, Vars(0x1c2c2838, 0xc5d53d8d, 0xa7a3623f, 0xc2606d6d, 0x2823ef91, 0xaa47c347, 0x49f5114a, 0xe1257970),
      0xa831c66d, 0xb73679a2);
    NextRound(block, 26, Vars(0xcde8037d, 0x1c2c2838, 0xc5d53d8d, 0xa7a3623f, 0x14383d8e, 0x2823ef91, 0xaa47c347, 0x49f5114a),
      0xb00327c8, 0xe5bc3909);
    NextRound(block, 27, Vars(0xb62ec4bc, 0xcde8037d, 0x1c2c2838, 0xc5d53d8d, 0xc74c6516, 0x14383d8e, 0x2823ef91, 0xaa47c347),
      0xbf597fc7, 0x32663c5b);
  }

  lemma Rounds28(block: Block)
    requires ScheduleKnown(block, 64)
    requires Rounds(VarsOf(INITIAL), block, 28)
          == Vars(0x77d37528, 0xb62ec4bc, 0xcde8037d, 0x1c2c2838, 0xedffbff8, 0xc74c6516, 0x14383d8e, 0x2823ef91)
    ensures Rounds(VarsOf(INITIAL), block, 32)
         == Vars(0x73b33bf5, 0xea992a22, 0xa0060b30, 0x363482c9, 0xba591112, 0x0109ab3a, 0xade79437, 0x6112a3b7)
  {
    hide Rounds, ScheduleKnown, AbcWord;
    RowOfWords3();
    NextRound(block, 28, Vars(0x77d37528, 0xb62ec4bc, 0xcde8037d, 0x1c2c2838, 0xedffbff8, 0xc74c6516, 0x14383d8e, 0x2823ef91),
      0xc6e00bf3, 0x9d209d67);
    NextRound(block, 29, Vars(0x363482c9, 0x77d37528, 0xb62ec4bc, 0xcde8037d, 0x6112a3b7, 0xedffbff8, 0xc74c6516, 0x14383d8e),
      0xd5a79147, 0xec8726cb);
    NextRound(block, 30, Vars(0xa0060b30, 0x363482c9, 0x77d37528, 0xb62ec4bc, 0xade79437, 0x6112a3b7, 0xedffbff8, 0xc74c6516),
      0x06ca6351, 0x702138a4);
    NextRound(block, 31, Vars(0xea992a22, 0xa0060b30, 0x363482c9, 0x77d37528, 0x0109ab3a, 0xade79437, 0x6112a3b7, 0xedffbff8),
      0x14292967, 0xd3b7973b);
  }

  lemma Rounds32(block: Block)
    requires ScheduleKnown(block, 64)
    requires Rounds(VarsOf(INITIAL), block, 32)
          == Vars(0x73b33bf5, 0xea992a22, 0xa0060b30, 0x363482c9, 0xba591112, 0x0109ab3a, 0xade79437, 0x6112a3b7)
    ensures Rounds(VarsOf(INITIAL), block, 36)
         == Vars(0x65a0cfe4, 0xa9a7738c, 0xfe604df5, 0x98e12507, 0xf4b002d6, 0x085f3833, 0x59249dd3, 0x9cd9f5f6)
  {
    hide Rounds, ScheduleKnown, AbcWord;
    RowOfWords4();
    NextRound(block, 32, Vars(0x73b33bf5, 0xea992a22, 0xa0060b30, 0x363482c9, 0xba591112, 0x0109ab3a, 0xade79437, 0x6112a3b7),
      0x27b70a85, 0x93f5997f);
    NextRound(block, 33, Vars(0x98e12507, 0x73b33bf5, 0xea992a22, 0xa0060b30, 0x9cd9f5f6, 0xba591112, 0x0109ab3a, 0xade79437),
      0x2e1b2138, 0x3b68ba73);
    NextRound(block, 34, Vars(0xfe604df5, 0x98e12507, 0x73b33bf5, 0xea992a22, 0x59249dd3, 0x9cd9f5f6, 0xba591112, 0x0109ab3a),
      0x4d2c6dfc, 0xaff4ffc1);
    NextRound(block, 35, Vars(0xa9a7738c, 0xfe604df5, 0x98e12507, 0x73b33bf5, 0x085f3833, 0x59249dd3, 0x9cd9f5f6, 0xba591112),
      0x53380d13, 0xf10a5c62);
  }

  lemma Rounds36(block: Block)
    requires ScheduleKnown(block, 64)
    requires Rounds(VarsOf(INITIAL), block, 36)
          == Vars(0x65a0cfe4, 0xa9a7738c, 0xfe604df5, 0x98e12507, 0xf4b002d6, 0x085f3833, 0x59249dd3, 0x9cd9f5f6)
    ensures Rounds(VarsOf(INITIAL), block, 40)
         == Vars(0x79ea687a, 0x6dc57a8a, 0x34df1604, 0x41a65cb1, 0x1efbc0a0, 0xf0781bc8, 0xa507a53d, 0x0772a26b)
  {
    hide Rounds, ScheduleKnown, AbcWord;
    RowOfWords4();
    NextRound(block, 36, Vars(0x65a0cfe4, 0xa9a7738c, 0xfe604df5, 0x98e12507, 0xf4b002d6, 0x085f3833, 0x59249dd3, 0x9cd9f5f6),
      0x650a7354, 0x0a8b3996);
    NextRound(block, 37, Vars(0x41a65cb1, 0x65a0cfe4, 0xa9a7738c, 0xfe604df5, 0x0772a26b, 0xf4b002d6, 0x085f3833, 0x59249dd3),
      0x766a0abb, 0x72af830a);
    NextRound(block, 38, Vars(0x34df1604, 0x41a65cb1, 0x65a0cfe4, 0xa9a7738c, 0xa507a53d, 0x0772a26b, 0xf4b002d6, 0x085f3833),
      0x81c2c92e, 0x9409e33e);
    NextRound(block, 39, Vars(0x6dc57a8a, 0x34df1604, 0x41a65cb1, 0x65a0cfe4, 0xf0781bc8, 0xa507a53d, 0x0772a26b, 0xf4b002d6),
      0x92722c85, 0x24641522);
  }

  lemma Rounds40(block: Block)
    requires ScheduleKnown(block, 64)
    requires Rounds(VarsOf(INITIAL), block, 40)
          == Vars(0x79ea687a, 0x6dc57a8a, 0x34df1604, 0x41a65cb1, 0x1efbc0a0, 0xf0781bc8, 0xa507a53d, 0x0772a26b)
    ensures Rounds(VarsOf(INITIAL), block, 44)
         == Vars(0x9d4baf93, 0x17aa0dfe, 0xdf46652f, 0xd6670766, 0xfda24c2e, 0xdecd4715, 0x838b2711, 0x26352d63)
  {
    hide Rounds, ScheduleKnown, AbcWord;
    RowOfWords5();
    NextRound(block, 40, Vars(0x79ea687a, 0x6dc57a8a, 0x34df1604, 0x41a65cb1, 0x1efbc0a0, 0xf0781bc8, 0xa507a53d, 0x0772a26b),
      0xa2bfe8a1, 0x9f47bf94);
    NextRound(block, 41, Vars(0xd6670766, 0x79ea687a, 0x6dc57a8a, 0x34df1604, 0x26352d63, 0x1efbc0a0, 0xf0781bc8, 0xa507a53d),
      0xa81a664b, 0xf0a64f5a);
    NextRound(block, 42, Vars(0xdf46652f, 0xd6670766, 0x79ea687a, 0x6dc57a8a, 0x838b2711, 0x26352d63, 0x1efbc0a0, 0xf0781bc8),
      0xc24b8b70, 0x3e246a79);
    NextRound(block, 43, Vars(0x17aa0dfe, 0xdf46652f, 0xd6670766, 0x79ea687a, 0xdecd4715, 0x838b2711, 0x26352d63, 0x1efbc0a0),
      0xc76c51a3, 0x27333ba3);
  }

  lemma Rounds44(block: Block)
    requires ScheduleKnown(block, 64)
    requires Rounds(VarsOf(INITIAL), block, 44)
          == Vars(0x9d4baf93, 0x17aa0dfe, 0xdf46652f, 0xd6670766, 0xfda24c2e, 0xdecd4715, 0x838b2711, 0x26352d63)
    ensures Rounds(VarsOf(INITIAL), block, 48)
         == Vars(0x4172328d, 0xa14c14b0, 0x72ab4b91, 0x26628815, 0xfecf0bc6, 0xd57b94a9, 0xb7755da1, 0xa80f11f0)
  {
    hide Rounds, ScheduleKnown, AbcWord;
    RowOfWords5();
    NextRound(block, 44, Vars(0x9d4baf93, 0x17aa0dfe, 0xdf46652f, 0xd6670766, 0xfda24c2e, 0xdecd4715, 0x838b2711, 0x26352d63),
      0xd192e819, 0x0c4763f2);
    NextRound(block, 45, Vars(0x26628815, 0x9d4baf93, 0x17aa0dfe, 0xdf46652f, 0xa80f11f0, 0xfda24c2e, 0xdecd4715, 0x838b2711),
      0xd6990624, 0x840abf27);
    NextRound(block, 46, Vars(0x72ab4b91, 0x26628815, 0x9d4baf93, 0x17aa0dfe, 0xb7755da1, 0xa80f11f0, 0xfda24c2e, 0xdecd4715),
      0xf40e3585, 0x7a290d5d);
    NextRound(block, 47, Vars(0xa14c14b0, 0x72ab4b91, 0x26628815, 0x9d4baf93, 0xd57b94a9, 0xb7755da1, 0xa80f11f0, 0xfda24c2e),
      0x106aa070, 0x065c43da);
  }

  lemma Rounds48(block: Block)
    requires ScheduleKnown(block, 64)
    requires Rounds(VarsOf(INITIAL), block, 48)
          == Vars(0x4172328d, 0xa14c14b0, 0x72ab4b91, 0x26628815, 0xfecf0bc6, 0xd57b94a9, 0xb7755da1, 0xa80f11f0)
    ensures Rounds(VarsOf(INITIAL), block, 52)
         == Vars(0x886e7a22, 0x7a0508a1, 0xf11bfaa8, 0x05757ceb, 0x49231c1e, 0x52f1ccf7, 0x6e5c390c, 0xbd714038)
  {
    hide Rounds, ScheduleKnown, AbcWord;
    RowOfWords6();
    NextRound(block, 48, Vars(0x4172328d, 0xa14c14b0, 0x72ab4b91, 0x26628815, 0xfecf0bc6, 0xd57b94a9, 0xb7755da1, 0xa80f11f0),
      0x19a4c116, 0xfb3e89cb);
    NextRound(block, 49, Vars(0x05757ceb, 0x4172328d, 0xa14c14b0, 0x72ab4b91, 0xbd714038, 0xfecf0bc6, 0xd57b94a9, 0xb7755da1),
      0x1e376c08, 0xcc7617db);
    NextRound(block, 50, Vars(0xf11bfaa8, 0x05757ceb, 0x4172328d, 0xa14c14b0, 0x6e5c390c, 0xbd714038, 0xfecf0bc6, 0xd57b94a9),
      0x2748774c, 0xb9e66c34);
    NextRound(block, 51, Vars(0x7a0508a1, 0xf11bfaa8, 0x05757ceb, 0x4172328d, 0x52f1ccf7, 0x6e5c390c, 0xbd714038, 0xfecf0bc6),
      0x34b0bcb5, 0xa9993667);
  }

  lemma Rounds52(block: Block)
    requires ScheduleKnown(block, 64)
    requires Rounds(VarsOf(INITIAL), block, 52)
          == Vars(0x886e7a22, 0x7a0508a1, 0xf11bfaa8, 0x05757ceb, 0x49231c1e, 0x52f1ccf7, 0x6e5c390c, 0xbd714038)
    ensures Rounds(VarsOf(INITIAL), block, 56)
         == Vars(0x38cc9913, 0x3ec45cdb, 0xf5702fdb, 0x101fd28f, 0x54cb266b, 0xe50e1b4f, 0x9f4787c3, 0x529e7d00)
  {
    hide Rounds, ScheduleKnown, AbcWord;
    RowOfWords6();
    NextRound(block, 52, Vars(0x886e7a22, 0x7a0508a1, 0xf11bfaa8, 0x05757ceb, 0x49231c1e, 0x52f1ccf7, 0x6e5c390c, 0xbd714038),
      0x391c0cb3, 0x84badedd);
    NextRound(block, 53, Vars(0x101fd28f, 0x886e7a22, 0x7a0508a1, 0xf11bfaa8, 0x529e7d00, 0x49231c1e, 0x52f1ccf7, 0x6e5c390c),
      0x4ed8aa4a, 0xc21462bc);
    NextRound(block, 54, Vars(0xf5702fdb, 0x101fd28f, 0x886e7a22, 0x7a0508a1, 0x9f4787c3, 0x529e7d00, 0x49231c1e, 0x52f1ccf7),
      0x5b9cca4f, 0x1487472c);
    NextRound(block, 55, Vars(0x3ec45cdb, 0xf5702fdb, 0x101fd28f, 0x886e7a22, 0xe50e1b4f, 0x9f4787c3, 0x529e7d00, 0x49231c1e),
      0x682e6ff3, 0xb20f7a99);
  }

  lemma Rounds56(block: Block)
    requires ScheduleKnown(block, 64)
    requires Rounds(VarsOf(INITIAL), block, 56)
          == Vars(0x38cc9913, 0x3ec45cdb, 0xf5702fdb, 0x101fd28f, 0x54cb266b, 0xe50e1b4f, 0x9f4787c3, 0x529e7d00)
    ensures Rounds(VarsOf(INITIAL), block, 60)
         == Vars(0xb6ae8fff, 0xffb70472, 0xc062d46f, 0xfcd1887b, 0xb21bad3d, 0x6d83bfc6, 0x7e44008e, 0x9b5e906c)
  {
    hide Rounds, ScheduleKnown, AbcWord;
    RowOfWords7();
    NextRound(block, 56, Vars(0x38cc9913, 0x3ec45cdb, 0xf5702fdb, 0x101fd28f, 0x54cb266b, 0xe50e1b4f, 0x9f4787c3, 0x529e7d00),
      0x748f82ee, 0xef57b9cd);
    NextRound(block, 57, Vars(0xfcd1887b, 0x38cc9913, 0x3ec45cdb, 0xf5702fdb, 0x9b5e906c, 0x54cb266b, 0xe50e1b4f, 0x9f4787c3),
      0x78a5636f, 0xebe6b238);
    NextRound(block, 58, Vars(0xc062d46f, 0xfcd1887b, 0x38cc9913, 0x3ec45cdb, 0x7e44008e, 0x9b5e906c, 0x54cb266b, 0xe50e1b4f),
      0x84c87814, 0x9fe3095e);
    NextRound(block, 59, Vars(0xffb70472, 0xc062d46f, 0xfcd1887b, 0x38cc9913, 0x6d83bfc6, 0x7e44008e, 0x9b5e906c, 0x54cb266b),
      0x8cc70208, 0x78bc8d4b);
  }

  lemma Rounds60(block: Block)
    requires ScheduleKnown(block, 64)
    requires Rounds(VarsOf(INITIAL), block, 60)
          == Vars(0xb6ae8fff, 0xffb70472, 0xc062d46f, 0xfcd1887b, 0xb21bad3d, 0x6d83bfc6, 0x7e44008e, 0x9b5e906c)
    ensures Rounds(VarsOf(INITIAL), block, 64)
         == Vars(0x506e3058, 0xd39a2165, 0x04d24d6c, 0xb85e2ce9, 0x5ef50f24, 0xfb121210, 0x948d25b6, 0x961f4894)
  {
    hide Rounds, ScheduleKnown, AbcWord;
    RowOfWords7();
    NextRound(block, 60, Vars(0xb6ae8fff, 0xffb70472, 0xc062d46f, 0xfcd1887b, 0xb21bad3d, 0x6d83bfc6, 0x7e44008e, 0x9b5e906c),
      0x90befffa, 0xa43fcf15);
    NextRound(block, 61, Vars(0xb85e2ce9, 0xb6ae8fff, 0xffb70472, 0xc062d46f, 0x961f4894, 0xb21bad3d, 0x6d83bfc6, 0x7e44008e),
      0xa4506ceb, 0x668b2ff8);
    NextRound(block, 62, Vars(0x04d24d6c, 0xb85e2ce9, 0xb6ae8fff, 0xffb70472, 0x948d25b6, 0x961f4894, 0xb21bad3d, 0x6d83bfc6),
      0xbef9a3f7, 0xeeaba2cc);
    NextRound(block, 63, Vars(0xd39a2165, 0x04d24d6c, 0xb85e2ce9, 0xb6ae8fff, 0xfb121210, 0x948d25b6, 0x961f4894, 0xb21bad3d),
      0xc67178f2, 0x12b1edeb);
  }

  lemma AbcRounds(block: Block)
    requires IsAbc(block)
    ensures Rounds(VarsOf(INITIAL), block, 64)
         == Vars(0x506e3058, 0xd39a2165, 0x04d24d6c, 0xb85e2ce9, 0x5ef50f24, 0xfb121210, 0x948d25b6, 0x961f4894)
  {
    AbcSchedule(block);
    assert Rounds(VarsOf(INITIAL), block, 0)
        == Vars(0x6a09e667, 0xbb67ae85, 0x3c6ef372, 0xa54ff53a, 0x510e527f, 0x9b05688c, 0x1f83d9ab, 0x5be0cd19);
    hide Rounds, ScheduleKnown, IsAbc;
    Rounds0(block);
    Rounds4(block);
    Rounds8(block);
    Rounds12(block);
    Rounds16(block);
    Rounds20(block);
    Rounds24(block);
    Rounds28(block);
    Rounds32(block);
    Rounds36(block);
    Rounds40(block);
    Rounds44(block);
    Rounds48(block);
    Rounds52(block);
    Rounds56(block);
    Rounds60(block);
  }

  lemma AbcSums(s: State)
    requires s == INITIAL
    ensures Sums(s, Vars(0x506e3058, 0xd39a2165, 0x04d24d6c, 0xb85e2ce9, 0x5ef50f24, 0xfb121210, 0x948d25b6, 0x961f4894))
         == [0xba7816bf, 0x8f01cfea, 0x414140de, 0x5dae2223, 0xb00361a3, 0x96177a9c, 0xb410ff61, 0xf20015ad]
  {
  }

  lemma {:induction false} WordInBytes(s: seq<Word>, i: nat)
    requires i < |s|
    ensures StateBytes(s)[4 * i..4 * i + 4] == WordBytes(s[i])
  {
    hide WordBytes;
    var n := |s| - 1;
    if i < n {
      WordInBytes(s[..n], i);
      assert StateBytes(s)[4 * i..4 * i + 4] == StateBytes(s[..n])[4 * i..4 * i + 4];
    }
  }

  lemma AbcBytes0()
    ensures WordBytes(0xba7816bf) == [0xba, 0x78, 0x16, 0xbf]
  {
  }

  lemma AbcBytes1()
    ensures WordBytes(0x8f01cfea) == [0x8f, 0x01, 0xcf, 0xea]
  {
  }

  lemma AbcBytes2()
    ensures WordBytes(0x414140de) == [0x41, 0x41, 0x40, 0xde]
  {
  }

  lemma AbcBytes3()
    ensures WordBytes(0x5dae2223) == [0x5d, 0xae, 0x22, 0x23]
  {
  }

  lemma AbcBytes4()
    ensures WordBytes(0xb00361a3) == [0xb0, 0x03, 0x61, 0xa3]
  {
  }

  lemma AbcBytes5()
    ensures WordBytes(0x96177a9c) == [0x96, 0x17, 0x7a, 0x9c]
  {
  }

  lemma AbcBytes6()
    ensures WordBytes(0xb410ff61) == [0xb4, 0x10, 0xff, 0x61]
  {
  }

  lemma AbcBytes7()
    ensures WordBytes(0xf20015ad) == [0xf2, 0x00, 0x15, 0xad]
  {
  }

  lemma AbcPadded()
    ensures var m := [0x61, 0x62, 0x63] + Padding(3); |m| == 64 && IsAbc(m)
  {
    assert PadLength(3) == 61;
    assert BigEndian(24, 8) == [0, 0, 0, 0, 0, 0, 0, 24];
  }

  /** SHA-256 of "abc" is the value FIPS 180-4 gives. */
  lemma DigestOfAbc()
    ensures var d := Digest([0x61, 0x62, 0x63]);
            && d[0..4] == [0xba, 0x78, 0x16, 0xbf] && d[4..8] == [0x8f, 0x01, 0xcf, 0xea]
            && d[8..12] == [0x41, 0x41, 0x40, 0xde] && d[12..16] == [0x5d, 0xae, 0x22, 0x23]
            && d[16..20] == [0xb0, 0x03, 0x61, 0xa3] && d[20..24] == [0x96, 0x17, 0x7a, 0x9c]
            && d[24..28] == [0xb4, 0x10, 0xff, 0x61] && d[28..32] == [0xf2, 0x00, 0x15, 0xad]
  {
    AbcPadded();
    hide Padding, Rounds, Sums, StateBytes, IsAbc, WordBytes, Fold;
    var m: Block := [0x61, 0x62, 0x63] + Padding(3);
    AbcRounds(m);
    AbcSums(INITIAL);
    OneBlock(m);
    var s := Compress(INITIAL, m);
    WordInBytes(s, 0);
    AbcBytes0();
    WordInBytes(s, 1);
    AbcBytes1();
    WordInBytes(s, 2);
    AbcBytes2();
    WordInBytes(s, 3);
    AbcBytes3();
    WordInBytes(s, 4);
    AbcBytes4();
    WordInBytes(s, 5);
    AbcBytes5();
    WordInBytes(s, 6);
    AbcBytes6();
    WordInBytes(s, 7);
    AbcBytes7();
  }

  lemma OneBlock(m: Block)
    ensures Fold(INITIAL, m) == Compress(INITIAL, m)
  {
    hide Compress;
    assert m[..0] == [] && m[0..] == m;
  }
}
