/** Bytes as bounded integers, exclusive or and big-endian numbers over them. */
module Bytes {

  type byte = x: int | 0 <= x < 256
  type uint32 = x: int | 0 <= x < 0x1_0000_0000
  type uint64 = x: int | 0 <= x < 0x1_0000_0000_0000_0000

  /** Truncation to 8, 32 and 64 bits. */
  function SumByte(x: int, y: int): byte { (x + y) % 256 }

  function Wrap32(x: int): uint32 { x % 0x1_0000_0000 }

  function Wrap64(x: int): uint64 { x % 0x1_0000_0000_0000_0000 }

  lemma Wrap64Small(x: nat)
    requires x < 0x1_0000_0000_0000_0000
    ensures Wrap64(x) == x
  {
  }

  function Pow2(k: nat): (p: nat)
    ensures p > 0
  {
    if k == 0 then 1 else 2 * Pow2(k - 1)
  }

  lemma {:induction false} Pow2Sum(a: nat, b: nat)
    ensures Pow2(a + b) == Pow2(a) * Pow2(b)
  {
    if a > 0 {
      Pow2Sum(a - 1, b);
    }
  }

  lemma Pow2Of32()
    ensures Pow2(32) == 0x1_0000_0000
  {
    assert Pow2(8) == 0x100;
    Pow2Sum(8, 8);
    assert Pow2(16) == 0x1_0000;
    Pow2Sum(16, 16);
  }

  lemma Pow2Of64()
    ensures Pow2(64) == 0x1_0000_0000_0000_0000
  {
    hide Pow2;
    Pow2Of32();
    Pow2Sum(32, 32);
  }

  function Pow256(k: nat): (p: nat)
    ensures p > 0
  {
    if k == 0 then 1 else 256 * Pow256(k - 1)
  }

  lemma {:induction false} Pow256Sum(a: nat, b: nat)
    ensures Pow256(a + b) == Pow256(a) * Pow256(b)
  {
    if a > 0 {
      Pow256Sum(a - 1, b);
    }
  }

  // ---------------------------------------------------------------- exclusive or

  /** The C operator `^` on unsigned words of any width, bit by bit from the low end. */
  function Xor(x: nat, y: nat): nat
    decreases x + y
  {
    if x == 0 && y == 0 then 0 else (x + y) % 2 + 2 * Xor(x / 2, y / 2)
  }

  lemma {:induction false} XorBound(x: nat, y: nat, k: nat)
    requires x < Pow2(k) && y < Pow2(k)
    ensures Xor(x, y) < Pow2(k)
  {
    if k > 0 {
      XorBound(x / 2, y / 2, k - 1);
    }
  }

  lemma {:induction false} XorCommutes(x: nat, y: nat)
    ensures Xor(x, y) == Xor(y, x)
    decreases x + y
  {
    if x != 0 || y != 0 {
      XorCommutes(x / 2, y / 2);
    }
  }

  lemma {:induction false} XorZero(x: nat)
    ensures Xor(x, 0) == x
  {
    if x != 0 {
      XorZero(x / 2);
    }
  }

  lemma {:induction false} XorSelf(x: nat)
    ensures Xor(x, x) == 0
  {
    if x != 0 {
      XorSelf(x / 2);
    }
  }

  lemma XorStep(x: nat, y: nat)
    ensures Xor(x, y) == (x + y) % 2 + 2 * Xor(x / 2, y / 2)
  {
  }

  lemma LowBitUndo(x: nat, y: nat, high: nat)
    ensures ((x + y) % 2 + 2 * high + y) % 2 == x % 2
    ensures ((x + y) % 2 + 2 * high) / 2 == high
  {
  }

  /** Exclusive or with the same word twice changes nothing. */
  lemma {:induction false} XorUndo(x: nat, y: nat)
    ensures Xor(Xor(x, y), y) == x
    decreases x + y
  {
    hide Xor;
    if x == 0 && y == 0 {
      XorZero(0);
    } else {
      XorUndo(x / 2, y / 2);
      XorStep(x, y);
      XorStep(Xor(x, y), y);
      LowBitUndo(x, y, Xor(x / 2, y / 2));
    }
  }

  lemma XorHalves(x: nat, y: nat)
    ensures Xor(x, y) % 2 == (x + y) % 2 && Xor(x, y) / 2 == Xor(x / 2, y / 2)
  {
    var h := Xor(x / 2, y / 2);
    XorStep(x, y);
    hide Xor;
    LowBitUndo(x, y, h);
    assert (x + y) % 2 + 2 * h == Xor(x, y);
    DivModUnique(Xor(x, y), 2, h, (x + y) % 2);
  }

  lemma {:induction false} XorAssociates(x: nat, y: nat, z: nat)
    ensures Xor(Xor(x, y), z) == Xor(x, Xor(y, z))
    decreases x + y + z
  {
    hide Xor;
    if x == 0 && y == 0 && z == 0 {
      XorZero(0);
    } else {
      XorAssociates(x / 2, y / 2, z / 2);
      XorHalves(x, y);
      XorHalves(y, z);
      XorStep(Xor(x, y), z);
      XorStep(x, Xor(y, z));
      SumParity(x, y, z, Xor(x, y), Xor(y, z));
    }
  }

  lemma SumParity(x: nat, y: nat, z: nat, u: nat, v: nat)
    requires u % 2 == (x + y) % 2 && v % 2 == (y + z) % 2
    ensures (u + z) % 2 == (x + v) % 2
  {
  }

  /** Bit `i` of an exclusive or is the sum of the two bits modulo 2. */
  lemma {:induction false} XorBit(x: nat, y: nat, i: nat)
    ensures Xor(x, y) / Pow2(i) % 2 == (x / Pow2(i) + y / Pow2(i)) % 2
  {
    hide Xor;
    XorHalves(x, y);
    if i > 0 {
      XorBit(x / 2, y / 2, i - 1);
      ModStep(x, 2, Pow2(i - 1));
      ModStep(y, 2, Pow2(i - 1));
      ModStep(Xor(x, y), 2, Pow2(i - 1));
    }
  }

  /** A number from its high part, in units of `p`, and its low part. */
  function Glued(p: nat, x: nat, u: nat): nat {
    MulMonotonic(p, 0, x);
    p * x + u
  }

  /** Digits of `k` bits are combined one by one. */
  lemma {:induction false} XorParts(x: nat, y: nat, u: nat, v: nat, k: nat)
    requires u < Pow2(k) && v < Pow2(k)
    ensures Xor(Glued(Pow2(k), x, u), Glued(Pow2(k), y, v)) == Glued(Pow2(k), Xor(x, y), Xor(u, v))
  {
    hide Xor, Glued;
    if k == 0 {
      GluedZero(x);
      GluedZero(y);
      GluedZero(Xor(x, y));
      XorZero(0);
    } else {
      var p := Pow2(k - 1);
      XorParts(x, y, u / 2, v / 2, k - 1);
      GluedParts(x, y, u, v, p);
    }
  }

  lemma GluedZero(x: nat)
    ensures Glued(1, x, 0) == x
  {
  }

  lemma GluedParts(x: nat, y: nat, u: nat, v: nat, p: nat)
    requires Xor(Glued(p, x, u / 2), Glued(p, y, v / 2)) == Glued(p, Xor(x, y), Xor(u / 2, v / 2))
    ensures Xor(Glued(2 * p, x, u), Glued(2 * p, y, v)) == Glued(2 * p, Xor(x, y), Xor(u, v))
  {
    hide *;
    HalfOf(x, u, p);
    HalfOf(y, v, p);
    HalfOf(Xor(x, y), Xor(u, v), p);
    XorHalves(Glued(2 * p, x, u), Glued(2 * p, y, v));
    XorHalves(u, v);
    SumParities(Glued(2 * p, x, u), Glued(2 * p, y, v), u, v);
    SameHalves(Xor(Glued(2 * p, x, u), Glued(2 * p, y, v)), Glued(2 * p, Xor(x, y), Xor(u, v)));
  }

  lemma SumParities(a: nat, b: nat, u: nat, v: nat)
    requires a % 2 == u % 2 && b % 2 == v % 2
    ensures (a + b) % 2 == (u + v) % 2
  {
  }

  lemma SameHalves(a: nat, b: nat)
    requires a / 2 == b / 2 && a % 2 == b % 2
    ensures a == b
  {
  }

  lemma HalfOf(x: nat, u: nat, p: nat)
    ensures Glued(2 * p, x, u) / 2 == Glued(p, x, u / 2) && Glued(2 * p, x, u) % 2 == u % 2
  {
    MulAssociates(2, p, x);
  }

  /** The C operator `&`. */
  function And(x: nat, y: nat): nat
    decreases x + y
  {
    if x == 0 || y == 0 then 0 else (if x % 2 == 1 && y % 2 == 1 then 1 else 0) + 2 * And(x / 2, y / 2)
  }

  /** The C operator `|`. */
  function Or(x: nat, y: nat): nat
    decreases x + y
  {
    if x == 0 && y == 0 then 0 else (if x % 2 + y % 2 > 0 then 1 else 0) + 2 * Or(x / 2, y / 2)
  }

  lemma OrStep(x: nat, y: nat)
    ensures Or(x, y) == (if x % 2 + y % 2 > 0 then 1 else 0) + 2 * Or(x / 2, y / 2)
  {
  }

  lemma {:induction false} OrBound(x: nat, y: nat, k: nat)
    requires x < Pow2(k) && y < Pow2(k)
    ensures Or(x, y) < Pow2(k)
  {
    if k > 0 {
      OrBound(x / 2, y / 2, k - 1);
    }
  }

  lemma {:induction false} OrZero(x: nat)
    ensures Or(0, x) == x
  {
    if x != 0 {
      OrZero(x / 2);
    }
  }

  lemma AndZero(x: nat)
    ensures And(x, 0) == 0
  {
  }

  lemma {:induction false} AndBound(x: nat, y: nat)
    ensures And(x, y) <= x
  {
    if x > 0 && y > 0 {
      AndBound(x / 2, y / 2);
    }
  }

  lemma AndStep(x: nat, y: nat)
    ensures And(x, y) == (if x % 2 == 1 && y % 2 == 1 then 1 else 0) + 2 * And(x / 2, y / 2)
  {
  }

  /** Masking with a single bit gives that bit. */
  lemma {:induction false} AndBit(x: nat, i: nat)
    ensures And(x, Pow2(i)) == Pow2(i) * (x / Pow2(i) % 2)
  {
    AndStep(x, Pow2(i));
    hide And;
    if i > 0 {
      AndBit(x / 2, i - 1);
      var p := Pow2(i - 1);
      assert Pow2(i) == 2 * p;
      ModStep(x, 2, p);
      MulAssociates(2, p, x / 2 / p % 2);
    } else {
      AndZero(x / 2);
    }
  }

  lemma AndOddMask(x: nat, m: nat)
    ensures And(x, 2 * m + 1) == x % 2 + 2 * And(x / 2, m)
  {
    assert (2 * m + 1) / 2 == m && (2 * m + 1) % 2 == 1;
  }

  lemma ModDouble(x: nat, p: nat)
    requires p > 0
    ensures x % (2 * p) == x % 2 + 2 * ((x / 2) % p)
  {
    ModStep(x, 2, p);
  }

  /** Masking with 2^k - 1 is the remainder modulo 2^k. */
  lemma {:induction false} AndMask(x: nat, k: nat)
    ensures And(x, Pow2(k) - 1) == x % Pow2(k)
  {
    hide And;
    if k == 0 {
      AndZero(x);
    } else {
      var p := Pow2(k - 1);
      AndMask(x / 2, k - 1);
      AndOddMask(x, p - 1);
      ModDouble(x, p);
    }
  }

  function XorByte(x: byte, y: byte): byte
  {
    assert Pow2(8) == 256;
    XorBound(x, y, 8);
    Xor(x, y)
  }

  lemma XorByteUndo(x: byte, y: byte)
    ensures XorByte(XorByte(x, y), y) == x
  {
    XorUndo(x, y);
  }

  lemma XorByteLaws(x: byte, y: byte, z: byte)
    ensures XorByte(XorByte(x, y), z) == XorByte(x, XorByte(y, z))
    ensures XorByte(x, y) == XorByte(y, x)
    ensures XorByte(x, 0) == x && XorByte(0, x) == x && XorByte(x, x) == 0
  {
    XorAssociates(x, y, z);
    XorCommutes(x, y);
    XorCommutes(x, 0);
    XorZero(x);
    XorSelf(x);
    hide Xor;
  }

  /** Distinct masks give distinct results. */
  lemma XorByteInjective(x: byte, y: byte, z: byte)
    requires XorByte(x, y) == XorByte(x, z) || XorByte(y, x) == XorByte(z, x)
    ensures y == z
  {
    XorCommutes(x, y);
    XorCommutes(x, z);
    XorUndo(y, x);
    XorUndo(z, x);
  }

  /** Bytewise exclusive or of two strings of equal length. */
  function XorBytes(a: seq<byte>, b: seq<byte>): (r: seq<byte>)
    requires |a| == |b|
    ensures |r| == |a|
    ensures forall i :: 0 <= i < |a| ==> r[i] == XorByte(a[i], b[i])
  {
    seq(|a|, i requires 0 <= i < |a| => XorByte(a[i], b[i]))
  }

  lemma XorBytesUndo(a: seq<byte>, b: seq<byte>)
    requires |a| == |b|
    ensures XorBytes(XorBytes(a, b), b) == a
  {
    forall i | 0 <= i < |a|
      ensures XorBytes(XorBytes(a, b), b)[i] == a[i]
    {
      XorByteUndo(a[i], b[i]);
    }
  }

  /** Exclusive or of part of `input` with a mask, written to the same place of `output`, which may be the same array. */
  method XorBlock(input: array<byte>, block: array<byte>, offset: nat, len: nat, output: array<byte>)
    requires len <= block.Length && offset + len <= input.Length && offset + len <= output.Length
    requires block != output
    modifies output
    ensures output[..] == old(output[..offset]) + XorBytes(old(input[offset..offset + len]), block[..len]) + old(output[offset + len..])
  {
    ghost var x, o := input[offset..offset + len], output[..];
    for j := 0 to len
      invariant forall m :: 0 <= m < offset ==> output[m] == o[m]
      invariant forall m :: offset <= m < offset + j ==> output[m] == XorByte(x[m - offset], block[m - offset])
      invariant forall m :: offset + j <= m < output.Length ==> output[m] == o[m]
      invariant forall m :: offset + j <= m < offset + len ==> input[m] == x[m - offset]
    {
      output[offset + j] := XorByte(input[offset + j], block[j]);
    }
  }

  function Zeros(n: nat): (r: seq<byte>)
    ensures |r| == n
    ensures forall i :: 0 <= i < n ==> r[i] == 0
  {
    seq(n, _ => 0)
  }

  // ---------------------------------------------------------------- big-endian numbers

  /** The low `len` bytes of `n`, most significant byte first. */
  function BigEndian(n: nat, len: nat): (r: seq<byte>)
    ensures |r| == len
  {
    if len == 0 then [] else BigEndian(n / 256, len - 1) + [n % 256]
  }

  function BigEndianValue(s: seq<byte>): nat
  {
    if s == [] then 0 else 256 * BigEndianValue(s[..|s| - 1]) + s[|s| - 1]
  }

  lemma {:induction false} ValueBound(s: seq<byte>)
    ensures BigEndianValue(s) < Pow256(|s|)
  {
    if s != [] {
      ValueBound(s[..|s| - 1]);
    }
  }

  /** Four bytes read as a big-endian word. */
  function Load32(s: seq<byte>, i: nat): uint32
    requires i + 4 <= |s|
  {
    ValueBound(s[i..i + 4]);
    assert Pow256(4) == 0x1_0000_0000;
    BigEndianValue(s[i..i + 4])
  }

  /** The first bytes of a string as a number, top byte first. */
  lemma ValueByByte(d: seq<byte>, n: nat)
    requires n <= |d| && n <= 4
    ensures BigEndianValue([]) == 0
    ensures n > 0 ==> BigEndianValue(d[..1]) == d[0]
    ensures n > 1 ==> BigEndianValue(d[..2]) == 0x100 * (d[0] as int) + d[1]
    ensures n > 2 ==> BigEndianValue(d[..3]) == 0x1_0000 * (d[0] as int) + 0x100 * (d[1] as int) + d[2]
    ensures n > 3 ==> BigEndianValue(d[..4]) == 0x100_0000 * (d[0] as int) + 0x1_0000 * (d[1] as int) + 0x100 * (d[2] as int) + d[3]
  {
    if n > 0 {
      ValueByByte(d, n - 1);
      assert d[..n][..n - 1] == d[..n - 1];
    }
  }

  lemma Load32Is(s: seq<byte>, i: nat, v: int)
    requires i + 4 <= |s|
    requires v == 0x100_0000 * (s[i] as int) + 0x1_0000 * (s[i + 1] as int) + 0x100 * (s[i + 2] as int) + s[i + 3]
    ensures Load32(s, i) == v
  {
    hide BigEndianValue;
    ValueByByte(s[i..i + 4], 4);
    assert s[i..i + 4][..4] == s[i..i + 4];
  }

  /** Words written big-endian one after the other. */
  function BytesOfWords(s: seq<uint32>): (r: seq<byte>)
    ensures |r| == 4 * |s|
  {
    if s == [] then [] else BytesOfWords(s[..|s| - 1]) + BigEndian(s[|s| - 1], 4)
  }

  /** Writing a number and reading it back loses exactly what does not fit. */
  lemma {:induction false} ValueOfBigEndian(n: nat, len: nat)
    ensures BigEndianValue(BigEndian(n, len)) == n % Pow256(len)
  {
    if len > 0 {
      ValueOfBigEndian(n / 256, len - 1);
      assert BigEndian(n, len)[..len - 1] == BigEndian(n / 256, len - 1);
      ModStep(n, 256, Pow256(len - 1));
    }
  }

  /** The remainder modulo a product, digit by digit. */
  lemma ModStep(n: nat, b: nat, p: nat)
    requires b > 0 && p > 0
    ensures n % (b * p) == b * ((n / b) % p) + n % b
    ensures n / (b * p) == n / b / p
  {
    var m, q, r := n / b, n / b / p, n / b % p;
    assert n == (b * p) * q + (b * r + n % b) by {
      assert n == b * m + n % b && m == p * q + r;
      MulDistributes(b, p * q, r);
      MulAssociates(b, p, q);
    }
    assert b * r + n % b < b * p by {
      MulMonotonic(b, r + 1, p);
      MulDistributes(b, r, 1);
    }
    DivModUnique(n, b * p, q, b * r + n % b);
  }

  lemma MulDistributes(a: int, x: int, y: int)
    ensures a * (x + y) == a * x + a * y
  {
  }

  lemma MulAssociates(a: int, x: int, y: int)
    ensures a * (x * y) == (a * x) * y
  {
  }

  lemma MulMonotonic(a: nat, x: int, y: int)
    requires x <= y
    ensures a * x <= a * y
  {
  }

  lemma MulAtLeast(d: int, k: int)
    requires d > 0 && k >= 1
    ensures d * k >= d
  {
  }

  /** Quotient and remainder are unique. */
  lemma DivModUnique(n: int, d: int, q: int, r: int)
    requires d > 0 && 0 <= r < d && n == d * q + r
    ensures n / d == q && n % d == r
  {
    var k := n / d - q;
    assert d * k == r - n % d by {
      assert n == d * (n / d) + n % d;
    }
    if k >= 1 {
      MulAtLeast(d, k);
    } else if k <= -1 {
      MulAtLeast(d, -k);
    }
  }

  lemma {:induction false} BigEndianOfValue(s: seq<byte>)
    ensures BigEndian(BigEndianValue(s), |s|) == s
  {
    if s != [] {
      BigEndianOfValue(s[..|s| - 1]);
    }
  }

  /** Byte `i` of the big-endian form is the number shifted right to it. */
  lemma {:induction false} BigEndianAt(n: nat, len: nat, i: nat)
    requires i < len
    ensures BigEndian(n, len)[i] == n / Pow256(len - 1 - i) % 256
  {
    if i < len - 1 {
      BigEndianAt(n / 256, len - 1, i);
      ModStep(n, 256, Pow256(len - 2 - i));
    }
  }

  /** Only the part that fits is written. */
  lemma BigEndianWraps(n: nat, len: nat)
    ensures BigEndian(n % Pow256(len), len) == BigEndian(n, len)
  {
    ValueOfBigEndian(n, len);
    BigEndianOfValue(BigEndian(n, len));
  }

  /** The truncated product keeps the low part, moved up. */
  lemma ShiftedPart(x: nat, p: nat, q: nat)
    requires p > 0 && q > 0
    ensures x * p % (p * q) == p * (x % q)
  {
    var a, b := x / q, x % q;
    assert x * p == (p * q) * a + p * b by {
      assert x == q * a + b;
      MulDistributes(p, q * a, b);
      MulAssociates(p, q, a);
    }
    assert p * b < p * q by {
      MulMonotonic(p, b + 1, q);
      MulDistributes(p, b, 1);
    }
    DivModUnique(x * p, p * q, a, p * b);
  }

  function Quotient(x: nat, p: nat): (q: nat)
    requires p > 0
  {
    x / p
  }

  lemma SmallMod(x: nat, p: nat)
    requires x < p
    ensures x % p == x && x / p == 0
  {
  }

  lemma ModNext(n: nat, p: nat)
    requires p > 0
    ensures (n % p + 1) % p == (n + 1) % p
  {
    var q, r := n / p, n % p;
    assert n == p * q + r;
    if r + 1 < p {
      DivModUnique(n + 1, p, q, r + 1);
      DivModUnique(r + 1, p, 0, r + 1);
    } else {
      MulDistributes(p, q, 1);
      DivModUnique(n + 1, p, q + 1, 0);
      DivModUnique(p, p, 1, 0);
    }
  }

  /** Counting on the written bytes is counting on the number. */
  lemma BigEndianNext(n: nat, len: nat)
    ensures BigEndian(BigEndianValue(BigEndian(n, len)) + 1, len) == BigEndian(n + 1, len)
  {
    ValueOfBigEndian(n, len);
    BigEndianWraps(n % Pow256(len) + 1, len);
    BigEndianWraps(n + 1, len);
    ModNext(n, Pow256(len));
  }

  /** Numbers that fit are determined by their bytes. */
  lemma BigEndianInjective(m: nat, n: nat, len: nat)
    requires m < Pow256(len) && n < Pow256(len)
    requires BigEndian(m, len) == BigEndian(n, len)
    ensures m == n
  {
    ValueOfBigEndian(m, len);
    ValueOfBigEndian(n, len);
    DivModUnique(m, Pow256(len), 0, m);
    DivModUnique(n, Pow256(len), 0, n);
  }

  /** A 64-bit length in bits, written byte by byte from the top. */
  method PutLength(out: array<byte>, at: nat, len: nat)
    requires at + 8 <= out.Length
    modifies out
    ensures out[..at + 8] == old(out[..at]) + BigEndian(8 * len, 8)
  {
    var bits := Wrap64(len * 8);
    assert BigEndian(bits, 8) == BigEndian(8 * len, 8) by {
      assert Pow256(8) == 0x1_0000_0000_0000_0000;
      BigEndianWraps(8 * len, 8);
    }
    ghost var before, b := out[..], BigEndian(bits, 8);
    hide BigEndian, Pow256, Wrap64;
    for i := 0 to 8
      invariant forall j :: 0 <= j < at ==> out[j] == before[j]
      invariant forall j :: at <= j < at + i ==> out[j] == b[j - at]
      invariant forall j :: at + i <= j < out.Length ==> out[j] == before[j]
    {
      BigEndianAt(bits, 8, i);
      out[at + i] := Quotient(bits, Pow256(7 - i)) % 256;
    }
  }

  // ---------------------------------------------------------------- little-endian numbers

  function LittleValue(s: seq<byte>): nat
  {
    if s == [] then 0 else s[0] + 256 * LittleValue(s[1..])
  }

  /** Dividing by a power of 256 drops low bytes. */
  lemma {:induction false} DropLowBytes(s: seq<byte>, n: nat)
    requires n <= |s|
    ensures LittleValue(s) / Pow256(n) == LittleValue(s[n..])
  {
    if n > 0 {
      DropLowBytes(s[1..], n - 1);
      assert s[1..][n - 1..] == s[n..];
      ModStep(LittleValue(s), 256, Pow256(n - 1));
    } else {
      assert s[0..] == s;
    }
  }

  /** The remainder modulo a power of 256 keeps low bytes. */
  lemma {:induction false} KeepLowBytes(s: seq<byte>, n: nat)
    requires n <= |s|
    ensures LittleValue(s) % Pow256(n) == LittleValue(s[..n])
  {
    if n > 0 {
      KeepLowBytes(s[1..], n - 1);
      assert s[1..][..n - 1] == s[..n][1..];
      var v := LittleValue(s[1..]);
      assert LittleValue(s) == s[0] + 256 * v && LittleValue(s[..n]) == s[0] + 256 * LittleValue(s[..n][1..]);
      assert Pow256(n) == 256 * Pow256(n - 1);
      hide LittleValue, Pow256;
      DivModUnique(s[0] + 256 * v, 256, v, s[0]);
      ModStep(s[0] + 256 * v, 256, Pow256(n - 1));
    }
  }
}
