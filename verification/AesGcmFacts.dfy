/** What the ciphertext and the tag of AesGcm consist of, byte by byte, and which bytes the tag sees. */
module AesGcmFacts {
  import opened Bytes
  import opened AesGcm

  // ---------------------------------------------------------------- the ciphertext

  /** Each byte is masked with the key, the iv and a 32-bit block number counted from one. */
  lemma CtrBytes(key: seq<byte>, iv: seq<byte>, data: seq<byte>, i: nat)
    requires |key| >= 16 && |iv| >= 12 && i < |data|
    ensures var j := i % 16;
            Ctr(key, iv, data)[i]
            == XorByte(data[i], XorByte(key[j], if j < 12 then iv[j] else BigEndian(i / 16 + 1, 4)[j - 12]))
  {
    hide BigEndian, XorByte;
  }

  // ---------------------------------------------------------------- the tag

  function ByteOrZero(d: seq<byte>, i: nat): byte {
    if i < |d| then d[i] else 0
  }

  /** The exclusive or of every sixteenth byte, from the `j`-th on, of the first `n` blocks. */
  function Column(d: seq<byte>, j: nat, n: nat): byte {
    if n == 0 then 0 else XorByte(Column(d, j, n - 1), ByteOrZero(d, 16 * (n - 1) + j))
  }

  function Blocks(d: seq<byte>): nat { (|d| + 15) / 16 }

  /** The byte a partial last block keeps from the block before it. */
  function Stale(d: seq<byte>, j: nat): byte
    requires j < 16
  {
    var r := |d| % 16;
    if r != 0 && j >= r && |d| > 16 then d[|d| - r - 16 + j] else 0
  }

  lemma HashBlockByte(d: seq<byte>, k: nat, j: nat)
    requires 16 * k < |d| && j < 16
    ensures 16 * k + 16 <= |d| ==> HashBlock(d, k)[j] == ByteOrZero(d, 16 * k + j)
    ensures 16 * k + 16 > |d| ==> HashBlock(d, k)[j] == XorByte(ByteOrZero(d, 16 * k + j), Stale(d, j))
  {
    var i := 16 * k + j;
    XorByteLaws(ByteOrZero(d, i), 0, 0);
    if 16 * k + 16 > |d| {
      assert |d| % 16 == |d| - 16 * k;
      XorByteLaws(Stale(d, j), 0, 0);
    }
    hide XorByte;
  }

  /** While only full blocks are folded in. */
  lemma {:induction false} FullBlocks(h: seq<byte>, d: seq<byte>, n: nat, j: nat)
    requires |h| == 16 && 16 * n <= |d| && j < 16
    ensures GHash(h, d, n)[j] == XorByte(h[j], Column(d, j, n))
  {
    hide XorByte, HashBlock;
    if n == 0 {
      XorByteLaws(h[j], 0, 0);
    } else {
      FullBlocks(h, d, n - 1, j);
      HashBlockByte(d, n - 1, j);
      XorByteLaws(h[j], Column(d, j, n - 1), ByteOrZero(d, 16 * (n - 1) + j));
    }
  }

  /** Hashing adds a column of the data, and what a partial last block keeps, to each byte. */
  lemma GHashBytes(h: seq<byte>, d: seq<byte>, j: nat)
    requires |h| == 16 && j < 16
    ensures GHashAll(h, d)[j] == XorByte(XorByte(h[j], Column(d, j, Blocks(d))), Stale(d, j))
  {
    hide XorByte, HashBlock;
    var n := Blocks(d);
    if |d| % 16 == 0 {
      FullBlocks(h, d, n, j);
      XorByteLaws(XorByte(h[j], Column(d, j, n)), 0, 0);
    } else {
      var x, c, y, s := h[j], Column(d, j, n - 1), ByteOrZero(d, 16 * (n - 1) + j), Stale(d, j);
      FullBlocks(h, d, n - 1, j);
      HashBlockByte(d, n - 1, j);
      hide Stale, ByteOrZero;
      assert GHashAll(h, d)[j] == XorByte(XorByte(x, c), XorByte(y, s));
      XorByteLaws(XorByte(x, c), y, s);
      XorByteLaws(x, c, y);
    }
  }

  /** Hashing one full block adds it. */
  lemma GHashOneBlock(h: seq<byte>, d: seq<byte>, j: nat)
    requires |h| == 16 && |d| == 16 && j < 16
    ensures GHashAll(h, d)[j] == XorByte(h[j], d[j])
  {
    hide XorByte;
    GHashBytes(h, d, j);
    assert Blocks(d) == 1;
    assert Column(d, j, 1) == XorByte(Column(d, j, 0), d[j]);
    XorByteLaws(d[j], 0, 0);
    XorByteLaws(XorByte(h[j], d[j]), 0, 0);
  }

  /** The lengths in bits, 32 bits each. */
  function LengthByte(aadLen: nat, n: nat, j: nat): byte
    requires j < 16
  {
    if j < 4 then BigEndian(8 * aadLen, 4)[j] else if j < 8 then BigEndian(8 * n, 4)[j - 4] else 0
  }

  /** What is added to the ciphertext's part of a tag byte. */
  function Mask(key: seq<byte>, iv: seq<byte>, aadLen: nat, n: nat, j: nat): byte
    requires |key| >= 16 && |iv| >= 12 && j < 16
  {
    XorByte(LengthByte(aadLen, n, j), XorByte(key[j], if j < 12 then iv[j] else 0))
  }

  /** The ciphertext's part of a tag byte. */
  function CtPart(ct: seq<byte>, j: nat): byte
    requires j < 16
  {
    XorByte(Column(ct, j, Blocks(ct)), Stale(ct, j))
  }

  /**
   Every byte of the tag: additional data, every sixteenth byte of the ciphertext with what is
   left over from the last full block, lengths, key and iv.
   */
  lemma TagBytes(key: seq<byte>, iv: seq<byte>, aad: seq<byte>, aadLen: nat, ct: seq<byte>, j: nat)
    requires |key| >= 16 && |iv| >= 12 && j < 16
    ensures Tag(key, iv, aad, aadLen, ct)[j]
         == XorByte(XorByte(ByteOrZero(aad, j), CtPart(ct, j)), Mask(key, iv, aadLen, |ct|, j))
  {
    var a, c, s := ByteOrZero(aad, j), Column(ct, j, Blocks(ct)), Stale(ct, j);
    var l, k := LengthByte(aadLen, |ct|, j), XorByte(key[j], if j < 12 then iv[j] else 0);
    var h := AadHash(aad);
    assert h[j] == a by {
      AadBytes(aad, j);
    }
    GHashBytes(h, ct, j);
    GHashOneBlock(GHashAll(h, ct), LengthBlock(aadLen, |ct|), j);
    assert LengthBlock(aadLen, |ct|)[j] == l;
    assert AuthKey(key, iv)[j] == k;
    hide XorByte, Column, Stale, GHashAll, AadHash, LengthBlock, AuthKey, ByteOrZero, LengthByte;
    assert Tag(key, iv, aad, aadLen, ct)[j] == XorByte(XorByte(XorByte(XorByte(a, c), s), l), k);
    XorByteLaws(a, c, s);
    XorByteLaws(XorByte(a, XorByte(c, s)), l, k);
  }

  lemma AadBytes(aad: seq<byte>, j: nat)
    requires j < 16
    ensures AadHash(aad)[j] == ByteOrZero(aad, j)
  {
    hide XorByte;
    if |aad| > 0 {
      GHashOneBlock(Zeros(16), AadBlock(aad), j);
      XorByteLaws(AadBlock(aad)[j], 0, 0);
    }
  }

  // ---------------------------------------------------------------- which bytes the tag sees

  /** A byte of the last full block that the partial block after it takes in a second time. */
  predicate CancelsOut(n: nat, i: nat) {
    n % 16 != 0 && i / 16 + 1 == n / 16 && i % 16 >= n % 16
  }

  /** Changing a byte changes its column by the difference. */
  lemma {:induction false} ColumnChange(d: seq<byte>, i: nat, b: byte, j: nat, n: nat)
    requires i < |d| && j < 16
    ensures Column(d[i := b], j, n)
         == if i % 16 == j && i / 16 < n then XorByte(Column(d, j, n), XorByte(d[i], b)) else Column(d, j, n)
  {
    hide XorByte;
    if n > 0 {
      ColumnChange(d, i, b, j, n - 1);
      var c, p := Column(d, j, n - 1), 16 * (n - 1) + j;
      if p == i {
        assert i / 16 == n - 1 && i % 16 == j;
        XorByteLaws(c, d[i], XorByte(d[i], b));
        XorByteLaws(d[i], d[i], b);
        XorByteLaws(b, 0, 0);
        XorByteLaws(d[i], 0, 0);
      } else {
        assert i % 16 == j ==> i / 16 != n - 1;
        MoveLast(c, XorByte(d[i], b), ByteOrZero(d, p));
      }
    }
  }

  lemma MoveLast(x: byte, y: byte, z: byte)
    ensures XorByte(XorByte(x, y), z) == XorByte(XorByte(x, z), y)
  {
    XorByteLaws(x, y, z);
    XorByteLaws(y, z, 0);
    XorByteLaws(x, z, y);
    hide XorByte;
  }

  lemma StaleChange(d: seq<byte>, i: nat, b: byte, j: nat)
    requires i < |d| && j < 16
    ensures Stale(d[i := b], j)
         == if CancelsOut(|d|, i) && i % 16 == j then XorByte(Stale(d, j), XorByte(d[i], b)) else Stale(d, j)
  {
    hide XorByte;
    XorByteLaws(d[i], d[i], b);
    XorByteLaws(b, 0, 0);
    var r := |d| % 16;
    if r != 0 && j >= r && |d| > 16 && |d| - r - 16 + j == i {
      assert i / 16 + 1 == |d| / 16 && i % 16 == j;
    }
  }

  /** Changing a byte of the ciphertext changes the part of its column unless it cancels out. */
  lemma CtPartChange(ct: seq<byte>, i: nat, b: byte, j: nat)
    requires i < |ct| && j < 16
    ensures CtPart(ct[i := b], j)
         == if i % 16 == j && !CancelsOut(|ct|, i) then XorByte(CtPart(ct, j), XorByte(ct[i], b)) else CtPart(ct, j)
  {
    var n := Blocks(ct);
    assert i / 16 < n && Blocks(ct[i := b]) == n;
    ColumnChange(ct, i, b, j, n);
    StaleChange(ct, i, b, j);
    var c, s, x := Column(ct, j, n), Stale(ct, j), XorByte(ct[i], b);
    hide XorByte, Column, Stale, CancelsOut;
    MoveLast(c, x, s);
    XorByteLaws(XorByte(c, x), s, x);
    if i % 16 == j && CancelsOut(|ct|, i) {
      TwiceCancels(c, x, s);
    }
  }

  lemma TwiceCancels(c: byte, x: byte, s: byte)
    ensures XorByte(XorByte(c, x), XorByte(s, x)) == XorByte(c, s)
  {
    XorByteLaws(s, x, 0);
    XorByteLaws(XorByte(c, x), x, s);
    XorByteLaws(c, x, x);
    XorByteLaws(x, 0, 0);
    XorByteLaws(c, 0, 0);
    hide XorByte;
  }

  lemma DifferenceShows(x: byte, a: byte, b: byte)
    ensures XorByte(x, XorByte(a, b)) == x <==> a == b
  {
    XorByteLaws(a, a, b);
    XorByteLaws(a, b, b);
    XorByteLaws(a, 0, 0);
    XorByteLaws(b, 0, 0);
    XorByteLaws(x, x, XorByte(a, b));
    XorByteLaws(x, 0, 0);
    XorByteLaws(XorByte(a, b), 0, 0);
    hide XorByte;
  }

  /** Equal masks keep equality and difference. */
  lemma SameMask(x: byte, y: byte, m: byte)
    ensures XorByte(x, m) == XorByte(y, m) <==> x == y
    ensures XorByte(m, x) == XorByte(m, y) <==> x == y
  {
    if XorByte(x, m) == XorByte(y, m) {
      XorByteInjective(m, x, y);
    }
    if XorByte(m, x) == XorByte(m, y) {
      XorByteInjective(m, x, y);
    }
  }

  /** Two tags with equal additional data and lengths differ exactly where the ciphertexts' parts do. */
  lemma TagsDiffer(key: seq<byte>, iv: seq<byte>, aad: seq<byte>, aadLen: nat, ct: seq<byte>, ct': seq<byte>, j: nat)
    requires |key| >= 16 && |iv| >= 12 && j < 16 && |ct| == |ct'|
    ensures Tag(key, iv, aad, aadLen, ct)[j] == Tag(key, iv, aad, aadLen, ct')[j] <==> CtPart(ct, j) == CtPart(ct', j)
  {
    TagBytes(key, iv, aad, aadLen, ct, j);
    TagBytes(key, iv, aad, aadLen, ct', j);
    hide XorByte, CtPart, Tag, Mask;
    var a, m := ByteOrZero(aad, j), Mask(key, iv, aadLen, |ct|, j);
    SameMask(XorByte(a, CtPart(ct, j)), XorByte(a, CtPart(ct', j)), m);
    SameMask(CtPart(ct, j), CtPart(ct', j), a);
  }

  /**
   Changing one byte of the ciphertext changes the tag, unless the byte lies in the last full block
   at a position the partial block after it does not reach: that byte is folded in twice.
   */
  lemma TagSeesCiphertext(key: seq<byte>, iv: seq<byte>, aad: seq<byte>, aadLen: nat, ct: seq<byte>, i: nat, b: byte)
    requires |key| >= 16 && |iv| >= 12 && i < |ct| && b != ct[i]
    ensures Tag(key, iv, aad, aadLen, ct[i := b]) != Tag(key, iv, aad, aadLen, ct)
       <==> !(|ct| % 16 != 0 && i / 16 == |ct| / 16 - 1 && i % 16 >= |ct| % 16)
  {
    hide Tag, CtPart, XorByte;
    var t, t' := Tag(key, iv, aad, aadLen, ct), Tag(key, iv, aad, aadLen, ct[i := b]);
    forall j | 0 <= j < 16
      ensures t'[j] == t[j] <==> CtPart(ct[i := b], j) == CtPart(ct, j)
    {
      TagsDiffer(key, iv, aad, aadLen, ct[i := b], ct, j);
    }
    forall j | 0 <= j < 16
      ensures CtPart(ct[i := b], j) == CtPart(ct, j) <==> (j != i % 16 || CancelsOut(|ct|, i))
    {
      CtPartChange(ct, i, b, j);
      DifferenceShows(CtPart(ct, j), ct[i], b);
    }
    var j := i % 16;
    assert t'[j] == t[j] <==> CancelsOut(|ct|, i);
    if CancelsOut(|ct|, i) {
      assert t' == t;
    }
  }

  /** One byte of every 17-byte ciphertext after the first can be anything. */
  lemma SecondOfSeventeenUnseen(key: seq<byte>, iv: seq<byte>, aad: seq<byte>, aadLen: nat, ct: seq<byte>, b: byte)
    requires |key| >= 16 && |iv| >= 12 && |ct| == 17
    ensures Tag(key, iv, aad, aadLen, ct[1 := b]) == Tag(key, iv, aad, aadLen, ct)
  {
    hide Tag;
    if b == ct[1] {
      assert ct[1 := b] == ct;
    } else {
      TagSeesCiphertext(key, iv, aad, aadLen, ct, 1, b);
    }
  }

  /** The first sixteen bytes of additional data are seen, one by one; the others never are. */
  lemma TagSeesAad(key: seq<byte>, iv: seq<byte>, aad: seq<byte>, aadLen: nat, ct: seq<byte>, i: nat, b: byte)
    requires |key| >= 16 && |iv| >= 12 && i < |aad| && b != aad[i]
    ensures Tag(key, iv, aad[i := b], aadLen, ct) != Tag(key, iv, aad, aadLen, ct) <==> i < 16
  {
    hide Tag, CtPart, XorByte, Mask;
    var t, t' := Tag(key, iv, aad, aadLen, ct), Tag(key, iv, aad[i := b], aadLen, ct);
    forall j | 0 <= j < 16
      ensures t'[j] == t[j] <==> j != i
    {
      TagBytes(key, iv, aad, aadLen, ct, j);
      TagBytes(key, iv, aad[i := b], aadLen, ct, j);
      var c, m := CtPart(ct, j), Mask(key, iv, aadLen, |ct|, j);
      var x, y := ByteOrZero(aad[i := b], j), ByteOrZero(aad, j);
      SameMask(XorByte(x, c), XorByte(y, c), m);
      SameMask(x, y, c);
    }
    if i < 16 {
      assert t'[i] != t[i];
    } else {
      assert t' == t;
    }
  }

  lemma FourBytesTell(m: nat, n: nat)
    ensures BigEndian(8 * m, 4) == BigEndian(8 * n, 4) <==> m % 0x2000_0000 == n % 0x2000_0000
  {
    assert Pow256(4) == 0x1_0000_0000;
    ValueOfBigEndian(8 * m, 4);
    ValueOfBigEndian(8 * n, 4);
    BigEndianWraps(8 * m, 4);
    BigEndianWraps(8 * n, 4);
    hide BigEndian, BigEndianValue;
    EightTimes(m);
    EightTimes(n);
  }

  lemma EightTimes(m: nat)
    ensures 8 * m % 0x1_0000_0000 == 8 * (m % 0x2000_0000)
  {
  }

  /** The length of the additional data is seen modulo 2^29. */
  lemma TagSeesAadLength(key: seq<byte>, iv: seq<byte>, aad: seq<byte>, m: nat, n: nat, ct: seq<byte>)
    requires |key| >= 16 && |iv| >= 12
    ensures Tag(key, iv, aad, m, ct) == Tag(key, iv, aad, n, ct) <==> m % 0x2000_0000 == n % 0x2000_0000
  {
    hide Tag, CtPart, XorByte, BigEndian;
    var t, t' := Tag(key, iv, aad, m, ct), Tag(key, iv, aad, n, ct);
    forall j | 0 <= j < 16
      ensures t[j] == t'[j] <==> LengthByte(m, |ct|, j) == LengthByte(n, |ct|, j)
    {
      TagBytes(key, iv, aad, m, ct, j);
      TagBytes(key, iv, aad, n, ct, j);
      SameMask(Mask(key, iv, m, |ct|, j), Mask(key, iv, n, |ct|, j), XorByte(ByteOrZero(aad, j), CtPart(ct, j)));
      SameMask(LengthByte(m, |ct|, j), LengthByte(n, |ct|, j), XorByte(key[j], if j < 12 then iv[j] else 0));
    }
    FourBytesTell(m, n);
    assert t == t' <==> BigEndian(8 * m, 4) == BigEndian(8 * n, 4) by {
      if BigEndian(8 * m, 4) == BigEndian(8 * n, 4) {
        assert t == t';
      }
      if t == t' {
        forall j | 0 <= j < 4
          ensures BigEndian(8 * m, 4)[j] == BigEndian(8 * n, 4)[j]
        {
          assert t[j] == t'[j];
        }
      }
    }
  }

  lemma {:induction false} ZeroColumn(n: nat, j: nat, k: nat)
    ensures Column(Zeros(n), j, k) == 0
  {
    if k > 0 {
      ZeroColumn(n, j, k - 1);
      XorByteLaws(0, 0, 0);
    }
  }

  lemma ZeroPart(n: nat, j: nat)
    requires j < 16
    ensures CtPart(Zeros(n), j) == 0
  {
    ZeroColumn(n, j, Blocks(Zeros(n)));
    XorByteLaws(0, 0, 0);
  }

  /** So is the length of the ciphertext: with nothing but zeros in it, the tag tells lengths apart modulo 2^29. */
  lemma TagSeesLength(key: seq<byte>, iv: seq<byte>, aad: seq<byte>, aadLen: nat, m: nat, n: nat)
    requires |key| >= 16 && |iv| >= 12
    ensures Tag(key, iv, aad, aadLen, Zeros(m)) == Tag(key, iv, aad, aadLen, Zeros(n)) <==> m % 0x2000_0000 == n % 0x2000_0000
  {
    hide Tag, CtPart, XorByte, BigEndian;
    var t, t' := Tag(key, iv, aad, aadLen, Zeros(m)), Tag(key, iv, aad, aadLen, Zeros(n));
    forall j | 0 <= j < 16
      ensures t[j] == t'[j] <==> LengthByte(aadLen, m, j) == LengthByte(aadLen, n, j)
    {
      ZeroPart(m, j);
      ZeroPart(n, j);
      TagBytes(key, iv, aad, aadLen, Zeros(m), j);
      TagBytes(key, iv, aad, aadLen, Zeros(n), j);
      SameMask(Mask(key, iv, aadLen, m, j), Mask(key, iv, aadLen, n, j), XorByte(ByteOrZero(aad, j), 0));
      SameMask(LengthByte(aadLen, m, j), LengthByte(aadLen, n, j), XorByte(key[j], if j < 12 then iv[j] else 0));
    }
    FourBytesTell(m, n);
    var x, y := BigEndian(8 * m, 4), BigEndian(8 * n, 4);
    if x == y {
      assert t == t';
    }
    if t == t' {
      forall j | 0 <= j < 4
        ensures x[j] == y[j]
      {
        assert t[j + 4] == t'[j + 4];
      }
    }
  }
}
