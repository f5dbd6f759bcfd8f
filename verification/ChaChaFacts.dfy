/** ChaCha20 pinned down: a quarter round by example, the words it takes, the layout of a block, one stream for key and text. */
module ChaChaFacts {
  import opened Bytes
  import ChaCha20
  import ChaChaPoly
  import Poly1305

  // ---------------------------------------------------------------- exclusive or on hexadecimal digits

  /** Two digits below 16, each with its half, quarter and eighth. */
  lemma DigitXor(x: nat, y: nat, x1: nat, y1: nat, x2: nat, y2: nat, x3: nat, y3: nat)
    requires x / 2 == x1 && y / 2 == y1 && x1 / 2 == x2 && y1 / 2 == y2 && x2 / 2 == x3 && y2 / 2 == y3 && x3 / 2 == y3 / 2 == 0
    ensures Xor(x, y) == (x + y) % 2 + 2 * ((x1 + y1) % 2) + 4 * ((x2 + y2) % 2) + 8 * ((x3 + y3) % 2)
  {
    hide Xor;
    XorStep(x, y);
    XorStep(x1, y1);
    XorStep(x2, y2);
    XorStep(x3, y3);
    XorZero(0);
  }

  /** From the upper and the lower `k` bits. */
  lemma Joined(a: nat, b: nat, k: nat, p: nat, x: nat, y: nat, z: nat, u: nat, v: nat, w: nat)
    requires p == Pow2(k) && u < p && v < p && Xor(x, y) == z && Xor(u, v) == w
    requires a == p * x + u && b == p * y + v
    ensures Xor(a, b) == p * z + w
  {
    hide Xor, Pow2;
    XorParts(x, y, u, v, k);
  }

  lemma DigitPowers()
    ensures Pow2(4) == 16 && Pow2(8) == 0x100 && Pow2(16) == 0x1_0000
  {
    assert Pow2(4) == 16 && Pow2(8) == 0x100;
    Pow2Sum(8, 8);
  }

  lemma RotlIs(x: ChaCha20.Word, n: nat, p: nat, q: nat)
    requires n <= 32 && p == Pow2(n) && q == Pow2(32 - n) && p * q == 0x1_0000_0000
    ensures ChaCha20.Rotl(x, n) == x * p % 0x1_0000_0000 + x / q
  {
  }

  lemma TurnPowers()
    ensures Pow2(16) == 0x1_0000 && Pow2(12) == 0x1000 && Pow2(20) == 0x10_0000
    ensures Pow2(8) == 0x100 && Pow2(24) == 0x100_0000 && Pow2(7) == 0x80 && Pow2(25) == 0x200_0000
  {
    assert Pow2(8) == 0x100 && Pow2(7) == 0x80 && Pow2(4) == 0x10;
    Pow2Sum(8, 8);
    Pow2Sum(8, 4);
    Pow2Sum(16, 4);
    Pow2Sum(16, 8);
    Pow2Sum(24, 1);
  }

  lemma FirstHigh()
    ensures Xor(0x123, 0x1213) == 0x1330
  {
    hide *;
    DigitPowers();
    DigitXor(0, 1, 0, 0, 0, 0, 0, 0);
    DigitXor(1, 2, 0, 1, 0, 0, 0, 0);
    DigitXor(2, 1, 1, 0, 0, 0, 0, 0);
    DigitXor(3, 3, 1, 1, 0, 0, 0, 0);
    Joined(0x1, 0x12, 4, 0x10, 0x0, 0x1, 0x1, 0x1, 0x2, 0x3);
    Joined(0x23, 0x13, 4, 0x10, 0x2, 0x1, 0x3, 0x3, 0x3, 0x0);
    Joined(0x123, 0x1213, 8, 0x100, 0x1, 0x12, 0x13, 0x23, 0x13, 0x30);
  }

  lemma FirstLow()
    ensures Xor(0x4567, 0x1415) == 0x5172
  {
    hide *;
    DigitPowers();
    DigitXor(4, 1, 2, 0, 1, 0, 0, 0);
    DigitXor(5, 4, 2, 2, 1, 1, 0, 0);
    DigitXor(6, 1, 3, 0, 1, 0, 0, 0);
    DigitXor(7, 5, 3, 2, 1, 1, 0, 0);
    Joined(0x45, 0x14, 4, 0x10, 0x4, 0x1, 0x5, 0x5, 0x4, 0x1);
    Joined(0x67, 0x15, 4, 0x10, 0x6, 0x1, 0x7, 0x7, 0x5, 0x2);
    Joined(0x4567, 0x1415, 8, 0x100, 0x45, 0x14, 0x51, 0x67, 0x15, 0x72);
  }

  lemma FirstXor()
    ensures Xor(0x01234567, 0x12131415) == 0x13305172
  {
    hide *;
    DigitPowers();
    FirstHigh();
    FirstLow();
    Joined(0x1234567, 0x12131415, 16, 0x10000, 0x123, 0x1213, 0x1330, 0x4567, 0x1415, 0x5172);
  }

  lemma SecondHigh()
    ensures Xor(0x102, 0xecff) == 0xedfd
  {
    hide *;
    DigitPowers();
    DigitXor(0, 14, 0, 7, 0, 3, 0, 1);
    DigitXor(1, 12, 0, 6, 0, 3, 0, 1);
    DigitXor(0, 15, 0, 7, 0, 3, 0, 1);
    DigitXor(2, 15, 1, 7, 0, 3, 0, 1);
    Joined(0x1, 0xec, 4, 0x10, 0x0, 0xe, 0xe, 0x1, 0xc, 0xd);
    Joined(0x2, 0xff, 4, 0x10, 0x0, 0xf, 0xf, 0x2, 0xf, 0xd);
    Joined(0x102, 0xecff, 8, 0x100, 0x1, 0xec, 0xed, 0x2, 0xff, 0xfd);
  }

  lemma SecondLow()
    ensures Xor(0x304, 0x8273) == 0x8177
  {
    hide *;
    DigitPowers();
    DigitXor(0, 8, 0, 4, 0, 2, 0, 1);
    DigitXor(3, 2, 1, 1, 0, 0, 0, 0);
    DigitXor(0, 7, 0, 3, 0, 1, 0, 0);
    DigitXor(4, 3, 2, 1, 1, 0, 0, 0);
    Joined(0x3, 0x82, 4, 0x10, 0x0, 0x8, 0x8, 0x3, 0x2, 0x1);
    Joined(0x4, 0x73, 4, 0x10, 0x0, 0x7, 0x7, 0x4, 0x3, 0x7);
    Joined(0x304, 0x8273, 8, 0x100, 0x3, 0x82, 0x81, 0x4, 0x73, 0x77);
  }

  lemma SecondXor()
    ensures Xor(0x01020304, 0xecff8273) == 0xedfd8177
  {
    hide *;
    DigitPowers();
    SecondHigh();
    SecondLow();
    Joined(0x1020304, 0xecff8273, 16, 0x10000, 0x102, 0xecff, 0xedfd, 0x304, 0x8273, 0x8177);
  }

  lemma ThirdHigh()
    ensures Xor(0x5172, 0xea2a) == 0xbb58
  {
    hide *;
    DigitPowers();
    DigitXor(5, 14, 2, 7, 1, 3, 0, 1);
    DigitXor(1, 10, 0, 5, 0, 2, 0, 1);
    DigitXor(7, 2, 3, 1, 1, 0, 0, 0);
    DigitXor(2, 10, 1, 5, 0, 2, 0, 1);
    Joined(0x51, 0xea, 4, 0x10, 0x5, 0xe, 0xb, 0x1, 0xa, 0xb);
    Joined(0x72, 0x2a, 4, 0x10, 0x7, 0x2, 0x5, 0x2, 0xa, 0x8);
    Joined(0x5172, 0xea2a, 8, 0x100, 0x51, 0xea, 0xbb, 0x72, 0x2a, 0x58);
  }

  lemma ThirdLow()
    ensures Xor(0x1330, 0x92f4) == 0x81c4
  {
    hide *;
    DigitPowers();
    DigitXor(1, 9, 0, 4, 0, 2, 0, 1);
    DigitXor(3, 2, 1, 1, 0, 0, 0, 0);
    DigitXor(3, 15, 1, 7, 0, 3, 0, 1);
    DigitXor(0, 4, 0, 2, 0, 1, 0, 0);
    Joined(0x13, 0x92, 4, 0x10, 0x1, 0x9, 0x8, 0x3, 0x2, 0x1);
    Joined(0x30, 0xf4, 4, 0x10, 0x3, 0xf, 0xc, 0x0, 0x4, 0x4);
    Joined(0x1330, 0x92f4, 8, 0x100, 0x13, 0x92, 0x81, 0x30, 0xf4, 0xc4);
  }

  lemma ThirdXor()
    ensures Xor(0x51721330, 0xea2a92f4) == 0xbb5881c4
  {
    hide *;
    DigitPowers();
    ThirdHigh();
    ThirdLow();
    Joined(0x51721330, 0xea2a92f4, 16, 0x10000, 0x5172, 0xea2a, 0xbb58, 0x1330, 0x92f4, 0x81c4);
  }

  lemma FourthHigh()
    ensures Xor(0xd817, 0x4581) == 0x9d96
  {
    hide *;
    DigitPowers();
    DigitXor(13, 4, 6, 2, 3, 1, 1, 0);
    DigitXor(8, 5, 4, 2, 2, 1, 1, 0);
    DigitXor(1, 8, 0, 4, 0, 2, 0, 1);
    DigitXor(7, 1, 3, 0, 1, 0, 0, 0);
    Joined(0xd8, 0x45, 4, 0x10, 0xd, 0x4, 0x9, 0x8, 0x5, 0xd);
    Joined(0x17, 0x81, 4, 0x10, 0x1, 0x8, 0x9, 0x7, 0x1, 0x6);
    Joined(0xd817, 0x4581, 8, 0x100, 0xd8, 0x45, 0x9d, 0x17, 0x81, 0x96);
  }

  lemma FourthLow()
    ensures Xor(0x7edf, 0x472e) == 0x39f1
  {
    hide *;
    DigitPowers();
    DigitXor(7, 4, 3, 2, 1, 1, 0, 0);
    DigitXor(14, 7, 7, 3, 3, 1, 1, 0);
    DigitXor(13, 2, 6, 1, 3, 0, 1, 0);
    DigitXor(15, 14, 7, 7, 3, 3, 1, 1);
    Joined(0x7e, 0x47, 4, 0x10, 0x7, 0x4, 0x3, 0xe, 0x7, 0x9);
    Joined(0xdf, 0x2e, 4, 0x10, 0xd, 0x2, 0xf, 0xf, 0xe, 0x1);
    Joined(0x7edf, 0x472e, 8, 0x100, 0x7e, 0x47, 0x39, 0xdf, 0x2e, 0xf1);
  }

  lemma FourthXor()
    ensures Xor(0xd8177edf, 0x4581472e) == 0x9d9639f1
  {
    hide *;
    DigitPowers();
    FourthHigh();
    FourthLow();
    Joined(0xd8177edf, 0x4581472e, 16, 0x10000, 0xd817, 0x4581, 0x9d96, 0x7edf, 0x472e, 0x39f1);
  }

  lemma ExampleSums()
    ensures ChaCha20.Plus(0x11111111, 0x01020304) == 0x12131415
    ensures ChaCha20.Plus(0x9b8d6f43, 0x51721330) == 0xecff8273
    ensures ChaCha20.Plus(0x12131415, 0xd8177edf) == 0xea2a92f4
    ensures ChaCha20.Plus(0xecff8273, 0x5881c4bb) == 0x4581472e
  {
  }

  lemma ExampleRotations()
    ensures ChaCha20.Rotl(0x13305172, 16) == 0x51721330
    ensures ChaCha20.Rotl(0xedfd8177, 12) == 0xd8177edf
    ensures ChaCha20.Rotl(0xbb5881c4, 8) == 0x5881c4bb
    ensures ChaCha20.Rotl(0x9d9639f1, 7) == 0xcb1cf8ce
  {
    TurnPowers();
    RotlIs(0x13305172, 16, 0x10000, 0x10000);
    RotlIs(0xedfd8177, 12, 0x1000, 0x100000);
    RotlIs(0xbb5881c4, 8, 0x100, 0x1000000);
    RotlIs(0x9d9639f1, 7, 0x80, 0x2000000);
  }

  /** The example of section 2.1.1 of RFC 8439. */
  lemma QuarterRoundExample()
    ensures ChaCha20.QuarterRound(ChaCha20.Quad(0x11111111, 0x01020304, 0x9b8d6f43, 0x01234567))
         == ChaCha20.Quad(0xea2a92f4, 0xcb1cf8ce, 0x4581472e, 0x5881c4bb)
  {
    ExampleSums();
    ExampleRotations();
    FirstXor();
    SecondXor();
    ThirdXor();
    FourthXor();
    hide Xor, ChaCha20.Plus, ChaCha20.Rotl;
  }

  // ---------------------------------------------------------------- rounds and blocks

  /** The words each of eight quarter rounds takes: columns, then diagonals (section 2.3 of RFC 8439). */
  lemma ColumnTable(k: nat, a: nat, b: nat, c: nat, d: nat)
    requires k < 8
    requires (a, b, c, d) == [(0, 4, 8, 12), (1, 5, 9, 13), (2, 6, 10, 14), (3, 7, 11, 15),
                              (0, 5, 10, 15), (1, 6, 11, 12), (2, 7, 8, 13), (3, 4, 9, 14)][k]
    ensures ChaCha20.Column(k, 0) == a && ChaCha20.Column(k, 1) == b && ChaCha20.Column(k, 2) == c && ChaCha20.Column(k, 3) == d
  {
    assert k == 0 || k == 1 || k == 2 || k == 3 || k == 4 || k == 5 || k == 6 || k == 7;
  }

  /** Quarter round `n` replaces these four words and no other. */
  lemma RoundTakes(s: ChaCha20.Words16, n: nat, a: nat, b: nat, c: nat, d: nat)
    requires (a, b, c, d) == [(0, 4, 8, 12), (1, 5, 9, 13), (2, 6, 10, 14), (3, 7, 11, 15),
                              (0, 5, 10, 15), (1, 6, 11, 12), (2, 7, 8, 13), (3, 4, 9, 14)][n % 8]
    ensures a < 16 && b < 16 && c < 16 && d < 16
    ensures var t := ChaCha20.Rounds(s, n);
            var q := ChaCha20.QuarterRound(ChaCha20.Quad(t[a], t[b], t[c], t[d]));
            ChaCha20.Rounds(s, n + 1) == t[a := q.a][b := q.b][c := q.c][d := q.d]
  {
    ColumnTable(n % 8, a, b, c, d);
    NextRound(s, n);
    hide ChaCha20.QuarterRound, ChaCha20.Rounds, ChaCha20.Column;
  }

  lemma NextRound(s: ChaCha20.Words16, n: nat)
    ensures var t := ChaCha20.Rounds(s, n);
            ChaCha20.Rounds(s, n + 1) == ChaCha20.WithQuad(t, n % 8, ChaCha20.QuarterRound(ChaCha20.QuadAt(t, n % 8)))
  {
    hide ChaCha20.QuarterRound, ChaCha20.WithQuad, ChaCha20.QuadAt;
  }

  /** The words a block starts from: constants, key, counter, nonce. */
  lemma StartWords(key: seq<byte>, nonce: seq<byte>, counter: uint32)
    requires |key| >= 32 && |nonce| >= 12
    ensures var s := ChaCha20.Start(key, nonce, counter);
            && s[0] == 0x61707865 && s[1] == 0x3320646e && s[2] == 0x79622d32 && s[3] == 0x6b206574
            && (forall i :: 4 <= i < 12 ==> s[i] == Load32(key, 4 * (i - 4)))
            && s[12] == counter
            && (forall i :: 13 <= i < 16 ==> s[i] == Load32(nonce, 4 * (i - 13)))
  {
    hide Load32;
  }

  /** Word `i` of a block, read big-endian, is word `i` after eighty quarter rounds plus what it started as. */
  lemma BlockWords(key: seq<byte>, nonce: seq<byte>, counter: nat, i: nat, n: nat)
    requires |key| >= 32 && |nonce| >= 12 && i < 16 && n == 80
    ensures var s := ChaCha20.Start(key, nonce, counter);
            Load32(ChaCha20.Block(key, nonce, counter), 4 * i) == ((ChaCha20.Rounds(s, n)[i] as int) + s[i]) % 0x1_0000_0000
  {
    hide *;
    var s := ChaCha20.Start(key, nonce, counter);
    BlockIs(key, nonce, counter, n);
    WordReadBack(ChaCha20.Sums(ChaCha20.Rounds(s, n), s), i);
    SumsAt(ChaCha20.Rounds(s, n), s, i);
  }

  lemma BlockIs(key: seq<byte>, nonce: seq<byte>, counter: nat, n: nat)
    requires |key| >= 32 && |nonce| >= 12 && n == 80
    ensures var s := ChaCha20.Start(key, nonce, counter);
            ChaCha20.Block(key, nonce, counter) == BytesOfWords(ChaCha20.Sums(ChaCha20.Rounds(s, n), s))
  {
    hide BytesOfWords, ChaCha20.Sums, ChaCha20.Rounds, ChaCha20.Start;
  }

  lemma SumsAt(t: ChaCha20.Words16, s: ChaCha20.Words16, i: nat)
    requires i < 16
    ensures ChaCha20.Sums(t, s)[i] == ((t[i] as int) + s[i]) % 0x1_0000_0000
  {
  }

  lemma {:induction false} WordReadBack(w: seq<uint32>, i: nat)
    requires i < |w|
    ensures Load32(BytesOfWords(w), 4 * i) == w[i]
  {
    hide BigEndian;
    var n := |w| - 1;
    var front, last := BytesOfWords(w[..n]), BigEndian(w[n], 4);
    assert BytesOfWords(w) == front + last;
    if i == n {
      assert (front + last)[4 * i..4 * i + 4] == last;
      ValueOfBigEndian(w[n], 4);
      assert Pow256(4) == 0x1_0000_0000;
    } else {
      WordReadBack(w[..n], i);
      assert (front + last)[4 * i..4 * i + 4] == front[4 * i..4 * i + 4];
    }
  }

  // ---------------------------------------------------------------- one stream for key and text

  /**
   The pair of section 2.8 of RFC 8439 in one statement: run the stream from block 0 over 64 zero
   bytes and the plaintext; its first 32 bytes are the tag's key, from byte 64 on it is the
   ciphertext, and the tag is over additional data, ciphertext and both lengths in bits.
   */
  lemma OneStream(key: seq<byte>, iv: seq<byte>, aad: seq<byte>, pt: seq<byte>)
    requires |key| >= 32 && |iv| >= 12
    ensures var s := ChaCha20.Xored(key, iv, 0, Zeros(64) + pt);
            var ct := s[64..];
            ChaChaPoly.Seal(key, iv, aad, pt)
            == ChaChaPoly.Sealed(ct, Poly1305.Tag(s[..32], aad + ct + BigEndian(8 * |aad|, 8) + BigEndian(8 * |ct|, 8)))
  {
    hide *;
    var s := ChaCha20.Xored(key, iv, 0, Zeros(64) + pt);
    var block, ct := ChaCha20.Block(key, iv, 0), ChaCha20.Xored(key, iv, 1, pt);
    StreamParts(key, iv, pt);
    assert s == block + ct && s[64..] == ct && s[..32] == block[..32];
    Sealing(key, iv, aad, pt);
    KeyBytes(block, aad + ct + BigEndian(8 * |aad|, 8) + BigEndian(8 * |ct|, 8));
  }

  lemma StreamParts(key: seq<byte>, iv: seq<byte>, pt: seq<byte>)
    requires |key| >= 32 && |iv| >= 12
    ensures ChaCha20.Xored(key, iv, 0, Zeros(64) + pt) == ChaCha20.Block(key, iv, 0) + ChaCha20.Xored(key, iv, 1, pt)
  {
    hide *;
    FirstBlock(key, iv);
    ChaCha20.XoredSplits(key, iv, 0, Zeros(64), pt);
  }

  lemma FirstBlock(key: seq<byte>, iv: seq<byte>)
    requires |key| >= 32 && |iv| >= 12
    ensures ChaCha20.Xored(key, iv, 0, Zeros(64)) == ChaCha20.Block(key, iv, 0)
    ensures ChaCha20.NextCounter(0, 1) == 1 && |Zeros(64)| == 64
  {
    hide ChaCha20.Block, Xor;
    var block := ChaCha20.Block(key, iv, 0);
    forall i | 0 <= i < 64
      ensures ChaCha20.Xored(key, iv, 0, Zeros(64))[i] == block[i]
    {
      XorCommutes(0, block[i]);
      XorZero(block[i]);
    }
  }

  lemma Sealing(key: seq<byte>, iv: seq<byte>, aad: seq<byte>, pt: seq<byte>)
    requires |key| >= 32 && |iv| >= 12
    ensures var ct := ChaCha20.Xored(key, iv, 1, pt);
            ChaChaPoly.Seal(key, iv, aad, pt)
            == ChaChaPoly.Sealed(ct, Poly1305.Tag(ChaCha20.Block(key, iv, 0), aad + ct + BigEndian(8 * |aad|, 8) + BigEndian(8 * |ct|, 8)))
  {
    hide ChaCha20.Block, ChaCha20.Xored, Poly1305.Tag, BigEndian;
  }

  lemma KeyBytes(block: seq<byte>, data: seq<byte>)
    requires |block| >= 32
    ensures Poly1305.Tag(block, data) == Poly1305.Tag(block[..32], data)
  {
    hide Poly1305.Mul, Poly1305.Masked, Poly1305.AbsorbedAll, Poly1305.SumBytes;
    assert block[..32][..16] == block[..16] && block[..32][16..32] == block[16..32];
  }
}
