/**
 The ChaCha20 stream cipher: quarter rounds in place on sixteen words, blocks of key stream, and
 the exclusive or over data of any length.  Words are read and written big-endian, as coded.
 */
module ChaCha20 {
  import opened Bytes

  // ---------------------------------------------------------------- the quarter round

  type Word = uint32

  /** Addition modulo 2^32. */
  function Plus(x: Word, y: Word): Word { Wrap32(x + y) }

  function Minus(x: Word, y: Word): Word { Wrap32(x - y) }

  function XorWord(x: Word, y: Word): Word {
    Pow2Of32();
    XorBound(x, y, 32);
    Xor(x, y)
  }

  /** A word is its high and its low part; rotating swaps them. */
  lemma RotatedParts(x: nat, p: nat, q: nat)
    requires p > 0 && q > 0 && x < p * q
    ensures var y := x * p % (p * q) + x / q;
            y == p * (x % q) + x / q && y < p * q && y / p == x % q && y % p == x / q
  {
    var a, b := x / q, x % q;
    ShiftedPart(x, p, q);
    assert a < p by {
      if a >= p {
        MulMonotonic(q, p, a);
      }
    }
    assert p * b + a < p * q by {
      MulMonotonic(p, b + 1, q);
      MulDistributes(p, b, 1);
    }
    DivModUnique(p * b + a, p, b, a);
  }

  /** A word below p q rotated by a factor p: what is shifted out at the top comes in below. */
  function Rotated(x: nat, p: nat, q: nat): nat
    requires p > 0 && q > 0
  {
    x * p % (p * q) + x / q
  }

  lemma RotateAndBack(x: nat, p: nat, q: nat)
    requires p > 0 && q > 0 && x < p * q
    ensures Rotated(x, p, q) < p * q && Rotated(Rotated(x, p, q), q, p) == x
  {
    var y := Rotated(x, p, q);
    RotatedParts(x, p, q);
    ShiftedPart(y, q, p);
    assert x == q * (x / q) + x % q;
  }

  lemma PowersOfWord(n: nat)
    requires n <= 32
    ensures Pow2(n) * Pow2(32 - n) == 0x1_0000_0000
  {
    Pow2Of32();
    Pow2Sum(n, 32 - n);
  }

  /** A shift left by `n` bits multiplies by 2^n and the vacated bits take what fell out. */
  function Rotl(x: Word, n: nat): Word
    requires n <= 32
  {
    PowersOfWord(n);
    RotateAndBack(x, Pow2(n), Pow2(32 - n));
    Rotated(x, Pow2(n), Pow2(32 - n))
  }

  lemma RotationsUndo(x: Word, n: nat)
    requires n <= 32
    ensures Rotl(Rotl(x, n), 32 - n) == x
  {
    PowersOfWord(n);
    RotateAndBack(x, Pow2(n), Pow2(32 - n));
    hide Rotated, Pow2;
  }

  /** The four rotation amounts. */
  predicate IsTurn(n: nat) { n in {16, 12, 8, 7} }

  datatype Quad = Quad(a: Word, b: Word, c: Word, d: Word)

  /** Add into `a`, fold into `d`, rotate `d`. */
  function HalfAD(q: Quad, n: nat): Quad
    requires IsTurn(n)
  {
    var a := Plus(q.a, q.b);
    q.(a := a, d := Rotl(XorWord(q.d, a), n))
  }

  /** Add into `c`, fold into `b`, rotate `b`. */
  function HalfCB(q: Quad, n: nat): Quad
    requires IsTurn(n)
  {
    var c := Plus(q.c, q.d);
    q.(c := c, b := Rotl(XorWord(q.b, c), n))
  }

  function QuarterRound(q: Quad): Quad {
    HalfCB(HalfAD(HalfCB(HalfAD(q, 16), 12), 8), 7)
  }

  function UnHalfAD(q: Quad, n: nat): Quad
    requires IsTurn(n)
  {
    q.(a := Minus(q.a, q.b), d := XorWord(Rotl(q.d, 32 - n), q.a))
  }

  function UnHalfCB(q: Quad, n: nat): Quad
    requires IsTurn(n)
  {
    q.(c := Minus(q.c, q.d), b := XorWord(Rotl(q.b, 32 - n), q.c))
  }

  function UnQuarterRound(q: Quad): Quad {
    UnHalfAD(UnHalfCB(UnHalfAD(UnHalfCB(q, 7), 8), 12), 16)
  }

  lemma WordsUndo(x: Word, y: Word)
    ensures Minus(Plus(x, y), y) == x && Plus(Minus(x, y), y) == x
    ensures XorWord(XorWord(x, y), y) == x
  {
    SumUndo(x, y);
    XorUndo(x, y);
    hide Plus, Minus, Xor;
  }

  lemma SumUndo(x: Word, y: Word)
    ensures Minus(Plus(x, y), y) == x && Plus(Minus(x, y), y) == x
  {
    assert Plus(x, y) == if x + y < 0x1_0000_0000 then x + y else x + y - 0x1_0000_0000;
    assert Minus(x, y) == if x >= y then x - y else x - y + 0x1_0000_0000;
  }

  lemma HalvesUndo(q: Quad, n: nat)
    requires IsTurn(n)
    ensures UnHalfAD(HalfAD(q, n), n) == q && HalfAD(UnHalfAD(q, n), n) == q
    ensures UnHalfCB(HalfCB(q, n), n) == q && HalfCB(UnHalfCB(q, n), n) == q
  {
    hide Plus, Minus, XorWord, Rotl;
    RotationsUndo(XorWord(q.d, Plus(q.a, q.b)), n);
    WordsUndo(q.d, Plus(q.a, q.b));
    WordsUndo(q.a, q.b);
    RotationsUndo(q.d, 32 - n);
    WordsUndo(Rotl(q.d, 32 - n), q.a);
    RotationsUndo(XorWord(q.b, Plus(q.c, q.d)), n);
    WordsUndo(q.b, Plus(q.c, q.d));
    WordsUndo(q.c, q.d);
    RotationsUndo(q.b, 32 - n);
    WordsUndo(Rotl(q.b, 32 - n), q.c);
  }

  /** The quarter round is a bijection on four words. */
  lemma QuarterRoundUndo(q: Quad)
    ensures UnQuarterRound(QuarterRound(q)) == q && QuarterRound(UnQuarterRound(q)) == q
  {
    hide HalfAD, HalfCB, UnHalfAD, UnHalfCB;
    HalvesUndo(q, 16);
    HalvesUndo(HalfAD(q, 16), 12);
    HalvesUndo(HalfCB(HalfAD(q, 16), 12), 8);
    HalvesUndo(HalfAD(HalfCB(HalfAD(q, 16), 12), 8), 7);
    HalvesUndo(q, 7);
    HalvesUndo(UnHalfCB(q, 7), 8);
    HalvesUndo(UnHalfAD(UnHalfCB(q, 7), 8), 12);
    HalvesUndo(UnHalfCB(UnHalfAD(UnHalfCB(q, 7), 8), 12), 16);
  }

  // ---------------------------------------------------------------- ten double rounds

  type Words16 = s: seq<Word> | |s| == 16 witness seq(16, _ => 0)

  /** The row-1, row-2, row-3 columns of quarter round `k` of a double round: straight, then diagonal. */
  function Column(k: nat, row: nat): nat
    requires k < 8 && row < 4
  {
    if k < 4 then 4 * row + k else 4 * row + (k + row) % 4
  }

  function QuadAt(s: Words16, k: nat): Quad
    requires k < 8
  {
    Quad(s[Column(k, 0)], s[Column(k, 1)], s[Column(k, 2)], s[Column(k, 3)])
  }

  function WithQuad(s: Words16, k: nat, q: Quad): Words16
    requires k < 8
  {
    s[Column(k, 0) := q.a][Column(k, 1) := q.b][Column(k, 2) := q.c][Column(k, 3) := q.d]
  }

  /** The first `n` quarter rounds. */
  function Rounds(s: Words16, n: nat): Words16 {
    if n == 0 then s else
      var t := Rounds(s, n - 1);
      WithQuad(t, (n - 1) % 8, QuarterRound(QuadAt(t, (n - 1) % 8)))
  }

  /** The first `n` quarter rounds taken back, last one first. */
  function UnRounds(s: Words16, n: nat): Words16
    decreases n
  {
    if n == 0 then s else
      UnRounds(WithQuad(s, (n - 1) % 8, UnQuarterRound(QuadAt(s, (n - 1) % 8))), n - 1)
  }

  lemma QuadReplaced(s: Words16, k: nat, q: Quad)
    requires k < 8
    ensures QuadAt(WithQuad(s, k, q), k) == q
    ensures WithQuad(WithQuad(s, k, q), k, QuadAt(s, k)) == s
  {
  }

  /** Any number of quarter rounds, the eighty of the cipher included, is a bijection on sixteen words. */
  lemma {:induction false} RoundsUndo(s: Words16, n: nat)
    ensures UnRounds(Rounds(s, n), n) == s
    ensures Rounds(UnRounds(s, n), n) == s
    decreases n
  {
    hide QuarterRound, UnQuarterRound, QuadAt, WithQuad;
    if n > 0 {
      var k := (n - 1) % 8;
      var t := Rounds(s, n - 1);
      RoundsUndo(s, n - 1);
      QuadReplaced(t, k, QuarterRound(QuadAt(t, k)));
      QuarterRoundUndo(QuadAt(t, k));
      var u := WithQuad(s, k, UnQuarterRound(QuadAt(s, k)));
      RoundsUndo(u, n - 1);
      QuadReplaced(s, k, UnQuarterRound(QuadAt(s, k)));
      QuarterRoundUndo(QuadAt(s, k));
    }
  }

  // ---------------------------------------------------------------- the key stream

  function Loads(s: seq<byte>, n: nat): (r: seq<Word>)
    requires 4 * n <= |s|
    ensures |r| == n
  {
    seq(n, i requires 0 <= i < n => Load32(s, 4 * i))
  }

  const CONSTANTS: seq<Word> := [0x61707865, 0x3320646e, 0x79622d32, 0x6b206574]

  function Start(key: seq<byte>, nonce: seq<byte>, counter: nat): Words16
    requires |key| >= 32 && |nonce| >= 12
  {
    CONSTANTS + Loads(key, 8) + [Wrap32(counter)] + Loads(nonce, 3)
  }

  function Sums(s: Words16, t: Words16): Words16 {
    seq(16, i requires 0 <= i < 16 => Plus(s[i], t[i]))
  }

  /** chacha20_block on values. */
  function Block(key: seq<byte>, nonce: seq<byte>, counter: nat): (r: seq<byte>)
    requires |key| >= 32 && |nonce| >= 12
    ensures |r| == 64
  {
    BytesOfWords(Sums(Rounds(Start(key, nonce, counter), 80), Start(key, nonce, counter)))
  }

  /** No two counters share their mixed words. */
  lemma CounterReachesRounds(key: seq<byte>, nonce: seq<byte>, m: nat, n: nat)
    requires |key| >= 32 && |nonce| >= 12
    requires Rounds(Start(key, nonce, m), 80) == Rounds(Start(key, nonce, n), 80)
    ensures Wrap32(m) == Wrap32(n)
  {
    var s, t := Start(key, nonce, m), Start(key, nonce, n);
    assert s[12] == Wrap32(m) && t[12] == Wrap32(n);
    hide Rounds, UnRounds, Start, Wrap32;
    RoundsUndo(s, 80);
    RoundsUndo(t, 80);
  }

  /** The counter of the block `k` blocks on: it wraps modulo 2^32. */
  function NextCounter(counter: nat, k: nat): uint32 {
    Wrap32(counter + k)
  }

  /** Byte `i` of the key stream that starts at block `counter`, which counts modulo 2^32. */
  function KeyStream(key: seq<byte>, nonce: seq<byte>, counter: nat, i: nat): byte
    requires |key| >= 32 && |nonce| >= 12
  {
    Block(key, nonce, NextCounter(counter, i / 64))[i % 64]
  }

  /** chacha20_xor on values. */
  function Xored(key: seq<byte>, nonce: seq<byte>, counter: nat, data: seq<byte>): (r: seq<byte>)
    requires |key| >= 32 && |nonce| >= 12
    ensures |r| == |data|
  {
    seq(|data|, i requires 0 <= i < |data| => XorByte(data[i], KeyStream(key, nonce, counter, i)))
  }

  /** Applying the stream twice gives the data back. */
  lemma XoredUndo(key: seq<byte>, nonce: seq<byte>, counter: nat, data: seq<byte>)
    requires |key| >= 32 && |nonce| >= 12
    ensures Xored(key, nonce, counter, Xored(key, nonce, counter, data)) == data
  {
    forall i | 0 <= i < |data|
      ensures Xored(key, nonce, counter, Xored(key, nonce, counter, data))[i] == data[i]
    {
      XorByteUndo(data[i], KeyStream(key, nonce, counter, i));
    }
  }

  lemma StreamAdvances(key: seq<byte>, nonce: seq<byte>, counter: nat, k: nat, i: nat)
    requires |key| >= 32 && |nonce| >= 12
    ensures KeyStream(key, nonce, counter, 64 * k + i) == KeyStream(key, nonce, NextCounter(counter, k), i)
  {
    assert (64 * k + i) / 64 == k + i / 64 && (64 * k + i) % 64 == i % 64;
    hide Block, NextCounter;
    CounterSum(counter, k, i / 64);
  }

  lemma CounterSum(counter: nat, k: nat, j: nat)
    ensures NextCounter(NextCounter(counter, k), j) == NextCounter(counter, k + j)
  {
  }

  /** The stream can be cut at any block boundary if the counter is advanced modulo 2^32. */
  lemma XoredSplits(key: seq<byte>, nonce: seq<byte>, counter: nat, x: seq<byte>, y: seq<byte>)
    requires |key| >= 32 && |nonce| >= 12 && |x| % 64 == 0
    ensures Xored(key, nonce, counter, x + y)
         == Xored(key, nonce, counter, x) + Xored(key, nonce, NextCounter(counter, |x| / 64), y)
  {
    hide KeyStream;
    var k := |x| / 64;
    var whole, rest := Xored(key, nonce, counter, x + y), Xored(key, nonce, NextCounter(counter, k), y);
    forall i | |x| <= i < |x| + |y|
      ensures whole[i] == rest[i - |x|]
    {
      StreamAdvances(key, nonce, counter, k, i - |x|);
    }
  }

  // ---------------------------------------------------------------- as coded

  /** One third of a line of chacha20_quarter_round: add, fold, rotate. */
  method AddFoldRotate(w: array<Word>, x: nat, y: nat, z: nat, n: nat)
    requires w.Length == 16 && x < 16 && y < 16 && z < 16 && x != z && IsTurn(n)
    modifies w
    ensures var sum := Plus(old(w[x]), old(w[y]));
            w[..] == old(w[..])[x := sum][z := Rotl(XorWord(old(w[z]), sum), n)]
  {
    hide Plus, XorWord, Rotl;
    w[x] := Plus(w[x], w[y]);
    w[z] := XorWord(w[z], w[x]);
    w[z] := Rotl(w[z], n);
  }

  /** chacha20_quarter_round through four pointers into the working words. */
  method MixQuarter(w: array<Word>, a: nat, b: nat, c: nat, d: nat)
    requires w.Length == 16 && a < 4 <= b < 8 <= c < 12 <= d < 16
    modifies w
    ensures var q := QuarterRound(old(Quad(w[a], w[b], w[c], w[d])));
            w[..] == old(w[..])[a := q.a][b := q.b][c := q.c][d := q.d]
  {
    hide Plus, XorWord, Rotl;
    AddFoldRotate(w, a, b, d, 16);
    AddFoldRotate(w, c, d, b, 12);
    AddFoldRotate(w, a, b, d, 8);
    AddFoldRotate(w, c, d, b, 7);
  }

  /** The quarter round that comes after `n` others. */
  method MixNext(w: array<Word>, a: nat, b: nat, c: nat, d: nat, ghost s: Words16, ghost n: nat)
    requires w.Length == 16 && w[..] == Rounds(s, n)
    requires var k := n % 8; a == Column(k, 0) && b == Column(k, 1) && c == Column(k, 2) && d == Column(k, 3)
    modifies w
    ensures w[..] == Rounds(s, n + 1)
  {
    hide QuarterRound;
    MixQuarter(w, a, b, c, d);
  }

  /** One turn of the loop in chacha20_block: four columns, four diagonals. */
  method DoubleRound(w: array<Word>, ghost s: Words16, ghost n: nat)
    requires w.Length == 16 && n % 8 == 0 && w[..] == Rounds(s, n)
    modifies w
    ensures w[..] == Rounds(s, n + 8)
  {
    hide Rounds;
    MixNext(w, 0, 4, 8, 12, s, n);
    MixNext(w, 1, 5, 9, 13, s, n + 1);
    MixNext(w, 2, 6, 10, 14, s, n + 2);
    MixNext(w, 3, 7, 11, 15, s, n + 3);
    MixNext(w, 0, 5, 10, 15, s, n + 4);
    MixNext(w, 1, 6, 11, 12, s, n + 5);
    MixNext(w, 2, 7, 8, 13, s, n + 6);
    MixNext(w, 3, 4, 9, 14, s, n + 7);
  }

  /** chacha20_block. */
  method MakeBlock(key: array<byte>, nonce: array<byte>, counter: uint32, output: array<byte>)
    requires key.Length >= 32 && nonce.Length >= 12 && output.Length >= 64
    modifies output
    ensures output[..64] == Block(old(key[..]), old(nonce[..]), counter)
    ensures output[64..] == old(output[64..])
  {
    hide Rounds, BytesOfWords, BigEndian, Plus, Load32;
    ghost var start, before := Start(key[..], nonce[..], counter), output[..];
    var state := MakeStart(key, nonce, counter);
    var working := new Word[16](i requires 0 <= i < 16 reads state => state[i]);
    assert working[..] == start && Rounds(start, 0) == start by {
      FirstRound(start);
    }
    for i := 0 to 10
      invariant working[..] == Rounds(start, 8 * i)
      invariant state[..] == start && output[..] == before
    {
      DoubleRound(working, start, 8 * i);
    }
    ghost var mixed := working[..];
    for i := 0 to 16
      invariant state[..] == start && output[..] == before
      invariant forall j :: 0 <= j < i ==> working[j] == Plus(mixed[j], start[j])
      invariant forall j :: i <= j < 16 ==> working[j] == mixed[j]
    {
      working[i] := Plus(working[i], state[i]);
    }
    assert working[..] == Sums(mixed, start);
    WriteWords(working, output);
  }

  lemma FirstRound(s: Words16)
    ensures Rounds(s, 0) == s
  {
  }

  /** The initial state: constants, key, counter, nonce. */
  method MakeStart(key: array<byte>, nonce: array<byte>, counter: uint32) returns (state: array<Word>)
    requires key.Length >= 32 && nonce.Length >= 12
    ensures fresh(state) && state[..] == Start(key[..], nonce[..], counter)
  {
    hide Load32;
    state := new Word[] [
      0x61707865, 0x3320646e, 0x79622d32, 0x6b206574,
      Load32(key[..], 0), Load32(key[..], 4), Load32(key[..], 8), Load32(key[..], 12),
      Load32(key[..], 16), Load32(key[..], 20), Load32(key[..], 24), Load32(key[..], 28),
      counter, Load32(nonce[..], 0), Load32(nonce[..], 4), Load32(nonce[..], 8)];
  }

  /** The last loop of chacha20_block. */
  method WriteWords(words: array<Word>, output: array<byte>)
    requires words.Length == 16 && output.Length >= 64
    modifies output
    ensures output[..64] == BytesOfWords(words[..]) && output[64..] == old(output[64..])
  {
    hide BigEndian;
    for i := 0 to 16
      invariant output[..4 * i] == BytesOfWords(words[..i])
      invariant output[64..] == old(output[64..])
    {
      ghost var before := output[..4 * i];
      var b := BigEndian(words[i], 4);
      output[4 * i], output[4 * i + 1], output[4 * i + 2], output[4 * i + 3] := b[0], b[1], b[2], b[3];
      assert words[..i + 1][..i] == words[..i];
      assert output[..4 * i + 4] == before + b;
    }
    assert words[..16] == words[..];
  }

  /** One block of the stream on its own. */
  lemma XoredBlock(key: seq<byte>, nonce: seq<byte>, counter: nat, data: seq<byte>, n: nat, len: nat)
    requires |key| >= 32 && |nonce| >= 12 && 64 * n + len <= |data| && len <= 64
    ensures Xored(key, nonce, counter, data)[64 * n..64 * n + len]
         == XorBytes(data[64 * n..64 * n + len], Block(key, nonce, NextCounter(counter, n))[..len])
  {
    hide Block, Xor, NextCounter;
    var block := Xored(key, nonce, counter, data)[64 * n..64 * n + len];
    forall j | 0 <= j < len
      ensures block[j] == XorByte(data[64 * n + j], Block(key, nonce, NextCounter(counter, n))[j])
    {
      assert (64 * n + j) / 64 == n && (64 * n + j) % 64 == j;
    }
  }

  /** What is written so far, over what was there. */
  ghost predicate WrittenUpTo(out: seq<byte>, before: seq<byte>, result: seq<byte>, offset: nat) {
    offset <= |result| <= |before| && out == result[..offset] + before[offset..]
  }

  lemma WrittenNext(out: seq<byte>, before: seq<byte>, result: seq<byte>, offset: nat, len: nat, next: seq<byte>)
    requires WrittenUpTo(out, before, result, offset) && offset + len <= |result|
    requires next == out[..offset] + result[offset..offset + len] + out[offset + len..]
    ensures WrittenUpTo(next, before, result, offset + len)
  {
  }

  lemma AllWritten(out: seq<byte>, before: seq<byte>, result: seq<byte>)
    requires WrittenUpTo(out, before, result, |result|)
    ensures out[..|result|] == result && out[|result|..] == before[|result|..]
  {
  }

  /** The part of the input not yet read is what it was. */
  ghost predicate Unread(input: seq<byte>, data: seq<byte>, offset: nat) {
    |data| <= |input| && forall j :: offset <= j < |data| ==> input[j] == data[j]
  }

  /** One block of key stream over the next part of the input. */
  method XorPart(input: array<byte>, block: array<byte>, offset: nat, len: nat, output: array<byte>,
                 ghost data: seq<byte>, ghost before: seq<byte>, ghost result: seq<byte>)
    requires len <= block.Length && |data| <= input.Length && |data| <= output.Length && block != output
    requires |result| == |data| && offset + len <= |data|
    requires result[offset..offset + len] == XorBytes(data[offset..offset + len], block[..len])
    requires WrittenUpTo(output[..], before, result, offset) && Unread(input[..], data, offset)
    modifies output
    ensures WrittenUpTo(output[..], before, result, offset + len) && Unread(input[..], data, offset + len)
  {
    hide XorBytes;
    ghost var out, rest := output[..], input[..];
    assert input[offset..offset + len] == data[offset..offset + len];
    XorBlock(input, block, offset, len, output);
    WrittenNext(out, before, result, offset, len, output[..]);
    hide WrittenUpTo;
    forall j | offset + len <= j < |data|
      ensures input[j] == data[j]
    {
      assert rest[j] == data[j];
    }
  }

  /** One turn of the loop of chacha20_xor. */
  method XorNext(key: array<byte>, nonce: array<byte>, counter: uint32, input: array<byte>, len: nat, output: array<byte>,
                 block: array<byte>, offset: nat, ghost data: seq<byte>, ghost before: seq<byte>)
    returns (blockSize: nat)
    requires key.Length >= 32 && nonce.Length >= 12 && block.Length == 64 && len <= input.Length && len <= output.Length
    requires output != key && output != nonce && block != key && block != nonce && block != input && block != output
    requires |data| == len && offset < len && offset % 64 == 0
    requires WrittenUpTo(output[..], before, Xored(key[..], nonce[..], counter, data), offset)
    requires Unread(input[..], data, offset)
    modifies output, block
    ensures blockSize == if len - offset < 64 then len - offset else 64
    ensures WrittenUpTo(output[..], before, Xored(key[..], nonce[..], counter, data), offset + blockSize)
    ensures Unread(input[..], data, offset + blockSize)
  {
    hide Block, Xored, XorBytes, WrittenUpTo, Unread;
    var n := offset / 64;
    MakeBlock(key, nonce, NextCounter(counter, n), block);
    var remaining := len - offset;
    blockSize := if remaining < 64 then remaining else 64;
    XoredBlock(key[..], nonce[..], counter, data, n, blockSize);
    assert block[..64] == block[..];
    XorPart(input, block, offset, blockSize, output, data, before, Xored(key[..], nonce[..], counter, data));
  }

  /** chacha20_xor: `output` may be the same array as `input`. */
  method XorStream(key: array<byte>, nonce: array<byte>, counter: uint32, input: array<byte>, len: nat, output: array<byte>)
    requires key.Length >= 32 && nonce.Length >= 12 && len <= input.Length && len <= output.Length
    requires output != key && output != nonce
    modifies output
    ensures output[..len] == Xored(key[..], nonce[..], counter, old(input[..len]))
    ensures output[len..] == old(output[len..])
  {
    var block := new byte[64](_ => 0);
    ghost var data, before := input[..len], output[..];
    ghost var k, n := key[..], nonce[..];
    ghost var result := Xored(k, n, counter, data);
    hide Xored;
    assert WrittenUpTo(output[..], before, result, 0) && Unread(input[..], data, 0);
    hide WrittenUpTo, Unread;
    var offset := 0;
    while offset < len
      invariant offset <= len && (offset % 64 == 0 || offset == len)
      invariant key[..] == k && nonce[..] == n
      invariant WrittenUpTo(output[..], before, result, offset)
      invariant Unread(input[..], data, offset)
    {
      var blockSize := XorNext(key, nonce, counter, input, len, output, block, offset, data, before);
      offset := offset + blockSize;
    }
    AllWritten(output[..], before, result);
  }
}
