/**
 SHA-256 as a byte-at-a-time stream (FIPS 180-4). The stream context keeps the chaining value of
 the complete blocks, the unfinished block and a 64-bit byte count.
 */
module Sha256 {
  import opened Bytes

  type Word = bv32

  // ---------------------------------------------------------------- the compression function

  function Rotr(x: Word, n: bv6): Word
    requires 0 < n < 32
  {
    (x >> n) | (x << (32 - n))
  }

  /** Addition modulo 2^32. */
  function Plus(x: Word, y: Word): Word { x + y }

  function Ch(x: Word, y: Word, z: Word): Word { (x & y) ^ (!x & z) }

  function Maj(x: Word, y: Word, z: Word): Word { (x & y) ^ (x & z) ^ (y & z) }

  function Sig0(x: Word): Word { Rotr(x, 2) ^ Rotr(x, 13) ^ Rotr(x, 22) }

  function Sig1(x: Word): Word { Rotr(x, 6) ^ Rotr(x, 11) ^ Rotr(x, 25) }

  function Sig2(x: Word): Word { Rotr(x, 7) ^ Rotr(x, 18) ^ (x >> 3) }

  function Sig3(x: Word): Word { Rotr(x, 17) ^ Rotr(x, 19) ^ (x >> 10) }

  /** The round constants, eight to a row. */
  const K: seq<seq<Word>> := [
    [0x428a2f98, 0x71374491, 0xb5c0fbcf, 0xe9b5dba5, 0x3956c25b, 0x59f111f1, 0x923f82a4, 0xab1c5ed5],
    [0xd807aa98, 0x12835b01, 0x243185be, 0x550c7dc3, 0x72be5d74, 0x80deb1fe, 0x9bdc06a7, 0xc19bf174],
    [0xe49b69c1, 0xefbe4786, 0x0fc19dc6, 0x240ca1cc, 0x2de92c6f, 0x4a7484aa, 0x5cb0a9dc, 0x76f988da],
    [0x983e5152, 0xa831c66d, 0xb00327c8, 0xbf597fc7, 0xc6e00bf3, 0xd5a79147, 0x06ca6351, 0x14292967],
    [0x27b70a85, 0x2e1b2138, 0x4d2c6dfc, 0x53380d13, 0x650a7354, 0x766a0abb, 0x81c2c92e, 0x92722c85],
    [0xa2bfe8a1, 0xa81a664b, 0xc24b8b70, 0xc76c51a3, 0xd192e819, 0xd6990624, 0xf40e3585, 0x106aa070],
    [0x19a4c116, 0x1e376c08, 0x2748774c, 0x34b0bcb5, 0x391c0cb3, 0x4ed8aa4a, 0x5b9cca4f, 0x682e6ff3],
    [0x748f82ee, 0x78a5636f, 0x84c87814, 0x8cc70208, 0x90befffa, 0xa4506ceb, 0xbef9a3f7, 0xc67178f2]]

  function RoundConstant(t: nat): Word
    requires t < 64
  {
    assert |K| == 8;
    assert forall i :: 0 <= i < 8 ==> |K[i]| == 8;
    K[t / 8][t % 8]
  }

  type State = s: seq<Word> | |s| == 8 witness [0, 0, 0, 0, 0, 0, 0, 0]

  const INITIAL: State := [
    0x6a09e667, 0xbb67ae85, 0x3c6ef372, 0xa54ff53a, 0x510e527f, 0x9b05688c, 0x1f83d9ab, 0x5be0cd19]

  type Block = s: seq<byte> | |s| == 64 witness Zeros(64)

  function ToWord(b0: byte, b1: byte, b2: byte, b3: byte): Word {
    (b0 as Word << 24) | (b1 as Word << 16) | (b2 as Word << 8) | b3 as Word
  }

  /** The message schedule (section 6.2.2 step 1). */
  function Schedule(block: Block, t: nat): Word
    requires t < 64
  {
    if t < 16 then ToWord(block[4 * t], block[4 * t + 1], block[4 * t + 2], block[4 * t + 3])
    else
      Plus(Plus(Plus(Sig3(Schedule(block, t - 2)), Schedule(block, t - 7)), Sig2(Schedule(block, t - 15))), Schedule(block, t - 16))
  }

  datatype Vars = Vars(a: Word, b: Word, c: Word, d: Word, e: Word, f: Word, g: Word, h: Word)

  /** One round on the working variables (section 6.2.2 step 3). */
  function Round(v: Vars, k: Word, w: Word): Vars {
    var t1 := Plus(Plus(Plus(Plus(v.h, Sig1(v.e)), Ch(v.e, v.f, v.g)), k), w);
    var t2 := Plus(Sig0(v.a), Maj(v.a, v.b, v.c));
    Vars(Plus(t1, t2), v.a, v.b, v.c, Plus(v.d, t1), v.e, v.f, v.g)
  }

  function Rounds(v: Vars, block: Block, t: nat): Vars
    requires t <= 64
  {
    if t == 0 then v else Round(Rounds(v, block, t - 1), RoundConstant(t - 1), Schedule(block, t - 1))
  }

  function VarsOf(s: State): Vars {
    Vars(s[0], s[1], s[2], s[3], s[4], s[5], s[6], s[7])
  }

  function Sums(s: State, v: Vars): State {
    [Plus(s[0], v.a), Plus(s[1], v.b), Plus(s[2], v.c), Plus(s[3], v.d), Plus(s[4], v.e), Plus(s[5], v.f), Plus(s[6], v.g), Plus(s[7], v.h)]
  }

  function Compress(s: State, block: Block): State {
    Sums(s, Rounds(VarsOf(s), block, 64))
  }

  // ---------------------------------------------------------------- the digest of a message

  /** Folding the compression function over the blocks of a string. */
  function Fold(s: State, m: seq<byte>): State
    requires |m| % 64 == 0
  {
    if m == [] then s else Compress(Fold(s, m[..|m| - 64]), m[|m| - 64..])
  }

  function PadLength(n: nat): (r: nat)
    ensures 9 <= r <= 72 && (n + r) % 64 == 0
  {
    if 64 - n % 64 < 9 then 128 - n % 64 else 64 - n % 64
  }

  /** One bit, zeros, and the length in bits modulo 2^64 (section 5.1.1). */
  function Padding(n: nat): (r: seq<byte>)
    ensures |r| == PadLength(n)
  {
    [0x80] + Zeros(PadLength(n) - 9) + BigEndian(8 * n, 8)
  }

  function WordBytes(w: Word): (r: seq<byte>)
    ensures |r| == 4
  {
    [ByteOf(w >> 24), ByteOf(w >> 16), ByteOf(w >> 8), ByteOf(w)]
  }

  function ByteOf(w: Word): byte {
    (w & 0xFF) as bv8 as int
  }

  function StateBytes(s: seq<Word>): (r: seq<byte>)
    ensures |r| == 4 * |s|
  {
    if s == [] then [] else StateBytes(s[..|s| - 1]) + WordBytes(s[|s| - 1])
  }

  /** SHA-256 of a whole message. */
  function Digest(m: seq<byte>): (r: seq<byte>)
    ensures |r| == 32
  {
    StateBytes(Fold(INITIAL, m + Padding(|m|)))
  }

  /** The fold can be resumed at any block boundary. */
  lemma {:induction false} FoldResumes(s: State, x: seq<byte>, y: seq<byte>)
    requires |x| % 64 == 0 && |y| % 64 == 0
    ensures Fold(s, x + y) == Fold(Fold(s, x), y)
    decreases |y|
  {
    hide Compress;
    if y == [] {
      assert x + y == x;
    } else {
      var z := y[..|y| - 64];
      assert (x + y)[..|x + y| - 64] == x + z;
      assert (x + y)[|x + y| - 64..] == y[|y| - 64..];
      FoldResumes(s, x, z);
    }
  }

  /** Each block is compressed from the chaining value of all before it. */
  lemma FoldChains(s: State, x: seq<byte>, b: Block)
    requires |x| % 64 == 0
    ensures Fold(s, x + b) == Compress(Fold(s, x), b) && Fold(s, []) == s
  {
    hide Compress;
    assert (x + b)[..|x + b| - 64] == x && (x + b)[|x + b| - 64..] == b;
  }

  /** The padding fills up to a multiple of 64 bytes: 0x80, at most 63 zeros, the number of bits modulo 2^64. */
  lemma PaddingShape(n: nat)
    ensures var p := Padding(n);
            && 9 <= |p| <= 72 && (n + |p|) % 64 == 0
            && p[0] == 0x80 && (forall i :: 1 <= i < |p| - 8 ==> p[i] == 0)
            && BigEndianValue(p[|p| - 8..]) == 8 * n % 0x1_0000_0000_0000_0000
  {
    hide BigEndian, BigEndianValue;
    var p := Padding(n);
    assert p[|p| - 8..] == BigEndian(8 * n, 8);
    ValueOfBigEndian(8 * n, 8);
    assert Pow256(8) == 0x1_0000_0000_0000_0000;
  }

  /** Messages shorter than 2^61 bytes have distinct padded forms. */
  lemma PaddingInjective(m: seq<byte>, n: seq<byte>)
    requires |m| < 0x2000_0000_0000_0000 && |n| < 0x2000_0000_0000_0000
    requires m + Padding(|m|) == n + Padding(|n|)
    ensures m == n
  {
    var x, y := m + Padding(|m|), n + Padding(|n|);
    assert x[|x| - 8..] == BigEndian(8 * |m|, 8);
    assert y[|y| - 8..] == BigEndian(8 * |n|, 8);
    assert Pow256(8) == 0x1_0000_0000_0000_0000;
    BigEndianInjective(8 * |m|, 8 * |n|, 8);
    assert x[..|m|] == m && y[..|n|] == n;
  }

  // ---------------------------------------------------------------- the stream

  /** The complete blocks of a message and the rest of it. */
  function Complete(m: seq<byte>): (r: seq<byte>)
    ensures |r| % 64 == 0
  {
    m[..|m| - |m| % 64]
  }

  function Rest(m: seq<byte>): (r: seq<byte>)
    ensures |r| == |m| % 64
  {
    m[|m| - |m| % 64..]
  }

  /** What the context holds after any message, however it was split into updates. */
  function ChainingValue(m: seq<byte>): State {
    Fold(INITIAL, Complete(m))
  }

  function Buffered(m: seq<byte>): Block {
    Rest(m) + Zeros(64 - |m| % 64)
  }

  /** One more byte, when it does not complete a block ... */
  lemma AppendInside(m: seq<byte>, x: byte)
    requires |m| % 64 != 63
    ensures ChainingValue(m + [x]) == ChainingValue(m)
    ensures Buffered(m + [x]) == Buffered(m)[|m| % 64 := x]
  {
    var c := |m| - |m| % 64;
    assert (m + [x])[..c] == m[..c] && (m + [x])[c..] == m[c..] + [x];
    hide Fold;
    BlockPosition(|m|);
    assert Complete(m + [x]) == Complete(m);
    assert Rest(m + [x]) == Rest(m) + [x];
  }

  lemma BlockPosition(n: nat)
    requires n % 64 != 63
    ensures (n + 1) % 64 == n % 64 + 1
  {
  }

  /** ... and when it does. */
  lemma AppendCompletes(m: seq<byte>, x: byte)
    requires |m| % 64 == 63
    ensures ChainingValue(m + [x]) == Compress(ChainingValue(m), Buffered(m)[63 := x])
    ensures Buffered(m + [x]) == Zeros(64)
  {
    hide Compress;
    var c, n := |m| - 63, m + [x];
    assert Complete(n) == n && |n| == c + 64;
    assert n[..c] == Complete(m);
    assert n[c..] == Rest(m) + [x];
    assert Buffered(m)[63 := x] == n[c..];
  }

  lemma CompressIs(s: State, block: Block, v: Vars)
    requires v == Rounds(VarsOf(s), block, 64)
    ensures Compress(s, block) == Sums(s, v)
  {
    hide Rounds, Sums;
  }

  lemma FirstWords(block: Block, t: nat)
    requires t < 16
    ensures Schedule(block, t) == ToWord(block[4 * t], block[4 * t + 1], block[4 * t + 2], block[4 * t + 3])
  {
    hide ToWord;
  }

  lemma LaterWords(block: Block, t: nat)
    requires 16 <= t < 64
    ensures Schedule(block, t)
         == Plus(Plus(Plus(Sig3(Schedule(block, t - 2)), Schedule(block, t - 7)), Sig2(Schedule(block, t - 15))), Schedule(block, t - 16))
  {
    hide Plus, Sig2, Sig3, ToWord;
  }

  class Context {
    const h: array<Word>
    var count: uint64
    const buffer: array<byte>
    /** Everything the context has absorbed. */
    ghost var message: seq<byte>

    ghost predicate Valid()
      reads this, h, buffer
    {
      && h.Length == 8 && buffer.Length == 64
      && count == |message| % 0x1_0000_0000_0000_0000
      && h[..] == ChainingValue(message)
      && buffer[..] == Buffered(message)
    }

    constructor ()
      ensures Valid() && message == [] && fresh(h) && fresh(buffer)
    {
      h := new Word[8](i requires 0 <= i < 8 => INITIAL[i]);
      buffer := new byte[64](_ => 0);
      count := 0;
      message := [];
      new;
      assert h[..] == INITIAL;
      assert buffer[..] == Zeros(64);
    }

    /** sha256_transform. */
    method Transform()
      requires h.Length == 8 && buffer.Length == 64
      modifies h
      ensures h[..] == Compress(old(h[..]), buffer[..])
    {
      hide Compress, Schedule, Rounds, Plus;
      var w := MakeSchedule();
      var v := MixRounds(w);
      CompressIs(h[..], buffer[..], v);
      AddVars(v);
    }

    /** The end of sha256_transform: the working variables are added in. */
    method AddVars(v: Vars)
      requires h.Length == 8
      modifies h
      ensures h[..] == Sums(old(h[..]), v)
    {
      var s := Sums(h[..], v);
      hide Sums;
      forall i | 0 <= i < 8 {
        h[i] := s[i];
      }
    }

    /** The message schedule of the buffered block. */
    method MakeSchedule() returns (w: array<Word>)
      requires buffer.Length == 64
      ensures fresh(w) && w.Length == 64
      ensures forall j :: 0 <= j < 64 ==> w[j] == Schedule(buffer[..], j)
    {
      hide Sig2, Sig3, ToWord, Plus, Schedule;
      ghost var block: Block := buffer[..];
      w := new Word[64];
      for i := 0 to 16
        invariant forall j :: 0 <= j < i ==> w[j] == Schedule(block, j)
      {
        FirstWords(block, i);
        w[i] := ToWord(buffer[i * 4], buffer[i * 4 + 1], buffer[i * 4 + 2], buffer[i * 4 + 3]);
      }
      for i := 16 to 64
        invariant forall j :: 0 <= j < i ==> w[j] == Schedule(block, j)
      {
        LaterWords(block, i);
        w[i] := Plus(Plus(Plus(Sig3(w[i - 2]), w[i - 7]), Sig2(w[i - 15])), w[i - 16]);
      }
    }

    /** The 64 rounds. */
    method MixRounds(w: array<Word>) returns (v: Vars)
      requires h.Length == 8 && buffer.Length == 64 && w.Length == 64
      requires forall j :: 0 <= j < 64 ==> w[j] == Schedule(buffer[..], j)
      ensures v == Rounds(VarsOf(h[..]), buffer[..], 64)
    {
      hide Schedule, Sig0, Sig1, Ch, Maj, RoundConstant, Plus;
      ghost var block: Block, start := buffer[..], VarsOf(h[..]);
      var a, b, c, d := h[0], h[1], h[2], h[3];
      var e, f, g, hh := h[4], h[5], h[6], h[7];
      for i := 0 to 64
        invariant Vars(a, b, c, d, e, f, g, hh) == Rounds(start, block, i)
      {
        var t1 := Plus(Plus(Plus(Plus(hh, Sig1(e)), Ch(e, f, g)), RoundConstant(i)), w[i]);
        var t2 := Plus(Sig0(a), Maj(a, b, c));
        hh := g;
        g := f;
        f := e;
        e := Plus(d, t1);
        d := c;
        c := b;
        b := a;
        a := Plus(t1, t2);
      }
      v := Vars(a, b, c, d, e, f, g, hh);
    }

    /** The body of the loop of sha256_update. */
    method Absorb(x: byte)
      requires Valid()
      modifies this`count, this`message, h, buffer
      ensures Valid() && message == old(message) + [x]
    {
      hide Compress, ChainingValue, Buffered;
      ghost var m := message;
      var n := count % 64;
      CountModBlock(|m|);
      buffer[n] := x;
      count := (count + 1) % 0x1_0000_0000_0000_0000;
      message := m + [x];
      assert buffer[..] == Buffered(m)[n := x];
      if count % 64 == 0 {
        AppendCompletes(m, x);
        Transform();
        forall j | 0 <= j < 64 {
          buffer[j] := 0;
        }
        assert buffer[..] == Zeros(64);
      } else {
        AppendInside(m, x);
      }
    }

    /** sha256_update. */
    method Update(data: seq<byte>)
      requires Valid()
      modifies this`count, this`message, h, buffer
      ensures Valid() && message == old(message) + data
    {
      hide ChainingValue, Buffered;
      for i := 0 to |data|
        invariant Valid() && message == old(message) + data[..i]
      {
        Absorb(data[i]);
        assert data[..i + 1] == data[..i] + [data[i]];
      }
      assert data[..|data|] == data;
    }

    /** sha256_final: the digest is that of everything absorbed. */
    method Final() returns (digest: seq<byte>)
      requires Valid()
      modifies this`count, this`message, h, buffer
      ensures digest == Digest(old(message))
      ensures Valid() && message == old(message) + Padding(|old(message)|)
    {
      hide Fold, Buffered, Padding;
      var padding := MakePadding(count, |message|);
      Update(padding);
      assert Complete(message) == message;
      digest := [];
      for i := 0 to 8
        invariant digest == StateBytes(h[..i])
      {
        assert h[..i + 1][..i] == h[..i];
        digest := digest + WordBytes(h[i]);
      }
      assert h[..8] == h[..];
    }
  }

  /** The 64-bit byte count knows the position inside the block. */
  lemma CountModBlock(n: nat)
    ensures n % 0x1_0000_0000_0000_0000 % 64 == n % 64
    ensures (n % 0x1_0000_0000_0000_0000 + 1) % 0x1_0000_0000_0000_0000 == (n + 1) % 0x1_0000_0000_0000_0000
    ensures (n + 1) % 0x1_0000_0000_0000_0000 % 64 == 0 <==> n % 64 == 63
  {
    WordKeepsPosition(n);
    WordKeepsPosition(n + 1);
    ModNext(n, 0x1_0000_0000_0000_0000);
    ModNext(n, 64);
  }

  lemma WordKeepsPosition(n: nat)
    ensures n % 0x1_0000_0000_0000_0000 % 64 == n % 64
  {
    var q, r := n / 0x1_0000_0000_0000_0000, n % 0x1_0000_0000_0000_0000;
    DivModUnique(n, 64, 0x400_0000_0000_0000 * q + r / 64, r % 64);
  }

  /** The bit count wraps with the byte count. */
  lemma BitCountWraps(n: nat)
    ensures BigEndian(8 * (n % 0x1_0000_0000_0000_0000), 8) == BigEndian(8 * n, 8)
  {
    assert Pow256(8) == 0x1_0000_0000_0000_0000;
    BigEndianWraps(8 * (n % 0x1_0000_0000_0000_0000), 8);
    BigEndianWraps(8 * n, 8);
    hide BigEndian, Pow256;
    SameBitCount(n);
  }

  lemma SameBitCount(n: nat)
    ensures 8 * (n % 0x1_0000_0000_0000_0000) % 0x1_0000_0000_0000_0000 == 8 * n % 0x1_0000_0000_0000_0000
  {
    var q, x := n / 0x1_0000_0000_0000_0000, 8 * (n % 0x1_0000_0000_0000_0000);
    DivModUnique(8 * n, 0x1_0000_0000_0000_0000, x / 0x1_0000_0000_0000_0000 + 8 * q, x % 0x1_0000_0000_0000_0000);
  }

  /** The padding sha256_final appends; its buffer needs up to 72 bytes. */
  method MakePadding(count: uint64, ghost n: nat) returns (r: seq<byte>)
    requires count == n % 0x1_0000_0000_0000_0000
    ensures r == Padding(n)
  {
    CountModBlock(n);
    BitCountWraps(n);
    var padLen := 64 - count % 64;
    if padLen < 9 {
      padLen := padLen + 64;
    }
    assert padLen == PadLength(n);
    hide PadLength, BigEndian;
    var padding := new byte[72](_ => 0);
    padding[0] := 0x80;
    assert padding[..padLen - 8] == [0x80] + Zeros(padLen - 9);
    PutLength(padding, padLen - 8, count);
    r := padding[..padLen];
  }

  /** sha256: the digest of one buffer. */
  method HashOf(data: seq<byte>) returns (digest: seq<byte>)
    ensures digest == Digest(data)
  {
    hide Digest;
    var ctx := new Context();
    ctx.Update(data);
    assert [] + data == data;
    digest := ctx.Final();
  }
}
