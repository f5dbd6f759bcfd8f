/**
 AES-GCM as this repository codes it: the block cipher and the GHASH multiplication are exclusive
 or, the counter and the tag layout are those of the source.
 */
module AesGcm {
  import opened Bytes
  import opened Wrappers

  // ---------------------------------------------------------------- what is computed

  /** aes_encrypt_block on values. */
  function Block(key: seq<byte>, input: seq<byte>): (r: seq<byte>)
    requires |key| >= 16 && |input| == 16
    ensures |r| == 16
  {
    XorBytes(key[..16], input)
  }

  /** The counter block of data block `n`: the iv, then n + 1 modulo 2^32. */
  function Counter(iv: seq<byte>, n: nat): (r: seq<byte>)
    requires |iv| >= 12
    ensures |r| == 16
  {
    iv[..12] + BigEndian(n + 1, 4)
  }

  function KeyStream(key: seq<byte>, iv: seq<byte>, i: nat): byte
    requires |key| >= 16 && |iv| >= 12
  {
    Block(key, Counter(iv, i / 16))[i % 16]
  }

  /** Counter mode on data of any length. */
  function Ctr(key: seq<byte>, iv: seq<byte>, data: seq<byte>): (r: seq<byte>)
    requires |key| >= 16 && |iv| >= 12
    ensures |r| == |data|
  {
    seq(|data|, i requires 0 <= i < |data| => XorByte(data[i], KeyStream(key, iv, i)))
  }

  /**
   The k-th block gcm_ghash folds in. The scratch block is not cleared, so the last, partial
   block keeps the bytes of the block before it.
   */
  function HashBlock(data: seq<byte>, k: nat): (r: seq<byte>)
    requires 16 * k < |data|
    ensures |r| == 16
  {
    seq(16, j requires 0 <= j < 16 =>
      if 16 * k + j < |data| then data[16 * k + j] else if k > 0 then data[16 * (k - 1) + j] else 0)
  }

  /** Folding the first `n` blocks into `hash`. */
  function GHash(hash: seq<byte>, data: seq<byte>, n: nat): (r: seq<byte>)
    requires |hash| == 16 && 16 * n < |data| + 16
    ensures |r| == 16
  {
    if n == 0 then hash else XorBytes(GHash(hash, data, n - 1), HashBlock(data, n - 1))
  }

  function GHashAll(hash: seq<byte>, data: seq<byte>): (r: seq<byte>)
    requires |hash| == 16
    ensures |r| == 16
  {
    GHash(hash, data, (|data| + 15) / 16)
  }

  /** Only the first 16 bytes of the additional data are hashed. */
  function AadBlock(aad: seq<byte>): (r: seq<byte>)
    ensures |r| == 16
  {
    if |aad| < 16 then aad + Zeros(16 - |aad|) else aad[..16]
  }

  /** Bit lengths of additional data and ciphertext, 32 bits each. */
  function LengthBlock(aadLen: nat, n: nat): (r: seq<byte>)
    ensures |r| == 16
  {
    BigEndian(8 * aadLen, 4) + BigEndian(8 * n, 4) + Zeros(8)
  }

  function AadHash(aad: seq<byte>): (r: seq<byte>)
    ensures |r| == 16
  {
    if |aad| > 0 then GHashAll(Zeros(16), AadBlock(aad)) else Zeros(16)
  }

  function AuthKey(key: seq<byte>, iv: seq<byte>): (r: seq<byte>)
    requires |key| >= 16 && |iv| >= 12
    ensures |r| == 16
  {
    Block(key, iv[..12] + Zeros(4))
  }

  function Tag(key: seq<byte>, iv: seq<byte>, aad: seq<byte>, aadLen: nat, ct: seq<byte>): (r: seq<byte>)
    requires |key| >= 16 && |iv| >= 12
    ensures |r| == 16
  {
    XorBytes(GHashAll(GHashAll(AadHash(aad), ct), LengthBlock(aadLen, |ct|)), AuthKey(key, iv))
  }

  /** A ciphertext and its tag. */
  datatype Sealed = Sealed(ct: seq<byte>, tag: seq<byte>)

  /** aes_gcm_encrypt on values; `aadLen` differs from |aad| only for a null pointer. */
  function Seal(key: seq<byte>, iv: seq<byte>, aad: seq<byte>, aadLen: nat, pt: seq<byte>): (s: Sealed)
    requires |key| >= 16 && |iv| >= 12
    ensures |s.ct| == |pt| && |s.tag| == 16
  {
    var ct := Ctr(key, iv, pt);
    Sealed(ct, Tag(key, iv, aad, aadLen, ct))
  }

  /** aes_gcm_decrypt on values. */
  function Open(key: seq<byte>, iv: seq<byte>, aad: seq<byte>, aadLen: nat, s: Sealed): (pt: Option<seq<byte>>)
    requires |key| >= 16 && |iv| >= 12
  {
    if s.tag == Tag(key, iv, aad, aadLen, s.ct) then Some(Ctr(key, iv, s.ct)) else None
  }

  // ---------------------------------------------------------------- primitives on arrays

  /** `output` may be the same array as `input` or `key`. */
  method AesEncryptBlock(key: array<byte>, input: array<byte>, output: array<byte>)
    requires key.Length >= 16 && input.Length == 16 && output.Length == 16
    modifies output
    ensures output[..] == Block(old(key[..]), old(input[..]))
  {
    ghost var k, x := key[..], input[..];
    for i := 0 to 16
      invariant forall j :: 0 <= j < i ==> output[j] == XorByte(k[j], x[j])
      invariant forall j :: i <= j < 16 ==> key[j] == k[j] && input[j] == x[j]
    {
      output[i] := XorByte(key[i], input[i]);
    }
  }

  method GcmMultiply(x: array<byte>, y: array<byte>)
    requires x.Length == 16 && y.Length == 16 && x != y
    modifies x
    ensures x[..] == XorBytes(old(x[..]), y[..])
  {
    for i := 0 to 16
      invariant forall j :: 0 <= j < i ==> x[j] == XorByte(old(x[j]), y[j])
      invariant forall j :: i <= j < 16 ==> x[j] == old(x[j])
    {
      x[i] := XorByte(x[i], y[i]);
    }
  }

  method GcmGhash(hash: array<byte>, data: array<byte>, len: nat)
    requires hash.Length == 16 && len <= data.Length && hash != data
    modifies hash
    ensures hash[..] == GHashAll(old(hash[..]), data[..len])
  {
    var temp := new byte[16](_ => 0);
    var i, k := 0, 0;
    ghost var d := data[..len];
    while i < len
      invariant i == 16 * k && 16 * k < len + 16
      invariant hash[..] == GHash(old(hash[..]), d, k)
      invariant if k == 0 then forall j :: 0 <= j < 16 ==> temp[j] == 0
                else i <= len ==> forall j :: 0 <= j < 16 ==> temp[j] == d[16 * (k - 1) + j]
    {
      var j := 0;
      ghost var before := temp[..];
      while j < 16 && i + j < len
        invariant 0 <= j <= 16 && i + j <= len
        invariant forall m :: 0 <= m < j ==> temp[m] == d[i + m]
        invariant forall m :: j <= m < 16 ==> temp[m] == before[m]
        invariant hash[..] == GHash(old(hash[..]), d, k)
      {
        temp[j] := data[i + j];
        j := j + 1;
      }
      assert temp[..] == HashBlock(d, k);
      GcmMultiply(hash, temp);
      i, k := i + 16, k + 1;
    }
    assert k == (len + 15) / 16;
  }

  /** gcm_inc32: the last four bytes count modulo 2^32. */
  method GcmInc32(counter: array<byte>)
    requires counter.Length == 16
    modifies counter
    ensures counter[..] == old(counter[..12]) + BigEndian(BigEndianValue(old(counter[12..])) + 1, 4)
  {
    ghost var tail := counter[12..];
    WordOfBytes(tail);
    var c := Word(counter[12], counter[13], counter[14], counter[15]);
    c := (c + 1) % 0x1_0000_0000;
    BytesOfWord(c);
    counter[12] := c / 0x100_0000 % 256;
    counter[13] := c / 0x1_0000 % 256;
    counter[14] := c / 0x100 % 256;
    counter[15] := c % 256;
    assert counter[12..] == BigEndian(c, 4);
    assert Pow256(4) == 0x1_0000_0000;
    BigEndianWraps(BigEndianValue(tail) + 1, 4);
    assert counter[..] == counter[..12] + counter[12..];
  }

  function Word(b0: int, b1: int, b2: int, b3: int): int {
    0x100_0000 * b0 + 0x1_0000 * b1 + 0x100 * b2 + b3
  }

  lemma WordOfBytes(s: seq<byte>)
    requires |s| == 4
    ensures BigEndianValue(s) == Word(s[0], s[1], s[2], s[3])
  {
    assert s[..4] == s;
    ValueByByte(s, 4);
    hide BigEndianValue;
  }

  lemma BytesOfWord(c: nat)
    ensures BigEndian(c, 4) == [c / 0x100_0000 % 256, c / 0x1_0000 % 256, c / 0x100 % 256, c % 256]
  {
    assert BigEndian(c / 0x100_0000, 1) == [c / 0x100_0000 % 256];
    assert BigEndian(c / 0x1_0000, 2) == BigEndian(c / 0x1_0000 / 256, 1) + [c / 0x1_0000 % 256];
    assert BigEndian(c / 0x100, 3) == BigEndian(c / 0x100 / 256, 2) + [c / 0x100 % 256];
  }

  // ---------------------------------------------------------------- counters

  /** The counter of the encryption loop at block `n`: gcm_inc32 applied n times. */
  function EncryptCounter(iv: seq<byte>, n: nat): (r: seq<byte>)
    requires |iv| >= 12
    ensures |r| == 16
  {
    if n == 0 then iv[..12] + [0, 0, 0, 1] else
      var c := EncryptCounter(iv, n - 1);
      c[..12] + BigEndian(BigEndianValue(c[12..]) + 1, 4)
  }

  /** What the counter array holds when the decryption loop reaches block `n`. */
  function LeftOver(iv: seq<byte>, n: nat): (r: seq<byte>)
    requires |iv| >= 12
    ensures |r| == 16
    decreases n, 0
  {
    if n == 0 then Zeros(16) else
      var c := DecryptCounter(iv, n - 1);
      c[..12] + BigEndian(BigEndianValue(c[12..]) + 1, 4)
  }

  /**
   The counter of the decryption loop at block `n`: iv and low byte are set afresh, the three
   bytes between them are left over from gcm_inc32 on the block before.
   */
  function DecryptCounter(iv: seq<byte>, n: nat): (r: seq<byte>)
    requires |iv| >= 12
    ensures |r| == 16
    decreases n, 1
  {
    iv[..12] + LeftOver(iv, n)[12..15] + [(n + 1) % 256]
  }

  lemma {:induction false} EncryptCounterIs(iv: seq<byte>, n: nat)
    requires |iv| >= 12
    ensures EncryptCounter(iv, n) == Counter(iv, n)
  {
    BytesOfWord(1);
    hide BigEndian, BigEndianValue;
    if n > 0 {
      EncryptCounterIs(iv, n - 1);
      CounterAdvances(iv, n - 1);
    }
  }

  /** One gcm_inc32 takes each counter block to the next one, also across 2^32. */
  lemma CounterAdvances(iv: seq<byte>, n: nat)
    requires |iv| >= 12
    ensures Counter(iv, n)[..12] == iv[..12]
    ensures BigEndian(BigEndianValue(Counter(iv, n)[12..]) + 1, 4) == BigEndian(n + 2, 4)
  {
    assert Counter(iv, n)[12..] == BigEndian(n + 1, 4);
    BigEndianNext(n + 1, 4);
  }

  lemma LowByte(n: nat)
    ensures BigEndian(n, 4)[..3] + [n % 256] == BigEndian(n, 4)
  {
  }

  lemma LeftOverIs(iv: seq<byte>, n: nat)
    requires |iv| >= 12 && n > 0
    requires DecryptCounter(iv, n - 1) == Counter(iv, n - 1)
    ensures LeftOver(iv, n) == Counter(iv, n - 1)[..12] + BigEndian(n + 1, 4)
  {
    hide DecryptCounter;
    CounterAdvances(iv, n - 1);
  }

  lemma AfterTwelve(c: seq<byte>, w: seq<byte>)
    requires |c| >= 12 && |w| == 4
    ensures (c[..12] + w)[12..15] == w[..3]
  {
  }

  /** If the bytes left over are the upper three of the number, setting the low one completes it. */
  lemma ThreeBytesSuffice(iv: seq<byte>, n: nat)
    requires |iv| >= 12 && LeftOver(iv, n)[12..15] == BigEndian(n + 1, 4)[..3]
    ensures DecryptCounter(iv, n) == Counter(iv, n)
  {
    LowByte(n + 1);
    hide BigEndian, LeftOver;
  }

  /** The two counters agree at every block, for data of any length. */
  lemma {:induction false} CountersAgree(iv: seq<byte>, n: nat)
    requires |iv| >= 12
    ensures DecryptCounter(iv, n) == Counter(iv, n) == EncryptCounter(iv, n)
  {
    EncryptCounterIs(iv, n);
    hide BigEndian, BigEndianValue, EncryptCounter, LeftOver, DecryptCounter, Counter;
    if n == 0 {
      BytesOfWord(1);
      NothingLeftOver(iv);
      assert LeftOver(iv, 0)[12..15] == BigEndian(1, 4)[..3] == [0, 0, 0];
    } else {
      CountersAgree(iv, n - 1);
      LeftOverIs(iv, n);
      AfterTwelve(Counter(iv, n - 1), BigEndian(n + 1, 4));
    }
    ThreeBytesSuffice(iv, n);
  }

  // ---------------------------------------------------------------- encryption and decryption

  /** Block `n` of counter-mode output. */
  lemma CtrBlock(key: seq<byte>, iv: seq<byte>, data: seq<byte>, n: nat, len: nat)
    requires |key| >= 16 && |iv| >= 12 && 16 * n + len <= |data| && len <= 16
    ensures Ctr(key, iv, data)[16 * n..16 * n + len]
         == XorBytes(data[16 * n..16 * n + len], Block(key, Counter(iv, n))[..len])
  {
    hide Block, Counter;
    var block := Ctr(key, iv, data)[16 * n..16 * n + len];
    forall j | 0 <= j < len
      ensures block[j] == XorByte(data[16 * n + j], Block(key, Counter(iv, n))[j])
    {
      assert (16 * n + j) / 16 == n && (16 * n + j) % 16 == j;
    }
  }

  function AadOf(aad: array?<byte>, aadLen: nat): seq<byte>
    requires aad != null ==> aadLen <= aad.Length
    reads aad
  {
    if aad == null then [] else aad[..aadLen]
  }

  /** The hash over additional data, ciphertext and lengths. */
  method ComputeHash(aad: array?<byte>, aadLen: nat, data: array<byte>, len: nat) returns (hash: array<byte>)
    requires len <= data.Length && (aad != null ==> aadLen <= aad.Length)
    ensures fresh(hash) && hash.Length == 16
    ensures hash[..] == GHashAll(GHashAll(AadHash(AadOf(aad, aadLen)), data[..len]), LengthBlock(aadLen, len))
  {
    hide GHash, BigEndian;
    hash := new byte[16](_ => 0);
    assert hash[..] == Zeros(16);
    if aad != null && aadLen > 0 {
      var n := if aadLen < 16 then aadLen else 16;
      var padded := new byte[16](j requires 0 <= j < 16 reads aad => if j < n then aad[j] else 0);
      assert padded[..16] == AadBlock(aad[..aadLen]);
      GcmGhash(hash, padded, 16);
    }
    assert hash[..] == AadHash(AadOf(aad, aadLen));
    GcmGhash(hash, data, len);
    var lengths := LengthBlock(aadLen, len);
    var lenBlock := new byte[16](j requires 0 <= j < 16 => lengths[j]);
    assert lenBlock[..16] == lengths;
    GcmGhash(hash, lenBlock, 16);
  }

  /** The tag: hash masked with the encrypted initial counter. */
  method MaskHash(key: array<byte>, iv: array<byte>, hash: array<byte>, tag: array<byte>)
    requires key.Length >= 16 && iv.Length >= 12 && hash.Length == 16 && tag.Length >= 16
    requires tag != hash
    modifies tag
    ensures tag[..16] == XorBytes(hash[..], AuthKey(old(key[..]), old(iv[..])))
    ensures tag[16..] == old(tag[16..])
  {
    var authKey := new byte[16](j requires 0 <= j < 16 reads iv => if j < 12 then iv[j] else 0);
    assert authKey[..] == iv[..12] + Zeros(4);
    AesEncryptBlock(key, authKey, authKey);
    ghost var a := authKey[..];
    assert a == AuthKey(key[..], iv[..]);
    for i := 0 to 16
      invariant forall j :: 0 <= j < i ==> tag[j] == XorByte(hash[j], a[j])
      invariant forall j :: 16 <= j < tag.Length ==> tag[j] == old(tag[j])
      invariant authKey[..] == a
    {
      tag[i] := XorByte(hash[i], authKey[i]);
    }
  }

  /** aes_gcm_encrypt: `ciphertext` may be the same array as `plaintext`. */
  method Encrypt(key: array?<byte>, iv: array?<byte>, plaintext: array?<byte>, ptLen: nat,
                 aad: array?<byte>, aadLen: nat, ciphertext: array?<byte>, tag: array?<byte>)
    returns (ret: int, ctLen: nat)
    requires key != null ==> key.Length >= 16
    requires iv != null ==> iv.Length >= 12
    requires plaintext != null ==> ptLen <= plaintext.Length
    requires aad != null ==> aadLen <= aad.Length
    requires ciphertext != null ==> ptLen <= ciphertext.Length && ciphertext != key && ciphertext != iv && ciphertext != aad
    requires tag != null ==> tag.Length >= 16 && tag != ciphertext
    modifies ciphertext, tag
    ensures ret == if key == null || iv == null || plaintext == null || ciphertext == null || tag == null then -1 else 0
    ensures ret != 0 ==> (ciphertext != null ==> ciphertext[..] == old(ciphertext[..])) && (tag != null ==> tag[..] == old(tag[..]))
    ensures ret == 0 ==> ctLen == ptLen
    ensures ret == 0 ==>
              Sealed(ciphertext[..ptLen], tag[..16])
              == Seal(old(key[..]), old(iv[..]), old(AadOf(aad, aadLen)), aadLen, old(plaintext[..ptLen]))
    ensures ret == 0 ==> ciphertext[ptLen..] == old(ciphertext[ptLen..])
    ensures ret == 0 ==> tag[16..] == old(tag[16..])
  {
    if key == null || iv == null || plaintext == null || ciphertext == null || tag == null {
      return -1, 0;
    }
    EncryptBlocks(key, iv, plaintext, ptLen, ciphertext);
    var hash := ComputeHash(aad, aadLen, ciphertext, ptLen);
    MaskHash(key, iv, hash, tag);
    return 0, ptLen;
  }

  /** Masks one block with the encrypted counter. */
  method CryptBlock(key: array<byte>, counter: array<byte>, input: array<byte>, output: array<byte>, i: nat, len: nat)
    requires key.Length >= 16 && counter.Length == 16 && len <= 16
    requires i + len <= input.Length && i + len <= output.Length
    modifies output
    ensures output[..] == old(output[..i]) + XorBytes(old(input[i..i + len]), Block(old(key[..]), old(counter[..]))[..len])
                          + old(output[i + len..])
  {
    var mask := new byte[16](_ => 0);
    AesEncryptBlock(key, counter, mask);
    XorBlock(input, mask, i, len, output);
  }

  /** What the output array holds when the first `i` bytes are done. */
  ghost predicate DoneUpTo(out: seq<byte>, before: seq<byte>, result: seq<byte>, i: nat)
  {
    && |result| <= |out| == |before|
    && forall j :: 0 <= j < |out| ==> out[j] == if j < |result| && j < i then result[j] else before[j]
  }

  lemma DoneNext(out: seq<byte>, before: seq<byte>, result: seq<byte>, i: nat, len: nat, next: seq<byte>)
    requires DoneUpTo(out, before, result, i) && i + len <= |result|
    requires len == 16 || (len < 16 && i + len == |result|)
    requires next == out[..i] + result[i..i + len] + out[i + len..]
    ensures DoneUpTo(next, before, result, i + 16)
  {
  }

  /** The input not yet read is what it was, even when it shares the output array. */
  ghost predicate InputIntact(input: array<byte>, output: array<byte>, p: seq<byte>, before: seq<byte>)
    reads input
  {
    if input == output then before == p else input[..] == p
  }

  /** One turn of either block loop, once the counter is set. */
  method CryptNext(key: array<byte>, counter: array<byte>, input: array<byte>, len: nat, output: array<byte>,
                   i: nat, ghost v: seq<byte>, ghost p: seq<byte>, ghost before: seq<byte>)
    requires key.Length >= 16 && |v| >= 12 && |p| == input.Length
    requires len <= input.Length && len <= output.Length && i < len && i % 16 == 0
    requires counter.Length == 16 && counter[..] == Counter(v, i / 16)
    requires DoneUpTo(output[..], before, Ctr(key[..], v, p[..len]), i) && InputIntact(input, output, p, before)
    requires output != key && output != counter
    modifies output
    ensures DoneUpTo(output[..], before, Ctr(key[..], v, p[..len]), i + 16) && InputIntact(input, output, p, before)
  {
    hide Counter, Block, Ctr;
    var blockLen := if len - i < 16 then len - i else 16;
    ghost var k, out := key[..], output[..];
    ghost var c := Ctr(k, v, p[..len]);
    CtrBlock(k, v, p[..len], i / 16, blockLen);
    assert input[i..i + blockLen] == p[..len][i..i + blockLen];
    CryptBlock(key, counter, input, output, i, blockLen);
    DoneNext(out, before, c, i, blockLen, output[..]);
  }

  /** The block loop of aes_gcm_encrypt. */
  method EncryptBlocks(key: array<byte>, iv: array<byte>, plaintext: array<byte>, len: nat, ciphertext: array<byte>)
    requires key.Length >= 16 && iv.Length >= 12 && len <= plaintext.Length && len <= ciphertext.Length
    requires ciphertext != key && ciphertext != iv
    modifies ciphertext
    ensures ciphertext[..len] == Ctr(key[..], iv[..], old(plaintext[..len]))
    ensures ciphertext[len..] == old(ciphertext[len..])
  {
    hide BigEndian, EncryptCounter, Counter, Ctr;
    var counter := new byte[16](j requires 0 <= j < 16 reads iv => if j < 12 then iv[j] else if j == 15 then 1 else 0);
    ghost var k, v, p, before := key[..], iv[..], plaintext[..], ciphertext[..];
    FirstCounter(v);
    var i := 0;
    while i < len
      invariant i % 16 == 0 && key[..] == k && iv[..] == v
      invariant counter[..] == EncryptCounter(v, i / 16)
      invariant DoneUpTo(ciphertext[..], before, Ctr(k, v, p[..len]), i)
      invariant InputIntact(plaintext, ciphertext, p, before)
    {
      EncryptCounterIs(v, i / 16);
      CryptNext(key, counter, plaintext, len, ciphertext, i, v, p, before);
      GcmInc32(counter);
      NextEncryptCounter(v, i / 16);
      i := i + 16;
    }
  }

  lemma FirstCounter(iv: seq<byte>)
    requires |iv| >= 12
    ensures EncryptCounter(iv, 0) == iv[..12] + [0, 0, 0, 1]
  {
  }

  lemma NextEncryptCounter(iv: seq<byte>, n: nat)
    requires |iv| >= 12
    ensures EncryptCounter(iv, n + 1)
         == EncryptCounter(iv, n)[..12] + BigEndian(BigEndianValue(EncryptCounter(iv, n)[12..]) + 1, 4)
  {
  }

  /** aes_gcm_decrypt: the plaintext is written whether or not the tag matches. */
  method Decrypt(key: array?<byte>, iv: array?<byte>, ciphertext: array?<byte>, ctLen: nat,
                 aad: array?<byte>, aadLen: nat, plaintext: array?<byte>, tag: array?<byte>)
    returns (ret: int, ptLen: nat)
    requires key != null ==> key.Length >= 16
    requires iv != null ==> iv.Length >= 12
    requires ciphertext != null ==> ctLen <= ciphertext.Length
    requires aad != null ==> aadLen <= aad.Length
    requires tag != null ==> tag.Length >= 16
    requires plaintext != null ==> ctLen <= plaintext.Length
    requires plaintext != null ==> plaintext != key && plaintext != iv && plaintext != aad && plaintext != tag
    modifies plaintext
    ensures key == null || iv == null || plaintext == null || ciphertext == null || tag == null ==>
              ret == -1 && (plaintext != null ==> plaintext[..] == old(plaintext[..]))
    ensures key != null && iv != null && plaintext != null && ciphertext != null && tag != null ==>
              && ptLen == ctLen
              && plaintext[..ctLen] == Ctr(key[..], iv[..], old(ciphertext[..ctLen]))
              && plaintext[ctLen..] == old(plaintext[ctLen..])
              // in place, the hash runs over what has just been decrypted
              && ret == if tag[..16] == Tag(key[..], iv[..], AadOf(aad, aadLen), aadLen, ciphertext[..ctLen]) then 0 else -1
    ensures key != null && iv != null && plaintext != null && ciphertext != null && tag != null && ciphertext != plaintext ==>
              match Open(key[..], iv[..], AadOf(aad, aadLen), aadLen, Sealed(ciphertext[..ctLen], tag[..16]))
              case None => ret == -1
              case Some(pt) => ret == 0 && plaintext[..ctLen] == pt
  {
    if key == null || iv == null || ciphertext == null || plaintext == null || tag == null {
      return -1, 0;
    }
    DecryptBlocks(key, iv, ciphertext, ctLen, plaintext);
    var hash := ComputeHash(aad, aadLen, ciphertext, ctLen);
    var computed := new byte[16](_ => 0);
    MaskHash(key, iv, hash, computed);
    assert computed[..] == computed[..16];
    ret := if tag[..16] == computed[..] then 0 else -1;
    ptLen := ctLen;
  }

  /**
   The block loop of aes_gcm_decrypt: only bytes 0 to 11 and the low byte of the counter are
   written before each block.
   */
  method DecryptBlocks(key: array<byte>, iv: array<byte>, ciphertext: array<byte>, len: nat, plaintext: array<byte>)
    requires key.Length >= 16 && iv.Length >= 12 && len <= plaintext.Length && len <= ciphertext.Length
    requires plaintext != key && plaintext != iv
    modifies plaintext
    ensures plaintext[..len] == Ctr(key[..], iv[..], old(ciphertext[..len]))
    ensures plaintext[len..] == old(plaintext[len..])
  {
    hide BigEndian, DecryptCounter, LeftOver, Counter, Ctr;
    var counter := new byte[16](_ => 0);
    ghost var k, v, p, before := key[..], iv[..], ciphertext[..], plaintext[..];
    assert counter[..] == LeftOver(v, 0) by {
      NothingLeftOver(v);
    }
    var i := 0;
    while i < len
      invariant i % 16 == 0 && key[..] == k && iv[..] == v
      invariant counter[..] == LeftOver(v, i / 16)
      invariant DoneUpTo(plaintext[..], before, Ctr(k, v, p[..len]), i)
      invariant InputIntact(ciphertext, plaintext, p, before)
    {
      SetCounter(counter, iv, i / 16);
      CountersAgree(v, i / 16);
      CryptNext(key, counter, ciphertext, len, plaintext, i, v, p, before);
      GcmInc32(counter);
      NextLeftOver(v, i / 16);
      i := i + 16;
    }
  }

  /** Before each block: copy the iv, set the low byte, leave the three bytes between. */
  method SetCounter(counter: array<byte>, iv: array<byte>, n: nat)
    requires counter.Length == 16 && iv.Length >= 12 && counter != iv
    requires counter[..] == LeftOver(iv[..], n)
    modifies counter
    ensures counter[..] == DecryptCounter(iv[..], n)
  {
    hide LeftOver;
    ghost var v, left := iv[..], counter[..];
    forall j | 0 <= j < 12 {
      counter[j] := iv[j];
    }
    counter[15] := (n + 1) % 256;
    assert iv[..] == v && counter[..12] == v[..12] && counter[12..15] == left[12..15];
    assert counter[..] == counter[..12] + counter[12..15] + [counter[15]];
  }

  lemma NothingLeftOver(iv: seq<byte>)
    requires |iv| >= 12
    ensures LeftOver(iv, 0) == Zeros(16)
  {
  }

  lemma NextLeftOver(iv: seq<byte>, n: nat)
    requires |iv| >= 12
    ensures LeftOver(iv, n + 1)
         == DecryptCounter(iv, n)[..12] + BigEndian(BigEndianValue(DecryptCounter(iv, n)[12..]) + 1, 4)
  {
  }

  // ---------------------------------------------------------------- round trip

  /** Counter mode with the same key and iv undoes itself. */
  lemma CtrUndo(key: seq<byte>, iv: seq<byte>, data: seq<byte>)
    requires |key| >= 16 && |iv| >= 12
    ensures Ctr(key, iv, Ctr(key, iv, data)) == data
  {
    forall i | 0 <= i < |data|
      ensures Ctr(key, iv, Ctr(key, iv, data))[i] == data[i]
    {
      XorByteUndo(data[i], KeyStream(key, iv, i));
    }
  }

  /**
   For every key, iv, additional data and plaintext of any length: decryption accepts exactly what
   encryption produces, and gives back what was encrypted.
   */
  lemma OpenInvertsSeal(key: seq<byte>, iv: seq<byte>, aad: seq<byte>, aadLen: nat, s: Sealed, pt: seq<byte>)
    requires |key| >= 16 && |iv| >= 12
    ensures Open(key, iv, aad, aadLen, s) == Some(pt) <==> s == Seal(key, iv, aad, aadLen, pt)
  {
    hide Tag;
    CtrUndo(key, iv, pt);
    CtrUndo(key, iv, s.ct);
  }
}
