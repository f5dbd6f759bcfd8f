/** HKDF as this repository codes it: a plain hash in place of HMAC, and no limit on the output length. */
module Hkdf {
  import opened Bytes
  import Sha256

  /** hkdf_extract: an empty salt stands for 32 zero bytes. */
  function Extracted(salt: seq<byte>, ikm: seq<byte>): (r: seq<byte>)
    ensures |r| == 32
  {
    Sha256.Digest((if |salt| == 0 then Zeros(32) else salt) + ikm)
  }

  /** T(i): each block hashes the one before it, the info and a one-byte counter that wraps. */
  function T(prk: seq<byte>, info: seq<byte>, i: nat): (r: seq<byte>)
    ensures |r| == if i == 0 then 0 else 32
  {
    if i == 0 then [] else Sha256.Digest(prk + T(prk, info, i - 1) + info + [CounterByte(i)])
  }

  function CounterByte(i: nat): byte {
    i % 256
  }

  /** `counter++` on a uint8_t. */
  function Incremented(counter: byte): byte {
    (counter + 1) % 256
  }

  lemma CounterWraps(i: nat)
    ensures Incremented(CounterByte(i)) == CounterByte(i + 1)
  {
  }

  /** T(1), T(2), ..., T(n) one after the other. */
  function Stream(prk: seq<byte>, info: seq<byte>, n: nat): (r: seq<byte>)
    ensures |r| == 32 * n
  {
    if n == 0 then [] else Stream(prk, info, n - 1) + T(prk, info, n)
  }

  /** The output key material of a given length. */
  function Okm(prk: seq<byte>, info: seq<byte>, len: nat): (r: seq<byte>)
    ensures |r| == len
  {
    Stream(prk, info, (len + 31) / 32)[..len]
  }

  lemma {:induction false} StreamPrefix(prk: seq<byte>, info: seq<byte>, m: nat, n: nat)
    requires m <= n
    ensures Stream(prk, info, n)[..32 * m] == Stream(prk, info, m)
  {
    hide T;
    if m < n {
      StreamPrefix(prk, info, m, n - 1);
      PrefixOfSum(Stream(prk, info, n - 1), T(prk, info, n), 32 * m);
    }
  }

  lemma PrefixOfSum(x: seq<byte>, y: seq<byte>, k: nat)
    requires k <= |x|
    ensures (x + y)[..k] == x[..k]
  {
  }

  /** A shorter output is a prefix of a longer one. */
  lemma OkmPrefix(prk: seq<byte>, info: seq<byte>, short: nat, long: nat)
    requires short <= long
    ensures Okm(prk, info, long)[..short] == Okm(prk, info, short)
  {
    hide Stream;
    var m, n := (short + 31) / 32, (long + 31) / 32;
    StreamPrefix(prk, info, m, n);
    assert Okm(prk, info, long)[..short] == Stream(prk, info, n)[..32 * m][..short];
  }

  /** Each 32 bytes of output are the hash of the key, the 32 bytes before them, the info and a counter byte. */
  lemma OkmBlocks(prk: seq<byte>, info: seq<byte>, len: nat, i: nat)
    requires 32 * (i + 1) <= len
    ensures var okm := Okm(prk, info, len);
            var previous := if i == 0 then [] else okm[32 * (i - 1)..32 * i];
            okm[32 * i..32 * (i + 1)] == Sha256.Digest(prk + previous + info + [(i + 1) % 256])
  {
    hide Sha256.Digest;
    OkmBlock(prk, info, len, i);
    if i > 0 {
      OkmBlock(prk, info, len, i - 1);
    }
  }

  lemma OkmBlock(prk: seq<byte>, info: seq<byte>, len: nat, i: nat)
    requires 32 * (i + 1) <= len
    ensures Okm(prk, info, len)[32 * i..32 * (i + 1)] == T(prk, info, i + 1)
  {
    OkmPrefix(prk, info, 32 * (i + 1), len);
    WholeBlocks(prk, info, i);
    hide Okm, Stream, T;
    var okm := Okm(prk, info, len);
    assert okm[32 * i..32 * (i + 1)] == okm[..32 * (i + 1)][32 * i..];
    assert (Stream(prk, info, i) + T(prk, info, i + 1))[32 * i..] == T(prk, info, i + 1);
  }

  lemma WholeBlocks(prk: seq<byte>, info: seq<byte>, i: nat)
    ensures Okm(prk, info, 32 * (i + 1)) == Stream(prk, info, i) + T(prk, info, i + 1)
  {
    hide T;
    assert (32 * (i + 1) + 31) / 32 == i + 1;
    assert Stream(prk, info, i + 1) == Stream(prk, info, i) + T(prk, info, i + 1);
    hide Stream;
  }

  method Extract(salt: seq<byte>, ikm: seq<byte>) returns (prk: seq<byte>)
    ensures prk == Extracted(salt, ikm) == Sha256.Digest((if |salt| == 0 then Zeros(32) else salt) + ikm)
  {
    hide Sha256.Digest;
    var s := if |salt| == 0 then Zeros(32) else salt;
    var ctx := new Sha256.Context();
    ctx.Update(s);
    ctx.Update(ikm);
    assert [] + s == s;
    prk := ctx.Final();
  }

  /** hkdf_expand. */
  method Expand(prk: seq<byte>, info: seq<byte>, okm: array<byte>, okmLen: nat) returns (ret: int)
    requires okmLen <= okm.Length
    modifies okm
    ensures ret == if |prk| != 32 then -1 else 0
    ensures ret == 0 ==> okm[..okmLen] == Okm(prk, info, okmLen)
    ensures ret == 0 ==> okm[okmLen..] == old(okm[okmLen..])
    ensures ret != 0 ==> okm[..] == old(okm[..])
  {
    if |prk| != 32 {
      return -1;
    }
    ExpandLoop(prk, info, okm, okmLen);
    return 0;
  }

  method ExpandLoop(prk: seq<byte>, info: seq<byte>, okm: array<byte>, okmLen: nat)
    requires okmLen <= okm.Length
    modifies okm
    ensures okm[..okmLen] == Okm(prk, info, okmLen)
    ensures okm[okmLen..] == old(okm[okmLen..])
  {
    hide T, Filled, Okm, Stream, Incremented;
    StreamStarts(prk, info, okm[..], okmLen);
    var counter: byte, generated, previous := 1, 0, [];
    ghost var n, before := 0, okm[..];
    while generated < okmLen
      invariant generated == Generated(n, okmLen) && 32 * n < okmLen + 32
      invariant counter == CounterByte(n + 1)
      invariant previous == T(prk, info, n)
      invariant Filled(okm[..], before, prk, info, n, okmLen)
    {
      hide CounterByte;
      previous, generated := ExpandTurn(prk, info, okm, okmLen, previous, counter, generated, n, before);
      CounterWraps(n + 1);
      counter := Incremented(counter);
      n := n + 1;
    }
    StreamEnds(okm[..], before, prk, info, n, okmLen);
  }

  /** One turn of the loop of hkdf_expand. */
  method ExpandTurn(prk: seq<byte>, info: seq<byte>, okm: array<byte>, okmLen: nat, previous: seq<byte>, counter: byte,
                    generated: nat, ghost n: nat, ghost before: seq<byte>) returns (digest: seq<byte>, generated': nat)
    requires okmLen <= okm.Length && generated == 32 * n < okmLen
    requires counter == CounterByte(n + 1) && previous == T(prk, info, n)
    requires Filled(okm[..], before, prk, info, n, okmLen)
    modifies okm
    ensures digest == T(prk, info, n + 1) && generated' == Generated(n + 1, okmLen)
    ensures Filled(okm[..], before, prk, info, n + 1, okmLen)
  {
    hide T, Sha256.Digest;
    digest := NextBlock(prk, info, previous, counter, generated > 0);
    StreamGrows(prk, info, n, digest, counter);
    var toCopy := if okmLen - generated < 32 then okmLen - generated else 32;
    ghost var was := okm[..];
    Copy(okm, generated, digest, toCopy);
    OutputGrows(before, was, okm[..], Stream(prk, info, n), digest, toCopy);
    generated' := generated + toCopy;
  }

  /** The first `n` blocks are in place, cut off at the requested length; the rest is untouched. */
  ghost predicate Filled(now: seq<byte>, before: seq<byte>, prk: seq<byte>, info: seq<byte>, n: nat, okmLen: nat) {
    && okmLen <= |now| == |before|
    && now == Stream(prk, info, n)[..Generated(n, okmLen)] + before[Generated(n, okmLen)..]
  }

  lemma StreamEnds(now: seq<byte>, before: seq<byte>, prk: seq<byte>, info: seq<byte>, n: nat, okmLen: nat)
    requires Filled(now, before, prk, info, n, okmLen) && Generated(n, okmLen) == okmLen && 32 * n < okmLen + 32
    ensures now[..okmLen] == Okm(prk, info, okmLen) && now[okmLen..] == before[okmLen..]
  {
    assert n == (okmLen + 31) / 32;
  }

  /** How much of the output `n` turns have written. */
  function Generated(n: nat, okmLen: nat): nat {
    if 32 * n < okmLen then 32 * n else okmLen
  }

  lemma OutputGrows(before: seq<byte>, was: seq<byte>, now: seq<byte>, s: seq<byte>, d: seq<byte>, k: nat)
    requires |s| + k <= |before| && k <= |d| && |was| == |before|
    requires was == s[..|s|] + before[|s|..]
    requires |now| == |was| && now[..|s|] == was[..|s|] && now[|s|..|s| + k] == d[..k] && now[|s| + k..] == was[|s| + k..]
    ensures now == (s + d)[..|s| + k] + before[|s| + k..]
  {
    assert now == now[..|s|] + now[|s|..|s| + k] + now[|s| + k..];
  }

  lemma StreamStarts(prk: seq<byte>, info: seq<byte>, out: seq<byte>, okmLen: nat)
    requires okmLen <= |out|
    ensures T(prk, info, 0) == [] && Filled(out, out, prk, info, 0, okmLen)
  {
  }

  lemma StreamGrows(prk: seq<byte>, info: seq<byte>, n: nat, digest: seq<byte>, counter: byte)
    requires counter == CounterByte(n + 1)
    requires digest == Sha256.Digest(prk + T(prk, info, n) + info + [counter])
    ensures digest == T(prk, info, n + 1)
    ensures Stream(prk, info, n + 1) == Stream(prk, info, n) + digest
  {
    hide Sha256.Digest;
  }

  /** One turn's hash: prk, the previous block except the first time, info if any, the counter. */
  method NextBlock(prk: seq<byte>, info: seq<byte>, previous: seq<byte>, counter: byte, later: bool) returns (digest: seq<byte>)
    requires !later ==> previous == []
    ensures digest == Sha256.Digest(prk + previous + info + [counter])
  {
    hide Sha256.Digest, Sha256.ChainingValue, Sha256.Buffered;
    var ctx := new Sha256.Context();
    ctx.Update(prk);
    if later {
      ctx.Update(previous);
    }
    if |info| > 0 {
      ctx.Update(info);
    }
    ctx.Update([counter]);
    assert ctx.message == prk + previous + info + [counter];
    digest := ctx.Final();
  }

  method Copy(okm: array<byte>, offset: nat, data: seq<byte>, n: nat)
    requires offset + n <= okm.Length && n <= |data|
    modifies okm
    ensures okm[..offset] == old(okm[..offset])
    ensures okm[offset..offset + n] == data[..n]
    ensures okm[offset + n..] == old(okm[offset + n..])
  {
    forall i | 0 <= i < n {
      okm[offset + i] := data[i];
    }
  }
}
