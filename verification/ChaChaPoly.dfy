/** ChaCha20 and Poly1305 combined: the key stream from block 1 on, the tag over what it yields. */
module ChaChaPoly {
  import opened Bytes
  import opened Wrappers
  import ChaCha20
  import Poly1305

  // ---------------------------------------------------------------- what is computed

  /** What the tag covers: additional data, ciphertext, and their lengths in bits. */
  function MacInput(aad: seq<byte>, ct: seq<byte>): (r: seq<byte>)
    ensures |r| == |aad| + |ct| + 16
  {
    aad + ct + BigEndian(8 * |aad|, 8) + BigEndian(8 * |ct|, 8)
  }

  /** The one-time key is the beginning of block 0. */
  function TagOf(key: seq<byte>, iv: seq<byte>, aad: seq<byte>, ct: seq<byte>): (t: seq<byte>)
    requires |key| >= 32 && |iv| >= 12
    ensures |t| == 16
  {
    Poly1305.Tag(ChaCha20.Block(key, iv, 0), MacInput(aad, ct))
  }

  datatype Sealed = Sealed(ct: seq<byte>, tag: seq<byte>)

  function Seal(key: seq<byte>, iv: seq<byte>, aad: seq<byte>, pt: seq<byte>): (s: Sealed)
    requires |key| >= 32 && |iv| >= 12
    ensures |s.ct| == |pt| && |s.tag| == 16
  {
    var ct := ChaCha20.Xored(key, iv, 1, pt);
    Sealed(ct, TagOf(key, iv, aad, ct))
  }

  function Open(key: seq<byte>, iv: seq<byte>, aad: seq<byte>, s: Sealed): (pt: Option<seq<byte>>)
    requires |key| >= 32 && |iv| >= 12
  {
    if s.tag == TagOf(key, iv, aad, s.ct) then Some(ChaCha20.Xored(key, iv, 1, s.ct)) else None
  }

  /** Decryption accepts exactly what encryption produces, and gives back what was encrypted. */
  lemma OpenInvertsSeal(key: seq<byte>, iv: seq<byte>, aad: seq<byte>, s: Sealed, pt: seq<byte>)
    requires |key| >= 32 && |iv| >= 12
    ensures Open(key, iv, aad, s) == Some(pt) <==> s == Seal(key, iv, aad, pt)
  {
    hide TagOf;
    ChaCha20.XoredUndo(key, iv, 1, pt);
    ChaCha20.XoredUndo(key, iv, 1, s.ct);
  }

  /** Below 2^61 bytes the tag's input fixes both the additional data and the ciphertext. */
  lemma MacInputInjective(aad: seq<byte>, ct: seq<byte>, aad': seq<byte>, ct': seq<byte>)
    requires |aad| < 0x2000_0000_0000_0000 && |ct| < 0x2000_0000_0000_0000
    requires |aad'| < 0x2000_0000_0000_0000 && |ct'| < 0x2000_0000_0000_0000
    requires MacInput(aad, ct) == MacInput(aad', ct')
    ensures aad == aad' && ct == ct'
  {
    hide BigEndian;
    var x, y := MacInput(aad, ct), MacInput(aad', ct');
    assert Pow256(8) == 0x1_0000_0000_0000_0000;
    assert x[|x| - 8..] == BigEndian(8 * |ct|, 8) && y[|y| - 8..] == BigEndian(8 * |ct'|, 8);
    BigEndianInjective(8 * |ct|, 8 * |ct'|, 8);
    assert x[..|aad|] == aad && y[..|aad|] == aad';
    assert x[|aad|..|aad| + |ct|] == ct && y[|aad|..|aad| + |ct|] == ct';
  }

  /** The size the source declares for that buffer. */
  function DeclaredSize(len: nat): nat { 16 + len + 16 }

  /** It is enough exactly when there are at most sixteen bytes of additional data. */
  lemma MacInputFits(aad: seq<byte>, ct: seq<byte>)
    ensures |MacInput(aad, ct)| <= DeclaredSize(|ct|) <==> |aad| <= 16
  {
  }

  // ---------------------------------------------------------------- as coded

  function AadOf(aad: array?<byte>, aadLen: nat): seq<byte>
    requires if aad == null then aadLen == 0 else aadLen <= aad.Length
    reads aad
  {
    if aad == null then [] else aad[..aadLen]
  }

  /** The buffer handed to poly1305_mac, as large as its contents need (MacInputFits). */
  method MakeMacInput(aad: array?<byte>, aadLen: nat, data: array<byte>, len: nat) returns (input: array<byte>, n: nat)
    requires if aad == null then aadLen == 0 else aadLen <= aad.Length
    requires len <= data.Length
    ensures fresh(input) && n <= input.Length && input[..n] == MacInput(AadOf(aad, aadLen), data[..len])
  {
    hide BigEndian;
    input := new byte[aadLen + len + 16](_ => 0);
    n := 0;
    forall j | 0 <= j < aadLen {
      input[j] := aad[j];
    }
    n := n + aadLen;
    forall j | 0 <= j < len {
      input[n + j] := data[j];
    }
    n := n + len;
    assert input[..n] == AadOf(aad, aadLen) + data[..len];
    PutLength(input, n, aadLen);
    PutLength(input, n + 8, len);
    n := n + 16;
  }

  /** The tag over a ciphertext; the one-time key buffer takes the whole block. */
  method ComputeTag(key: array<byte>, iv: array<byte>, aad: array?<byte>, aadLen: nat, data: array<byte>, len: nat)
    returns (tag: array<byte>)
    requires key.Length >= 32 && iv.Length >= 12 && len <= data.Length
    requires if aad == null then aadLen == 0 else aadLen <= aad.Length
    ensures fresh(tag) && tag.Length == 16
    ensures tag[..] == TagOf(key[..], iv[..], AadOf(aad, aadLen), data[..len])
  {
    hide ChaCha20.Block, Poly1305.Tag, MacInput;
    var polyKey := new byte[64](_ => 0);
    ChaCha20.MakeBlock(key, iv, 0, polyKey);
    assert polyKey[..64] == polyKey[..];
    var input, n := MakeMacInput(aad, aadLen, data, len);
    tag := new byte[16](_ => 0);
    Poly1305.PolyMac(polyKey, input, n, tag);
    assert tag[..16] == tag[..];
  }

  /** Encryption once no pointer is null. */
  method EncryptAll(key: array<byte>, iv: array<byte>, plaintext: array<byte>, ptLen: nat,
                    aad: array?<byte>, aadLen: nat, ciphertext: array<byte>, tag: array<byte>)
    requires key.Length >= 32 && iv.Length >= 12 && ptLen <= plaintext.Length && ptLen <= ciphertext.Length
    requires if aad == null then aadLen == 0 else aadLen <= aad.Length
    requires ciphertext != key && ciphertext != iv && ciphertext != aad && tag.Length >= 16 && tag != ciphertext
    modifies ciphertext, tag
    ensures Sealed(ciphertext[..ptLen], tag[..16])
         == Seal(old(key[..]), old(iv[..]), old(AadOf(aad, aadLen)), old(plaintext[..ptLen]))
    ensures ciphertext[ptLen..] == old(ciphertext[ptLen..]) && tag[16..] == old(tag[16..])
  {
    hide TagOf, ChaCha20.Xored;
    ChaCha20.XorStream(key, iv, 1, plaintext, ptLen, ciphertext);
    var computed := ComputeTag(key, iv, aad, aadLen, ciphertext, ptLen);
    CopyTag(computed, tag);
  }

  method CopyTag(from: array<byte>, tag: array<byte>)
    requires from.Length == 16 && tag.Length >= 16 && tag != from
    modifies tag
    ensures tag[..16] == from[..] && tag[16..] == old(tag[16..])
  {
    forall i | 0 <= i < 16 {
      tag[i] := from[i];
    }
  }

  /** chacha20_poly1305_encrypt: `ciphertext` may be the same array as `plaintext`. */
  method Encrypt(key: array?<byte>, iv: array?<byte>, plaintext: array?<byte>, ptLen: nat,
                 aad: array?<byte>, aadLen: nat, ciphertext: array?<byte>, tag: array?<byte>)
    returns (ret: int, ctLen: nat)
    requires key != null ==> key.Length >= 32
    requires iv != null ==> iv.Length >= 12
    requires plaintext != null ==> ptLen <= plaintext.Length
    requires if aad == null then aadLen == 0 else aadLen <= aad.Length
    requires ciphertext != null ==> ptLen <= ciphertext.Length && ciphertext != key && ciphertext != iv && ciphertext != aad
    requires tag != null ==> tag.Length >= 16 && tag != ciphertext
    modifies ciphertext, tag
    ensures ret == if key == null || iv == null || plaintext == null || ciphertext == null || tag == null then -1 else 0
    ensures ret != 0 ==> (ciphertext != null ==> ciphertext[..] == old(ciphertext[..])) && (tag != null ==> tag[..] == old(tag[..]))
    ensures ret == 0 ==>
              && ctLen == ptLen
              && Sealed(ciphertext[..ptLen], tag[..16])
                 == Seal(old(key[..]), old(iv[..]), old(AadOf(aad, aadLen)), old(plaintext[..ptLen]))
              && ciphertext[ptLen..] == old(ciphertext[ptLen..]) && tag[16..] == old(tag[16..])
  {
    if key == null || iv == null || plaintext == null || ciphertext == null || tag == null {
      return -1, 0;
    }
    hide Seal;
    EncryptAll(key, iv, plaintext, ptLen, aad, aadLen, ciphertext, tag);
    return 0, ptLen;
  }

  /** chacha20_poly1305_decrypt: nothing is written unless the tag matches. */
  method Decrypt(key: array?<byte>, iv: array?<byte>, ciphertext: array?<byte>, ctLen: nat,
                 aad: array?<byte>, aadLen: nat, plaintext: array?<byte>, tag: array?<byte>)
    returns (ret: int, ptLen: nat)
    requires key != null ==> key.Length >= 32
    requires iv != null ==> iv.Length >= 12
    requires ciphertext != null ==> ctLen <= ciphertext.Length
    requires if aad == null then aadLen == 0 else aadLen <= aad.Length
    requires tag != null ==> tag.Length >= 16
    requires plaintext != null ==> ctLen <= plaintext.Length && plaintext != key && plaintext != iv
    modifies plaintext
    ensures key == null || iv == null || ciphertext == null || plaintext == null || tag == null ==> ret == -1
    ensures ret != 0 ==> ret == -1 && (plaintext != null ==> plaintext[..] == old(plaintext[..]))
    ensures key != null && iv != null && ciphertext != null && plaintext != null && tag != null ==>
              match Open(old(key[..]), old(iv[..]), old(AadOf(aad, aadLen)), Sealed(old(ciphertext[..ctLen]), old(tag[..16])))
              case None => ret == -1
              case Some(pt) => ret == 0 && ptLen == ctLen && plaintext[..ctLen] == pt && plaintext[ctLen..] == old(plaintext[ctLen..])
  {
    if key == null || iv == null || ciphertext == null || plaintext == null || tag == null {
      return -1, 0;
    }
    hide TagOf, ChaCha20.Xored;
    var computed := ComputeTag(key, iv, aad, aadLen, ciphertext, ctLen);
    if tag[..16] != computed[..] {
      return -1, 0;
    }
    ChaCha20.XorStream(key, iv, 1, ciphertext, ctLen, plaintext);
    return 0, ctLen;
  }
}
