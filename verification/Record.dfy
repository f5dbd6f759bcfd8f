/** The record layer: framing, nonces and the protected records of a connection context. */
module TlsRecord {
  import opened Bytes
  import opened Wrappers
  import opened TlsContext
  import AesGcm

  const ALERT: byte := 0x15
  const APPLICATION_DATA: byte := 0x17
  const MAX_PAYLOAD: nat := 16384

  datatype Record = Record(contentType: byte, version: nat, length: nat, fragment: seq<byte>)

  // ---------------------------------------------------------------- what is on the wire

  /** The iv with the sequence number folded into its last eight bytes. */
  function Nonce(iv: Bytes12, number: uint64): (r: Bytes12)
  {
    iv[..4] + XorBytes(iv[4..], BigEndian(number, 8))
  }

  function Header(contentType: byte, length: nat): (r: seq<byte>)
    ensures |r| == 5
  {
    [contentType, 3, 4] + BigEndian(length, 2)
  }

  function Seal(key: Bytes32, nonce: Bytes12, plaintext: seq<byte>): (r: seq<byte>)
    ensures |r| == |plaintext| + 16
  {
    var ct := AesGcm.Ctr(key, nonce, plaintext);
    ct + AesGcm.Tag(key, nonce, [], 0, ct)
  }

  /** A protected record: header, ciphertext, tag. */
  function Protect(key: Bytes32, iv: Bytes12, number: uint64, contentType: byte, plaintext: seq<byte>): (r: seq<byte>)
    ensures |r| == |plaintext| + 21
  {
    Header(contentType, |plaintext| + 16) + Seal(key, Nonce(iv, number), plaintext)
  }

  /** axon_record_read; `granted` says whether the fragment buffer could be allocated. */
  function Read(data: seq<byte>, granted: bool): Option<Record>
  {
    if |data| < 5 then None else
      var length := BigEndianValue(data[3..5]);
      var version := BigEndianValue(data[1..3]);
      if length > |data| - 5 then None
      else if data[0] == ALERT then None
      else if version != 0x0304 && version != 0x0303 then None
      else if length == 0 || !granted then None
      else Some(Record(data[0], version, length, data[5..5 + length]))
  }

  /** The plaintext of a sealed fragment, if its tag is right. */
  function Open(key: Bytes32, nonce: Bytes12, fragment: seq<byte>): Option<seq<byte>>
    requires |fragment| >= 16
  {
    var ct := fragment[..|fragment| - 16];
    if fragment[|fragment| - 16..] == AesGcm.Tag(key, nonce, [], 0, ct) then Some(AesGcm.Ctr(key, nonce, ct)) else None
  }

  // ---------------------------------------------------------------- the wire byte by byte

  /** Byte `i` of the nonce, in the C operator: the number is folded in from byte 4 on, top byte first. */
  lemma NonceBytes(iv: Bytes12, number: uint64, i: nat)
    requires i < 12
    ensures Nonce(iv, number)[i] == if i < 4 then iv[i] else Xor(iv[i], number / Pow256(11 - i) % 256)
  {
    hide BigEndian, Xor;
    if i >= 4 {
      BigEndianAt(number, 8, i - 4);
    }
  }

  lemma HeaderBytes(contentType: byte, length: nat)
    requires length < 0x1_0000
    ensures Header(contentType, length) == [contentType, 3, 4, length / 256, length % 256]
  {
    assert BigEndian(length, 2) == [length / 256, length % 256] by {
      assert length / 256 % 256 == length / 256;
      assert BigEndian(length / 256, 1) == [] + [length / 256];
    }
    hide BigEndian;
  }

  /**
   What is read: not an alert, version 3.3 or 3.4, a length that is not zero and does not pass the
   end of the input, and a buffer for that many bytes.
   */
  lemma ReadIff(data: seq<byte>, granted: bool, r: Record)
    ensures Read(data, granted) == Some(r)
       <==> && granted && |data| >= 5 && data[0] != 0x15 && data[1] == 3 && (data[2] == 3 || data[2] == 4)
            && r.contentType == data[0] && r.version == 0x0300 + (data[2] as int)
            && r.length == 256 * (data[3] as int) + data[4] && 0 < r.length <= |data| - 5
            && r.fragment == data[5..5 + r.length]
  {
    if |data| >= 5 {
      assert data[1..3][..2] == data[1..3] && data[3..5][..2] == data[3..5];
      ValueByByte(data[1..3], 2);
      ValueByByte(data[3..5], 2);
      hide BigEndianValue;
      assert (data[1] as int) * 256 + data[2] == 0x0304 <==> data[1] == 3 && data[2] == 4;
      assert (data[1] as int) * 256 + data[2] == 0x0303 <==> data[1] == 3 && data[2] == 3;
    }
  }

  /** A protected record byte by byte: type, version 3.4, the sealed length, the sealed fragment under this number's nonce. */
  lemma ProtectBytes(key: Bytes32, iv: Bytes12, number: uint64, contentType: byte, plaintext: seq<byte>)
    requires |plaintext| <= 16384
    ensures var r, n := Protect(key, iv, number, contentType, plaintext), |plaintext| + 16;
            && r[..5] == [contentType, 3, 4, n / 256, n % 256]
            && r[5..] == Seal(key, Nonce(iv, number), plaintext)
  {
    HeaderBytes(contentType, |plaintext| + 16);
    hide Header, Seal, Nonce;
  }

  /** The fragment is what AES-GCM makes of the plaintext without additional data, the tag last. */
  lemma SealIs(key: Bytes32, nonce: Bytes12, plaintext: seq<byte>)
    ensures var s := AesGcm.Seal(key, nonce, [], 0, plaintext);
            Seal(key, nonce, plaintext) == s.ct + s.tag
  {
  }

  // ---------------------------------------------------------------- facts about them

  /** A written record reads back, whatever follows it in the input, unless it is an alert or empty; then it is refused. */
  lemma ReadOfHeader(contentType: byte, payload: seq<byte>, rest: seq<byte>)
    requires |payload| < 0x1_0000
    ensures Read(Header(contentType, |payload|) + payload + rest, true)
         == if contentType != ALERT && payload != [] then Some(Record(contentType, 0x0304, |payload|, payload)) else None
  {
    hide BigEndian, BigEndianValue, Header;
    HeaderFields(contentType, |payload|);
    var data := Header(contentType, |payload|) + payload + rest;
    assert data[..5] == Header(contentType, |payload|);
    assert data[3..5] == data[..5][3..5] && data[1..3] == data[..5][1..3] && data[0] == data[..5][0];
    assert data[5..5 + |payload|] == payload;
  }

  lemma HeaderFields(contentType: byte, length: nat)
    requires length < 0x1_0000
    ensures var h := Header(contentType, length);
            h[0] == contentType && BigEndianValue(h[1..3]) == 0x0304 && BigEndianValue(h[3..5]) == length
  {
    var h := Header(contentType, length);
    assert h[3..5] == BigEndian(length, 2);
    ValueOfBigEndian(length, 2);
    assert Pow256(2) == 0x1_0000;
    assert h[1..3] == [3, 4];
    assert [3, 4][..1] == [3] && [3][..0] == [];
    assert BigEndianValue([3]) == 3;
  }

  /** Opening what was sealed with the same nonce gives it back. */
  lemma OpenOfSeal(key: Bytes32, nonce: Bytes12, plaintext: seq<byte>)
    ensures Open(key, nonce, Seal(key, nonce, plaintext)) == Some(plaintext)
  {
    var ct := AesGcm.Ctr(key, nonce, plaintext);
    assert Seal(key, nonce, plaintext)[..|plaintext|] == ct;
    AesGcm.CtrUndo(key, nonce, plaintext);
  }

  /** Distinct sequence numbers give distinct nonces. */
  lemma NonceInjective(iv: Bytes12, m: uint64, n: uint64)
    requires Nonce(iv, m) == Nonce(iv, n)
    ensures m == n
  {
    var x, y := BigEndian(m, 8), BigEndian(n, 8);
    assert Nonce(iv, m)[4..] == XorBytes(iv[4..], x) && Nonce(iv, n)[4..] == XorBytes(iv[4..], y);
    forall i | 0 <= i < 8
      ensures x[i] == y[i]
    {
      XorByteInjective(iv[4..][i], x[i], y[i]);
    }
    assert Pow256(8) == 0x1_0000_0000_0000_0000;
    BigEndianInjective(m, n, 8);
  }

  /** Distinct nonces give distinct tags on the same ciphertext. */
  lemma TagSeparatesNonces(key: Bytes32, m: Bytes12, n: Bytes12, ct: seq<byte>)
    requires m != n
    ensures AesGcm.Tag(key, m, [], 0, ct) != AesGcm.Tag(key, n, [], 0, ct)
  {
    if AesGcm.Tag(key, m, [], 0, ct) == AesGcm.Tag(key, n, [], 0, ct) {
      var h := AesGcm.GHashAll(AesGcm.GHashAll(AesGcm.AadHash([]), ct), AesGcm.LengthBlock(0, |ct|));
      var x, y := AesGcm.AuthKey(key, m), AesGcm.AuthKey(key, n);
      hide AesGcm.GHashAll, AesGcm.AadHash, AesGcm.LengthBlock;
      forall i | 0 <= i < 12
        ensures m[i] == n[i]
      {
        assert XorBytes(h, x)[i] == XorBytes(h, y)[i];
        XorByteInjective(h[i], x[i], y[i]);
        XorByteInjective(key[i], m[i], n[i]);
      }
      assert false;
    }
  }

  /** A fragment sealed under another sequence number does not open. */
  lemma OpenOfOtherSeal(key: Bytes32, iv: Bytes12, m: uint64, n: uint64, plaintext: seq<byte>)
    requires m != n
    ensures Open(key, Nonce(iv, n), Seal(key, Nonce(iv, m), plaintext)) == None
  {
    if Nonce(iv, m) == Nonce(iv, n) {
      NonceInjective(iv, m, n);
    }
    var ct := AesGcm.Ctr(key, Nonce(iv, m), plaintext);
    var s := Seal(key, Nonce(iv, m), plaintext);
    assert s[..|s| - 16] == ct && s[|s| - 16..] == AesGcm.Tag(key, Nonce(iv, m), [], 0, ct);
    TagSeparatesNonces(key, Nonce(iv, m), Nonce(iv, n), ct);
  }

  // ---------------------------------------------------------------- operations on a context

  /** axon_record_write: an unprotected record. */
  method WriteRecord(contentType: byte, payload: seq<byte>, out: array<byte>) returns (ret: int, outLen: nat)
    requires out.Length >= |payload| + 5
    modifies out
    ensures ret == if |payload| > 16384 then -1 else 0
    ensures ret == 0 ==> outLen == |payload| + 5 && out[..outLen] == Header(contentType, |payload|) + payload
    ensures ret == 0 ==> out[outLen..] == old(out[outLen..])
    ensures ret != 0 ==> out[..] == old(out[..])
  {
    if |payload| > MAX_PAYLOAD {
      return -1, 0;
    }
    var header := Header(contentType, |payload|);
    Put(out, 0, header);
    Put(out, 5, payload);
    assert out[..5] == header;
    assert out[..5 + |payload|] == out[..5] + out[5..5 + |payload|];
    return 0, 5 + |payload|;
  }

  /** memcpy into an output buffer. */
  method Put(out: array<byte>, offset: nat, data: seq<byte>)
    requires offset + |data| <= out.Length
    modifies out
    ensures out[..offset] == old(out[..offset])
    ensures out[offset..offset + |data|] == data
    ensures out[offset + |data|..] == old(out[offset + |data|..])
  {
    forall i | 0 <= i < |data| {
      out[offset + i] := data[i];
    }
  }

  /** build_nonce: copy the iv, then fold in the sequence number byte by byte. */
  method BuildNonce(nonce: array<byte>, iv: Bytes12, number: uint64)
    requires nonce.Length == 12
    modifies nonce
    ensures nonce[..] == Nonce(iv, number)
  {
    for i := 0 to 12
      invariant forall j :: 0 <= j < i ==> nonce[j] == iv[j]
    {
      nonce[i] := iv[i];
    }
    hide BigEndian, XorByte;
    ghost var b := BigEndian(number, 8);
    for i := 0 to 8
      invariant forall j :: 0 <= j < 4 ==> nonce[j] == iv[j]
      invariant forall j :: 4 <= j < 4 + i ==> nonce[j] == XorByte(iv[j], b[j - 4])
      invariant forall j :: 4 + i <= j < 12 ==> nonce[j] == iv[j]
    {
      BigEndianAt(number, 8, i);
      nonce[4 + i] := XorByte(nonce[4 + i], number / Pow256(7 - i) % 256);
    }
  }

  function Next(number: uint64): uint64 {
    (number + 1) % 0x1_0000_0000_0000_0000
  }

  method ArrayOf(s: seq<byte>) returns (a: array<byte>)
    ensures fresh(a) && a[..] == s
  {
    a := new byte[|s|](i requires 0 <= i < |s| => s[i]);
  }

  /** Header, ciphertext and tag, one after the other. */
  method FrameRecord(out: array<byte>, contentType: byte, ct: seq<byte>, tag: seq<byte>)
    requires |tag| == 16 && out.Length >= |ct| + 21
    modifies out
    ensures out[..|ct| + 21] == Header(contentType, |ct| + 16) + (ct + tag)
    ensures out[|ct| + 21..] == old(out[|ct| + 21..])
  {
    var header := Header(contentType, |ct| + 16);
    Put(out, 0, header);
    assert out[..5] == header;
    Put(out, 5, ct);
    assert out[..5 + |ct|] == header + ct;
    Put(out, 5 + |ct|, tag);
    assert out[..|ct| + 21] == out[..5 + |ct|] + out[5 + |ct|..|ct| + 21];
    assert header + (ct + tag) == header + ct + tag;
  }

  /**
   axon_record_encrypt. The sequence number advances as soon as the arguments are accepted, also
   when aes_gcm_encrypt then rejects a null plaintext.
   */
  method EncryptRecord(ctx: Context, contentType: byte, plaintext: array?<byte>, len: nat, out: array<byte>)
    returns (ret: int, outLen: nat)
    requires plaintext != null ==> len <= plaintext.Length
    requires out.Length >= len + 21
    modifies ctx`sequenceNumber, out
    ensures ret == if len > 16384 || plaintext == null then -1 else 0
    ensures len > 16384 ==> ctx.sequenceNumber == old(ctx.sequenceNumber)
    ensures len <= 16384 ==>
              ctx.sequenceNumber == Next(old(ctx.sequenceNumber)) == ((old(ctx.sequenceNumber) as int) + 1) % 0x1_0000_0000_0000_0000
    ensures ret != 0 ==> out[..] == old(out[..])
    ensures ret == 0 ==>
              && outLen == len + 21
              && out[..outLen] == Protect(ctx.writeKey, ctx.writeIv, old(ctx.sequenceNumber), contentType, old(plaintext[..len]))
              && out[outLen..] == old(out[outLen..])
  {
    if len > MAX_PAYLOAD {
      return -1, 0;
    }
    hide AesGcm.Ctr, AesGcm.Tag, Header, Nonce;
    var key := ArrayOf(ctx.writeKey);
    var nonce := new byte[12];
    BuildNonce(nonce, ctx.writeIv, ctx.sequenceNumber);
    ctx.sequenceNumber := Next(ctx.sequenceNumber);
    var tag := new byte[16](_ => 0);
    var ciphertext := new byte[MAX_PAYLOAD](_ => 0);
    var r, ctLen := AesGcm.Encrypt(key, nonce, plaintext, len, null, 0, ciphertext, tag);
    if r < 0 {
      return -1, 0;
    }
    FrameRecord(out, contentType, ciphertext[..ctLen], tag[..16]);
    return 0, 5 + ctLen + 16;
  }

  /** axon_record_decrypt: the plaintext buffer is filled whether or not the tag is right. */
  method DecryptRecord(ctx: Context, record: Record, plaintext: array<byte>) returns (ret: int, outLen: nat)
    requires record.length == |record.fragment|
    requires record.length >= 16 ==> plaintext.Length >= record.length - 16
    modifies ctx`sequenceNumber, plaintext
    ensures record.contentType != 0x17 || record.length < 16 ==>
              ret == -1 && ctx.sequenceNumber == old(ctx.sequenceNumber) && plaintext[..] == old(plaintext[..])
    ensures record.contentType == 0x17 && record.length >= 16 ==>
              && ctx.sequenceNumber == Next(old(ctx.sequenceNumber)) == ((old(ctx.sequenceNumber) as int) + 1) % 0x1_0000_0000_0000_0000
              && outLen == record.length - 16
              && plaintext[outLen..] == old(plaintext[outLen..])
              && match Open(ctx.readKey, Nonce(ctx.readIv, old(ctx.sequenceNumber)), record.fragment)
                 case None => ret == -1
                 case Some(p) => ret == 0 && plaintext[..outLen] == p
  {
    hide AesGcm.Ctr, AesGcm.Tag, Nonce;
    if record.contentType != APPLICATION_DATA {
      return -1, 0;
    }
    if record.length < 16 {
      return -1, 0;
    }
    var nonce := new byte[12];
    BuildNonce(nonce, ctx.readIv, ctx.sequenceNumber);
    ctx.sequenceNumber := Next(ctx.sequenceNumber);
    var key := ArrayOf(ctx.readKey);
    var n := record.length - 16;
    var tag := ArrayOf(record.fragment[n..]);
    var fragment := ArrayOf(record.fragment);
    assert fragment[..n] == record.fragment[..n];
    assert tag[..16] == tag[..];
    ret, outLen := AesGcm.Decrypt(key, nonce, fragment, n, null, 0, plaintext, tag);
  }
}
