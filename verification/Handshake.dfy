/** The server's handshake messages, the Finished check and the key derivation. */
module Handshake {
  import opened Bytes
  import opened Wrappers
  import opened TlsContext
  import opened StateMachine
  import Hkdf
  import Sha256
  import TlsRecord
  import X25519

  // ---------------------------------------------------------------- messages as bytes

  /** Type, three-byte length, body (section 4 of RFC 8446). */
  function Message(kind: byte, body: seq<byte>): (r: seq<byte>)
    ensures |r| == 4 + |body|
  {
    [kind] + BigEndian(|body|, 3) + body
  }

  datatype Parsed = Parsed(kind: byte, body: seq<byte>)

  /** Cutting bytes into messages by their lengths, with nothing left over. */
  function Messages(s: seq<byte>): Option<seq<Parsed>>
    decreases |s|
  {
    if s == [] then Some([])
    else if |s| < 4 then None
    else
      var n := BigEndianValue(s[1..4]);
      if |s| < 4 + n then None else
        match Messages(s[4 + n..])
        case None => None
        case Some(rest) => Some([Parsed(s[0], s[4..4 + n])] + rest)
  }

  function Join(messages: seq<Parsed>): (r: seq<byte>) {
    if messages == [] then [] else Message(messages[0].kind, messages[0].body) + Join(messages[1..])
  }

  predicate BodiesFit(messages: seq<Parsed>) {
    forall i :: 0 <= i < |messages| ==> |messages[i].body| < 0x100_0000
  }

  /** The first message of a string is found again. */
  lemma MessageFirst(kind: byte, body: seq<byte>, rest: seq<byte>)
    requires |body| < 0x100_0000
    ensures var s := Message(kind, body) + rest;
            && s[0] == kind && BigEndianValue(s[1..4]) == |body|
            && s[4..4 + |body|] == body && s[4 + |body|..] == rest
  {
    var s := Message(kind, body) + rest;
    hide BigEndian;
    assert s[1..4] == BigEndian(|body|, 3);
    ValueOfBigEndian(|body|, 3);
    assert Pow256(3) == 0x100_0000;
  }

  /** A string is cut into a list of messages exactly when it is their concatenation. */
  lemma {:induction false} MessagesIffJoin(s: seq<byte>, messages: seq<Parsed>)
    ensures Messages(s) == Some(messages) <==> s == Join(messages) && BodiesFit(messages)
    decreases |s| + |messages|
  {
    hide Message, BigEndian, BigEndianValue;
    if messages != [] {
      var first, rest := messages[0], messages[1..];
      if s == Join(messages) && BodiesFit(messages) {
        MessageFirst(first.kind, first.body, Join(rest));
        MessagesIffJoin(Join(rest), rest);
        assert messages == [first] + rest;
      }
      if Messages(s) == Some(messages) {
        var n := BigEndianValue(s[1..4]);
        var others := Messages(s[4 + n..]).value;
        assert messages == [Parsed(s[0], s[4..4 + n])] + others;
        assert rest == others;
        MessagesIffJoin(s[4 + n..], rest);
        HeaderIs(s, n);
      }
    } else if Messages(s) == Some(messages) {
      NothingCut(s);
    }
  }

  lemma NothingCut(s: seq<byte>)
    requires Messages(s) == Some([])
    ensures s == []
  {
  }

  lemma HeaderIs(s: seq<byte>, n: nat)
    requires |s| >= 4 + n && n == BigEndianValue(s[1..4])
    ensures n < 0x100_0000 && s == Message(s[0], s[4..4 + n]) + s[4 + n..]
  {
    hide BigEndian, BigEndianValue;
    ValueBound(s[1..4]);
    assert Pow256(3) == 0x100_0000;
    BigEndianOfValue(s[1..4]);
  }

  // ---------------------------------------------------------------- what the server sends

  function ServerHello(random: Bytes32, suite: nat, publicKey: Bytes32): (r: seq<byte>)
    ensures |r| == 86
  {
    Message(SERVER_HELLO, [3, 4] + random + [0] + BigEndian(suite, 2) + [0, 0, 0] + BigEndian(40, 2)
      + [0, 0x22, 0, 0x24, 0, 0x1D, 0, 0x20] + publicKey)
  }

  /** Where each field of a ServerHello body lies. */
  ghost predicate HelloBody(b: seq<byte>, random: Bytes32, suite: nat, publicKey: Bytes32) {
    && |b| == 82
    && b[0..2] == [3, 4] && b[2..34] == random && b[34] == 0
    && b[35..37] == BigEndian(suite, 2) && b[37] == 0 && b[38..40] == [0, 0] && b[40..42] == [0, 40]
    && b[42..44] == [0, 0x22] && b[44..46] == [0, 0x24] && b[46..48] == [0, 0x1D] && b[48..50] == [0, 0x20]
    && b[50..82] == publicKey
  }

  lemma HelloLayout(random: Bytes32, suite: nat, publicKey: Bytes32)
    ensures ServerHello(random, suite, publicKey) == Message(2, ServerHello(random, suite, publicKey)[4..])
    ensures HelloBody(ServerHello(random, suite, publicKey)[4..], random, suite, publicKey)
  {
    assert BigEndian(40, 2) == [0, 40];
    hide BigEndian;
    var front := [3, 4] + random + [0] + BigEndian(suite, 2) + [0, 0, 0] + [0, 40];
    var b := ServerHello(random, suite, publicKey)[4..];
    assert b == front + [0, 0x22, 0, 0x24, 0, 0x1D, 0, 0x20] + publicKey;
    PartsOf(front, random, BigEndian(suite, 2));
    PartsBehind(front, publicKey);
    assert forall i, j :: 0 <= i <= j <= 42 ==> b[i..j] == front[i..j];
  }

  lemma PartsOf(front: seq<byte>, random: Bytes32, suite: seq<byte>)
    requires |suite| == 2 && front == [3, 4] + random + [0] + suite + [0, 0, 0] + [0, 40]
    ensures |front| == 42 && front[0..2] == [3, 4] && front[2..34] == random && front[34] == 0
    ensures front[35..37] == suite && front[37] == 0 && front[38..40] == [0, 0] && front[40..42] == [0, 40]
  {
  }

  lemma PartsBehind(front: seq<byte>, publicKey: Bytes32)
    requires |front| == 42
    ensures var b := front + [0, 0x22, 0, 0x24, 0, 0x1D, 0, 0x20] + publicKey;
            && |b| == 82 && b[42..44] == [0, 0x22] && b[44..46] == [0, 0x24] && b[46..48] == [0, 0x1D] && b[48..50] == [0, 0x20]
            && b[50..82] == publicKey
  {
  }

  lemma HelloBodyIsOne(b: seq<byte>, c: seq<byte>, random: Bytes32, suite: nat, publicKey: Bytes32)
    requires HelloBody(b, random, suite, publicKey) && HelloBody(c, random, suite, publicKey)
    ensures b == c
  {
    hide BigEndian;
    Parts(b);
    Parts(c);
  }

  lemma Parts(b: seq<byte>)
    requires |b| == 82
    ensures b == b[0..2] + b[2..34] + [b[34]] + b[35..37] + [b[37]] + b[38..40] + b[40..42] + b[42..44] + b[44..46] + b[46..48]
                 + b[48..50] + b[50..82]
  {
  }

  /** What a client gets out of a ServerHello message: random, cipher suite and key share. */
  function ReadServerHello(s: seq<byte>): Option<(Bytes32, nat, Bytes32)> {
    if |s| != 86 || s[..4] != [2, 0, 0, 82] then None else
      var b := s[4..];
      if b[0..2] == [3, 4] && b[34] == 0 && b[37] == 0 && b[38..40] == [0, 0] && b[40..42] == [0, 40]
         && b[42..44] == [0, 0x22] && b[44..46] == [0, 0x24] && b[46..48] == [0, 0x1D] && b[48..50] == [0, 0x20]
      then Some((b[2..34], 256 * (b[35] as int) + b[36], b[50..82])) else None
  }

  lemma TwoBytes(suite: nat)
    requires suite < 0x1_0000
    ensures BigEndian(suite, 2) == [suite / 256, suite % 256] && BigEndian(82, 3) == [0, 0, 82]
  {
  }

  lemma SuiteBytes(x: byte, y: byte)
    ensures var n := 256 * (x as int) + y; n < 0x1_0000 && n / 256 == x && n % 256 == y
  {
  }

  lemma HelloReads(s: seq<byte>, random: Bytes32, suite: nat, publicKey: Bytes32)
    requires suite < 0x1_0000 && |s| == 86 && s[..4] == [2, 0, 0, 82] && HelloBody(s[4..], random, suite, publicKey)
    ensures ReadServerHello(s) == Some((random, suite, publicKey))
  {
    TwoBytes(suite);
    hide BigEndian;
    var b := s[4..];
    assert b[35] == b[35..37][0] && b[36] == b[35..37][1];
  }

  lemma ReadGivesBody(s: seq<byte>, random: Bytes32, suite: nat, publicKey: Bytes32)
    requires suite < 0x1_0000 && ReadServerHello(s) == Some((random, suite, publicKey))
    ensures |s| == 86 && s[..4] == [2, 0, 0, 82] && HelloBody(s[4..], random, suite, publicKey)
  {
    TwoBytes(suite);
    hide BigEndian;
    var b := s[4..];
    SuiteBytes(b[35], b[36]);
    assert b[35..37] == [b[35], b[36]];
  }

  /** A message reads as these three fields exactly when it is the ServerHello made from them. */
  lemma ReadServerHelloIff(s: seq<byte>, random: Bytes32, suite: nat, publicKey: Bytes32)
    requires suite < 0x1_0000
    ensures ReadServerHello(s) == Some((random, suite, publicKey)) <==> s == ServerHello(random, suite, publicKey)
  {
    var hello := ServerHello(random, suite, publicKey);
    HelloLayout(random, suite, publicKey);
    TwoBytes(suite);
    assert hello[..4] == [2, 0, 0, 82] by { hide BigEndian, ServerHello; }
    hide BigEndian, ServerHello, HelloBody, ReadServerHello, Message;
    HelloReads(hello, random, suite, publicKey);
    if ReadServerHello(s) == Some((random, suite, publicKey)) {
      ReadGivesBody(s, random, suite, publicKey);
      HelloBodyIsOne(s[4..], hello[4..], random, suite, publicKey);
      assert s == s[..4] + s[4..] && hello == hello[..4] + hello[4..];
    }
  }

  function EncryptedExtensionsMessage(): (r: seq<byte>)
    ensures |r| == 6
  {
    Message(ENCRYPTED_EXTENSIONS, Zeros(2))
  }

  function CertificateMessage(): (r: seq<byte>)
    ensures |r| == 13
  {
    Message(CERTIFICATE, Zeros(9))
  }

  function Reversed(s: seq<byte>): (r: seq<byte>)
    ensures |r| == |s|
    ensures forall i :: 0 <= i < |s| ==> r[i] == s[|s| - 1 - i]
  {
    seq(|s|, i requires 0 <= i < |s| => s[|s| - 1 - i])
  }

  /** The placeholder signature: the transcript hash forwards and backwards. */
  function Signature(transcript: seq<byte>): (r: seq<byte>)
    ensures |r| == 64
  {
    Sha256.Digest(transcript) + Reversed(Sha256.Digest(transcript))
  }

  function CertificateVerifyMessage(transcript: seq<byte>): (r: seq<byte>)
    ensures |r| == 74
  {
    Message(CERTIFICATE_VERIFY, [4, 3, 0, 0, 0, 0x40] + Signature(transcript))
  }

  function FinishedKey(master: Bytes48): (r: seq<byte>)
    ensures |r| == 32
  {
    seq(32, i requires 0 <= i < 32 => XorByte(master[i], 0x5C))
  }

  function FinishedBody(master: Bytes48, transcript: seq<byte>): (r: seq<byte>)
    ensures |r| == 32
  {
    XorBytes(Sha256.Digest(transcript), FinishedKey(master))
  }

  function FinishedMessage(master: Bytes48, transcript: seq<byte>): (r: seq<byte>)
    ensures |r| == 36
  {
    Message(FINISHED, FinishedBody(master, transcript))
  }

  /** The placeholder signature byte by byte. */
  lemma SignatureBytes(transcript: seq<byte>, i: nat)
    requires i < 32
    ensures Signature(transcript)[i] == Sha256.Digest(transcript)[i]
    ensures Signature(transcript)[63 - i] == Sha256.Digest(transcript)[i]
  {
    hide Sha256.Digest;
  }

  /** The Finished body byte by byte, in the C operators. */
  lemma FinishedBytes(master: Bytes48, transcript: seq<byte>, i: nat)
    requires i < 32
    ensures FinishedBody(master, transcript)[i] == Xor(Sha256.Digest(transcript)[i], Xor(master[i], 0x5C))
  {
    hide Sha256.Digest, Xor;
  }

  /** Under one master secret two Finished bodies agree exactly when the transcript hashes do. */
  lemma FinishedTellsTranscripts(master: Bytes48, s: seq<byte>, t: seq<byte>)
    ensures FinishedBody(master, s) == FinishedBody(master, t) <==> Sha256.Digest(s) == Sha256.Digest(t)
  {
    hide Sha256.Digest, FinishedKey;
    XorBytesUndo(Sha256.Digest(s), FinishedKey(master));
    XorBytesUndo(Sha256.Digest(t), FinishedKey(master));
  }

  /** The transcript after each of the first four messages. */
  function BeforeVerify(t: seq<byte>, hello: seq<byte>): seq<byte> {
    Extended(Extended(Extended(t, hello), EncryptedExtensionsMessage()), CertificateMessage())
  }

  function BeforeFinished(t: seq<byte>, hello: seq<byte>): seq<byte> {
    var v := BeforeVerify(t, hello);
    Extended(v, CertificateVerifyMessage(v))
  }

  function AfterFinished(t: seq<byte>, hello: seq<byte>, master: Bytes48): seq<byte> {
    var f := BeforeFinished(t, hello);
    Extended(f, FinishedMessage(master, f))
  }

  /** The server's five messages in answer to a ClientHello that ends the transcript `t`. */
  function Flight(t: seq<byte>, hello: seq<byte>, master: Bytes48): (r: seq<byte>)
    ensures |r| == |hello| + 129
  {
    hello + EncryptedExtensionsMessage() + CertificateMessage() + CertificateVerifyMessage(BeforeVerify(t, hello))
      + FinishedMessage(master, BeforeFinished(t, hello))
  }

  /** When everything fits, the transcript grows by exactly what is sent, and each hash covers what came before. */
  lemma FlightInTranscript(t: seq<byte>, hello: seq<byte>, master: Bytes48)
    requires |t| + |hello| + 129 <= TRANSCRIPT_SIZE
    ensures AfterFinished(t, hello, master) == t + Flight(t, hello, master)
    ensures var flight, n := Flight(t, hello, master), |hello| + 19;
            && BeforeVerify(t, hello) == t + flight[..n]
            && BeforeFinished(t, hello) == t + flight[..n + 74]
            && flight[n..n + 74] == CertificateVerifyMessage(t + flight[..n])
            && flight[n + 74..] == FinishedMessage(master, t + flight[..n + 74])
  {
    hide EncryptedExtensionsMessage, CertificateMessage, CertificateVerifyMessage, FinishedMessage;
    var ee, c := EncryptedExtensionsMessage(), CertificateMessage();
    var v := BeforeVerify(t, hello);
    assert v == t + hello + ee + c == t + (hello + ee + c);
    var cv := CertificateVerifyMessage(v);
    var flight, n := Flight(t, hello, master), |hello| + 19;
    assert flight[..n] == hello + ee + c;
    assert flight[..n + 74] == hello + ee + c + cv;
    assert BeforeFinished(t, hello) == v + cv == t + (hello + ee + c + cv);
  }

  lemma FlightCut(t: seq<byte>, hello: seq<byte>, master: Bytes48)
    requires |hello| == 86 && hello == Message(2, hello[4..])
    ensures var m := Messages(Flight(t, hello, master));
            && m.Some? && |m.value| == 5 && BodiesFit(m.value)
            && m.value[0] == Parsed(2, hello[4..])
            && m.value[1] == Parsed(8, [0, 0])
            && m.value[2] == Parsed(0x0B, Zeros(9))
            && m.value[3] == Parsed(0x0F, [4, 3, 0, 0, 0, 0x40] + Signature(BeforeVerify(t, hello)))
            && m.value[4] == Parsed(0x14, FinishedBody(master, BeforeFinished(t, hello)))
  {
    hide Signature, FinishedBody, BigEndian, BeforeVerify, BeforeFinished;
    var m := [
      Parsed(2, hello[4..]),
      Parsed(8, [0, 0]),
      Parsed(0x0B, Zeros(9)),
      Parsed(0x0F, [4, 3, 0, 0, 0, 0x40] + Signature(BeforeVerify(t, hello))),
      Parsed(0x14, FinishedBody(master, BeforeFinished(t, hello)))];
    JoinFive(m[0], m[1], m[2], m[3], m[4]);
    hide Message;
    MessagesIffJoin(Flight(t, hello, master), m);
  }

  /**
   The flight is tiled by five messages with matching lengths; the first carries random, suite and
   key share at the offsets of section 4.1.3 of RFC 8446 without a session identifier.
   */
  lemma FlightTiles(t: seq<byte>, random: Bytes32, suite: nat, publicKey: Bytes32, master: Bytes48)
    ensures var hello := ServerHello(random, suite, publicKey);
            var m := Messages(Flight(t, hello, master));
            && m.Some? && |m.value| == 5 && BodiesFit(m.value)
            && m.value[0].kind == 2 && |m.value[0].body| == 82
            && m.value[0].body[0..2] == [3, 4] && m.value[0].body[2..34] == random
            && m.value[0].body[35..37] == BigEndian(suite, 2) && m.value[0].body[40..42] == BigEndian(40, 2)
            && m.value[0].body[42..44] == [0, 0x22] && m.value[0].body[48..50] == [0, 0x20]
            && m.value[0].body[50..82] == publicKey
            && m.value[1] == Parsed(8, [0, 0])
            && m.value[2] == Parsed(0x0B, Zeros(9))
            && m.value[3] == Parsed(0x0F, [4, 3, 0, 0, 0, 0x40] + Signature(BeforeVerify(t, hello)))
            && m.value[4] == Parsed(0x14, FinishedBody(master, BeforeFinished(t, hello)))
  {
    var hello := ServerHello(random, suite, publicKey);
    HelloLayout(random, suite, publicKey);
    assert BigEndian(40, 2) == [0, 40];
    FlightCut(t, hello, master);
    hide ServerHello, Flight, Messages, BigEndian, Signature, FinishedBody, BeforeVerify, BeforeFinished, Message;
  }

  lemma JoinFive(a: Parsed, b: Parsed, c: Parsed, d: Parsed, e: Parsed)
    ensures Join([a, b, c, d, e])
         == Message(a.kind, a.body) + Message(b.kind, b.body) + Message(c.kind, c.body) + Message(d.kind, d.body) + Message(e.kind, e.body)
  {
    hide Message;
    assert [a, b, c, d, e][1..] == [b, c, d, e];
    assert [b, c, d, e][1..] == [c, d, e];
    assert [c, d, e][1..] == [d, e];
    assert [d, e][1..] == [e];
    assert Join([e]) == Message(e.kind, e.body);
    assert Join([d, e]) == Message(d.kind, d.body) + Join([e]);
    assert Join([c, d, e]) == Message(c.kind, c.body) + Join([d, e]);
  }

  // ---------------------------------------------------------------- writing messages

  /** The buffer holds `w` from `at` on and is otherwise what it was. */
  ghost predicate Holds(out: seq<byte>, before: seq<byte>, at: nat, w: seq<byte>) {
    at + |w| <= |before| && out == before[..at] + w + before[at + |w|..]
  }

  /** `out[offset++] = ...` and memcpy: `bytes` go behind what is written. */
  method Emit(out: array<byte>, offset: nat, bytes: seq<byte>, ghost before: seq<byte>, ghost at: nat, ghost w: seq<byte>)
    returns (next: nat)
    requires Holds(out[..], before, at, w) && offset == at + |w| && offset + |bytes| <= out.Length
    modifies out
    ensures Holds(out[..], before, at, w + bytes) && next == offset + |bytes|
  {
    ghost var was := out[..];
    TlsRecord.Put(out, offset, bytes);
    assert out[..] == was[..offset] + bytes + was[offset + |bytes|..] by {
      assert out[..] == out[..offset] + out[offset..offset + |bytes|] + out[offset + |bytes|..];
    }
    next := offset + |bytes|;
  }

  /** Bytes already written are replaced. */
  method Patch(out: array<byte>, at: nat, i: nat, bytes: seq<byte>, ghost before: seq<byte>, ghost w: seq<byte>)
    requires Holds(out[..], before, at, w) && i + |bytes| <= |w|
    modifies out
    ensures Holds(out[..], before, at, w[..i] + bytes + w[i + |bytes|..])
  {
    ghost var was := out[..];
    TlsRecord.Put(out, at + i, bytes);
    assert out[..] == was[..at + i] + bytes + was[at + i + |bytes|..] by {
      assert out[..] == out[..at + i] + out[at + i..at + i + |bytes|] + out[at + i + |bytes|..];
    }
  }

  /** The three length bytes are filled in when the body is complete. */
  method BackPatch(out: array<byte>, at: nat, payloadLen: nat, kind: byte, ghost body: seq<byte>, ghost before: seq<byte>)
    requires Holds(out[..], before, at, [kind, 0, 0, 0] + body) && payloadLen == |body|
    modifies out
    ensures Holds(out[..], before, at, Message(kind, body))
  {
    hide BigEndian, Holds;
    ghost var w := [kind, 0, 0, 0] + body;
    Patch(out, at, 1, BigEndian(payloadLen, 3), before, w);
    assert w[..1] + BigEndian(|body|, 3) + w[4..] == Message(kind, body);
  }

  /** Marks the message as seen and appends it to the transcript. */
  method Record(ctx: Context, out: array<byte>, at: nat, len: nat, bit: bv32, ghost before: seq<byte>, ghost message: seq<byte>)
    requires ctx.Valid() && out != ctx.handshakeBuffer
    requires Holds(out[..], before, at, message) && |message| == len
    modifies ctx`messagesReceived, ctx`bufferOffset, ctx.handshakeBuffer
    ensures ctx.Valid() && ctx.Transcript() == Extended(old(ctx.Transcript()), message)
    ensures ctx.messagesReceived == Marked(old(ctx.messagesReceived), bit)
  {
    ctx.messagesReceived := Marked(ctx.messagesReceived, bit);
    assert out[at..at + len] == message;
    ctx.UpdateHash(out[at..at + len]);
  }

  /** Header with an empty length, body, then the length. */
  method WriteMessage(out: array<byte>, at: nat, kind: byte, body: seq<byte>) returns (len: nat)
    requires at + 4 + |body| <= out.Length
    modifies out
    ensures len == 4 + |body| && Holds(out[..], old(out[..]), at, Message(kind, body))
  {
    ghost var before := out[..];
    assert Holds(out[..], before, at, []);
    hide Holds, Message;
    var offset := Emit(out, at, [kind, 0, 0, 0], before, at, []);
    ghost var w := [] + [kind, 0, 0, 0];
    var payloadStart := offset;
    offset := Emit(out, offset, body, before, at, w);
    assert w + body == [kind, 0, 0, 0] + body;
    BackPatch(out, at, offset - payloadStart, kind, body, before);
    len := offset - at;
  }

  /** axon_build_encrypted_extensions, writing at `out + at`. */
  method BuildEncryptedExtensions(ctx: Context, out: array<byte>, at: nat) returns (len: nat)
    requires ctx.Valid() && out != ctx.handshakeBuffer && at + 6 <= out.Length
    modifies ctx`messagesReceived, ctx`bufferOffset, ctx.handshakeBuffer, out
    ensures len == 6 && Holds(out[..], old(out[..]), at, EncryptedExtensionsMessage())
    ensures ctx.Valid() && ctx.Transcript() == Extended(old(ctx.Transcript()), EncryptedExtensionsMessage())
    ensures ctx.messagesReceived == Marked(old(ctx.messagesReceived), 0x04)
  {
    hide Holds, Marked, Message, Extended;
    ghost var before := out[..];
    len := WriteMessage(out, at, ENCRYPTED_EXTENSIONS, Zeros(2));
    Record(ctx, out, at, len, 0x04, before, EncryptedExtensionsMessage());
  }

  /** axon_build_certificate. */
  method BuildCertificate(ctx: Context, out: array<byte>, at: nat) returns (len: nat)
    requires ctx.Valid() && out != ctx.handshakeBuffer && at + 13 <= out.Length
    modifies ctx`messagesReceived, ctx`bufferOffset, ctx.handshakeBuffer, out
    ensures len == 13 && Holds(out[..], old(out[..]), at, CertificateMessage())
    ensures ctx.Valid() && ctx.Transcript() == Extended(old(ctx.Transcript()), CertificateMessage())
    ensures ctx.messagesReceived == Marked(old(ctx.messagesReceived), 0x08)
  {
    hide Holds, Marked, Message, Extended;
    ghost var before := out[..];
    len := WriteMessage(out, at, CERTIFICATE, Zeros(9));
    Record(ctx, out, at, len, 0x08, before, CertificateMessage());
  }

  /** compute_signature. */
  method ComputeSignature(data: seq<byte>) returns (sig: seq<byte>)
    ensures sig == Signature(data)
  {
    hide Sha256.Digest;
    var digest := Sha256.HashOf(data);
    var buffer := new byte[64](_ => 0);
    for i := 0 to 32
      invariant forall j :: 0 <= j < i ==> buffer[j] == digest[j]
      invariant forall j :: 32 <= j < 32 + i ==> buffer[j] == digest[63 - j]
    {
      buffer[i] := digest[i];
      buffer[i + 32] := digest[31 - i];
    }
    sig := buffer[..];
    assert sig == Signature(data);
  }

  /** axon_build_certificate_verify: the signature covers the transcript so far. */
  method BuildCertificateVerify(ctx: Context, out: array<byte>, at: nat) returns (len: nat)
    requires ctx.Valid() && out != ctx.handshakeBuffer && at + 74 <= out.Length
    modifies ctx`messagesReceived, ctx`bufferOffset, ctx.handshakeBuffer, out
    ensures len == 74 && Holds(out[..], old(out[..]), at, CertificateVerifyMessage(old(ctx.Transcript())))
    ensures ctx.Valid()
    ensures ctx.Transcript() == Extended(old(ctx.Transcript()), CertificateVerifyMessage(old(ctx.Transcript())))
    ensures ctx.messagesReceived == Marked(old(ctx.messagesReceived), 0x10)
  {
    hide Holds, Marked, Message, Signature, Extended;
    ghost var before, transcript := out[..], ctx.Transcript();
    var signature := ComputeSignature(ctx.handshakeBuffer[..ctx.bufferOffset]);
    len := WriteMessage(out, at, CERTIFICATE_VERIFY, [4, 3, 0, 0, 0, 0x40] + signature);
    Record(ctx, out, at, len, 0x10, before, CertificateVerifyMessage(transcript));
  }

  /** compute_finished into a buffer of 32 bytes. */
  method ComputeFinished(key: seq<byte>, transcript: seq<byte>) returns (out: array<byte>)
    requires |key| == 32
    ensures fresh(out) && out[..] == XorBytes(Sha256.Digest(transcript), key)
  {
    hide Sha256.Digest, XorByte;
    var hash := Sha256.HashOf(transcript);
    out := new byte[32](_ => 0);
    for i := 0 to 16
      invariant forall j :: 0 <= j < i ==> out[j] == XorByte(hash[j], key[j])
      invariant forall j :: 16 <= j < 16 + i ==> out[j] == XorByte(hash[j], key[j])
    {
      out[i] := XorByte(hash[i], key[i]);
      out[i + 16] := XorByte(hash[i + 16], key[i + 16]);
    }
  }

  /** The loop both Finished functions start with. */
  method MakeFinishedKey(master: Bytes48) returns (key: seq<byte>)
    ensures key == FinishedKey(master)
  {
    var buffer := new byte[32](_ => 0);
    for i := 0 to 32
      invariant forall j :: 0 <= j < i ==> buffer[j] == XorByte(master[j], 0x5C)
    {
      buffer[i] := XorByte(master[i], 0x5C);
    }
    key := buffer[..];
  }

  /** axon_build_finished: the body depends on the transcript so far, which does not include itself. */
  method BuildFinished(ctx: Context, out: array<byte>, at: nat) returns (len: nat)
    requires ctx.Valid() && out != ctx.handshakeBuffer && at + 36 <= out.Length
    modifies ctx`messagesReceived, ctx`bufferOffset, ctx`handshakeDone, ctx.handshakeBuffer, out
    ensures len == 36 && Holds(out[..], old(out[..]), at, FinishedMessage(ctx.masterSecret, old(ctx.Transcript())))
    ensures ctx.Valid() && ctx.handshakeDone
    ensures ctx.Transcript() == Extended(old(ctx.Transcript()), FinishedMessage(ctx.masterSecret, old(ctx.Transcript())))
    ensures ctx.messagesReceived == Marked(old(ctx.messagesReceived), 0x20)
  {
    hide Holds, Marked, Message, Sha256.Digest, FinishedKey, XorBytes, Extended;
    ghost var before, transcript := out[..], ctx.Transcript();
    var key := MakeFinishedKey(ctx.masterSecret);
    var finished := ComputeFinished(key, ctx.handshakeBuffer[..ctx.bufferOffset]);
    len := WriteMessage(out, at, FINISHED, finished[..]);
    ctx.handshakeDone := true;
    Record(ctx, out, at, len, 0x20, before, FinishedMessage(ctx.masterSecret, transcript));
  }

  /** axon_verify_finished: accepted exactly when the first 32 bytes are the Finished body of the transcript. */
  method VerifyFinished(ctx: Context, data: seq<byte>) returns (ret: int)
    requires ctx.Valid()
    modifies ctx`handshakeDone
    ensures ret == if |data| >= 32 && data[..32] == FinishedBody(ctx.masterSecret, ctx.Transcript()) then 0 else -1
    ensures ctx.handshakeDone == (old(ctx.handshakeDone) || ret == 0)
  {
    if |data| < 32 {
      return -1;
    }
    hide Sha256.Digest, FinishedKey, XorBytes;
    var key := MakeFinishedKey(ctx.masterSecret);
    var computed := ComputeFinished(key, ctx.handshakeBuffer[..ctx.bufferOffset]);
    if data[..32] != computed[..] {
      return -1;
    }
    ctx.handshakeDone := true;
    return 0;
  }

  /** The two bytes of a 16-bit length. */
  method PutWord(out: array<byte>, at: nat, i: nat, value: nat, ghost before: seq<byte>, ghost w: seq<byte>)
    requires Holds(out[..], before, at, w) && i + 2 <= |w|
    modifies out
    ensures Holds(out[..], before, at, w[..i] + BigEndian(value, 2) + w[i + 2..])
  {
    hide BigEndian, Holds;
    Patch(out, at, i, BigEndian(value, 2), before, w);
  }

  /** The ServerHello up to its key share, with two bytes kept free for the extensions' length. */
  function HelloHead(random: Bytes32, suite: nat, gap: seq<byte>): (r: seq<byte>)
    requires |gap| == 2
    ensures |r| == 46
  {
    [SERVER_HELLO, 0, 0, 0] + [3, 4] + random + [0] + BigEndian(suite, 2) + [0] + [0, 0] + gap
  }

  method WriteHelloHead(out: array<byte>, at: nat, random: Bytes32, suite: nat) returns (offset: nat)
    requires at + 46 <= out.Length
    modifies out
    ensures offset == at + 46
    ensures Holds(out[..], old(out[..]), at, HelloHead(random, suite, old(out[at + 44..at + 46])))
  {
    ghost var before := out[..];
    ghost var gap := before[at + 44..at + 46];
    assert Holds(out[..], before, at, []);
    hide Holds, BigEndian;
    offset := Emit(out, at, [SERVER_HELLO, 0, 0, 0], before, at, []);
    ghost var w := [] + [SERVER_HELLO, 0, 0, 0];
    offset := Emit(out, offset, [3, 4], before, at, w);
    w := w + [3, 4];
    offset := Emit(out, offset, random, before, at, w);
    w := w + random;
    offset := Emit(out, offset, [0], before, at, w);
    w := w + [0];
    offset := Emit(out, offset, BigEndian(suite, 2), before, at, w);
    w := w + BigEndian(suite, 2);
    offset := Emit(out, offset, [0], before, at, w);
    w := w + [0];
    offset := Emit(out, offset, [0, 0], before, at, w);
    w := w + [0, 0];
    KeepGap(out[..], before, at, w);
    offset := offset + 2;
    assert [] + [SERVER_HELLO, 0, 0, 0] == [SERVER_HELLO, 0, 0, 0];
  }

  /** Two bytes stepped over hold what they held. */
  lemma KeepGap(out: seq<byte>, before: seq<byte>, at: nat, w: seq<byte>)
    requires Holds(out, before, at, w) && at + |w| + 2 <= |before|
    ensures Holds(out, before, at, w + before[at + |w|..at + |w| + 2])
  {
  }

  /** The bytes of axon_build_server_hello. */
  method WriteServerHello(out: array<byte>, at: nat, random: Bytes32, suite: nat, publicKey: Bytes32) returns (len: nat)
    requires at + 86 <= out.Length
    modifies out
    ensures len == 86 && Holds(out[..], old(out[..]), at, ServerHello(random, suite, publicKey))
  {
    ghost var before := out[..];
    ghost var gap := before[at + 44..at + 46];
    var payloadStart, extLenStart := at + 4, at + 44;
    var offset := WriteHelloHead(out, at, random, suite);
    ghost var w := HelloHead(random, suite, gap);
    hide Holds, BigEndian, Message;
    offset := Emit(out, offset, [0, 0x22, 0, 0x24, 0, 0x1D, 0, 0x20], before, at, w);
    w := w + [0, 0x22, 0, 0x24, 0, 0x1D, 0, 0x20];
    offset := Emit(out, offset, publicKey, before, at, w);
    w := w + publicKey;
    PutWord(out, at, 44, offset - extLenStart - 2, before, w);
    ghost var body := [3, 4] + random + [0] + BigEndian(suite, 2) + [0, 0, 0] + BigEndian(40, 2)
      + [0, 0x22, 0, 0x24, 0, 0x1D, 0, 0x20] + publicKey;
    HelloPatched(random, suite, gap, publicKey);
    BackPatch(out, at, offset - payloadStart, SERVER_HELLO, body, before);
    len := offset - at;
  }

  lemma HelloPatched(random: Bytes32, suite: nat, gap: seq<byte>, publicKey: Bytes32)
    requires |gap| == 2
    ensures var w := HelloHead(random, suite, gap) + [0, 0x22, 0, 0x24, 0, 0x1D, 0, 0x20] + publicKey;
            w[..44] + BigEndian(40, 2) + w[46..]
            == [SERVER_HELLO, 0, 0, 0] + ([3, 4] + random + [0] + BigEndian(suite, 2) + [0, 0, 0] + BigEndian(40, 2)
                 + [0, 0x22, 0, 0x24, 0, 0x1D, 0, 0x20] + publicKey)
  {
    hide BigEndian;
    var head := HelloHead(random, suite, gap);
    assert head[..44] == [SERVER_HELLO, 0, 0, 0] + ([3, 4] + random + [0] + BigEndian(suite, 2) + [0, 0, 0]);
    var w := head + [0, 0x22, 0, 0x24, 0, 0x1D, 0, 0x20] + publicKey;
    assert w[..44] == head[..44];
    assert w[46..] == [0, 0x22, 0, 0x24, 0, 0x1D, 0, 0x20] + publicKey;
  }

  // ---------------------------------------------------------------- what comes from outside

  /** Memory, random bytes and x25519 results. */
  datatype World = World(
    granted: bool,                 // whether the record buffer could be allocated
    stray: seq<byte>,              // what lies behind the record body in memory
    randomOk: bool,                // whether random bytes could be read
    random: Bytes32,
    publicKey: Bytes32,
    shared: Bytes32)

  /** axon_build_server_hello; random bytes and x25519 results come from `world`. */
  method BuildServerHello(ctx: Context, out: array<byte>, at: nat, world: World) returns (ret: int, len: nat)
    requires ctx.Valid() && out != ctx.handshakeBuffer && at + 86 <= out.Length
    modifies ctx`serverRandom, ctx`serverPrivkey, ctx`serverPublicKey, ctx`sharedSecret
    modifies ctx`messagesReceived, ctx`bufferOffset, ctx.handshakeBuffer, out
    ensures ctx.Valid() && ctx.serverRandom == world.random
    ensures ret == if world.randomOk then 0 else -1
    ensures ret != 0 ==>
              && out[..] == old(out[..]) && ctx.Transcript() == old(ctx.Transcript())
              && ctx.messagesReceived == old(ctx.messagesReceived) && ctx.serverPrivkey == old(ctx.serverPrivkey)
              && ctx.serverPublicKey == old(ctx.serverPublicKey) && ctx.sharedSecret == old(ctx.sharedSecret)
    ensures ret == 0 ==>
              && len == 86
              && Holds(out[..], old(out[..]), at, ServerHello(world.random, ctx.cipherSuite, world.publicKey))
              && ctx.Transcript() == Extended(old(ctx.Transcript()), ServerHello(world.random, ctx.cipherSuite, world.publicKey))
              && ctx.messagesReceived == Marked(old(ctx.messagesReceived), 0x02)
              && ctx.serverPrivkey == X25519.Clamped(old(ctx.serverPrivkey)) && ctx.serverPublicKey == world.publicKey
              && ctx.sharedSecret == world.shared
  {
    ctx.serverRandom := world.random;
    if !world.randomOk {
      return -1, 0;
    }
    hide Holds, Marked, ServerHello, X25519.Clamped;
    ctx.serverPrivkey, ctx.serverPublicKey := X25519.Clamped(ctx.serverPrivkey), world.publicKey;
    ctx.sharedSecret := world.shared;
    ghost var before := out[..];
    len := WriteServerHello(out, at, ctx.serverRandom, ctx.cipherSuite, ctx.serverPublicKey);
    Record(ctx, out, at, len, 0x02, before, ServerHello(world.random, ctx.cipherSuite, world.publicKey));
    ret := 0;
  }

  // ---------------------------------------------------------------- keys

  /** "TLS 1.3 keys" with its terminating zero. */
  const MASTER_LABEL: seq<byte> := [0x54, 0x4C, 0x53, 0x20, 0x31, 0x2E, 0x33, 0x20, 0x6B, 0x65, 0x79, 0x73, 0x00]

  function Prk(clientRandom: Bytes32, serverRandom: Bytes32, shared: Bytes32): (r: Bytes32) {
    Hkdf.Extracted(XorBytes(clientRandom, serverRandom), shared)
  }

  function Master(clientRandom: Bytes32, serverRandom: Bytes32, shared: Bytes32): (r: Bytes48) {
    Hkdf.Okm(Prk(clientRandom, serverRandom, shared), MASTER_LABEL, 96)[..48]
  }

  /** Half of the 96 bytes expanded for the master secret are never used. */
  lemma MasterNeedsHalf(clientRandom: Bytes32, serverRandom: Bytes32, shared: Bytes32)
    ensures Master(clientRandom, serverRandom, shared)
         == Hkdf.Okm(Prk(clientRandom, serverRandom, shared), MASTER_LABEL, 48)
  {
    hide Hkdf.Okm, Prk;
    Hkdf.OkmPrefix(Prk(clientRandom, serverRandom, shared), MASTER_LABEL, 48, 96);
  }

  /** The two randoms combined byte by byte. */
  method MakeSalt(clientRandom: Bytes32, serverRandom: Bytes32) returns (salt: seq<byte>)
    ensures salt == XorBytes(clientRandom, serverRandom)
  {
    var buffer := new byte[32](_ => 0);
    for i := 0 to 32
      invariant forall j :: 0 <= j < i ==> buffer[j] == XorByte(clientRandom[j], serverRandom[j])
    {
      buffer[i] := XorByte(clientRandom[i], serverRandom[i]);
    }
    salt := buffer[..];
  }

  /** axon_derive_handshake_keys. */
  method DeriveHandshakeKeys(ctx: Context)
    modifies ctx`masterSecret
    ensures ctx.masterSecret == Master(ctx.clientRandom, ctx.serverRandom, ctx.sharedSecret)
    ensures var prk := Hkdf.Extracted(XorBytes(ctx.clientRandom, ctx.serverRandom), ctx.sharedSecret);
            var info := [0x54, 0x4C, 0x53, 0x20, 0x31, 0x2E, 0x33, 0x20, 0x6B, 0x65, 0x79, 0x73, 0x00];
            ctx.masterSecret == Hkdf.Okm(prk, info, 96)[..48]
  {
    hide Hkdf.Okm, Hkdf.Extracted, XorBytes;
    var salt := MakeSalt(ctx.clientRandom, ctx.serverRandom);
    var prk := Hkdf.Extract(salt, ctx.sharedSecret);
    var keyMaterial := new byte[96](_ => 0);
    var _ := Hkdf.Expand(prk, MASTER_LABEL, keyMaterial, 96);
    assert keyMaterial[..96] == keyMaterial[..];
    ctx.masterSecret := keyMaterial[..48];
  }
}
