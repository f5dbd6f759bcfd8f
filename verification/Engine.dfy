/** The engine: one call reads a ClientHello record and writes the server's whole flight. */
module Engine {
  import opened Bytes
  import opened Wrappers
  import opened TlsContext
  import opened StateMachine
  import opened Handshake
  import ClientHello
  import Hkdf
  import Sha256
  import TlsRecord

  const HANDSHAKE: byte := 0x16

  // ---------------------------------------------------------------- reading the ClientHello

  /** What becomes of the input: not a record, refused, a ClientHello that does not parse, one that does. */
  datatype Verdict = Unread | Refused | Unparsed(fragment: seq<byte>) | Accepted(fragment: seq<byte>)

  /** Bytes 1 and 2 of the record body; a shorter body is read past its end. */
  function Version(fragment: seq<byte>, stray: seq<byte>): nat {
    ClientHello.WordAt(fragment + stray, 1)
  }

  /** What the scan of a ClientHello finds. */
  function Found(fragment: seq<byte>, world: World): (r: ClientHello.Scanned)
    requires |fragment| >= 40
    ensures r.accepted ==> r.suite.Some?
  {
    ClientHello.Scan(fragment + world.stray, |fragment|)
  }

  function Judge(clientHello: seq<byte>, world: World): (v: Verdict)
    ensures v.Accepted? ==> |v.fragment| >= 40 && Found(v.fragment, world).accepted
  {
    match TlsRecord.Read(clientHello, world.granted)
    case None => Unread
    case Some(record) =>
      if record.contentType != HANDSHAKE || record.fragment[0] != CLIENT_HELLO || Version(record.fragment, world.stray) != 0x0304
      then Refused
      else if |record.fragment| < 40 || !Found(record.fragment, world).accepted then Unparsed(record.fragment)
      else Accepted(record.fragment)
  }

  /**
   The two bytes the engine takes for the version are the top of the message's length, so no
   ClientHello whose length field is true is ever answered.
   */
  lemma TrueLengthRefused(clientHello: seq<byte>, world: World)
    requires var record := TlsRecord.Read(clientHello, world.granted);
             record.Some? && |record.value.fragment| >= 4
             && BigEndianValue(record.value.fragment[1..4]) == |record.value.fragment| - 4
    ensures Judge(clientHello, world) == Refused
  {
    var f := TlsRecord.Read(clientHello, world.granted).value.fragment;
    ValueBound(clientHello[3..5]);
    assert Pow256(2) == 0x1_0000;
    assert |f| < 0x1_0000;
    assert f[1..4][..2][..1][..0] == [];
    assert BigEndianValue(f[1..4][..2][..1]) == f[1];
    assert BigEndianValue(f[1..4][..2]) == Version(f, world.stray);
    assert BigEndianValue(f[1..4]) == 256 * Version(f, world.stray) + f[3];
  }

  /**
   What is answered: a handshake record whose message starts with type 1 and the bytes 3 and 4
   where a length should be, of at least 40 bytes, in which the scan finds a known suite.
   */
  lemma JudgeIff(clientHello: seq<byte>, world: World, f: seq<byte>)
    requires |f| >= 3
    ensures var record := TlsRecord.Read(clientHello, world.granted);
            var hello := record.Some? && record.value.contentType == 0x16 && record.value.fragment == f && f[..3] == [1, 3, 4];
            && (Judge(clientHello, world) == Unread <==> record.None?)
            && (Judge(clientHello, world) == Unparsed(f) <==> hello && (|f| < 40 || !Found(f, world).accepted))
            && (Judge(clientHello, world) == Accepted(f) <==> hello && |f| >= 40 && Found(f, world).accepted)
  {
    hide TlsRecord.Read, ClientHello.Scan;
    assert (f + world.stray)[..3] == f[..3] == [f[0], f[1], f[2]];
  }

  // ---------------------------------------------------------------- the state over any calls

  /** The calls an engine offers. */
  datatype Call =
    | HandshakeCall(clientHello: seq<byte>, world: World)
    | DecryptCall(wire: seq<byte>, granted: bool)
    | EncryptCall
    | ResetCall

  /** The state after a call. */
  function StateAfter(s: State, call: Call): State {
    match call
    case HandshakeCall(clientHello, world) =>
      (match Judge(clientHello, world)
       case Unread => s
       case Refused => AlertSent
       case Unparsed(_) => AlertSent
       case Accepted(_) => if world.randomOk then SentFinished else WaitingClientHello)
    case DecryptCall(wire, granted) =>
      if s != HandshakeComplete then s else
        var record := TlsRecord.Read(wire, granted);
        if record.Some? && record.value.contentType == TlsRecord.ALERT then AlertSent else s
    case EncryptCall => s
    case ResetCall => Init
  }

  function StateAfterAll(s: State, calls: seq<Call>): State
    decreases |calls|
  {
    if calls == [] then s else StateAfterAll(StateAfter(s, calls[0]), calls[1..])
  }

  /** No list of calls on a new engine completes the handshake: only four states are ever reached. */
  lemma {:induction false} NeverComplete(s: State, calls: seq<Call>)
    requires s in {Init, WaitingClientHello, AlertSent, SentFinished}
    ensures StateAfterAll(s, calls) in {Init, WaitingClientHello, AlertSent, SentFinished}
    decreases |calls|
  {
    hide Judge, TlsRecord.Read;
    if calls != [] {
      NeverComplete(StateAfter(s, calls[0]), calls[1..]);
    }
  }

  // ---------------------------------------------------------------- session keys

  /** "tls13 key" without a terminating zero. */
  const SESSION_LABEL: seq<byte> := [0x74, 0x6C, 0x73, 0x31, 0x33, 0x20, 0x6B, 0x65, 0x79]

  function SessionKeys(clientRandom: Bytes32, serverRandom: Bytes32, shared: Bytes32): (r: seq<byte>)
    ensures |r| == 96
  {
    Hkdf.Okm(Prk(clientRandom, serverRandom, shared), SESSION_LABEL, 96)
  }

  // ---------------------------------------------------------------- the engine

  class Engine {
    const context: Context
    var state: State
    var writeKey: Bytes32
    var readKey: Bytes32
    var writeIv: Bytes12
    var readIv: Bytes12
    var sequenceNumber: uint64

    ghost predicate Valid()
      reads this, context
    {
      context.Valid()
    }

    ghost function Transcript(): seq<byte>
      requires Valid()
      reads this, context, context.handshakeBuffer
    {
      context.Transcript()
    }

    constructor ()
      ensures Valid() && fresh(context) && fresh(context.handshakeBuffer)
      ensures state == Init && Transcript() == [] && sequenceNumber == 0
      ensures writeKey == readKey == Zeros(32) && writeIv == readIv == Zeros(12)
      ensures context.SecretsCleared() && context.sequenceNumber == 0 && context.messagesReceived == 0
    {
      context := new Context();
      state := Init;
      writeKey, readKey, writeIv, readIv := Zeros(32), Zeros(32), Zeros(12), Zeros(12);
      sequenceNumber := 0;
    }

    /** axon_engine_create: an engine in its initial state, if there is memory for one. */
    static method Create(granted: bool) returns (eng: Engine?)
      ensures eng != null <==> granted
      ensures eng != null ==> fresh(eng) && eng.Valid() && fresh(eng.context) && fresh(eng.context.handshakeBuffer)
      ensures eng != null ==> eng.state == Init && eng.Transcript() == [] && eng.sequenceNumber == 0
      ensures eng != null ==> eng.writeKey == eng.readKey == Zeros(32) && eng.writeIv == eng.readIv == Zeros(12)
      ensures eng != null ==>
                eng.context.SecretsCleared() && eng.context.sequenceNumber == 0 && eng.context.messagesReceived == 0
    {
      if !granted {
        return null;
      }
      eng := new Engine();
    }

    /** The first half of axon_engine_handshake: from the record to the state after the ClientHello. */
    method Receive(clientHello: seq<byte>, world: World) returns (ret: int)
      requires Valid()
      modifies this`state, context.handshakeBuffer, context`bufferOffset
      modifies context`clientRandom, context`cipherSuite, context`clientPubkey, context`messagesReceived
      ensures Valid()
      ensures match Judge(clientHello, world)
              case Unread => ret == -1 && state == old(state) && unchanged(context) && unchanged(context.handshakeBuffer)
              case Refused => ret == -1 && state == AlertSent && unchanged(context) && unchanged(context.handshakeBuffer)
              case Unparsed(f) => ret == -1 && state == AlertSent && Transcript() == Extended(old(Transcript()), f)
              case Accepted(f) =>
                && ret == 0 && state == WaitingClientHello && Transcript() == Extended(old(Transcript()), f)
                && context.clientRandom == f[4..36] && context.cipherSuite == Found(f, world).suite.value
                && context.messagesReceived == Marked(old(context.messagesReceived), 0x01)
    {
      var record := TlsRecord.Read(clientHello, world.granted);
      if record.None? {
        return -1;
      }
      var fragment := record.value.fragment;
      if record.value.contentType != HANDSHAKE {
        state := AlertSent;
        return -1;
      }
      if fragment[0] != CLIENT_HELLO {
        state := AlertSent;
        return -1;
      }
      if Version(fragment, world.stray) != 0x0304 {
        state := AlertSent;
        return -1;
      }
      hide Version, TlsRecord.Read;
      ret := ClientHello.Parse(context, fragment, world.stray);
      context.UpdateHash(fragment);
      if ret < 0 {
        state := AlertSent;
        return;
      }
      state := Next(true, Init, CLIENT_HELLO);
    }

    /** The session keys, which go to the engine and not to the context the records use. */
    method DeriveSessionKeys()
      modifies this`writeKey, this`readKey, this`writeIv, this`readIv
      ensures writeKey + readKey + writeIv + readIv
           == SessionKeys(context.clientRandom, context.serverRandom, context.sharedSecret)[..88]
      ensures var prk := Hkdf.Extracted(XorBytes(context.clientRandom, context.serverRandom), context.sharedSecret);
              var material := Hkdf.Okm(prk, [0x74, 0x6C, 0x73, 0x31, 0x33, 0x20, 0x6B, 0x65, 0x79], 96);
              && writeKey == material[..32] && readKey == material[32..64]
              && writeIv == material[64..76] && readIv == material[76..88]
    {
      hide Hkdf.Okm, Hkdf.Extracted, XorBytes;
      var salt := MakeSalt(context.clientRandom, context.serverRandom);
      var prk := Hkdf.Extract(salt, context.sharedSecret);
      var keyMaterial := new byte[96](_ => 0);
      var _ := Hkdf.Expand(prk, SESSION_LABEL, keyMaterial, 96);
      var k := keyMaterial[..];
      assert keyMaterial[..96] == k;
      writeKey, readKey, writeIv, readIv := k[..32], k[32..64], k[64..76], k[76..88];
      FourParts(k);
    }

    /** ServerHello and EncryptedExtensions. */
    method ReplyHello(response: array<byte>, world: World) returns (ret: int, outTotal: nat)
      requires Valid() && state == WaitingClientHello
      requires response.Length >= 215 && response != context.handshakeBuffer
      modifies this`state, context`serverRandom, context`serverPrivkey, context`serverPublicKey, context`sharedSecret
      modifies context`messagesReceived, context`bufferOffset, context.handshakeBuffer, response
      ensures Valid() && ret == if world.randomOk then 0 else -1
      ensures ret != 0 ==> state == WaitingClientHello && Transcript() == old(Transcript()) && response[..] == old(response[..])
      ensures ret == 0 ==>
                var hello := ServerHello(world.random, context.cipherSuite, world.publicKey);
                && outTotal == 92 && state == SentEncryptedExtensions
                && context.serverRandom == world.random && context.sharedSecret == world.shared
                && Holds(response[..], old(response[..]), 0, hello + EncryptedExtensionsMessage())
                && Transcript() == Extended(Extended(old(Transcript()), hello), EncryptedExtensionsMessage())
                && context.messagesReceived == Marked(Marked(old(context.messagesReceived), 0x02), 0x04)
    {
      hide Marked, Holds, Message, Extended, ServerHello, EncryptedExtensionsMessage;
      ghost var before := response[..];
      outTotal := 0;
      var chunkLen: nat;
      ret, chunkLen := BuildServerHello(context, response, outTotal, world);
      if ret < 0 {
        return ret, 0;
      }
      outTotal := outTotal + chunkLen;
      state := Next(true, state, SERVER_HELLO);
      ghost var between := response[..];
      chunkLen := BuildEncryptedExtensions(context, response, outTotal);
      HoldsBoth(response[..], between, before, 0, ServerHello(world.random, context.cipherSuite, world.publicKey), EncryptedExtensionsMessage());
      outTotal := outTotal + chunkLen;
      state := Next(true, state, ENCRYPTED_EXTENSIONS);
    }

    /** Certificate and CertificateVerify. */
    method ReplyCertificate(response: array<byte>, at: nat) returns (outTotal: nat)
      requires Valid() && state == SentEncryptedExtensions
      requires response.Length >= at + 87 && response != context.handshakeBuffer
      modifies this`state, context`messagesReceived, context`bufferOffset, context.handshakeBuffer, response
      ensures Valid() && outTotal == at + 87 && state == SentCertificateVerify
      ensures var v := Extended(old(Transcript()), CertificateMessage());
              && Holds(response[..], old(response[..]), at, CertificateMessage() + CertificateVerifyMessage(v))
              && Transcript() == Extended(v, CertificateVerifyMessage(v))
      ensures context.messagesReceived == Marked(Marked(old(context.messagesReceived), 0x08), 0x10)
    {
      hide Marked, Holds, Message, Extended, CertificateMessage, CertificateVerifyMessage;
      ghost var before := response[..];
      outTotal := at;
      var chunkLen := BuildCertificate(context, response, outTotal);
      outTotal := outTotal + chunkLen;
      state := Next(true, state, CERTIFICATE);
      ghost var between, v := response[..], Transcript();
      chunkLen := BuildCertificateVerify(context, response, outTotal);
      HoldsBoth(response[..], between, before, at, CertificateMessage(), CertificateVerifyMessage(v));
      outTotal := outTotal + chunkLen;
      state := Next(true, state, CERTIFICATE_VERIFY);
    }

    /** The second half: the five messages, the keys in between, the state after each. */
    method Reply(response: array<byte>, world: World) returns (ret: int, respLen: nat)
      requires Valid() && state == WaitingClientHello
      requires response.Length >= 215 && response != context.handshakeBuffer
      modifies this`state, this`writeKey, this`readKey, this`writeIv, this`readIv
      modifies context`serverRandom, context`serverPrivkey, context`serverPublicKey, context`sharedSecret, context`masterSecret
      modifies context`messagesReceived, context`bufferOffset, context`handshakeDone, context.handshakeBuffer, response
      ensures Valid() && ret == if world.randomOk then 0 else -1
      ensures ret != 0 ==> state == WaitingClientHello && Transcript() == old(Transcript()) && response[..] == old(response[..])
      ensures ret != 0 ==> unchanged(this`writeKey, this`readKey, this`writeIv, this`readIv)
      ensures ret == 0 ==>
                var t, hello := old(Transcript()), ServerHello(world.random, context.cipherSuite, world.publicKey);
                && respLen == 215 && state == SentFinished && context.handshakeDone
                && context.masterSecret == Master(context.clientRandom, world.random, world.shared)
                && Holds(response[..], old(response[..]), 0, Flight(t, hello, context.masterSecret))
                && Transcript() == AfterFinished(t, hello, context.masterSecret)
                && context.messagesReceived == Marked(old(context.messagesReceived), 0x3E)
                && writeKey + readKey + writeIv + readIv == SessionKeys(context.clientRandom, world.random, world.shared)[..88]
    {
      hide Marked, Holds, Message, Extended, ServerHello, EncryptedExtensionsMessage, CertificateMessage, CertificateVerifyMessage,
        FinishedMessage, Master, SessionKeys, Hkdf.Okm, Hkdf.Extracted, XorBytes;
      ghost var before, t, bits := response[..], Transcript(), context.messagesReceived;
      ret, respLen := ReplyHello(response, world);
      if ret < 0 {
        return ret, 0;
      }
      ghost var hello := ServerHello(world.random, context.cipherSuite, world.publicKey);
      ghost var first := hello + EncryptedExtensionsMessage();
      DeriveHandshakeKeys(context);
      DeriveSessionKeys();
      ghost var between := response[..];
      respLen := ReplyCertificate(response, respLen);
      ghost var v := BeforeVerify(t, hello);
      ghost var second := CertificateMessage() + CertificateVerifyMessage(v);
      HoldsBoth(response[..], between, before, 0, first, second);
      between := response[..];
      ghost var f := Transcript();
      var chunkLen := BuildFinished(context, response, respLen);
      HoldsBoth(response[..], between, before, 0, first + second, FinishedMessage(context.masterSecret, f));
      respLen := respLen + chunkLen;
      state := Next(true, state, FINISHED);
      state := SentFinished;
      FlightIs(t, hello, context.masterSecret);
      AllBits(bits);
    }

    /**
     axon_engine_handshake.  `response` has room for the five messages; when all bytes fit, the
     transcript grows by the ClientHello and then exactly by the response.
     */
    method Handshake(clientHello: seq<byte>, response: array<byte>, world: World) returns (ret: int, respLen: nat)
      requires Valid()
      requires response.Length >= 215 && response != context.handshakeBuffer
      modifies this`state, this`writeKey, this`readKey, this`writeIv, this`readIv
      modifies context`clientRandom, context`cipherSuite, context`clientPubkey
      modifies context`serverRandom, context`serverPrivkey, context`serverPublicKey, context`sharedSecret, context`masterSecret
      modifies context`messagesReceived, context`bufferOffset, context`handshakeDone, context.handshakeBuffer, response
      ensures Valid() && ret == if Judge(clientHello, world).Accepted? && world.randomOk then 0 else -1
      ensures state == StateAfter(old(state), HandshakeCall(clientHello, world))
      ensures ret != 0 ==> response[..] == old(response[..]) && unchanged(this`writeKey, this`readKey, this`writeIv, this`readIv)
      ensures match Judge(clientHello, world)
              case Unread => state == old(state) && unchanged(context) && unchanged(context.handshakeBuffer)
              case Refused => state == AlertSent && unchanged(context) && unchanged(context.handshakeBuffer)
              case Unparsed(f) => state == AlertSent && Transcript() == Extended(old(Transcript()), f)
              case Accepted(f) =>
                var t, hello := Extended(old(Transcript()), f), ServerHello(world.random, Found(f, world).suite.value, world.publicKey);
                if !world.randomOk then state == WaitingClientHello && Transcript() == t else
                && respLen == 215 && state == SentFinished && context.handshakeDone
                && context.masterSecret == Master(f[4..36], world.random, world.shared)
                && response[..215] == Flight(t, hello, context.masterSecret) && response[215..] == old(response[215..])
                && Transcript() == AfterFinished(t, hello, context.masterSecret)
                && (|old(Transcript())| + |f| + 215 <= TRANSCRIPT_SIZE ==> Transcript() == old(Transcript()) + f + response[..215])
                && writeKey + readKey + writeIv + readIv == SessionKeys(f[4..36], world.random, world.shared)[..88]
                && context.messagesReceived == Marked(old(context.messagesReceived), 0x3F)
    {
      hide Judge, Holds, Extended, ServerHello, AfterFinished, Flight, Master, SessionKeys, Marked;
      ghost var before, start, bits := response[..], Transcript(), context.messagesReceived;
      ret := Receive(clientHello, world);
      if ret < 0 {
        return ret, 0;
      }
      ghost var t := Transcript();
      ghost var f := Judge(clientHello, world).fragment;
      ret, respLen := Reply(response, world);
      if ret < 0 {
        return ret, 0;
      }
      ghost var hello := ServerHello(world.random, Found(f, world).suite.value, world.publicKey);
      FirstBit(bits);
      Answered(response[..], before, start, f, hello, context.masterSecret);
    }

    /** axon_engine_decrypt: refused unless the handshake is complete. */
    method Decrypt(wire: seq<byte>, granted: bool, plaintext: array<byte>) returns (ret: int, outLen: nat)
      requires plaintext.Length >= |wire|
      modifies this`state, context`sequenceNumber, plaintext
      ensures state == StateAfter(old(state), DecryptCall(wire, granted))
      ensures old(state) != HandshakeComplete ==>
                ret == -1 && context.sequenceNumber == old(context.sequenceNumber) && plaintext[..] == old(plaintext[..])
      ensures old(state) == HandshakeComplete ==>
                match TlsRecord.Read(wire, granted)
                case None => ret == -1 && plaintext[..] == old(plaintext[..])
                case Some(r) =>
                  r.contentType == TlsRecord.APPLICATION_DATA && r.length >= 16 ==>
                    && context.sequenceNumber == TlsRecord.Next(old(context.sequenceNumber))
                    && match TlsRecord.Open(context.readKey, TlsRecord.Nonce(context.readIv, old(context.sequenceNumber)), r.fragment)
                       case None => ret == -1
                       case Some(p) => ret == 0 && outLen == |p| && outLen <= plaintext.Length && plaintext[..outLen] == p
    {
      hide TlsRecord.Read, TlsRecord.Nonce, TlsRecord.Open;
      if state != HandshakeComplete {
        return -1, 0;
      }
      RecordIsWithin(wire, granted);
      var record := TlsRecord.Read(wire, granted);
      if record.None? {
        return -1, 0;
      }
      if record.value.contentType == TlsRecord.ALERT {
        state := AlertSent;
        return -1, 0;
      }
      ret, outLen := TlsRecord.DecryptRecord(context, record.value, plaintext);
    }

    /** axon_engine_encrypt: refused unless the handshake is complete. */
    method Encrypt(plaintext: array<byte>, len: nat, ciphertext: array<byte>) returns (ret: int, outLen: nat)
      requires len <= plaintext.Length && ciphertext.Length >= len + 21
      modifies context`sequenceNumber, ciphertext
      ensures state == StateAfter(old(state), EncryptCall)
      ensures ret == if state != HandshakeComplete || len > TlsRecord.MAX_PAYLOAD then -1 else 0
      ensures ret != 0 ==> context.sequenceNumber == old(context.sequenceNumber) && ciphertext[..] == old(ciphertext[..])
      ensures ret == 0 ==>
                && context.sequenceNumber == TlsRecord.Next(old(context.sequenceNumber)) && outLen == len + 21
                && ciphertext[..outLen] == TlsRecord.Protect(context.writeKey, context.writeIv, old(context.sequenceNumber),
                                             TlsRecord.APPLICATION_DATA, old(plaintext[..len]))
    {
      if state != HandshakeComplete {
        return -1, 0;
      }
      hide TlsRecord.Protect;
      ret, outLen := TlsRecord.EncryptRecord(context, TlsRecord.APPLICATION_DATA, plaintext, len, ciphertext);
    }

    /** axon_engine_reset: the session keys the engine holds are not cleared. */
    method Reset()
      requires Valid()
      modifies this`state, this`sequenceNumber, context, context.handshakeBuffer
      ensures Valid() && state == StateAfter(old(state), ResetCall) && sequenceNumber == 0 && Transcript() == []
      ensures context.SecretsCleared() && context.sequenceNumber == 0 && context.messagesReceived == 0
    {
      context.Reset();
      state := Init;
      sequenceNumber := 0;
    }
  }

  lemma FourParts(k: seq<byte>)
    requires |k| == 96
    ensures k[..32] + k[32..64] + k[64..76] + k[76..88] == k[..88]
  {
  }

  /** A record that is read lies inside the input. */
  lemma RecordIsWithin(wire: seq<byte>, granted: bool)
    ensures var r := TlsRecord.Read(wire, granted); r.Some? ==> r.value.length == |r.value.fragment| <= |wire|
  {
  }

  lemma FirstBit(x: bv32)
    ensures Marked(Marked(x, 0x01), 0x3E) == Marked(x, 0x3F)
  {
  }

  /** What the response and the transcript have in common after an answered ClientHello. */
  lemma Answered(response: seq<byte>, before: seq<byte>, start: seq<byte>, f: seq<byte>, hello: seq<byte>, master: Bytes48)
    requires |hello| == 86 && Holds(response, before, 0, Flight(Extended(start, f), hello, master))
    ensures response[..215] == Flight(Extended(start, f), hello, master) && response[215..] == before[215..]
    ensures |start| + |f| + 215 <= TRANSCRIPT_SIZE ==>
              AfterFinished(Extended(start, f), hello, master) == start + f + response[..215]
  {
    hide Flight, AfterFinished;
    if |start| + |f| + 215 <= TRANSCRIPT_SIZE {
      FlightInTranscript(start + f, hello, master);
    }
  }

  lemma AllBits(x: bv32)
    ensures Marked(Marked(Marked(Marked(Marked(x, 0x02), 0x04), 0x08), 0x10), 0x20) == Marked(x, 0x3E)
  {
  }

  /** The flight grouped as the engine writes it. */
  lemma FlightIs(t: seq<byte>, hello: seq<byte>, master: Bytes48)
    ensures Flight(t, hello, master)
         == hello + EncryptedExtensionsMessage() + (CertificateMessage() + CertificateVerifyMessage(BeforeVerify(t, hello)))
            + FinishedMessage(master, BeforeFinished(t, hello))
  {
    hide EncryptedExtensionsMessage, CertificateMessage, CertificateVerifyMessage, FinishedMessage, BeforeVerify, BeforeFinished;
  }

  /** What was written first stays when more is written behind it. */
  lemma HoldsBoth(now: seq<byte>, between: seq<byte>, before: seq<byte>, at: nat, first: seq<byte>, second: seq<byte>)
    requires Holds(between, before, at, first) && Holds(now, between, at + |first|, second)
    ensures Holds(now, before, at, first + second)
  {
  }
}
