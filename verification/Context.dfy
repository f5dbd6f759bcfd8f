/** The connection context: session keys, the shared sequence number and the transcript buffer. */
module TlsContext {
  import opened Bytes

  type Bytes32 = s: seq<byte> | |s| == 32 witness Zeros(32)
  type Bytes12 = s: seq<byte> | |s| == 12 witness Zeros(12)
  type Bytes48 = s: seq<byte> | |s| == 48 witness Zeros(48)

  const TRANSCRIPT_SIZE: nat := 8192

  /** A transcript with a message appended, or unchanged when the message does not fit. */
  function Extended(transcript: seq<byte>, message: seq<byte>): seq<byte> {
    if |transcript| + |message| <= TRANSCRIPT_SIZE then transcript + message else transcript
  }

  /** messages_received with one more message marked. */
  function Marked(received: bv32, bit: bv32): bv32 {
    received | bit
  }

  /** Exactly the bits of `bit` are set, the others stay. */
  lemma MarkedBits(received: bv32, bit: bv32)
    ensures Marked(received, bit) & bit == bit
    ensures Marked(received, bit) & !bit == received & !bit
  {
  }

  class Context {
    var clientRandom: Bytes32
    var serverRandom: Bytes32
    var masterSecret: Bytes48
    var clientPubkey: Bytes32
    var serverPrivkey: Bytes32
    var serverPublicKey: Bytes32
    var sharedSecret: Bytes32
    var writeKey: Bytes32
    var readKey: Bytes32
    var writeIv: Bytes12
    var readIv: Bytes12
    var sequenceNumber: uint64
    const handshakeBuffer: array<byte>
    var bufferOffset: nat
    var messagesReceived: bv32
    var handshakeDone: bool
    var cipherSuite: nat

    ghost predicate Valid()
      reads this
    {
      handshakeBuffer.Length == TRANSCRIPT_SIZE && bufferOffset <= TRANSCRIPT_SIZE
    }

    /** The bytes hashed so far. */
    ghost function Transcript(): seq<byte>
      requires Valid()
      reads this, handshakeBuffer
    {
      handshakeBuffer[..bufferOffset]
    }

    /** axon_context_init: everything is zero but the cipher suite. */
    constructor ()
      ensures Valid() && fresh(handshakeBuffer) && Transcript() == [] && SecretsCleared()
      ensures sequenceNumber == 0 && messagesReceived == 0 && !handshakeDone && cipherSuite == 0x1301
      ensures forall i :: 0 <= i < TRANSCRIPT_SIZE ==> handshakeBuffer[i] == 0
    {
      handshakeBuffer := new byte[TRANSCRIPT_SIZE](_ => 0);
      bufferOffset := 0;
      clientRandom, serverRandom, masterSecret := Zeros(32), Zeros(32), Zeros(48);
      clientPubkey, serverPrivkey, serverPublicKey, sharedSecret := Zeros(32), Zeros(32), Zeros(32), Zeros(32);
      writeKey, readKey, writeIv, readIv := Zeros(32), Zeros(32), Zeros(12), Zeros(12);
      sequenceNumber := 0;
      messagesReceived, handshakeDone := 0, false;
      cipherSuite := 0x1301;
    }

    /** axon_context_update_hash: append everything, or nothing when it does not fit. */
    method UpdateHash(data: seq<byte>)
      requires Valid()
      modifies this`bufferOffset, handshakeBuffer
      ensures Valid()
      ensures Transcript() == Extended(old(Transcript()), data)
      ensures |old(Transcript())| + |data| <= 8192 ==> Transcript() == old(Transcript()) + data
      ensures |old(Transcript())| + |data| > 8192 ==> Transcript() == old(Transcript())
    {
      if |data| == 0 {
        return;
      }
      if bufferOffset + |data| <= TRANSCRIPT_SIZE {
        forall i | 0 <= i < |data| {
          handshakeBuffer[bufferOffset + i] := data[i];
        }
        bufferOffset := bufferOffset + |data|;
      }
    }

    ghost predicate SecretsCleared()
      reads this
    {
      && clientRandom == Zeros(32) && serverRandom == Zeros(32) && masterSecret == Zeros(48)
      && clientPubkey == Zeros(32) && serverPrivkey == Zeros(32) && serverPublicKey == Zeros(32) && sharedSecret == Zeros(32)
      && writeKey == Zeros(32) && readKey == Zeros(32) && writeIv == Zeros(12) && readIv == Zeros(12)
    }

    method ClearSecrets()
      modifies this`clientRandom, this`serverRandom, this`masterSecret, this`clientPubkey, this`serverPrivkey
      modifies this`serverPublicKey, this`sharedSecret, this`writeKey, this`readKey, this`writeIv, this`readIv
      ensures SecretsCleared()
    {
      clientRandom, serverRandom, masterSecret := Zeros(32), Zeros(32), Zeros(48);
      clientPubkey, serverPrivkey, serverPublicKey, sharedSecret := Zeros(32), Zeros(32), Zeros(32), Zeros(32);
      writeKey, readKey, writeIv, readIv := Zeros(32), Zeros(32), Zeros(12), Zeros(12);
    }

    /** axon_context_wipe followed by axon_context_init: nothing of the old session is left. */
    method Reset()
      requires Valid()
      modifies this, handshakeBuffer
      ensures Valid() && Transcript() == [] && SecretsCleared()
      ensures sequenceNumber == 0 && messagesReceived == 0 && !handshakeDone && cipherSuite == 0x1301
      ensures forall i :: 0 <= i < TRANSCRIPT_SIZE ==> handshakeBuffer[i] == 0
    {
      hide SecretsCleared;
      forall i | 0 <= i < handshakeBuffer.Length {
        handshakeBuffer[i] := 0;
      }
      bufferOffset, sequenceNumber, messagesReceived, handshakeDone, cipherSuite := 0, 0, 0, false, 0x1301;
      ClearSecrets();
    }
  }
}
