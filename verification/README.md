# Axon verification

A Dafny model of the protocol and cryptographic cores of Axon, a small TLS 1.3 stack in C, with
proofs about it. The files follow the C tree:

| file | models |
|---|---|
| Bytes.dfy | bytes, machine words, exclusive or / and / or, big- and little-endian numbers |
| Field25519.dfy, FieldBytes.dfy, X25519.dfy, LadderStep.dfy | the field arithmetic and the ladder of crypto/source/x25519.c, and what one turn computes modulo p |
| AesGcm.dfy, AesGcmFacts.dfy | crypto/source/aes_gcm.c, and which bytes its tag sees |
| ChaCha20.dfy, Poly1305.dfy, ChaChaPoly.dfy, ChaChaFacts.dfy | crypto/source/chacha20.c, and its layout, rounds and stream against RFC 8439 |
| Sha256.dfy, Sha256Facts.dfy, Octets.dfy, Hkdf.dfy | crypto/source/sha256.c, with its constants, message words and known digest against FIPS 180-4, and crypto/source/hkdf.c |
| Context.dfy, Record.dfy, Channel.dfy | core/source/context.c, core/source/record.c, and two parties exchanging records |
| StateMachine.dfy, ClientHello.dfy, Handshake.dfy, Engine.dfy | core/source/state.c, core/source/handshake.c, core/source/main.c |
| Asn1.dfy, Asn1Heap.dfy, Asn1Oid.dfy | parser/source/asn1.c, on values and on a heap with an allocator that may fail |
| MemoryPool.dfy | memory/source/pool.c |

`dafny verify dfyconfig.toml` checks everything.

Code that changes state is a method over arrays or objects, and its contract equates the result
with a function of the old state; what the source promises is then proved of that function, and
each such function is also tied to something written without it: a literal layout, the C operators,
an example of a standard, or the numbers the words stand for. Words
are integers with every truncation written out, except the SHA-256 words, which are bit vectors.
Allocation is allowed to fail at any call.

## Where the code differs from what it aims at

The model follows the code. What that means is stated by lemmas:

- `X25519.SubIsOffBy74`: field subtraction never gives the difference modulo 2^255 - 19, for any
  limbs; it is off by 74 exactly when no limb leaves its 64-bit word.
- `Field25519.MulCorrect`: field multiplication is right if and only if every limb of the product
  fits 64 bits; `Field25519.ThirdSquareIsWrong` is an element whose third successive square does not.
- `LadderStep.SmallLimbsAdd`, `LadderStep.SmallLimbsDouble`, `LadderStep.DoublesPoint`: with that 74
  in every difference, a turn of the ladder computes (DA + CB)^2 and x1 (DA - CB + 74)^2, A^2 B^2
  as long as it fits, and E (B^2 + 121665 E), where section 5 of RFC 7748 has A^2 in place of B^2;
  from limbs below 2^41 the difference E of the squares is never right.
- `AesGcmFacts.TagSeesCiphertext`, `AesGcmFacts.SecondOfSeventeenUnseen`: with a partial last block,
  the bytes of the block before it behind the partial block's length are folded in twice, so a
  change of one of them leaves the tag as it is; `AesGcmFacts.TagSeesAad`: additional data is seen up
  to its sixteenth byte.
- `Poly1305.PackedValue`: the sixteen bytes written keep the carried limbs modulo 2^128 exactly when
  the carry into the 27th bit of the second limb does not meet a one in the third;
  `Poly1305.OverlapHappens` is a key and data for which it does.
- `Channel.AcceptedIffNumbersAgree`, `Channel.CrossingSendsFail`: both directions share one sequence
  number, so a record is accepted exactly when the two numbers agree, and crossing sends are lost.
- `Engine.TrueLengthRefused`: the bytes the engine takes for the version are the top of the message
  length, so no ClientHello with a true length field is ever answered.
- `Engine.NeverComplete`: no list of calls on an engine completes the handshake.
- `ClientHello.KeyShareSeenIff`: the client's key is found exactly when its extension starts early
  enough in the message, because the loop compares an offset with a length.
- `TlsRecord.ReadOfHeader`: alerts and empty payloads can be written and are refused when read.
- `StateMachine.ValidIffPossible`: the transition check omits the alert in the initial state.
- `MemoryPool.FreeStaysInBitmap`: freeing looks outside the bitmap for some pointer exactly when an
  incomplete last block would start a new bitmap byte.
- `ClientHello.AcceptedIff`: of the four length checks of the scan one decides alone whether a message is accepted.
- `Asn1Oid.OneNumberComesBackIff`: an arc is read back exactly when it is below 2^32.

## Model

| member | source | states |
|---|---|---|
| `FieldBytes.FeFromBytes` | crypto/source/x25519.c:22-36 | fills the five limbs with the shifted and masked loads FromBytes describes |
| `FieldBytes.FromBytesCorrect` | crypto/source/x25519.c:22-36 | for all 32 bytes the limbs are below 2^51 and their value is the little-endian number modulo 2^255 (section 5 of RFC 7748) |
| `Field25519.FeMul` | crypto/source/x25519.c:78-94 | the output array ends as Mul of the old inputs, also when it is one or both of them |
| `Field25519.FeSq` | crypto/source/x25519.c:95 | squaring through the aliased call gives Mul of the old operand with itself |
| `Field25519.AccExact` | crypto/source/x25519.c:78-86 | for limbs below 2^54 no 128-bit accumulator loses a bit, and how large each gets |
| `Field25519.AccWraps` | crypto/source/x25519.c:78-87 | whatever the limbs, the accumulators hold the exact sums modulo 2^128 |
| `Field25519.MulExactIff` | crypto/source/x25519.c:78-94 | whatever the limbs, no bit is lost if and only if every limb of the product fits 64 bits |
| `Field25519.MulCorrect` | crypto/source/x25519.c:78-94 | whatever the limbs, the result is congruent to the product modulo 2^255 - 19 if and only if every limb of the product fits 64 bits |
| `Field25519.SmallLimbsFit` | crypto/source/x25519.c:78-94 | limbs below 2^54 are enough for that |
| `Field25519.ThirdSquareIsWrong` | crypto/source/x25519.c:78-95 | squaring a fully reduced element again and again: the first square has a limb of 2^54 or more, the first two are right, the third is wrong |
| `X25519.FeAdd` | crypto/source/x25519.c:67-69 | limbwise wrapping sums, also in place |
| `X25519.AddCorrect` | crypto/source/x25519.c:67-69 | whatever the limbs, the values add, modulo p or exactly, if and only if no sum of limbs reaches 2^64 |
| `X25519.FeSub` | crypto/source/x25519.c:70-77 | limbwise wrapping differences plus the constants, also in place |
| `X25519.SubIsOffBy74` | crypto/source/x25519.c:70-77 | whatever the limbs, the result is the difference plus 74 modulo p if and only if no limb leaves its word, and it is never the difference |
| `X25519.FeCswap` | crypto/source/x25519.c:96-102 | swaps both arrays exactly when the low bit of `swap` is set, also for one array given twice |
| `X25519.Clamp` | crypto/source/x25519.c:11-15 | the array ends as Clamped of what it was |
| `X25519.ClampedNumber` | crypto/source/x25519.c:11-15 | the clamped scalar is 2^254 plus the multiple of 8 left of the lower bits (section 5 of RFC 7748) |
| `X25519.ScalarBitIsBit` | crypto/source/x25519.c:117-122 | the bit picked out of the scalar bytes is the binary digit of the little-endian number |
| `X25519.DeferredIsPlain` | crypto/source/x25519.c:117-146 | for any step function, deferring the swaps gives the same points as swapping before and after each step |
| `X25519.LadderReachesMultiple` | crypto/source/x25519.c:117-146 | if the step doubles and adds, the deferred-swap ladder arrives at the scalar's multiple |
| `X25519.LadderReadsWholeScalar` | crypto/source/x25519.c:11-15 | 255 turns suffice for every clamped scalar |
| `X25519.LadderState.DoStep` | crypto/source/x25519.c:124-144 | the eighteen in-place field operations compute Step of the old points |
| `X25519.LadderState.Run` | crypto/source/x25519.c:117-146 | the loop and its final swap compute the deferred ladder over the scalar's digits |
| `X25519.Ladder` | crypto/source/x25519.c:105-146 | clamping, loading and looping together compute the plain ladder over the clamped scalar |
| `LadderStep.SmallLimbsAdd` | crypto/source/x25519.c:124-143 | for all limbs below 2^41, with A, B the sum and difference + 74 of the first point and C, D of the second: the new x3 is (DA + CB)^2 and the new z3 is x1 (DA - CB + 74)^2 modulo p |
| `LadderStep.AddsPoints` | crypto/source/x25519.c:124-143 | for all limbs that lose nothing up to the cross products: those two congruences hold exactly when the last product of each fits |
| `LadderStep.SmallLimbsDouble` | crypto/source/x25519.c:129-136 | for all limbs below 2^41: the new x2 is A^2 B^2 modulo p if and only if that product fits, and the difference of the squares is never right |
| `LadderStep.DoublesPoint` | crypto/source/x25519.c:129-143 | when nothing is lost before: the new x2 is A^2 B^2 and the new z2 is E (B^2 + 121665 E) with E = A^2 - B^2 + 74, each exactly when its last product fits |
| `LadderStep.DoubleCanBeRight` | crypto/source/x25519.c:129-143 | a point that meets those conditions and for which the new z2 is right |
| `LadderStep.MulAtMost` | crypto/source/x25519.c:78-94 | limbs bounded by r and s with r s at most 2^51 m give a product that fits, with limbs at most 2^51 + 95 m |
| `AesGcm.AesEncryptBlock` | crypto/source/aes_gcm.c:4-8 | the block cipher as coded, also in place |
| `AesGcm.GcmGhash` | crypto/source/aes_gcm.c:16-25 | folds all blocks in; a partial last block keeps bytes of the one before it |
| `AesGcm.GcmInc32` | crypto/source/aes_gcm.c:27-34 | the last four counter bytes advance by one modulo 2^32, the others stay |
| `AesGcm.EncryptCounterIs` | crypto/source/aes_gcm.c:46-56 | the counter stepped n times by encryption is iv followed by n + 1 modulo 2^32 |
| `AesGcm.CountersAgree` | crypto/source/aes_gcm.c:102-121 | at every block the counter decryption puts together from reset and left-over bytes is encryption's |
| `AesGcm.EncryptBlocks` | crypto/source/aes_gcm.c:46-60 | the block loop writes counter mode of the old input, also in place, and nothing else |
| `AesGcm.DecryptBlocks` | crypto/source/aes_gcm.c:102-121 | the same for decryption's own counter handling |
| `AesGcm.Encrypt` | crypto/source/aes_gcm.c:36-89 | null arguments give -1 and change nothing; otherwise ciphertext and tag are Seal's, and the rest is untouched |
| `AesGcm.Decrypt` | crypto/source/aes_gcm.c:91-147 | the plaintext is written in any case and the result is 0 exactly when the tag matches; on separate arrays it follows Open |
| `AesGcm.CtrUndo` | crypto/source/aes_gcm.c:46-56 | counter mode under the same key and iv undoes itself, for any length |
| `AesGcm.OpenInvertsSeal` | crypto/source/aes_gcm.c:36-147 | for every key, iv, additional data and plaintext, decryption accepts a ciphertext and tag with that plaintext if and only if encryption produces them |
| `AesGcmFacts.CtrBytes` | crypto/source/aes_gcm.c:4-56 | every ciphertext byte is the plaintext byte, a key byte and an iv or block number byte combined |
| `AesGcmFacts.TagBytes` | crypto/source/aes_gcm.c:16-86 | every tag byte is the exclusive or of one byte column of ciphertext, additional data, lengths, key and iv |
| `AesGcmFacts.TagSeesCiphertext` | crypto/source/aes_gcm.c:16-86 | changing one ciphertext byte changes the tag if and only if it is not in the last full block behind the length of a partial one |
| `AesGcmFacts.SecondOfSeventeenUnseen` | crypto/source/aes_gcm.c:16-25 | the second byte of any seventeen can be anything without changing the tag |
| `AesGcmFacts.TagSeesAad` | crypto/source/aes_gcm.c:60-64 | changing one byte of additional data changes the tag if and only if it is one of the first sixteen |
| `AesGcmFacts.TagSeesAadLength` | crypto/source/aes_gcm.c:68-77 | two lengths of additional data give the same tag exactly when they agree modulo 2^29 |
| `AesGcmFacts.TagSeesLength` | crypto/source/aes_gcm.c:66-77 | so do two lengths of an all-zero ciphertext |
| `ChaCha20.MixQuarter` | crypto/source/chacha20.c:8-13 | the in-place quarter round on four of sixteen words is QuarterRound and touches no other word |
| `ChaCha20.RotationsUndo` | crypto/source/chacha20.c:4 | rotating by n and then by 32 - n is the identity on 32-bit words |
| `ChaCha20.QuarterRoundUndo` | crypto/source/chacha20.c:8-13 | the quarter round is a bijection on four words, with explicit inverse |
| `ChaCha20.RoundsUndo` | crypto/source/chacha20.c:27-36 | any number of quarter rounds, the ten double rounds included, is a bijection on sixteen words |
| `ChaCha20.DoubleRound` | crypto/source/chacha20.c:27-36 | one turn of the loop makes the next eight quarter rounds, columns then diagonals |
| `ChaCha20.MakeBlock` | crypto/source/chacha20.c:15-44 | writes the block of key, nonce and counter into 64 bytes and leaves the rest |
| `ChaCha20.CounterReachesRounds` | crypto/source/chacha20.c:15-36 | equal mixed states come from equal counters |
| `ChaCha20.XorStream` | crypto/source/chacha20.c:46-59 | the offset loop computes Xored of the old input, also in place, and leaves the rest |
| `ChaCha20.XoredUndo` | crypto/source/chacha20.c:46-59 | the stream is its own inverse |
| `ChaCha20.XoredSplits` | crypto/source/chacha20.c:46-59 | it splits at any 64-byte boundary with the counter advanced modulo 2^32 |
| `ChaChaFacts.QuarterRoundExample` | crypto/source/chacha20.c:8-13 | the example of section 2.1.1 of RFC 8439 |
| `ChaChaFacts.RoundTakes` | crypto/source/chacha20.c:27-36 | quarter round n replaces the four words listed for n modulo 8, columns then diagonals, and no other |
| `ChaChaFacts.StartWords` | crypto/source/chacha20.c:15-22 | which word of the start is which constant, key word, counter or nonce word |
| `ChaChaFacts.BlockWords` | crypto/source/chacha20.c:24-43 | each word of a block, read big-endian, is that word after eighty quarter rounds plus what it was, modulo 2^32 |
| `Bytes.Load32Is` | crypto/source/chacha20.c:6 | four bytes are read top byte first |
| `Poly1305.DotExact` | crypto/source/chacha20.c:80-84 | no column sum of five products overflows 64 bits |
| `Poly1305.ColumnsExact` | crypto/source/chacha20.c:75-84 | the five columns hold the product up to a multiple of 2^130 - 5 |
| `Poly1305.CarriedExact` | crypto/source/chacha20.c:86-92 | the carry chain loses nothing, bounds every limb and keeps the value modulo p |
| `Poly1305.MulCorrect` | crypto/source/chacha20.c:62-92 | for all operands the limbs are congruent to h r modulo 2^130 - 5; d0, d2, d3, d4 below 2^26, d1 below 2^26 + 18 |
| `Poly1305.PackedValue` | crypto/source/chacha20.c:94-97 | the packed words are the limbs modulo 2^128 if and only if the overlapping bit is not set twice |
| `Poly1305.OverlapHappens` | crypto/source/chacha20.c:61-98 | under a key with a single multiplier bit a block of ones is absorbed as it is, and the next product loses that bit |
| `Poly1305.PolyMul` | crypto/source/chacha20.c:61-98 | the bytes of h become Mul of the old bytes |
| `Poly1305.PolyMac` | crypto/source/chacha20.c:100-133 | the tag is Tag of key and data; the rest of the output stays |
| `Poly1305.AbsorbingResumes` | crypto/source/chacha20.c:115-127 | absorbing can stop and resume at any block boundary |
| `Poly1305.SplitMasks` | crypto/source/chacha20.c:62-72 | the limbs of sixteen bytes in the source's shifts and masks |
| `Poly1305.ClampMasks` | crypto/source/chacha20.c:107-111 | which bytes of the multiplier are masked with what |
| `Poly1305.BlockBytes` | crypto/source/chacha20.c:118-120 | a full block is the data, a short one the data, a one and zeros |
| `Poly1305.TagOfOnes` | crypto/source/chacha20.c:61-133 | every byte of the tag of sixteen bytes 0xff under a key with one multiplier bit |
| `ChaChaPoly.Encrypt` | crypto/source/chacha20.c:141-178 | null arguments give -1 and change nothing; otherwise ciphertext and tag are Seal's |
| `ChaChaPoly.Decrypt` | crypto/source/chacha20.c:180-218 | follows Open of the old inputs, and writes nothing unless the tag matches |
| `ChaChaPoly.OpenInvertsSeal` | crypto/source/chacha20.c:141-218 | decryption accepts a ciphertext and tag with a plaintext if and only if encryption of it produces them |
| `ChaChaFacts.OneStream` | crypto/source/chacha20.c:141-178 | one run of the stream from block 0 over 64 zeros and the plaintext is the tag key, its first 32 bytes, and the ciphertext, from byte 64 on |
| `ChaChaPoly.MacInputInjective` | crypto/source/chacha20.c:150-174 | below 2^61 bytes the authenticated string fixes additional data and ciphertext |
| `ChaChaPoly.MacInputFits` | crypto/source/chacha20.c:149-174 | the buffer the source declares for that string suffices if and only if there are at most 16 bytes of additional data |
| `Sha256.Context.Transform` | crypto/source/sha256.c:44-90 | the chaining value becomes the compression of the buffered block (section 6.2 of FIPS 180-4) |
| `Sha256.AppendInside` | crypto/source/sha256.c:92-103 | a byte that completes no block changes only the buffer |
| `Sha256.AppendCompletes` | crypto/source/sha256.c:92-103 | a byte that completes a block compresses it and leaves a zero buffer |
| `Sha256.Context.Update` | crypto/source/sha256.c:92-103 | after any updates the context is the fold over complete blocks, the tail then zeros, and the length, of the concatenation |
| `Sha256.Context.Final` | crypto/source/sha256.c:105-129 | the digest is that of everything absorbed, however it was split |
| `Sha256.MakePadding` | crypto/source/sha256.c:105-118 | a one bit, zeros and the 64-bit bit count, to a multiple of 64 bytes (section 5.1.1 of FIPS 180-4) |
| `Sha256.HashOf` | crypto/source/sha256.c:131-136 | the one-shot hash is the same digest |
| `Sha256.FoldResumes` | crypto/source/sha256.c:44-103 | the fold over blocks can be resumed at any block boundary |
| `Sha256.FoldChains` | crypto/source/sha256.c:92-103 | each block is compressed from the chaining value of all before it |
| `Sha256.PaddingShape` | crypto/source/sha256.c:105-118 | 0x80, then zeros, then the bit count modulo 2^64, 9 to 72 bytes up to a multiple of 64 |
| `Sha256.PaddingInjective` | crypto/source/sha256.c:105-118 | below 2^61 bytes distinct messages have distinct padded forms |
| `Sha256Facts.RoundConstantsAreCubeRoots` | crypto/source/sha256.c:12-29 | each round constant is the first 32 fractional bits of the cube root of its prime (section 4.2.2 of FIPS 180-4) |
| `Sha256Facts.InitialStateIsSquareRoots` | crypto/source/sha256.c:31-42 | each initial word is the first 32 fractional bits of the square root of its prime (section 5.3.3) |
| `Sha256Facts.EightRoundsKeepTheMessage` | crypto/source/sha256.c:66-80 | from any registers eight rounds determine the first 32 bytes of the block |
| `Sha256Facts.DigestOfAbc` | crypto/source/sha256.c:44-136 | the digest of "abc" |
| `Hkdf.Extract` | crypto/source/hkdf.c:5-27 | the hash of salt, or 32 zeros for none, and input key |
| `Hkdf.Expand` | crypto/source/hkdf.c:29-63 | for every length the output is the beginning of T(1), T(2), ..., or -1 and no change for a key of the wrong size |
| `Hkdf.OkmPrefix` | crypto/source/hkdf.c:29-63 | a shorter output is a prefix of every longer one |
| `Hkdf.OkmBlocks` | crypto/source/hkdf.c:38-60 | each 32 bytes of output are the hash of key, the 32 bytes before them, info and the block number modulo 256 |
| `TlsContext.Context.constructor` | core/source/context.c:7-10 | all zero but the cipher suite |
| `TlsContext.Context.UpdateHash` | core/source/context.c:18-24 | the transcript grows by all of the data or, when it does not fit, not at all |
| `TlsContext.Context.Reset` | core/source/context.c:7-16 | wiping and initialising leaves nothing of the old session |
| `TlsContext.MarkedBits` | core/source/handshake.c:89 | marking a message sets its bit and keeps the others |
| `TlsRecord.ReadOfHeader` | core/source/record.c:10-58 | a record written reads back with its type and payload, whatever follows it, unless it is an alert or empty; then it is refused |
| `TlsRecord.WriteRecord` | core/source/record.c:42-58 | header then payload, or -1 and no change above 16384 bytes |
| `TlsRecord.BuildNonce` | core/source/record.c:60-69 | the iv with the big-endian sequence number folded into its last eight bytes |
| `TlsRecord.NonceInjective` | core/source/record.c:60-69 | distinct sequence numbers give distinct nonces |
| `TlsRecord.NonceBytes` | core/source/record.c:60-69 | byte i of the nonce in the C operators |
| `TlsRecord.ReadIff` | core/source/record.c:10-40 | exactly which inputs read as which record |
| `TlsRecord.HeaderBytes` | core/source/record.c:46-50 | the five header bytes |
| `TlsRecord.ProtectBytes` | core/source/record.c:110-126 | a protected record is its five header bytes and the fragment sealed under the nonce of its own number |
| `TlsRecord.SealIs` | core/source/record.c:115-126 | a fragment is AES-GCM of the plaintext without additional data, then the tag |
| `TlsRecord.OpenOfSeal` | core/source/record.c:71-129 | opening under the sealing nonce gives the plaintext |
| `TlsRecord.OpenOfOtherSeal` | core/source/record.c:71-129 | opening under any other sequence number fails |
| `TlsRecord.EncryptRecord` | core/source/record.c:100-129 | the protected record, the advanced number, and what happens on each refusal |
| `TlsRecord.DecryptRecord` | core/source/record.c:71-98 | accepts exactly what Open accepts; the number advances once the record is long enough |
| `Channel.AcceptedIffNumbersAgree` | core/source/record.c:71-129 | a record is accepted, and unchanged, if and only if the receiver's number is the sender's |
| `Channel.ReplayRejected` | core/source/record.c:71-98 | the same record is not accepted a second time |
| `Channel.CrossingSendsFail` | core/source/record.c:71-129 | when both sides send before either reads, both messages are lost |
| `Channel.Send` | core/source/record.c:100-129 | the encrypting method on a context makes the modelled step |
| `Channel.Deliver` | core/source/record.c:10-98 | reading and decrypting on a context makes the modelled step, or nothing when no buffer can be had |
| `Channel.HalfDuplexDelivers` | core/source/record.c:71-129 | every half-duplex run of any length and direction pattern delivers every message and keeps the numbers equal |
| `Channel.StepNetKeeps` | core/source/record.c:71-129 | every send or delivery keeps the network invariant |
| `Channel.EveryRunDeliversRight` | core/source/record.c:71-129 | with records reordered, repeated or dropped, every run keeps that invariant |
| `Channel.FreshRunDeliversRight` | core/source/record.c:71-129 | so from two fresh cross-keyed contexts each delivery gives the sent message if and only if the numbers agreed then |
| `StateMachine.CompleteIff` | core/source/state.c:5-60 | the handshake is complete after a list of messages if and only if it is 1, 2, 8, 0x0B, 0x0F, 0x14, 0x14 and then only 0x17 |
| `StateMachine.NoWayBack` | core/source/state.c:5-60 | a run that failed stays failed, and any further message makes it an error |
| `StateMachine.WrongMessageAlerts` | core/source/state.c:5-60 | the state after every beginning of the script; any other message at any point alerts, and is an error without a context |
| `StateMachine.ValidIffPossible` | core/source/state.c:78-99 | the check accepts exactly the possible steps other than into the error state and other than the alert in the initial one |
| `StateMachine.NeverWaitsForFinished` | core/source/state.c:5-60 | no run enters the state named for the client's Finished |
| `Handshake.MessagesIffJoin` | core/source/handshake.c:144-148 | bytes are cut into a list of messages by their lengths if and only if they are its concatenation |
| `ClientHello.Parse` | core/source/handshake.c:32-91 | shorter than 40 bytes changes nothing; otherwise the random is bytes 4 to 35 and result, suite and key share are what Scan finds, bytes read behind the message included |
| `ClientHello.FirstSuiteIsFirst` | core/source/handshake.c:47-58 | the suite taken is the first known one offered, and none is found only when none is known |
| `ClientHello.FirstShareDecides` | core/source/handshake.c:75-84 | the first key share of 32 bytes or more is the only one looked at, whatever follows |
| `ClientHello.AcceptedIff` | core/source/handshake.c:39-68 | whatever the bytes: accepted exactly when the extensions' length field lies inside and a known suite is offered; the suite is stored when its list lies inside |
| `ClientHello.ScanOfHello` | core/source/handshake.c:39-68 | a well-formed ClientHello is accepted if and only if it offers a known suite, whatever lies behind it in memory |
| `ClientHello.HelloParts` | core/source/handshake.c:35-68 | at which offset each part of a ClientHello lies |
| `ClientHello.KeyShareSeenIff` | core/source/handshake.c:70-87 | behind any other extensions the client's key is found if and only if its extension starts at an offset below the extensions' length plus 4 |
| `Handshake.BuildServerHello` | core/source/handshake.c:93-155 | 86 bytes with both lengths back-patched, appended to the transcript; no random, no change but the random field |
| `Handshake.ReadServerHelloIff` | core/source/handshake.c:93-155 | bytes read as a random, a suite and a key share if and only if they are the ServerHello made from these three |
| `Handshake.BuildEncryptedExtensions` | core/source/handshake.c:157-179 | the 6-byte message in the buffer and in the transcript, bytes around it kept |
| `Handshake.BuildCertificate` | core/source/handshake.c:181-212 | the 13-byte message, likewise |
| `Handshake.ComputeSignature` | core/source/handshake.c:214-226 | the hash forwards then backwards |
| `Handshake.SignatureBytes` | core/source/handshake.c:214-226 | each digest byte stands at i and at 63 - i |
| `Handshake.BuildCertificateVerify` | core/source/handshake.c:228-263 | the 74-byte message over the transcript before it |
| `Handshake.ComputeFinished` | core/source/handshake.c:265-276 | the transcript hash masked with the key |
| `Handshake.BuildFinished` | core/source/handshake.c:278-307 | the 36-byte message over the transcript before it, and the handshake marked done |
| `Handshake.VerifyFinished` | core/source/handshake.c:309-326 | accepts if and only if the first 32 bytes are the Finished body of the current transcript |
| `Handshake.FinishedTellsTranscripts` | core/source/handshake.c:265-307 | two Finished bodies agree exactly when the transcript hashes do |
| `Handshake.FinishedBytes` | core/source/handshake.c:265-292 | each Finished byte is digest, master secret and 0x5C combined |
| `Handshake.DeriveHandshakeKeys` | core/source/handshake.c:328-359 | the master secret is expanded from both randoms and the shared secret |
| `Handshake.MasterNeedsHalf` | core/source/handshake.c:356-358 | expanding 48 bytes would give the same master secret |
| `Handshake.FlightInTranscript` | core/source/main.c:71-122 | when everything fits the transcript grows by exactly the flight, and the signature and Finished cover exactly what came before them |
| `Handshake.FlightTiles` | core/source/main.c:71-122 | the flight is tiled by five messages of types 2, 8, 0x0B, 0x0F, 0x14 whose lengths match their bodies (section 4 of RFC 8446); random, suite, extension length and key share of the first at their offsets |
| `Engine.TrueLengthRefused` | core/source/main.c:50-55 | a ClientHello whose length field is true is refused |
| `Engine.JudgeIff` | core/source/main.c:34-65 | answered are exactly handshake records of at least 40 bytes that begin with 1, 3, 4 and in which the scan finds a known suite |
| `Engine.Engine.Create` | core/source/main.c:11-22 | an engine in the initial state with an empty transcript and all keys zero, or none without memory |
| `Engine.NeverComplete` | core/source/main.c:31-162 | after any list of calls the engine is in one of four states, and the complete one is not among them |
| `Engine.Engine.Encrypt` | core/source/main.c:148-153 | refused without any change unless the handshake is complete; then the protected record |
| `Engine.Engine.Decrypt` | core/source/main.c:131-146 | refused without any change unless the handshake is complete; then what Read and Open accept |
| `Engine.Engine.Receive` | core/source/main.c:34-65 | state and transcript for each way of reading the ClientHello |
| `Engine.Engine.DeriveSessionKeys` | core/source/main.c:87-103 | the four session secrets are consecutive slices of the expanded key material |
| `Engine.Engine.Reply` | core/source/main.c:67-128 | the whole flight in the response, the state after it, keys, transcript and message flags |
| `Engine.Engine.Handshake` | core/source/main.c:31-129 | every outcome, the state StateAfter gives, and on success the transcript is the old one, the ClientHello, then exactly the response, if they fit |
| `Engine.Engine.Reset` | core/source/main.c:155-162 | context cleared, initial state; the engine's own keys are kept |
| `Asn1.EncodingParses` | parser/source/asn1.c:6-87 | every definite-length encoding of a tree, followed by anything, parses to it and leaves what follows |
| `Asn1.ParsedIsEncoding` | parser/source/asn1.c:6-87 | what parses is an encoding of the tree returned |
| `Asn1.ParsesIffEncoding` | parser/source/asn1.c:6-87 | a tree and a length are returned if and only if that prefix is an encoding of the tree; at least two bytes are consumed |
| `Asn1.TagDecides` | parser/source/asn1.c:38-52 | for all data that parses, the node has the first byte as its tag and is constructed exactly when tag & 0x20 is not zero |
| `Asn1.LengthForms` | parser/source/asn1.c:6-29 | the length for each kind of first length byte, in the bytes themselves, and which are refused |
| `Asn1.NoLength` | parser/source/asn1.c:31-44 | without a tag and a readable length there is no node |
| `Asn1.PrimitiveNode` | parser/source/asn1.c:31-87 | with a primitive tag the node is the content behind the header, refused only when empty or cut off |
| `Asn1.BadChildRefused` | parser/source/asn1.c:52-80 | a constructed node is refused when anything behind its good children is no node |
| `Asn1.SequenceParses` | parser/source/asn1.c:31-87 | sequences of two, one and no primitives, byte by byte |
| `Asn1.ParsedTiles` | parser/source/asn1.c:53-80 | the children of a constructed node tile its content with no gap |
| `Asn1.EncodingsArePrefixFree` | parser/source/asn1.c:6-87 | no encoding is the beginning of another tree's |
| `Asn1.RoundTrip` | parser/source/asn1.c:6-87 | encoding with shortest lengths (section 8.1.3 of X.690) and parsing gives back every well-formed tree |
| `Asn1.FindIsFirstInPreorder` | parser/source/asn1.c:110-119 | the search gives the first match of the preorder listing |
| `Asn1.FirstWithIsFirst` | parser/source/asn1.c:110-119 | which is the match with no match before it, or none when there is none |
| `Asn1.InsideBeforeBehind` | parser/source/asn1.c:110-119 | a match inside a node comes before one behind it, and the node before what is inside |
| `Asn1Heap.ReadLengthAt` | parser/source/asn1.c:6-29 | reading the length on a buffer agrees with ReadLength on its bytes |
| `Asn1Heap.ParseNodeAt` | parser/source/asn1.c:31-87 | failure leaves the live allocations as they were and comes from the bytes or the allocator; success adds exactly the node's objects |
| `Asn1Heap.ParseChild` | parser/source/asn1.c:55-77 | one turn of the sibling loop links the next child or releases everything |
| `Asn1Heap.Parse` | parser/source/asn1.c:89-96 | the same from the start of the input, with the number of objects added |
| `Asn1Heap.CountObjects` | parser/source/asn1.c:31-87 | a parsed tree holds one object per node and one per primitive value |
| `Asn1Heap.Free` | parser/source/asn1.c:98-108 | releases each node and value reachable from the root exactly once |
| `Asn1Heap.FindNode` | parser/source/asn1.c:110-119 | the recursive search over linked nodes is Find of the trees they stand for |
| `Asn1Oid.GetOid` | parser/source/asn1.c:131-149 | the loop writes ReadArcs of the value; a wrong node gives -1 and changes nothing |
| `Asn1Oid.ArcsReadBack` | parser/source/asn1.c:137-147 | base-128 encodings of any numbers read back modulo 2^32, up to the room there is |
| `Asn1Oid.OidRoundTrip` | parser/source/asn1.c:131-149 | numbers below 2^32 come back unchanged, the first 32 of them |
| `Asn1Oid.OneNumberComesBackIff` | parser/source/asn1.c:137-147 | a number comes back if and only if it is below 2^32 |
| `Asn1Oid.ArcsByHand` | parser/source/asn1.c:137-147 | one- and two-byte numbers in their own bytes, a cut-off one included |
| `MemoryPool.LowestFreeIsLowest` | memory/source/pool.c:43-52 | the scan finds the lowest free block, or nothing exactly when all are taken |
| `MemoryPool.StepKeepsInv` | memory/source/pool.c:40-81 | every operation keeps free blocks zero and taken blocks inside the memory |
| `MemoryPool.EveryRunKeepsInv` | memory/source/pool.c:40-81 | so does every run in which clients write only inside blocks they hold |
| `MemoryPool.AllocAfterAnyRun` | memory/source/pool.c:40-54 | after any such run an allocation gives the lowest free block, disjoint from all others and all zero, or fails exactly when every block is taken |
| `MemoryPool.FreeTwice` | memory/source/pool.c:56-73 | freeing the same pointer again changes nothing |
| `MemoryPool.FreeReleases` | memory/source/pool.c:56-81 | for any pointer exactly what freeing changes, byte by byte, and what a reset leaves |
| `MemoryPool.FreeUndoesAlloc` | memory/source/pool.c:40-73 | freeing what was just allocated restores the pool |
| `MemoryPool.MarkBlock` | memory/source/pool.c:44-66 | setting or clearing a block's bit adds or removes that block and nothing else |
| `MemoryPool.MaskIs` | memory/source/pool.c:47-48 | which bit of a byte stands for which of its eight blocks |
| `MemoryPool.FullMeansAllTaken` | memory/source/pool.c:41 | the byte count reaches the size only when every block is taken |
| `MemoryPool.FreeStaysInBitmap` | memory/source/pool.c:62-68 | every pointer's bit lies in the bitmap if and only if no incomplete block starts a new byte of it |
| `MemoryPool.BlockPool.Init` | memory/source/pool.c:6-26 | succeeds exactly for a block that fits and granted allocations, with every block free and zero; what each failure leaves |
| `MemoryPool.BlockPool.Alloc` | memory/source/pool.c:40-54 | the bitmap scan makes the pool's allocation step; bitmap and byte count keep standing for it |
| `MemoryPool.BlockPool.Free` | memory/source/pool.c:56-73 | for any pointer, the pool's free step |
| `MemoryPool.BlockPool.Reset` | memory/source/pool.c:75-81 | no block taken, all bytes zero |
| `MemoryPool.BlockPool.Used` | memory/source/pool.c:88-91 | block size times the number of taken blocks |
| `MemoryPool.BlockPool.Available` | memory/source/pool.c:83-86 | what is left, at least one block exactly when an allocation would succeed |

## Left out

- X25519.Ladder: stops before the inversion and `fe_tobytes` (crypto/source/x25519.c:38-65, 148-156); agreement with RFC 7748 is not claimed, as the subtraction never gives the difference and z2 is made from B^2.
- Conformance of the block cipher, GHASH, HMAC and the byte order of ChaCha20 and Poly1305 to their standards: they are modelled as coded, and differ from them.
- Buffers the source declares too small are wider here: the SHA-256 padding (72 bytes), the Poly1305 scratch block (17 bytes) and the one-time key of the ChaCha20-Poly1305 pair (64 bytes).
- ChaChaPoly.Encrypt: does not model that more than 16 bytes of additional data overrun the buffer of crypto/source/chacha20.c:149; the model's buffer is as large as its contents (MacInputFits says when the declared one is).
- ChaChaPoly.Decrypt: the same for the buffer of crypto/source/chacha20.c:186.
- Handshake.BuildServerHello: does not compute the public key and the shared secret, because they come from the ladder's left-out end; they and the bytes of /dev/urandom are parameters.
- Engine.Engine.Handshake: takes those parameters, and what lies in memory behind the record body, which a short or malformed ClientHello makes the engine read.
- MemoryPool.BlockPool.Free: does not model a bit read outside the bitmap; FreeStaysInBitmap says exactly when no pointer leads there.
- Asn1.RoundTrip: excludes primitives with an empty value, which the parser rejects because the allocator refuses size 0, and contents of 2^32 bytes and more.
- Null arguments outside the AEAD functions and the state machine, partially overlapping buffers (whole-buffer aliasing is covered where stated), and sizes that overflow `size_t`.
- The allocator: a ghost set of live objects, with any call allowed to fail; locking, zeroing on release and release of the pool (memory/source/secure.c, memory/source/pool.c:28-38) are not modelled.
- Disjoint parts combined with `|` in loads and rotations are written as sums; the Poly1305 output words, whose parts can overlap, use the real operator.
- parser/source/x509.c, crypto/source/constant.c, utils, bindings and packaging: stubs or easy members.
