/**
 Scanning a ClientHello. Some fields are read before it is known that they lie inside the message;
 `m` stands for the message and whatever lies behind it in memory, `len` for the message's length.
 */
module ClientHello {
  import opened Bytes
  import opened Wrappers
  import opened TlsContext

  const KEY_SHARE: nat := 0x0022

  // ---------------------------------------------------------------- what is found

  /** A byte of the message or of the memory behind it. */
  function At(m: seq<byte>, i: nat): byte {
    if i < |m| then m[i] else 0
  }

  function WordAt(m: seq<byte>, i: nat): nat {
    256 * (At(m, i) as int) + At(m, i + 1)
  }

  predicate Known(suite: nat) {
    suite == 0x1301 || suite == 0x1302 || suite == 0x1303
  }

  /** The first known suite of a list of `n` bytes, from the `j`-th on. */
  function FirstSuite(m: seq<byte>, from: nat, n: nat, j: nat): (r: Option<nat>)
    ensures r.Some? ==> Known(r.value)
    decreases n - 2 * j
  {
    if 2 * j >= n then None
    else if Known(SuiteAt(m, from, j)) then Some(SuiteAt(m, from, j))
    else FirstSuite(m, from, n, j + 1)
  }

  function SuiteAt(m: seq<byte>, from: nat, j: nat): nat {
    WordAt(m, from + 2 * j)
  }

  /** The client's key in the first key share the loop over the extensions meets. */
  function KeyShare(m: seq<byte>, len: nat, offset: nat, extensions: nat): Option<Bytes32>
    requires len <= |m|
    decreases len - offset
  {
    if offset + 4 > len || offset - 4 >= extensions then None
    else if WordAt(m, offset) == KEY_SHARE && WordAt(m, offset + 2) >= 32 then
      if WordAt(m, offset + 8) == 32 && offset + 42 <= len then Some(m[offset + 10..offset + 42]) else None
    else KeyShare(m, len, offset + 4 + WordAt(m, offset + 2), extensions)
  }

  /** The suite stored, if any, whether the message is accepted, and the key share stored, if any. */
  datatype Scanned = Scanned(suite: Option<nat>, accepted: bool, key: Option<Bytes32>)

  const NOTHING := Scanned(None, false, None)

  /** What follows the suites: compression methods and extensions. */
  function ScanTail(m: seq<byte>, len: nat, offset: nat, suite: nat): Scanned
    requires len <= |m|
  {
    var afterCompression := offset + 1 + At(m, offset);
    if afterCompression > len || afterCompression + 2 > len then Scanned(Some(suite), false, None)
    else Scanned(Some(suite), true, KeyShare(m, len, afterCompression + 2, WordAt(m, afterCompression)))
  }

  /** Everything behind the random. */
  function Scan(m: seq<byte>, len: nat): (r: Scanned)
    requires 40 <= len <= |m|
    ensures r.accepted ==> r.suite.Some?
  {
    var afterSession := 37 + At(m, 36);
    if afterSession > len then NOTHING else
      var suites := WordAt(m, afterSession);
      if afterSession + 2 + suites > len then NOTHING else
        match FirstSuite(m, afterSession + 2, suites, 0)
        case None => NOTHING
        case Some(suite) => ScanTail(m, len, afterSession + 2 + suites, suite)
  }

  // ---------------------------------------------------------------- as coded

  /** The loop over the cipher suites. */
  method ScanSuites(m: seq<byte>, offset: nat, suitesLen: nat) returns (found: Option<nat>)
    ensures found == FirstSuite(m, offset, suitesLen, 0)
  {
    found := None;
    var i := 0;
    while i < suitesLen
      invariant i % 2 == 0 && FirstSuite(m, offset, suitesLen, i / 2) == FirstSuite(m, offset, suitesLen, 0)
    {
      var suite := WordAt(m, offset + i);
      if Known(suite) {
        return Some(suite);
      }
      i := i + 2;
    }
  }

  /** The loop over the extensions; its second bound compares an offset with a length. */
  method ScanExtensions(m: seq<byte>, len: nat, start: nat, extensionsLen: nat) returns (key: Option<Bytes32>)
    requires len <= |m| && start >= 4
    ensures key == KeyShare(m, len, start, extensionsLen)
  {
    hide WordAt;
    key := None;
    var offset := start;
    while offset + 4 <= len && offset - 4 < extensionsLen
      invariant offset >= 4
      invariant KeyShare(m, len, offset, extensionsLen) == KeyShare(m, len, start, extensionsLen)
      decreases len - offset
    {
      var extType, extLen := WordAt(m, offset), WordAt(m, offset + 2);
      if extType == KEY_SHARE && extLen >= 32 {
        var keyLen := WordAt(m, offset + 8);
        if keyLen == 32 && offset + 42 <= len {
          return Some(m[offset + 10..offset + 42]);
        }
        return None;
      }
      offset := offset + 4 + extLen;
    }
  }

  /**
   axon_parse_client_hello. The random is stored before anything is checked but the length, the
   suite before the rest is, the key share only in an accepted message.
   */
  method Parse(ctx: Context, data: seq<byte>, stray: seq<byte>) returns (ret: int)
    modifies ctx`clientRandom, ctx`cipherSuite, ctx`clientPubkey, ctx`messagesReceived
    ensures |data| < 40 ==>
              && ret == -1 && ctx.clientRandom == old(ctx.clientRandom) && ctx.cipherSuite == old(ctx.cipherSuite)
              && ctx.clientPubkey == old(ctx.clientPubkey)
    ensures |data| >= 40 ==>
              var found := Scan(data + stray, |data|);
              && ret == (if found.accepted then 0 else -1)
              && ctx.clientRandom == data[4..36]
              && ctx.cipherSuite == (if found.suite.Some? then found.suite.value else old(ctx.cipherSuite))
              && ctx.clientPubkey == (if found.key.Some? then found.key.value else old(ctx.clientPubkey))
    ensures ctx.messagesReceived == if ret == 0 then Marked(old(ctx.messagesReceived), 0x01) else old(ctx.messagesReceived)
  {
    hide WordAt, FirstSuite, KeyShare, Marked;
    if |data| < 40 {
      return -1;
    }
    var m, len := data + stray, |data|;
    var offset := 4;
    ctx.clientRandom := data[offset..offset + 32];
    offset := offset + 32;
    var sessionIdLen := At(m, offset);
    offset := offset + 1;
    if offset + sessionIdLen > len {
      return -1;
    }
    offset := offset + sessionIdLen;
    var suitesLen := WordAt(m, offset);
    offset := offset + 2;
    if offset + suitesLen > len {
      return -1;
    }
    var suite := ScanSuites(m, offset, suitesLen);
    if suite.None? {
      return -1;
    }
    ctx.cipherSuite := suite.value;
    offset := offset + suitesLen;
    var compressionLen := At(m, offset);
    offset := offset + 1;
    if offset + compressionLen > len {
      return -1;
    }
    offset := offset + compressionLen;
    if offset + 2 > len {
      return -1;
    }
    var extensionsLen := WordAt(m, offset);
    offset := offset + 2;
    var key := ScanExtensions(m, len, offset, extensionsLen);
    if key.Some? {
      ctx.clientPubkey := key.value;
    }
    ctx.messagesReceived := Marked(ctx.messagesReceived, 0x01);
    return 0;
  }

  // ---------------------------------------------------------------- which suite

  /** The suite found is the first known one of the list, and none is found only when none is known. */
  lemma {:induction false} FirstSuiteIsFirst(m: seq<byte>, from: nat, n: nat, j: nat)
    ensures match FirstSuite(m, from, n, j)
            case None => forall k :: j <= k && 2 * k < n ==> SuiteAt(m, from, k) !in {0x1301, 0x1302, 0x1303}
            case Some(s) =>
              && s in {0x1301, 0x1302, 0x1303}
              && exists k ::
                   && j <= k && 2 * k < n && SuiteAt(m, from, k) == s
                   && forall i :: j <= i < k ==> SuiteAt(m, from, i) !in {0x1301, 0x1302, 0x1303}
    decreases n - 2 * j
  {
    hide SuiteAt;
    if 2 * j < n && !Known(SuiteAt(m, from, j)) {
      FirstSuiteIsFirst(m, from, n, j + 1);
      if FirstSuite(m, from, n, j).Some? {
        var s := FirstSuite(m, from, n, j).value;
        var k :| j + 1 <= k && 2 * k < n && SuiteAt(m, from, k) == s && forall i :: j + 1 <= i < k ==> !Known(SuiteAt(m, from, i));
        assert forall i :: j <= i < k ==> !Known(SuiteAt(m, from, i));
      }
    } else if 2 * j < n {
      assert SuiteAt(m, from, j) == FirstSuite(m, from, n, j).value;
    }
  }

  // ---------------------------------------------------------------- which messages

  /** Whether one of the suites listed in `n` bytes is known. */
  ghost predicate Offers(m: seq<byte>, from: nat, n: nat) {
    exists k: nat :: 2 * k < n && SuiteAt(m, from, k) in {0x1301, 0x1302, 0x1303}
  }

  /**
   Of four length checks one decides: a message is accepted exactly when its extensions' length
   field lies inside and it offers a known suite. The suite is stored already when the list of
   suites lies inside.
   */
  lemma AcceptedIff(m: seq<byte>, len: nat)
    requires 40 <= len <= |m|
    ensures var a := 37 + (m[36] as int);
            var n := 256 * (At(m, a) as int) + At(m, a + 1);
            var b := a + 2 + n;
            var c := b + 1 + At(m, b);
            && (Scan(m, len).suite.Some? <==> b <= len && Offers(m, a + 2, n))
            && (Scan(m, len).accepted <==> c + 2 <= len && Offers(m, a + 2, n))
  {
    var a := 37 + (m[36] as int);
    FirstSuiteIsFirst(m, a + 2, WordAt(m, a), 0);
    hide SuiteAt, FirstSuite, KeyShare;
  }

  // ---------------------------------------------------------------- well-formed messages

  /** A ClientHello: header and random, session id, suites, compression methods, extensions, each with its length. */
  function Hello(head: seq<byte>, session: seq<byte>, suites: seq<byte>, compression: seq<byte>, extensions: seq<byte>): seq<byte>
    requires |session| < 256 && |compression| < 256
  {
    head + [|session|] + session + BigEndian(|suites|, 2) + suites + [|compression|] + compression
      + BigEndian(|extensions|, 2) + extensions
  }

  lemma WordIs(m: seq<byte>, i: nat, v: nat)
    requires i + 2 <= |m| && m[i..i + 2] == BigEndian(v, 2) && v < 0x1_0000
    ensures WordAt(m, i) == v
  {
    var w := m[i..i + 2];
    ValueOfBigEndian(v, 2);
    assert Pow256(2) == 0x1_0000;
    assert w[..1][..0] == [];
    assert BigEndianValue(w[..1]) == w[0];
  }

  /** Where the parts of a ClientHello lie. */
  lemma HelloParts(head: seq<byte>, session: seq<byte>, suites: seq<byte>, compression: seq<byte>, extensions: seq<byte>, stray: seq<byte>)
    requires |head| == 36 && |session| < 256 && |compression| < 256
    ensures var m := Hello(head, session, suites, compression, extensions) + stray;
            var a := 37 + |session|;
            var b := a + 2 + |suites|;
            var c := b + 1 + |compression|;
            && |m| == c + 2 + |extensions| + |stray|
            && m[36] == |session| && m[a..a + 2] == BigEndian(|suites|, 2) && m[a + 2..b] == suites
            && m[b] == |compression| && m[c..c + 2] == BigEndian(|extensions|, 2)
            && m[c + 2..c + 2 + |extensions|] == extensions
  {
    hide BigEndian;
  }

  lemma {:induction false} SuitesMoved(m: seq<byte>, from: nat, suites: seq<byte>, j: nat)
    requires from + |suites| <= |m| && m[from..from + |suites|] == suites && |suites| % 2 == 0
    ensures FirstSuite(m, from, |suites|, j) == FirstSuite(suites, 0, |suites|, j)
    decreases |suites| - 2 * j
  {
    if 2 * j < |suites| {
      assert suites[2 * j] == m[from + 2 * j] && suites[2 * j + 1] == m[from + 2 * j + 1];
      SuitesMoved(m, from, suites, j + 1);
    }
  }

  /**
   A well-formed ClientHello is accepted exactly when it offers a known suite, and the first one it
   offers is taken, whatever lies behind the message.
   */
  lemma ScanOfHello(head: seq<byte>, session: seq<byte>, suites: seq<byte>, compression: seq<byte>, extensions: seq<byte>, stray: seq<byte>)
    requires |head| == 36 && |session| < 256 && |compression| < 256
    requires |suites| < 0x1_0000 && |suites| % 2 == 0 && |extensions| < 0x1_0000
    ensures var hello := Hello(head, session, suites, compression, extensions);
            |hello| >= 40 &&
            Scan(hello + stray, |hello|) == match FirstSuite(suites, 0, |suites|, 0)
              case None => NOTHING
              case Some(s) =>
                Scanned(Some(s), true, KeyShare(hello + stray, |hello|, |hello| - |extensions|, |extensions|))
  {
    hide BigEndian, FirstSuite, KeyShare;
    var hello := Hello(head, session, suites, compression, extensions);
    var m := hello + stray;
    var a := 37 + |session|;
    var b := a + 2 + |suites|;
    var c := b + 1 + |compression|;
    HelloParts(head, session, suites, compression, extensions, stray);
    hide Hello;
    assert |hello| == c + 2 + |extensions|;
    WordIs(m, a, |suites|);
    WordIs(m, c, |extensions|);
    SuitesMoved(m, a + 2, suites, 0);
    hide WordAt;
  }

  // ---------------------------------------------------------------- which key share

  datatype Extension = Extension(kind: nat, body: seq<byte>)

  function Encoded(e: Extension): seq<byte> {
    BigEndian(e.kind, 2) + BigEndian(|e.body|, 2) + e.body
  }

  function EncodedAll(es: seq<Extension>): seq<byte> {
    if es == [] then [] else Encoded(es[0]) + EncodedAll(es[1..])
  }

  /** Extensions the loop passes over. */
  predicate PassedOver(es: seq<Extension>) {
    forall i :: 0 <= i < |es| ==> es[i].kind < 0x1_0000 && |es[i].body| < 0x1_0000 && (es[i].kind == 0x22 ==> |es[i].body| < 32)
  }

  /** One client share: the length of the list, the group, the length of the key and the key. */
  function ShareBody(list: seq<byte>, group: seq<byte>, key: Bytes32): seq<byte>
    requires |list| == |group| == 2
  {
    list + group + [0, 32] + key
  }

  lemma PartsAt(m: seq<byte>, o: nat, x: seq<byte>, y: seq<byte>)
    requires o + |x| + |y| <= |m| && m[o..o + |x| + |y|] == x + y
    ensures m[o..o + |x|] == x && m[o + |x|..o + |x| + |y|] == y
  {
    assert m[o..o + |x|] == m[o..o + |x| + |y|][..|x|];
    assert m[o + |x|..o + |x| + |y|] == m[o..o + |x| + |y|][|x|..];
  }

  /** Stepping over one extension. */
  lemma StepOver(m: seq<byte>, len: nat, o: nat, n: nat, e: Extension)
    requires len <= |m| && o >= 4 && o + 4 + |e.body| <= len && m[o..o + 4 + |e.body|] == Encoded(e)
    requires PassedOver([e])
    ensures KeyShare(m, len, o, n) == if o - 4 >= n then None else KeyShare(m, len, o + 4 + |e.body|, n)
  {
    assert [e][0] == e;
    ExtensionHeader(m, o, e);
    hide WordAt, Encoded;
  }

  lemma ExtensionHeader(m: seq<byte>, o: nat, e: Extension)
    requires o + 4 + |e.body| <= |m| && m[o..o + 4 + |e.body|] == Encoded(e)
    requires e.kind < 0x1_0000 && |e.body| < 0x1_0000
    ensures WordAt(m, o) == e.kind && WordAt(m, o + 2) == |e.body| && m[o + 4..o + 4 + |e.body|] == e.body
  {
    hide BigEndian, WordAt;
    var k, l := BigEndian(e.kind, 2), BigEndian(|e.body|, 2);
    assert Encoded(e) == k + (l + e.body);
    PartsAt(m, o, k, l + e.body);
    PartsAt(m, o + 2, l, e.body);
    WordIs(m, o, e.kind);
    WordIs(m, o + 2, |e.body|);
  }

  /** The share itself, if the loop gets to it. */
  lemma ShareFound(m: seq<byte>, len: nat, o: nat, n: nat, list: seq<byte>, group: seq<byte>, key: Bytes32)
    requires |list| == |group| == 2 && len <= |m| && o >= 4 && o + 42 <= len
    requires m[o..o + 42] == Encoded(Extension(KEY_SHARE, ShareBody(list, group, key)))
    ensures KeyShare(m, len, o, n) == if o - 4 >= n then None else Some(key)
  {
    var e := Extension(KEY_SHARE, ShareBody(list, group, key));
    assert |e.body| == 38;
    ExtensionHeader(m, o, e);
    assert m[o + 4..o + 42] == e.body;
    assert m[o + 8] == m[o + 4..o + 42][4] == 0 && m[o + 9] == m[o + 4..o + 42][5] == 32;
    assert m[o + 10..o + 42] == m[o + 4..o + 42][6..] == key;
    assert WordAt(m, o + 8) == 32;
    hide WordAt, Encoded;
  }

  /** The first key share of 32 bytes or more decides: its key is taken when it is 32 bytes long and inside, else none is. */
  lemma FirstShareDecides(m: seq<byte>, len: nat, o: nat, n: nat)
    requires len <= |m| && 4 <= o && o + 10 <= len && o - 4 < n
    requires m[o] == 0 && m[o + 1] == 0x22 && 256 * (m[o + 2] as int) + m[o + 3] >= 32
    ensures KeyShare(m, len, o, n) == if m[o + 8] == 0 && m[o + 9] == 32 && o + 42 <= len then Some(m[o + 10..o + 42]) else None
  {
    assert WordAt(m, o) == 0x22 && WordAt(m, o + 2) >= 32;
    assert WordAt(m, o + 8) == 32 <==> m[o + 8] == 0 && m[o + 9] == 32;
    hide WordAt;
  }

  /**
   The client's key is found exactly when its extension starts no more than three bytes behind the
   length of the extensions, counted from the start of the message: the loop compares an offset
   with a length, so a key share far enough back is not seen.
   */
  lemma {:induction false} KeyShareSeenIff(m: seq<byte>, len: nat, o: nat, n: nat, before: seq<Extension>,
                                           list: seq<byte>, group: seq<byte>, key: Bytes32)
    requires |list| == |group| == 2 && len <= |m| && o >= 4 && PassedOver(before)
    requires var all := EncodedAll(before) + Encoded(Extension(0x22, list + group + [0, 32] + key));
             o + |all| <= len && m[o..o + |all|] == all
    ensures KeyShare(m, len, o, n) == if o + |EncodedAll(before)| < n + 4 then Some(key) else None
    decreases |before|
  {
    hide BigEndian, KeyShare, WordAt;
    var share := Encoded(Extension(KEY_SHARE, ShareBody(list, group, key)));
    assert |share| == 42 && share == Encoded(Extension(0x22, list + group + [0, 32] + key));
    if before == [] {
      assert EncodedAll(before) + share == share;
      hide Encoded, ShareBody;
      ShareFound(m, len, o, n, list, group, key);
    } else {
      var e, rest := before[0], before[1..];
      assert |Encoded(e)| == 4 + |e.body|;
      assert EncodedAll(before) == Encoded(e) + EncodedAll(rest);
      assert PassedOver([e]) && PassedOver(rest);
      hide Encoded, EncodedAll, ShareBody, PassedOver;
      var more := EncodedAll(rest) + share;
      assert EncodedAll(before) + share == Encoded(e) + more;
      PartsAt(m, o, Encoded(e), more);
      StepOver(m, len, o, n, e);
      KeyShareSeenIff(m, len, o + 4 + |e.body|, n, rest, list, group, key);
    }
  }
}
