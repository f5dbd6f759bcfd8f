/** The handshake state machine and its transition check. */
module StateMachine {
  import opened Bytes
  import opened Wrappers

  datatype State =
    | Init
    | WaitingClientHello
    | SentServerHello
    | SentEncryptedExtensions
    | SentCertificate
    | SentCertificateVerify
    | SentFinished
    | WaitingFinished
    | HandshakeComplete
    | AlertSent
    | Error

  const CLIENT_HELLO: byte := 0x01
  const SERVER_HELLO: byte := 0x02
  const ENCRYPTED_EXTENSIONS: byte := 0x08
  const CERTIFICATE: byte := 0x0B
  const CERTIFICATE_VERIFY: byte := 0x0F
  const FINISHED: byte := 0x14
  const APPLICATION_DATA: byte := 0x17

  /** axon_state_machine. */
  function Next(hasContext: bool, current: State, message: byte): State {
    if !hasContext then Error else
      match current
      case Init => if message == CLIENT_HELLO then WaitingClientHello else AlertSent
      case WaitingClientHello => if message == SERVER_HELLO then SentServerHello else AlertSent
      case SentServerHello => if message == ENCRYPTED_EXTENSIONS then SentEncryptedExtensions else AlertSent
      case SentEncryptedExtensions => if message == CERTIFICATE then SentCertificate else AlertSent
      case SentCertificate => if message == CERTIFICATE_VERIFY then SentCertificateVerify else AlertSent
      case SentCertificateVerify => if message == FINISHED then SentFinished else AlertSent
      case SentFinished => if message == FINISHED then HandshakeComplete else AlertSent
      case HandshakeComplete => if message == APPLICATION_DATA then HandshakeComplete else AlertSent
      case _ => Error
  }

  /** axon_state_is_valid_transition. */
  predicate IsValidTransition(from: State, to: State) {
    match from
    case Init => to == WaitingClientHello
    case WaitingClientHello => to == SentServerHello || to == AlertSent
    case SentServerHello => to == SentEncryptedExtensions || to == AlertSent
    case SentEncryptedExtensions => to == SentCertificate || to == AlertSent
    case SentCertificate => to == SentCertificateVerify || to == AlertSent
    case SentCertificateVerify => to == SentFinished || to == AlertSent
    case SentFinished => to == HandshakeComplete || to == AlertSent
    case HandshakeComplete => to == HandshakeComplete || to == AlertSent
    case _ => false
  }

  /** The state after a list of messages, with a valid context. */
  function Run(s: State, messages: seq<byte>): State
    decreases |messages|
  {
    if messages == [] then s else Run(Next(true, s, messages[0]), messages[1..])
  }

  const SCRIPT: seq<byte> :=
    [CLIENT_HELLO, SERVER_HELLO, ENCRYPTED_EXTENSIONS, CERTIFICATE, CERTIFICATE_VERIFY, FINISHED, FINISHED]

  /** How many messages of the script a state has seen, if it is on the way to completion. */
  function Position(s: State): (n: Option<nat>)
    ensures n.Some? ==> n.value <= 7
  {
    match s
    case Init => Some(0)
    case WaitingClientHello => Some(1)
    case SentServerHello => Some(2)
    case SentEncryptedExtensions => Some(3)
    case SentCertificate => Some(4)
    case SentCertificateVerify => Some(5)
    case SentFinished => Some(6)
    case HandshakeComplete => Some(7)
    case _ => None
  }

  /** What has still to come for the handshake to be complete, if it can be. */
  function Missing(s: State): Option<seq<byte>> {
    assert |SCRIPT| == 7;
    match Position(s)
    case None => None
    case Some(n) => Some(SCRIPT[n..])
  }

  /** The given messages, then application data only. */
  predicate ThenDataOnly(messages: seq<byte>, first: seq<byte>) {
    first <= messages && forall i :: |first| <= i < |messages| ==> messages[i] == APPLICATION_DATA
  }

  lemma MissingAdvances(s: State, message: byte)
    ensures var now, later := Missing(s), Missing(Next(true, s, message));
            if now.None? then later == None
            else if now.value == [] then later == if message == APPLICATION_DATA then Some([]) else None
            else later == if message == now.value[0] then Some(now.value[1..]) else None
  {
    var p := Position(s);
    if p.Some? && p.value < 7 {
      assert SCRIPT[p.value..][1..] == SCRIPT[p.value + 1..];
      assert Position(Next(true, s, message)) == if message == SCRIPT[p.value] then Some(p.value + 1) else None;
    }
  }

  lemma {:induction false} CompleteIffMissingCame(s: State, messages: seq<byte>)
    ensures Run(s, messages) == HandshakeComplete
       <==> Missing(s).Some? && ThenDataOnly(messages, Missing(s).value)
    decreases |messages|
  {
    hide Missing, Next, ThenDataOnly;
    if messages == [] {
      NothingMissing(s);
    } else {
      CompleteIffMissingCame(Next(true, s, messages[0]), messages[1..]);
      StepTowards(s, messages);
    }
  }

  /** Taking the first message off, what is missing and what is there shrink together. */
  lemma StepTowards(s: State, messages: seq<byte>)
    requires messages != []
    ensures var now, later := Missing(s), Missing(Next(true, s, messages[0]));
            (now.Some? && ThenDataOnly(messages, now.value)) <==> (later.Some? && ThenDataOnly(messages[1..], later.value))
  {
    MissingAdvances(s, messages[0]);
    hide Missing, Next;
    if Missing(s).Some? {
      var first := Missing(s).value;
      if first == [] {
        OneDataLess(messages);
      } else {
        OneLess(messages, first);
      }
    }
  }

  lemma NothingMissing(s: State)
    ensures s == HandshakeComplete <==> Missing(s).Some? && ThenDataOnly([], Missing(s).value)
  {
    if Missing(s).Some? {
      var first := Missing(s).value;
      assert ThenDataOnly([], first) <==> first == [] by {
        if ThenDataOnly([], first) {
          assert |first| <= 0;
        }
      }
    }
  }

  lemma OneDataLess(messages: seq<byte>)
    requires messages != []
    ensures ThenDataOnly(messages, []) <==> messages[0] == APPLICATION_DATA && ThenDataOnly(messages[1..], [])
  {
    assert forall i :: 0 < i < |messages| ==> messages[i] == messages[1..][i - 1];
    assert forall i :: 0 <= i < |messages| - 1 ==> messages[1..][i] == messages[i + 1];
  }

  lemma OneLess(messages: seq<byte>, first: seq<byte>)
    requires messages != [] && first != []
    ensures ThenDataOnly(messages, first) <==> messages[0] == first[0] && ThenDataOnly(messages[1..], first[1..])
  {
    var rest := messages[1..];
    if messages[0] == first[0] && ThenDataOnly(rest, first[1..]) {
      assert first == [first[0]] + first[1..] && messages == [messages[0]] + rest;
      assert forall i :: |first| <= i < |messages| ==> messages[i] == rest[i - 1];
    }
    if ThenDataOnly(messages, first) {
      assert first[1..] == rest[..|first| - 1];
    }
  }

  /** From the start, the handshake is complete after exactly one list of messages and application data. */
  lemma CompleteIff(messages: seq<byte>)
    ensures Run(Init, messages) == HandshakeComplete
       <==> ThenDataOnly(messages, [0x01, 0x02, 0x08, 0x0B, 0x0F, 0x14, 0x14])
  {
    CompleteIffMissingCame(Init, messages);
  }

  predicate Failed(s: State) {
    s == AlertSent || s == Error
  }

  lemma {:induction false} RunAppends(s: State, x: seq<byte>, y: seq<byte>)
    ensures Run(s, x + y) == Run(Run(s, x), y)
    decreases |x|
  {
    if x == [] {
      assert x + y == y;
    } else {
      assert (x + y)[1..] == x[1..] + y;
      RunAppends(Next(true, s, x[0]), x[1..], y);
    }
  }

  lemma {:induction false} FailedStays(s: State, messages: seq<byte>)
    requires Failed(s)
    ensures Run(s, messages) == if messages == [] then s else Error
    decreases |messages|
  {
    if messages != [] {
      FailedStays(Error, messages[1..]);
    }
  }

  /** A run that has failed stays failed, and any further message makes it an error. */
  lemma NoWayBack(s: State, x: seq<byte>, y: seq<byte>)
    requires Failed(Run(s, x))
    ensures Failed(Run(s, x + y)) && (y != [] ==> Run(s, x + y) == Error)
  {
    RunAppends(s, x, y);
    FailedStays(Run(s, x), y);
  }

  /** The message that makes a transition happen. */
  function Cause(from: State, to: State): byte {
    if to == AlertSent then 0 else
      match Missing(from)
      case None => 0
      case Some(first) => if first == [] then APPLICATION_DATA else first[0]
  }

  /**
   The transition check accepts exactly the steps the machine can make, other than into Error and
   other than the alert in Init.
   */
  lemma ValidIffPossible(from: State, to: State)
    ensures IsValidTransition(from, to)
       <==> (exists m: byte :: Next(true, from, m) == to) && to != Error && !(from == Init && to == AlertSent)
  {
    if IsValidTransition(from, to) {
      assert Next(true, from, Cause(from, to)) == to;
    }
  }

  /** The machine never waits for the client's Finished in the state named after it. */
  lemma {:induction false} NeverWaitsForFinished(s: State, messages: seq<byte>)
    requires s != WaitingFinished
    ensures Run(s, messages) != WaitingFinished
    decreases |messages|
  {
    if messages != [] {
      NeverWaitsForFinished(Next(true, s, messages[0]), messages[1..]);
    }
  }

  /**
   The states along the handshake's own messages; any other message at any point of it raises the
   alert, and so does anything but application data afterwards. Without a context it is an error.
   */
  lemma WrongMessageAlerts(k: nat, message: byte)
    requires k <= 7
    ensures var script := [0x01, 0x02, 0x08, 0x0B, 0x0F, 0x14, 0x14];
            && Run(Init, script[..k]) == [Init, WaitingClientHello, SentServerHello, SentEncryptedExtensions, SentCertificate,
                                          SentCertificateVerify, SentFinished, HandshakeComplete][k]
            && (message != (if k == 7 then 0x17 else script[k]) ==> Run(Init, script[..k] + [message]) == AlertSent)
            && Next(false, Run(Init, script[..k]), message) == Error
  {
    var script: seq<byte> := [0x01, 0x02, 0x08, 0x0B, 0x0F, 0x14, 0x14];
    ScriptStates(k);
    RunAppends(Init, script[..k], [message]);
    OneMessage(Run(Init, script[..k]), message);
  }

  lemma OneMessage(s: State, message: byte)
    ensures Run(s, [message]) == Next(true, s, message)
  {
  }

  lemma {:induction false} ScriptStates(k: nat)
    requires k <= 7
    ensures Run(Init, [0x01, 0x02, 0x08, 0x0B, 0x0F, 0x14, 0x14][..k])
         == [Init, WaitingClientHello, SentServerHello, SentEncryptedExtensions, SentCertificate,
             SentCertificateVerify, SentFinished, HandshakeComplete][k]
  {
    if k > 0 {
      var script: seq<byte> := [0x01, 0x02, 0x08, 0x0B, 0x0F, 0x14, 0x14];
      ScriptStates(k - 1);
      assert script[..k] == script[..k - 1] + [script[k - 1]];
      hide Run;
      RunAppends(Init, script[..k - 1], [script[k - 1]]);
      OneMessage(Run(Init, script[..k - 1]), script[k - 1]);
    }
  }
}
