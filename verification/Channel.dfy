/**
 Two connection contexts exchanging protected records. Each context has one sequence number that
 its sends and its receipts advance together.
 */
module Channel {
  import opened Bytes
  import opened Wrappers
  import opened TlsContext
  import opened TlsRecord

  /** The part of a context the record layer uses. */
  datatype Endpoint = Endpoint(writeKey: Bytes32, readKey: Bytes32, writeIv: Bytes12, readIv: Bytes12, number: uint64)

  ghost function ViewOf(ctx: Context): Endpoint
    reads ctx
  {
    Endpoint(ctx.writeKey, ctx.readKey, ctx.writeIv, ctx.readIv, ctx.sequenceNumber)
  }

  function Advance(e: Endpoint): Endpoint {
    e.(number := Next(e.number))
  }

  /** The record an endpoint puts on the wire for a message. */
  function Wire(e: Endpoint, msg: seq<byte>): seq<byte> {
    Protect(e.writeKey, e.writeIv, e.number, APPLICATION_DATA, msg)
  }

  /** Reading and decrypting a record: the endpoint afterwards and the message, if accepted. */
  function Receive(e: Endpoint, wire: seq<byte>): (Endpoint, Option<seq<byte>>) {
    match Read(wire, true)
    case None => (e, None)
    case Some(record) =>
      if record.contentType != APPLICATION_DATA || record.length < 16 then (e, None)
      else (Advance(e), Open(e.readKey, Nonce(e.readIv, e.number), record.fragment))
  }

  // ---------------------------------------------------------------- the same on contexts

  method Send(ctx: Context, plaintext: array<byte>, len: nat, out: array<byte>) returns (ret: int, outLen: nat)
    requires len <= plaintext.Length && out.Length >= len + 21
    modifies ctx`sequenceNumber, out
    ensures ret == if len > MAX_PAYLOAD then -1 else 0
    ensures ret != 0 ==> ViewOf(ctx) == old(ViewOf(ctx))
    ensures ret == 0 ==> ViewOf(ctx) == Advance(old(ViewOf(ctx)))
    ensures ret == 0 ==> outLen <= out.Length && out[..outLen] == Wire(old(ViewOf(ctx)), old(plaintext[..len]))
  {
    hide Protect;
    ret, outLen := EncryptRecord(ctx, APPLICATION_DATA, plaintext, len, out);
  }

  /** Without a buffer for the record nothing happens, as if it had been lost. */
  method Deliver(ctx: Context, wire: seq<byte>, granted: bool, plaintext: array<byte>) returns (ret: int, outLen: nat)
    requires plaintext.Length >= |wire|
    modifies ctx`sequenceNumber, plaintext
    ensures !granted ==> ret == -1 && ViewOf(ctx) == old(ViewOf(ctx)) && plaintext[..] == old(plaintext[..])
    ensures granted ==> ViewOf(ctx) == Receive(old(ViewOf(ctx)), wire).0
    ensures granted ==> match Receive(old(ViewOf(ctx)), wire).1
            case None => ret == -1
            case Some(p) => ret == 0 && outLen == |p| && outLen <= plaintext.Length && plaintext[..outLen] == p
  {
    hide AesGcm.Tag, AesGcm.Ctr, Nonce;
    var r := Read(wire, granted);
    if r == None {
      return -1, 0;
    }
    ret, outLen := DecryptRecord(ctx, r.value, plaintext);
  }

  // ---------------------------------------------------------------- one record

  /** Each side reads with the key and iv the other side writes with. */
  predicate CrossKeyed(a: Endpoint, b: Endpoint) {
    a.writeKey == b.readKey && a.writeIv == b.readIv && b.writeKey == a.readKey && b.writeIv == a.readIv
  }

  /**
   A record is accepted exactly when the receiver's sequence number is the one the sender had;
   then the message arrives unchanged. Either way both numbers have advanced by one.
   */
  lemma AcceptedIffNumbersAgree(sender: Endpoint, receiver: Endpoint, msg: seq<byte>)
    requires sender.writeKey == receiver.readKey && sender.writeIv == receiver.readIv
    requires |msg| <= MAX_PAYLOAD
    ensures Receive(receiver, Wire(sender, msg))
         == (Advance(receiver), if sender.number == receiver.number then Some(msg) else None)
  {
    var fragment := Seal(sender.writeKey, Nonce(sender.writeIv, sender.number), msg);
    var wire := Wire(sender, msg);
    ReadOfHeader(APPLICATION_DATA, fragment, []);
    assert wire == Header(APPLICATION_DATA, |fragment|) + fragment + [];
    hide Read, Seal, Open, Nonce;
    if sender.number == receiver.number {
      OpenOfSeal(receiver.readKey, Nonce(receiver.readIv, receiver.number), msg);
    } else {
      OpenOfOtherSeal(receiver.readKey, receiver.readIv, sender.number, receiver.number, msg);
    }
  }

  /** A record accepted once is rejected when it is delivered again. */
  lemma ReplayRejected(sender: Endpoint, receiver: Endpoint, msg: seq<byte>)
    requires sender.writeKey == receiver.readKey && sender.writeIv == receiver.readIv
    requires |msg| <= MAX_PAYLOAD && sender.number == receiver.number
    ensures var wire := Wire(sender, msg);
            Receive(receiver, wire).1 == Some(msg) && Receive(Receive(receiver, wire).0, wire).1 == None
  {
    hide Wire, Receive;
    AcceptedIffNumbersAgree(sender, receiver, msg);
    AcceptedIffNumbersAgree(sender, Advance(receiver), msg);
  }

  /** Both sides sending before either reads loses both messages. */
  lemma CrossingSendsFail(a: Endpoint, b: Endpoint, toB: seq<byte>, toA: seq<byte>)
    requires CrossKeyed(a, b) && a.number == b.number && |toB| <= MAX_PAYLOAD && |toA| <= MAX_PAYLOAD
    ensures Receive(Advance(b), Wire(a, toB)).1 == None && Receive(Advance(a), Wire(b, toA)).1 == None
  {
    hide Wire, Receive;
    AcceptedIffNumbersAgree(a, Advance(b), toB);
    AcceptedIffNumbersAgree(b, Advance(a), toA);
  }

  // ---------------------------------------------------------------- half-duplex runs

  datatype Turn = Turn(fromA: bool, msg: seq<byte>)

  /** One side sends, the other side reads. */
  function TakeTurn(a: Endpoint, b: Endpoint, t: Turn): (Endpoint, Endpoint, Option<seq<byte>>) {
    if t.fromA then
      var (r, m) := Receive(b, Wire(a, t.msg)); (Advance(a), r, m)
    else
      var (r, m) := Receive(a, Wire(b, t.msg)); (r, Advance(b), m)
  }

  /** Every record is delivered before the next one is sent. */
  function RunTurns(a: Endpoint, b: Endpoint, turns: seq<Turn>): (Endpoint, Endpoint, seq<Option<seq<byte>>>)
    decreases |turns|
  {
    if turns == [] then (a, b, []) else
      var (a', b', got) := TakeTurn(a, b, turns[0]);
      var (a'', b'', rest) := RunTurns(a', b', turns[1..]);
      (a'', b'', [got] + rest)
  }

  lemma TurnDelivers(a: Endpoint, b: Endpoint, t: Turn)
    requires CrossKeyed(a, b) && a.number == b.number && |t.msg| <= MAX_PAYLOAD
    ensures TakeTurn(a, b, t) == (Advance(a), Advance(b), Some(t.msg))
  {
    hide Wire, Receive;
    if t.fromA {
      AcceptedIffNumbersAgree(a, b, t.msg);
    } else {
      AcceptedIffNumbersAgree(b, a, t.msg);
    }
  }

  /** A sequence number after `k` operations. */
  function Moved(number: uint64, k: nat): uint64 {
    (number + k) % 0x1_0000_0000_0000_0000
  }

  lemma MovedOnce(n: uint64, k: nat)
    ensures Moved(Next(n), k) == Next(Moved(n, k)) == Moved(n, k + 1)
  {
    WrapFirst(n + 1, k);
    WrapFirst(n + k, 1);
  }

  lemma WrapFirst(x: nat, y: nat)
    ensures (x % 0x1_0000_0000_0000_0000 + y) % 0x1_0000_0000_0000_0000 == (x + y) % 0x1_0000_0000_0000_0000
  {
  }

  /** Every half-duplex run delivers every message and keeps the two numbers equal. */
  lemma {:induction false} HalfDuplexDelivers(a: Endpoint, b: Endpoint, turns: seq<Turn>)
    requires CrossKeyed(a, b) && a.number == b.number
    requires forall i :: 0 <= i < |turns| ==> |turns[i].msg| <= MAX_PAYLOAD
    ensures var (a', b', got) := RunTurns(a, b, turns);
            && CrossKeyed(a', b')
            && a'.number == b'.number == Moved(a.number, |turns|)
            && |got| == |turns|
            && forall i :: 0 <= i < |turns| ==> got[i] == Some(turns[i].msg)
    decreases |turns|
  {
    if turns != [] {
      TurnDelivers(a, b, turns[0]);
      MovedOnce(a.number, |turns| - 1);
      hide TakeTurn, Next, Moved;
      HalfDuplexDelivers(Advance(a), Advance(b), turns[1..]);
      var (a', b', rest) := RunTurns(Advance(a), Advance(b), turns[1..]);
      assert RunTurns(a, b, turns) == (a', b', [Some(turns[0].msg)] + rest);
    }
  }

  // ---------------------------------------------------------------- any network

  /** A message that was sent, the number it was sent under and the record it became. */
  datatype Sent = Sent(fromA: bool, msg: seq<byte>, number: uint64, wire: seq<byte>)

  /** Which logged record was delivered, the receiver's number then, and what it accepted. */
  datatype Delivery = Delivery(entry: nat, number: uint64, got: Option<seq<byte>>)

  datatype Net = Net(a: Endpoint, b: Endpoint, log: seq<Sent>, deliveries: seq<Delivery>, opsA: nat, opsB: nat)

  /** The network delivers any record ever sent, in any order, any number of times or never. */
  datatype Action = Sending(fromA: bool, msg: seq<byte>) | Delivering(entry: nat)

  predicate Possible(net: Net, action: Action) {
    match action
    case Sending(_, msg) => |msg| <= MAX_PAYLOAD
    case Delivering(entry) => entry < |net.log|
  }

  function StepNet(net: Net, action: Action): Net
    requires Possible(net, action)
  {
    match action
    case Sending(true, msg) =>
      net.(a := Advance(net.a), opsA := net.opsA + 1, log := net.log + [Sent(true, msg, net.a.number, Wire(net.a, msg))])
    case Sending(false, msg) =>
      net.(b := Advance(net.b), opsB := net.opsB + 1, log := net.log + [Sent(false, msg, net.b.number, Wire(net.b, msg))])
    case Delivering(entry) =>
      if net.log[entry].fromA then
        var (b', got) := Receive(net.b, net.log[entry].wire);
        net.(b := b', opsB := net.opsB + 1, deliveries := net.deliveries + [Delivery(entry, net.b.number, got)])
      else
        var (a', got) := Receive(net.a, net.log[entry].wire);
        net.(a := a', opsA := net.opsA + 1, deliveries := net.deliveries + [Delivery(entry, net.a.number, got)])
  }

  /** What holds after any run: who may have counted what, and what each delivery gave. */
  ghost predicate NetInvariant(net: Net, a0: Endpoint, b0: Endpoint) {
    && CrossKeyed(net.a, net.b)
    && net.a == a0.(number := Moved(a0.number, net.opsA))
    && net.b == b0.(number := Moved(b0.number, net.opsB))
    && (forall i :: 0 <= i < |net.log| ==> LoggedBy(net.log[i], if net.log[i].fromA then a0 else b0))
    && (forall i :: 0 <= i < |net.deliveries| ==> DeliveredRight(net.log, net.deliveries[i]))
  }

  ghost predicate LoggedBy(s: Sent, e: Endpoint) {
    |s.msg| <= MAX_PAYLOAD && s.wire == Wire(e.(number := s.number), s.msg)
  }

  /** Accepted, and unchanged, exactly when the numbers agreed. */
  ghost predicate DeliveredRight(log: seq<Sent>, d: Delivery) {
    && d.entry < |log|
    && d.got == if d.number == log[d.entry].number then Some(log[d.entry].msg) else None
  }

  lemma StepNetKeeps(net: Net, action: Action, a0: Endpoint, b0: Endpoint)
    requires NetInvariant(net, a0, b0) && Possible(net, action)
    ensures NetInvariant(StepNet(net, action), a0, b0)
  {
    hide Wire, Receive;
    MovedOnce(a0.number, net.opsA);
    MovedOnce(b0.number, net.opsB);
    hide Next, Moved;
    if action.Delivering? {
      var s := net.log[action.entry];
      if s.fromA {
        AcceptedIffNumbersAgree(a0.(number := s.number), net.b, s.msg);
      } else {
        AcceptedIffNumbersAgree(b0.(number := s.number), net.a, s.msg);
      }
    }
  }

  ghost predicate PossibleRun(net: Net, actions: seq<Action>)
    decreases |actions|
  {
    actions == [] || (Possible(net, actions[0]) && PossibleRun(StepNet(net, actions[0]), actions[1..]))
  }

  ghost function RunNet(net: Net, actions: seq<Action>): Net
    requires PossibleRun(net, actions)
    decreases |actions|
  {
    if actions == [] then net else RunNet(StepNet(net, actions[0]), actions[1..])
  }

  /** In every run of every network the deliveries are right and the numbers count operations. */
  lemma {:induction false} EveryRunDeliversRight(net: Net, actions: seq<Action>, a0: Endpoint, b0: Endpoint)
    requires NetInvariant(net, a0, b0) && PossibleRun(net, actions)
    ensures NetInvariant(RunNet(net, actions), a0, b0)
    decreases |actions|
  {
    if actions != [] {
      StepNetKeeps(net, actions[0], a0, b0);
      EveryRunDeliversRight(StepNet(net, actions[0]), actions[1..], a0, b0);
    }
  }

  /** Two endpoints, nothing sent yet. */
  function FreshNet(a: Endpoint, b: Endpoint): Net {
    Net(a, b, [], [], 0, 0)
  }

  /**
   Between cross-keyed endpoints, whatever the network does: every delivery gives the message that
   was sent if the two numbers agreed then, and nothing otherwise.
   */
  lemma FreshRunDeliversRight(a: Endpoint, b: Endpoint, actions: seq<Action>)
    requires CrossKeyed(a, b) && PossibleRun(FreshNet(a, b), actions)
    ensures var net := RunNet(FreshNet(a, b), actions);
            && (forall i :: 0 <= i < |net.deliveries| ==> DeliveredRight(net.log, net.deliveries[i]))
            && net.a.number == Moved(a.number, net.opsA) && net.b.number == Moved(b.number, net.opsB)
  {
    EveryRunDeliversRight(FreshNet(a, b), actions, a, b);
  }
}
