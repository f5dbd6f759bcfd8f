/** asn1_get_oid: base-128 subidentifiers to 32-bit numbers (section 8.19 of X.690). */
module Asn1Oid {
  import opened Bytes
  import opened Asn1Heap

  const OBJECT_IDENTIFIER: byte := 0x06
  const MAX_ARCS: nat := 32

  /** `(val << 7) | low` on a uint32_t. */
  function Push(val: uint32, low: byte): uint32 {
    (val * 128 + low % 128) % 0x1_0000_0000
  }

  /** One subidentifier from position `i`: its value and where it ends. */
  function ReadArc(v: seq<byte>, i: nat, val: uint32): (r: (uint32, nat))
    requires i <= |v|
    ensures i <= r.1 <= |v| && (i < |v| ==> i < r.1)
    decreases |v| - i
  {
    if i == |v| then (val, i)
    else if v[i] >= 0x80 then ReadArc(v, i + 1, Push(val, v[i]))
    else (Push(val, v[i]), i + 1)
  }

  /** At most `room` numbers from position `i` on. */
  function ReadArcs(v: seq<byte>, i: nat, room: nat): (r: seq<uint32>)
    requires i <= |v|
    ensures |r| <= room
    decreases |v| - i
  {
    if i == |v| || room == 0 then [] else
      var (val, next) := ReadArc(v, i, 0);
      [val] + ReadArcs(v, next, room - 1)
  }

  // ---------------------------------------------------------------- as coded

  method GetOid(node: Node?, oid: array<uint32>) returns (ret: int, oidLen: nat)
    requires oid.Length >= 32 && (node != null && node.value != null ==> node.value.Length == node.length)
    modifies oid
    ensures node == null || node.tag != 0x06 || node.value == null ==> ret == -1 && oid[..] == old(oid[..])
    ensures node != null && node.tag == 0x06 && node.value != null ==>
              && ret == 0 && oidLen <= 32
              && oid[..oidLen] == ReadArcs(node.value[..], 0, 32)
              && oid[oidLen..] == old(oid[oidLen..])
  {
    if node == null || node.tag != OBJECT_IDENTIFIER || node.value == null {
      return -1, 0;
    }
    hide ReadArc, ReadArcs;
    ghost var v := node.value[..];
    oidLen := 0;
    var i := 0;
    while i < node.length && oidLen < MAX_ARCS
      invariant i <= node.length && oidLen <= MAX_ARCS && node.value[..] == v
      invariant oid[..oidLen] + ReadArcs(v, i, MAX_ARCS - oidLen) == ReadArcs(v, 0, MAX_ARCS)
      invariant oid[oidLen..] == old(oid[oidLen..])
      decreases node.length - i
    {
      ReadArcsStep(v, i, MAX_ARCS - oidLen);
      ghost var done := oid[..oidLen];
      var val: uint32;
      val, i := GetArc(node.value, i);
      oid[oidLen] := val;
      oidLen := oidLen + 1;
      Regroup(done, val, ReadArcs(v, i, MAX_ARCS - oidLen));
      assert oid[..oidLen] == done + [val];
    }
    ReadArcsStop(v, i, MAX_ARCS - oidLen);
    return 0, oidLen;
  }

  lemma ReadArcsStep(v: seq<byte>, i: nat, room: nat)
    requires i < |v| && room > 0
    ensures ReadArcs(v, i, room) == [ReadArc(v, i, 0).0] + ReadArcs(v, ReadArc(v, i, 0).1, room - 1)
  {
  }

  lemma ReadArcsStop(v: seq<byte>, i: nat, room: nat)
    requires i <= |v| && (i == |v| || room == 0)
    ensures ReadArcs(v, i, room) == []
  {
  }

  lemma Regroup(done: seq<uint32>, val: uint32, rest: seq<uint32>)
    ensures done + ([val] + rest) == done + [val] + rest
  {
  }

  /** The inner loop: continuation bytes, then one more byte if there is one. */
  method GetArc(value: array<byte>, start: nat) returns (val: uint32, i: nat)
    requires start < value.Length
    ensures (val, i) == ReadArc(value[..], start, 0)
  {
    ghost var v := value[..];
    val, i := 0, start;
    while i < value.Length && value[i] >= 0x80
      invariant start <= i <= value.Length
      invariant ReadArc(v, i, val) == ReadArc(v, start, 0)
    {
      val := Push(val, value[i]);
      i := i + 1;
    }
    if i < value.Length {
      val := Push(val, value[i]);
      i := i + 1;
    }
  }

  // ---------------------------------------------------------------- the encoding

  /** The leading bytes of a subidentifier, each with its continuation bit set. */
  function LeadingGroups(n: nat): (r: seq<byte>)
    ensures forall i :: 0 <= i < |r| ==> r[i] >= 0x80
  {
    if n == 0 then [] else LeadingGroups(n / 128) + [0x80 + n % 128]
  }

  /** The shortest base-128 form of a number. */
  function EncodeArc(n: nat): (r: seq<byte>)
    ensures |r| > 0
  {
    LeadingGroups(n / 128) + [n % 128]
  }

  function EncodeArcs(ns: seq<nat>): seq<byte> {
    if ns == [] then [] else EncodeArc(ns[0]) + EncodeArcs(ns[1..])
  }

  /** Pushing all groups of a number. */
  function PushAll(val: uint32, g: seq<byte>): uint32 {
    if g == [] then val else Push(PushAll(val, g[..|g| - 1]), g[|g| - 1])
  }

  lemma ShiftedModulo(n: nat)
    ensures (n / 128 % 0x1_0000_0000 * 128 + n % 128) % 0x1_0000_0000 == n % 0x1_0000_0000
  {
  }

  /** Pushing the low group onto the rest gives the number back, modulo 2^32. */
  lemma PushLow(n: nat, low: byte)
    requires low % 128 == n % 128
    ensures Push(Wrap32(n / 128), low) == Wrap32(n)
  {
    ShiftedModulo(n);
  }

  lemma LowGroup(n: nat)
    ensures (0x80 + n % 128) % 128 == n % 128 && n % 128 % 128 == n % 128
  {
  }

  /** A number comes back modulo 2^32. */
  lemma {:induction false} GroupsReadBack(n: nat)
    ensures PushAll(0, LeadingGroups(n)) == Wrap32(n)
  {
    if n > 0 {
      GroupsReadBack(n / 128);
      var g := LeadingGroups(n);
      assert g[..|g| - 1] == LeadingGroups(n / 128) && g[|g| - 1] == 0x80 + n % 128;
      LowGroup(n);
      hide Push, Wrap32;
      PushLow(n, g[|g| - 1]);
    }
  }

  /** Reading over continuation bytes pushes them all. */
  lemma {:induction false} SkipGroups(v: seq<byte>, i: nat, k: nat, val: uint32)
    requires i + k <= |v| && forall j :: i <= j < i + k ==> v[j] >= 0x80
    ensures ReadArc(v, i, val) == ReadArc(v, i + k, PushAll(val, v[i..i + k]))
  {
    hide Push;
    if k > 0 {
      SkipGroups(v, i, k - 1, val);
      assert v[i..i + k][..k - 1] == v[i..i + k - 1];
    }
  }

  /** The encoding of one number, anywhere in the input, reads back and is left behind exactly. */
  lemma ArcReadsBack(v: seq<byte>, i: nat, n: nat)
    requires i + |EncodeArc(n)| <= |v| && v[i..i + |EncodeArc(n)|] == EncodeArc(n)
    ensures ReadArc(v, i, 0) == (Wrap32(n), i + |EncodeArc(n)|)
  {
    hide Push, Wrap32, PushAll;
    var e, g := EncodeArc(n), LeadingGroups(n / 128);
    var k := |g|;
    assert e[..k] == g && e[k] == n % 128;
    SlicedAt(v, i, e, k);
    hide EncodeArc, LeadingGroups;
    SkipGroups(v, i, k, 0);
    GroupsReadBack(n / 128);
    LowGroup(n);
    PushLow(n, n % 128);
  }

  lemma SlicedAt(v: seq<byte>, i: nat, e: seq<byte>, k: nat)
    requires i + |e| <= |v| && v[i..i + |e|] == e && k < |e|
    ensures v[i..i + k] == e[..k] && v[i + k] == e[k]
    ensures forall j :: i <= j < i + k ==> v[j] == e[j - i]
  {
    assert v[i + k] == v[i..i + |e|][k];
    assert forall j :: i <= j < i + k ==> v[j] == v[i..i + |e|][j - i];
  }

  function Wrapped(ns: seq<nat>): (r: seq<uint32>)
    ensures |r| == |ns|
  {
    seq(|ns|, i requires 0 <= i < |ns| => Wrap32(ns[i]))
  }

  /** The first `room` elements. */
  function Taken(ns: seq<nat>, room: nat): seq<nat> {
    if |ns| <= room then ns else ns[..room]
  }

  lemma TakenStep(ns: seq<nat>, room: nat)
    requires ns != [] && room > 0
    ensures Wrapped(Taken(ns, room)) == [Wrap32(ns[0])] + Wrapped(Taken(ns[1..], room - 1))
  {
    hide Wrap32;
    assert Taken(ns, room)[1..] == Taken(ns[1..], room - 1);
  }

  lemma TailAt(v: seq<byte>, i: nat, e: seq<byte>, rest: seq<byte>)
    requires i <= |v| && v[i..] == e + rest
    ensures i + |e| <= |v| && v[i..i + |e|] == e && v[i + |e|..] == rest
  {
    assert v[i..][..|e|] == v[i..i + |e|] && v[i..][|e|..] == v[i + |e|..];
  }

  lemma {:induction false} ArcsReadBack(v: seq<byte>, i: nat, ns: seq<nat>, room: nat)
    requires i <= |v| && v[i..] == EncodeArcs(ns)
    ensures ReadArcs(v, i, room) == Wrapped(Taken(ns, room))
    decreases |ns|
  {
    if ns != [] && room > 0 {
      var e := EncodeArc(ns[0]);
      assert EncodeArcs(ns) == e + EncodeArcs(ns[1..]);
      hide *;
      TailAt(v, i, e, EncodeArcs(ns[1..]));
      ArcReadsBack(v, i, ns[0]);
      ReadArcsStep(v, i, room);
      ArcsReadBack(v, i + |e|, ns[1..], room - 1);
      TakenStep(ns, room);
    } else {
      NothingToRead(v, i, ns, room);
      hide *;
    }
  }

  lemma NothingToRead(v: seq<byte>, i: nat, ns: seq<nat>, room: nat)
    requires i <= |v| && v[i..] == EncodeArcs(ns) && (ns == [] || room == 0)
    ensures ReadArcs(v, i, room) == Wrapped(Taken(ns, room))
  {
    assert Taken(ns, room) == [];
    if room > 0 {
      assert i == |v|;
    }
  }

  /** Up to 32 numbers below 2^32 come back unchanged; longer lists are cut off after 32. */
  lemma OidRoundTrip(ns: seq<nat>)
    requires forall i :: 0 <= i < |ns| ==> ns[i] < 0x1_0000_0000
    ensures ReadArcs(EncodeArcs(ns), 0, MAX_ARCS) == Taken(ns, MAX_ARCS)
  {
    hide ReadArcs, EncodeArcs;
    assert EncodeArcs(ns)[0..] == EncodeArcs(ns);
    ArcsReadBack(EncodeArcs(ns), 0, ns, MAX_ARCS);
    WrappedSmall(Taken(ns, MAX_ARCS));
  }

  lemma WrappedSmall(ns: seq<nat>)
    requires forall i :: 0 <= i < |ns| ==> ns[i] < 0x1_0000_0000
    ensures Wrapped(ns) == ns
  {
  }

  /** A single number comes back exactly when it is below 2^32. */
  lemma OneNumberComesBackIff(n: nat)
    ensures ReadArcs(EncodeArcs([n]), 0, MAX_ARCS) == [n] <==> n < 0x1_0000_0000
  {
    assert EncodeArcs([n])[0..] == EncodeArcs([n]);
    ArcsReadBack(EncodeArcs([n]), 0, [n], MAX_ARCS);
    assert Wrapped([n])[0] == n % 0x1_0000_0000;
  }

  lemma ShortArcs(v: seq<byte>, i: nat)
    requires i < |v|
    ensures v[i] < 0x80 ==> ReadArc(v, i, 0) == (v[i], i + 1)
    ensures v[i] >= 0x80 && i + 1 == |v| ==> ReadArc(v, i, 0) == (v[i] - 0x80, i + 1)
    ensures v[i] >= 0x80 && i + 1 < |v| && v[i + 1] < 0x80 ==>
              ReadArc(v, i, 0) == (128 * (v[i] as int - 0x80) + v[i + 1], i + 2)
  {
    PushSmall(0, v[i]);
    if i + 1 < |v| {
      PushSmall(v[i] % 0x80, v[i + 1]);
    }
    hide Push;
  }

  lemma PushSmall(val: byte, low: byte)
    requires val < 0x80
    ensures Push(val, low) == 128 * (val as int) + low % 0x80
    ensures low % 0x80 == if low < 0x80 then low else low - 0x80
  {
  }

  /** One byte below 0x80 is its own number; a byte from 0x80 on puts seven bits before the next one. */
  lemma ArcsByHand(x: byte, y: byte, z: byte)
    requires x < 0x80 && y < 0x80 && z < 0x80
    ensures ReadArcs([x, 0x80 + y, z], 0, 32) == [x, 128 * (y as int) + z]
    ensures ReadArcs([0x80 + y, z, x], 0, 32) == [128 * (y as int) + z, x]
    ensures ReadArcs([x, 0x80 + y], 0, 32) == [x, y]
  {
    hide *;
    ShortArcs([x, 0x80 + y, z], 0);
    ShortArcs([x, 0x80 + y, z], 1);
    ShortArcs([0x80 + y, z, x], 0);
    ShortArcs([0x80 + y, z, x], 2);
    ShortArcs([x, 0x80 + y], 0);
    ShortArcs([x, 0x80 + y], 1);
    TwoArcs([x, 0x80 + y, z], x, 1, 128 * (y as int) + z);
    TwoArcs([0x80 + y, z, x], 128 * (y as int) + z, 2, x);
    TwoArcs([x, 0x80 + y], x, 1, y);
  }

  lemma TwoArcs(v: seq<byte>, a: uint32, next: nat, b: uint32)
    requires 0 < next < |v| && ReadArc(v, 0, 0) == (a, next) && ReadArc(v, next, 0) == (b, |v|)
    ensures ReadArcs(v, 0, 32) == [a, b]
  {
    hide *;
    ReadArcsStep(v, 0, 32);
    ReadArcsStep(v, next, 31);
    ReadArcsStop(v, |v|, 30);
  }
}
