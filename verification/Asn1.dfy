/** The tag-length-value parser on values: what it accepts, what it returns, and its inverse. */
module Asn1 {
  import opened Bytes
  import opened Wrappers

  /** A parsed node: primitive with its value, or constructed with its children. */
  datatype Tree =
    | Primitive(tag: byte, value: seq<byte>)
    | Constructed(tag: byte, length: nat, children: seq<Tree>)

  /** Bit 0x20 of the tag. */
  predicate IsConstructed(tag: byte) {
    tag / 0x20 % 2 == 1
  }

  // ---------------------------------------------------------------- the parser as a function

  /** asn1_read_length: the length and how many bytes it took. */
  function ReadLength(data: seq<byte>): Option<(nat, nat)> {
    if |data| < 1 then None
    else if data[0] < 0x80 then Some((data[0], 1))
    else
      var n := data[0] % 0x80;
      if n > 4 || |data| - 1 < n then None
      else Some((BigEndianValue(data[1..1 + n]), 1 + n))
  }

  /** asn1_parse_node: the node and how many bytes it took. */
  function ParseNode(data: seq<byte>): (r: Option<(Tree, nat)>)
    ensures r.Some? ==> 2 <= r.value.1 <= |data|
    decreases |data|, 0
  {
    if |data| < 1 then None else
      match ReadLength(data[1..])
      case None => None
      case Some((length, taken)) =>
        var rest := data[1 + taken..];
        if |rest| < length then None else
          match BodyOf(data[0], rest[..length])
          case None => None
          case Some(t) => Some((t, 1 + taken + length))
  }

  /** What a node with this tag makes of its content; an empty primitive content is rejected. */
  function BodyOf(tag: byte, content: seq<byte>): Option<Tree>
    decreases |content|, 2
  {
    if IsConstructed(tag) then
      match ParseAll(content)
      case None => None
      case Some(children) => Some(Constructed(tag, |content|, children))
    else if content == [] then None
    else Some(Primitive(tag, content))
  }

  /** The loop over the children: nodes until the content is used up. */
  function ParseAll(data: seq<byte>): Option<seq<Tree>>
    decreases |data|, 1
  {
    if data == [] then Some([]) else
      match ParseNode(data)
      case None => None
      case Some((t, n)) =>
        match ParseAll(data[n..])
        case None => None
        case Some(ts) => Some([t] + ts)
  }

  // ---------------------------------------------------------------- encodings

  /** The length fields of section 8.1.3 of X.690 with at most four subsequent bytes. */
  predicate IsLength(field: seq<byte>, n: nat) {
    || (|field| == 1 && field[0] < 0x80 && n == field[0])
    || (1 <= |field| <= 5 && field[0] == 0x80 + (|field| - 1) && n == BigEndianValue(field[1..]))
  }

  /** `e` is an encoding of `t`: header and content, the children tiling a constructed content. */
  ghost predicate Encodes(t: Tree, e: seq<byte>)
    decreases |e|, 0
  {
    exists h :: 2 <= h <= |e| && EncodesWithHeader(t, e, h)
  }

  ghost predicate EncodesWithHeader(t: Tree, e: seq<byte>, h: nat)
    requires 2 <= h <= |e|
    decreases |e|, -1
  {
    && e[0] == t.tag
    && IsLength(e[1..h], |e| - h)
    && match t
       case Primitive(tag, value) => !IsConstructed(tag) && value == e[h..] && value != []
       case Constructed(tag, length, children) => IsConstructed(tag) && length == |e| - h && Tiles(children, e[h..])
  }

  /** The encodings of the trees follow one another without a gap. */
  ghost predicate Tiles(ts: seq<Tree>, content: seq<byte>)
    decreases |content|, 1
  {
    if ts == [] then content == [] else
      exists n :: 1 <= n <= |content| && Encodes(ts[0], content[..n]) && Tiles(ts[1..], content[n..])
  }

  lemma LengthReadsBack(field: seq<byte>, n: nat, rest: seq<byte>)
    requires IsLength(field, n)
    ensures ReadLength(field + rest) == Some((n, |field|))
  {
    assert (field + rest)[1..|field|] == field[1..];
  }

  lemma ReadLengthIsLength(data: seq<byte>)
    requires ReadLength(data).Some?
    ensures var (n, taken) := ReadLength(data).value; 1 <= taken <= |data| && IsLength(data[..taken], n)
  {
    var (n, taken) := ReadLength(data).value;
    assert data[..taken][1..] == data[1..taken];
  }

  /** The parser on a header of `h` bytes, a content of `n` bytes and anything after them. */
  lemma ParseAfterHeader(data: seq<byte>, h: nat, n: nat)
    requires 2 <= h && h + n <= |data| && ReadLength(data[1..]) == Some((n, h - 1))
    ensures ParseNode(data) == match BodyOf(data[0], data[h..h + n])
                               case None => None
                               case Some(t) => Some((t, h + n))
  {
    hide BodyOf, ReadLength, IsConstructed;
    assert data[h..][..n] == data[h..h + n];
    assert 1 + (h - 1) == h && |data[h..]| >= n;
  }

  /** Every encoding, followed by anything, parses to its tree and leaves exactly what followed. */
  lemma {:induction false} EncodingParses(t: Tree, e: seq<byte>, rest: seq<byte>)
    requires Encodes(t, e)
    ensures ParseNode(e + rest) == Some((t, |e|))
    decreases |e|, 0
  {
    hide ParseNode, ReadLength, Tiles;
    var h :| 2 <= h <= |e| && EncodesWithHeader(t, e, h);
    var data, n := e + rest, |e| - h;
    LengthReadsBack(e[1..h], n, e[h..] + rest);
    assert data[1..] == e[1..h] + (e[h..] + rest);
    hide IsLength;
    ParseAfterHeader(data, h, n);
    assert data[h..h + n] == e[h..];
    if t.Constructed? {
      TilingParses(t.children, e[h..]);
    }
  }

  lemma {:induction false} TilingParses(ts: seq<Tree>, content: seq<byte>)
    requires Tiles(ts, content)
    ensures ParseAll(content) == Some(ts)
    decreases |content|, 1
  {
    if ts != [] {
      var n :| 1 <= n <= |content| && Encodes(ts[0], content[..n]) && Tiles(ts[1..], content[n..]);
      EncodingParses(ts[0], content[..n], content[n..]);
      assert content[..n] + content[n..] == content;
      TilingParses(ts[1..], content[n..]);
      assert ts == [ts[0]] + ts[1..];
    }
  }

  /** What the parser consumed is an encoding of what it returned. */
  lemma {:induction false} ParsedIsEncoding(data: seq<byte>)
    requires ParseNode(data).Some?
    ensures var (t, n) := ParseNode(data).value; Encodes(t, data[..n])
    decreases |data|, 0
  {
    hide ReadLength, IsLength, Tiles, BodyOf;
    var (t, n) := ParseNode(data).value;
    ReadLengthIsLength(data[1..]);
    var (length, taken) := ReadLength(data[1..]).value;
    var h, e := 1 + taken, data[..n];
    var content := data[h..][..length];
    assert e[1..h] == data[1..][..taken] && e[h..] == content && |e| - h == length;
    BodyFits(data[0], content);
    assert EncodesWithHeader(t, e, h);
  }

  lemma {:induction false} BodyFits(tag: byte, content: seq<byte>)
    requires BodyOf(tag, content).Some?
    ensures match BodyOf(tag, content).value
            case Primitive(t, value) => t == tag && !IsConstructed(tag) && value == content != []
            case Constructed(t, length, children) =>
              t == tag && IsConstructed(tag) && length == |content| && Tiles(children, content)
    decreases |content|, 2
  {
    hide ParseAll, Tiles;
    if IsConstructed(tag) {
      ParsedTiles(content);
    }
  }

  lemma {:induction false} ParsedTiles(data: seq<byte>)
    requires ParseAll(data).Some?
    ensures Tiles(ParseAll(data).value, data)
    decreases |data|, 1
  {
    if data != [] {
      var (t, n) := ParseNode(data).value;
      ParsedIsEncoding(data);
      ParsedTiles(data[n..]);
      var ts := ParseAll(data).value;
      assert ts[0] == t && ts[1..] == ParseAll(data[n..]).value;
    }
  }

  /** The parser accepts exactly the encodings, each with its own tree and its own extent. */
  lemma ParsesIffEncoding(data: seq<byte>, t: Tree, n: nat)
    requires n <= |data|
    ensures ParseNode(data) == Some((t, n)) <==> Encodes(t, data[..n])
  {
    if Encodes(t, data[..n]) {
      EncodingParses(t, data[..n], data[n..]);
      assert data[..n] + data[n..] == data;
    }
    if ParseNode(data) == Some((t, n)) {
      ParsedIsEncoding(data);
    }
  }

  /** No encoding is a proper prefix of another, and none encodes two trees. */
  lemma EncodingsArePrefixFree(s: Tree, t: Tree, e: seq<byte>, more: seq<byte>)
    requires Encodes(s, e) && Encodes(t, e + more)
    ensures more == [] && s == t
  {
    EncodingParses(s, e, more);
    EncodingParses(t, e + more, []);
    assert e + more + [] == e + more;
  }

  // ---------------------------------------------------------------- the encoder

  /** How many bytes a long-form length needs. */
  function LengthBytes(n: nat): nat {
    if n < 0x100 then 1 else if n < 0x1_0000 then 2 else if n < 0x100_0000 then 3 else 4
  }

  /** The shortest length field. */
  function LengthField(n: nat): (r: seq<byte>)
    ensures n < 0x1_0000_0000 ==> IsLength(r, n)
    ensures 1 <= |r| <= 5
  {
    if n < 0x80 then [n] else
      var k := LengthBytes(n);
      LengthFits(n);
      ValueOfBigEndian(n, k);
      [0x80 + k] + BigEndian(n, k)
  }

  lemma LengthFits(n: nat)
    ensures n < 0x1_0000_0000 ==> n % Pow256(LengthBytes(n)) == n
  {
    assert Pow256(1) == 0x100 && Pow256(2) == 0x1_0000 && Pow256(3) == 0x100_0000 && Pow256(4) == 0x1_0000_0000;
  }

  /** The definite-length encoding with shortest lengths. */
  function Encode(t: Tree): seq<byte> {
    match t
    case Primitive(tag, value) => [tag] + LengthField(|value|) + value
    case Constructed(tag, _, children) => [tag] + LengthField(|EncodeAll(children)|) + EncodeAll(children)
  }

  function EncodeAll(ts: seq<Tree>): seq<byte> {
    if ts == [] then [] else Encode(ts[0]) + EncodeAll(ts[1..])
  }

  /**
   Tag bit 0x20 set exactly on constructed nodes, no empty primitive value, contents below 2^32
   bytes, and `length` the length of the content.
   */
  predicate WellFormed(t: Tree) {
    match t
    case Primitive(tag, value) => !IsConstructed(tag) && 0 < |value| < 0x1_0000_0000
    case Constructed(tag, length, children) =>
      && IsConstructed(tag)
      && length == |EncodeAll(children)| < 0x1_0000_0000
      && forall c <- children :: WellFormed(c)
  }

  lemma {:induction false} EncodeEncodes(t: Tree)
    requires WellFormed(t)
    ensures Encodes(t, Encode(t))
  {
    var content := if t.Primitive? then t.value else EncodeAll(t.children);
    var field := LengthField(|content|);
    var e, h := Encode(t), 1 + |field|;
    assert e[1..h] == field && e[h..] == content;
    if t.Constructed? {
      EncodeAllTiles(t.children);
    }
    assert EncodesWithHeader(t, e, h);
  }

  lemma {:induction false} EncodeAllTiles(ts: seq<Tree>)
    requires forall c <- ts :: WellFormed(c)
    ensures Tiles(ts, EncodeAll(ts))
  {
    if ts != [] {
      EncodeEncodes(ts[0]);
      EncodeAllTiles(ts[1..]);
      var e := EncodeAll(ts);
      var n := |Encode(ts[0])|;
      assert e[..n] == Encode(ts[0]) && e[n..] == EncodeAll(ts[1..]);
    }
  }

  /** Parsing the encoding of a tree, followed by anything, gives the tree and leaves what followed. */
  lemma RoundTrip(t: Tree, rest: seq<byte>)
    requires WellFormed(t)
    ensures ParseNode(Encode(t) + rest) == Some((t, |Encode(t)|))
  {
    EncodeEncodes(t);
    EncodingParses(t, Encode(t), rest);
  }

  // ---------------------------------------------------------------- which bytes decide what

  lemma ConstructedBit(tag: byte)
    ensures IsConstructed(tag) <==> And(tag, 0x20) != 0
  {
    assert Pow2(5) == 0x20;
    AndBit(tag, 5);
    hide And;
  }

  /** For all data that parses: the node carries the first byte, and bit 0x20 of it decides its kind. */
  lemma TagDecides(data: seq<byte>)
    requires ParseNode(data).Some?
    ensures ParseNode(data).value.0.tag == data[0]
    ensures ParseNode(data).value.0.Constructed? <==> And(data[0], 0x20) != 0
  {
    ConstructedBit(data[0]);
    hide ReadLength, ParseAll, And, IsConstructed;
  }

  /** What the second byte says of the header, for each kind of length field. */
  lemma LengthForms(data: seq<byte>)
    ensures data == [] || data[0] > 0x84 ==> ReadLength(data) == None
    ensures data != [] && data[0] < 0x80 ==> ReadLength(data) == Some((data[0], 1))
    ensures data != [] && data[0] == 0x80 ==> ReadLength(data) == Some((0, 1))
    ensures data != [] && data[0] == 0x81 ==>
              ReadLength(data) == if |data| < 2 then None else Some((data[1], 2))
    ensures data != [] && data[0] == 0x82 ==>
              ReadLength(data) == if |data| < 3 then None else Some((0x100 * (data[1] as int) + data[2], 3))
    ensures data != [] && data[0] == 0x83 ==>
              ReadLength(data) == if |data| < 4 then None else Some((0x1_0000 * (data[1] as int) + 0x100 * (data[2] as int) + data[3], 4))
    ensures data != [] && data[0] == 0x84 ==>
              ReadLength(data) == if |data| < 5 then None
                                  else Some((0x100_0000 * (data[1] as int) + 0x1_0000 * (data[2] as int) + 0x100 * (data[3] as int) + data[4], 5))
  {
    hide BigEndianValue;
    if data != [] && 0x80 <= data[0] <= 0x84 && data[0] - 0x80 <= |data| - 1 {
      var n: nat := data[0] - 0x80;
      BehindFirst(data, n);
      ValueByByte(data[1..], n);
    }
  }

  lemma BehindFirst(data: seq<byte>, n: nat)
    requires 1 + n <= |data|
    ensures data[1..1 + n] == data[1..][..n]
    ensures forall i :: 0 <= i < n ==> data[1 + i] == data[1..][i]
  {
  }

  /**
   With a primitive tag: the header is two to six bytes as the length field says, the value is the
   content behind it, and only a missing header byte, a missing content byte or an empty content
   is refused.
   */
  lemma PrimitiveNode(data: seq<byte>, h: nat, n: nat)
    requires |data| >= 2 && And(data[0], 0x20) == 0 && ReadLength(data[1..]) == Some((n, h - 1))
    ensures 2 <= h <= |data|
    ensures ParseNode(data) == if n == 0 || |data| < h + n then None else Some((Primitive(data[0], data[h..h + n]), h + n))
  {
    ConstructedBit(data[0]);
    assert 1 <= h - 1 <= |data| - 1;
    hide ReadLength, IsConstructed, And;
    if h + n <= |data| {
      ParseAfterHeader(data, h, n);
    }
  }

  lemma {:induction false} BadChild(ts: seq<Tree>, good: seq<byte>, bad: seq<byte>)
    requires Tiles(ts, good) && bad != [] && ParseNode(bad) == None
    ensures ParseAll(good + bad) == None
    decreases |good|
  {
    hide ParseNode;
    if ts == [] {
      assert good + bad == bad;
    } else {
      var n :| 1 <= n <= |good| && Encodes(ts[0], good[..n]) && Tiles(ts[1..], good[n..]);
      EncodingParses(ts[0], good[..n], good[n..] + bad);
      assert good[..n] + (good[n..] + bad) == good + bad && (good + bad)[n..] == good[n..] + bad;
      BadChild(ts[1..], good[n..], bad);
    }
  }

  /** A constructed node is refused when, behind any number of good children, what is left of it is no node. */
  lemma BadChildRefused(data: seq<byte>, h: nat, ts: seq<Tree>, good: seq<byte>, bad: seq<byte>)
    requires 2 <= h && h + |good + bad| <= |data| && ReadLength(data[1..]) == Some((|good + bad|, h - 1))
    requires And(data[0], 0x20) != 0 && data[h..h + |good + bad|] == good + bad
    requires Tiles(ts, good) && bad != [] && ParseNode(bad) == None
    ensures ParseNode(data) == None
  {
    hide *;
    ConstructedBit(data[0]);
    BadChild(ts, good, bad);
    NoBody(data[0], good + bad);
    ParseAfterHeader(data, h, |good + bad|);
  }

  lemma NoBody(tag: byte, content: seq<byte>)
    requires IsConstructed(tag) && ParseAll(content) == None
    ensures BodyOf(tag, content) == None
  {
    hide ParseAll;
  }

  lemma NoLength(data: seq<byte>)
    requires data == [] || ReadLength(data[1..]) == None
    ensures ParseNode(data) == None
  {
  }

  /** Ordinary sequences of two, one and no primitives. */
  lemma SequenceParses(x: byte, y: byte)
    ensures ParseNode([0x30, 6, 2, 1, x, 4, 1, y]) == Some((Constructed(0x30, 6, [Primitive(2, [x]), Primitive(4, [y])]), 8))
    ensures ParseNode([0x30, 3, 2, 1, x]) == Some((Constructed(0x30, 3, [Primitive(2, [x])]), 5))
    ensures ParseNode([0x30, 0]) == Some((Constructed(0x30, 0, []), 2))
  {
    var p, q := Primitive(2, [x]), Primitive(4, [y]);
    PairEncoded(x, y);
    hide *;
    SequenceOf([p, q], [2, 1, x, 4, 1, y]);
    SequenceOf([p], [2, 1, x]);
    SequenceOf([], []);
    assert [0x30, 6] + [2, 1, x, 4, 1, y] == [0x30, 6, 2, 1, x, 4, 1, y];
    assert [0x30, 3] + [2, 1, x] == [0x30, 3, 2, 1, x];
  }

  lemma PairEncoded(x: byte, y: byte)
    ensures var p, q := Primitive(2, [x]), Primitive(4, [y]);
            && WellFormed(p) && WellFormed(q)
            && EncodeAll([]) == [] && EncodeAll([p]) == [2, 1, x] && EncodeAll([p, q]) == [2, 1, x, 4, 1, y]
  {
    ShortPrimitive(2, x);
    ShortPrimitive(4, y);
    assert EncodeAll([]) == [];
    hide *;
    var p, q := Primitive(2, [x]), Primitive(4, [y]);
    EncodeCons(p, []);
    EncodeCons(q, []);
    EncodeCons(p, [q]);
    assert [2, 1, x] + ([4, 1, y] + []) == [2, 1, x, 4, 1, y];
  }

  lemma ShortPrimitive(tag: byte, x: byte)
    requires tag < 0x20
    ensures Encode(Primitive(tag, [x])) == [tag, 1, x] && WellFormed(Primitive(tag, [x]))
  {
  }

  lemma EncodeCons(t: Tree, ts: seq<Tree>)
    ensures EncodeAll([t] + ts) == Encode(t) + EncodeAll(ts)
  {
    assert ([t] + ts)[1..] == ts;
  }

  lemma SequenceOf(ts: seq<Tree>, content: seq<byte>)
    requires EncodeAll(ts) == content && |content| < 0x80 && forall c <- ts :: WellFormed(c)
    ensures ParseNode([0x30, |content|] + content) == Some((Constructed(0x30, |content|, ts), 2 + |content|))
  {
    hide ParseNode, EncodeAll;
    var t := Constructed(0x30, |content|, ts);
    assert WellFormed(t);
    assert LengthField(|content|) == [|content|];
    assert Encode(t) == [0x30, |content|] + content;
    hide *;
    RoundTrip(t, []);
    assert Encode(t) + [] == Encode(t);
  }

  // ---------------------------------------------------------------- searching

  /** asn1_find over a node, its children and its later siblings. */
  function Find(ts: seq<Tree>, tag: byte): Option<Tree> {
    if ts == [] then None
    else if ts[0].tag == tag then Some(ts[0])
    else
      var found := if ts[0].Constructed? then Find(ts[0].children, tag) else None;
      if found.Some? then found else Find(ts[1..], tag)
  }

  /** The nodes in the order a preorder walk meets them. */
  function Preorder(ts: seq<Tree>): seq<Tree> {
    if ts == [] then [] else
      [ts[0]] + (if ts[0].Constructed? then Preorder(ts[0].children) else []) + Preorder(ts[1..])
  }

  /** The first node with a tag in a list of nodes. */
  function FirstWith(nodes: seq<Tree>, tag: byte): Option<Tree> {
    if nodes == [] then None else if nodes[0].tag == tag then Some(nodes[0]) else FirstWith(nodes[1..], tag)
  }

  lemma {:induction false} FirstOfSum(xs: seq<Tree>, ys: seq<Tree>, tag: byte)
    ensures FirstWith(xs + ys, tag) == if FirstWith(xs, tag).Some? then FirstWith(xs, tag) else FirstWith(ys, tag)
  {
    if xs == [] {
      assert xs + ys == ys;
    } else {
      assert (xs + ys)[1..] == xs[1..] + ys;
      FirstOfSum(xs[1..], ys, tag);
    }
  }

  lemma FirstOfNone(tag: byte)
    ensures FirstWith([], tag) == None
  {
  }

  lemma FirstOfCons(t: Tree, rest: seq<Tree>, tag: byte)
    ensures FirstWith([t] + rest, tag) == if t.tag == tag then Some(t) else FirstWith(rest, tag)
  {
    assert ([t] + rest)[1..] == rest;
  }

  /** The search returns the first match in preorder, and nothing exactly when there is none. */
  lemma {:induction false} FindIsFirstInPreorder(ts: seq<Tree>, tag: byte)
    ensures Find(ts, tag) == FirstWith(Preorder(ts), tag)
  {
    hide FirstWith, Preorder;
    if ts == [] {
      FirstOfNone(tag);
      assert Preorder(ts) == [] by { PreorderStep(ts); }
    } else {
      var below := if ts[0].Constructed? then Preorder(ts[0].children) else [];
      if ts[0].Constructed? {
        FindIsFirstInPreorder(ts[0].children, tag);
      }
      FindIsFirstInPreorder(ts[1..], tag);
      PreorderStep(ts);
      FirstInParts(ts[0], below, Preorder(ts[1..]), tag);
    }
  }

  lemma PreorderStep(ts: seq<Tree>)
    ensures ts == [] ==> Preorder(ts) == []
    ensures ts != [] ==>
              Preorder(ts) == [ts[0]] + ((if ts[0].Constructed? then Preorder(ts[0].children) else []) + Preorder(ts[1..]))
  {
  }

  lemma FirstInParts(t: Tree, below: seq<Tree>, after: seq<Tree>, tag: byte)
    ensures FirstWith([t] + (below + after), tag)
         == if t.tag == tag then Some(t)
            else if FirstWith(below, tag).Some? then FirstWith(below, tag)
            else FirstWith(after, tag)
    ensures FirstWith([], tag) == None
  {
    FirstOfNone(tag);
    hide FirstWith;
    FirstOfCons(t, below + after, tag);
    FirstOfSum(below, after, tag);
  }

  lemma {:induction false} FirstWithIsFirst(nodes: seq<Tree>, tag: byte)
    ensures match FirstWith(nodes, tag)
            case None => forall i :: 0 <= i < |nodes| ==> nodes[i].tag != tag
            case Some(t) => exists i :: 0 <= i < |nodes| && nodes[i] == t && t.tag == tag && forall j :: 0 <= j < i ==> nodes[j].tag != tag
  {
    if nodes != [] && nodes[0].tag != tag {
      FirstWithIsFirst(nodes[1..], tag);
      if FirstWith(nodes, tag).Some? {
        var i :| 0 <= i < |nodes| - 1 && nodes[1..][i] == FirstWith(nodes, tag).value
                 && FirstWith(nodes, tag).value.tag == tag && forall j :: 0 <= j < i ==> nodes[1..][j].tag != tag;
        assert forall j :: 0 < j < 1 + i ==> nodes[j] == nodes[1..][j - 1];
        assert nodes[1 + i] == FirstWith(nodes, tag).value;
      } else {
        assert forall i :: 0 < i < |nodes| ==> nodes[i] == nodes[1..][i - 1];
      }
    }
  }

  /** A node inside is found before one behind, and a node before those inside it. */
  lemma InsideBeforeBehind(outer: byte, tag: byte, v: seq<byte>, w: seq<byte>, n: nat)
    requires outer != tag
    ensures Find([Constructed(outer, n, [Primitive(tag, v)]), Primitive(tag, w)], tag) == Some(Primitive(tag, v))
    ensures Find([Constructed(tag, n, [Primitive(tag, v)]), Primitive(tag, w)], tag) == Some(Constructed(tag, n, [Primitive(tag, v)]))
  {
    var inside := [Primitive(tag, v)];
    assert Find(inside, tag) == Some(Primitive(tag, v));
  }
}
