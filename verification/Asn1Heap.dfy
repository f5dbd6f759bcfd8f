/**
 The tag-length-value parser as coded: heap nodes linked by first child and next sibling, an
 allocator that may fail at any call, and the clean-up on every failure path.
 */
module Asn1Heap {
  import opened Bytes
  import opened Wrappers
  import opened Asn1

  /** secure_alloc and secure_free: which objects are allocated, and how often a request failed. */
  class Allocator {
    ghost var live: set<object>
    ghost var failures: nat

    constructor ()
      ensures live == {} && failures == 0
    {
      live := {};
      failures := 0;
    }

    method AllocNode() returns (n: Node?)
      modifies this
      ensures n != null ==> fresh(n) && live == old(live) + {n} && failures == old(failures)
      ensures n != null ==> n.tag == 0 && n.length == 0 && n.value == null && n.children == null && n.next == null
      ensures n == null ==> live == old(live) && failures > old(failures)
    {
      if * {
        failures := failures + 1;
        return null;
      }
      n := new Node();
      live := live + {n};
    }

    /** A request for no bytes always fails. */
    method AllocBytes(size: nat) returns (a: array?<byte>)
      modifies this
      ensures a != null ==> fresh(a) && a.Length == size > 0 && live == old(live) + {a} && failures == old(failures)
      ensures a == null ==> live == old(live) && (size == 0 || failures > old(failures))
      ensures failures >= old(failures)
    {
      if size == 0 {
        return null;
      }
      if * {
        failures := failures + 1;
        return null;
      }
      a := new byte[size](_ => 0);
      live := live + {a};
    }

    /** Only what is allocated can be released, so nothing is released twice. */
    method Release(o: object)
      requires o in live
      modifies this
      ensures live == old(live) - {o} && failures == old(failures)
    {
      live := live - {o};
    }
  }

  class Node {
    var tag: byte
    var length: nat
    var value: array?<byte>
    var children: Node?
    var next: Node?
    /** The child nodes in sibling order, everything below this node, and the tree it stands for. */
    ghost var kids: seq<Node>
    ghost var repr: set<object>
    ghost var tree: Tree

    constructor ()
      ensures tag == 0 && length == 0 && value == null && children == null && next == null
      ensures fresh(this)
    {
      tag, length, value, children, next := 0, 0, null, null, null;
    }

    ghost predicate InsideOf(k: Node)
      reads this, k
    {
      k in repr && k.repr < repr && this !in k.repr && (value != null ==> value !in k.repr)
    }

    /** Everything but the validity of the children. */
    ghost predicate Shape()
      reads this, value, kids
    {
      && this in repr
      && (value != null ==> value in repr && value.Length == length)
      && (forall i :: 0 <= i < |kids| ==> InsideOf(kids[i]))
      && Apart(kids)
      && Linked(children, kids)
      && repr == Own(this) + Foot(kids)
      && Stands(this)
    }

    ghost predicate Valid()
      reads this, repr
      decreases repr
    {
      && this in repr && (value != null ==> value in repr) && (forall i :: 0 <= i < |kids| ==> kids[i] in repr)
      && Shape()
      && forall i :: 0 <= i < |kids| ==> kids[i].Valid()
    }
  }

  /** The tree a node stands for, given those of its children. */
  ghost predicate Stands(n: Node)
    reads n, n.value, n.kids
  {
    match n.tree
    case Primitive(t, v) => !IsConstructed(n.tag) && n.kids == [] && n.value != null && t == n.tag && v == n.value[..]
    case Constructed(t, length, ts) =>
      IsConstructed(n.tag) && n.value == null && t == n.tag && length == n.length && ts == Trees(n.kids)
  }

  /** The objects below a list of nodes. */
  ghost function Foot(kids: seq<Node>): set<object>
    reads kids
  {
    set i, o | 0 <= i < |kids| && o in kids[i].repr :: o
  }

  ghost function Trees(kids: seq<Node>): seq<Tree>
    reads kids
  {
    seq(|kids|, i requires 0 <= i < |kids| reads kids => kids[i].tree)
  }

  /** No two nodes of the list share an object. */
  ghost predicate Apart(kids: seq<Node>)
    reads kids
  {
    forall i, j :: 0 <= i < j < |kids| ==> kids[i].repr !! kids[j].repr
  }

  /** `first` starts the list: each node points to its successor and the last one to nothing. */
  ghost predicate Linked(first: Node?, kids: seq<Node>)
    reads kids
  {
    && first == (if kids == [] then null else kids[0])
    && (kids != [] ==> kids[|kids| - 1].next == null)
    && forall i, j :: 0 <= i < j < |kids| && j == i + 1 ==> kids[i].next == kids[j]
  }

  /** A sibling list: valid nodes, apart from each other, linked in order. */
  ghost predicate Chain(first: Node?, kids: seq<Node>)
    reads kids, Foot(kids)
  {
    Linked(first, kids) && Apart(kids) && forall i :: 0 <= i < |kids| ==> kids[i].repr <= Foot(kids) && kids[i].Valid()
  }

  lemma FootOfCons(k: Node, rest: seq<Node>)
    ensures Foot([k] + rest) == k.repr + Foot(rest)
  {
    var kids := [k] + rest;
    assert kids[0] == k && forall i :: 0 <= i < |rest| ==> rest[i] == kids[i + 1];
    forall o | o in k.repr + Foot(rest)
      ensures o in Foot(kids)
    {
      if o !in k.repr {
        var i :| 0 <= i < |rest| && o in rest[i].repr;
        assert o in kids[i + 1].repr;
      }
    }
  }

  lemma ChainEmpty(first: Node?, chain: seq<Node>)
    requires Chain(first, chain)
    ensures first == null <==> chain == []
    ensures chain == [] ==> Foot(chain) == {}
  {
  }

  lemma InFoot(kids: seq<Node>, i: nat)
    requires i < |kids|
    ensures kids[i].repr <= Foot(kids)
  {
  }

  /** The links of a list are those of its tail behind the first. */
  lemma LinkedTail(chain: seq<Node>)
    requires chain != [] && Linked(chain[0], chain)
    ensures Linked(chain[0].next, chain[1..])
  {
    var rest := chain[1..];
    forall i, j | 0 <= i < j < |rest| && j == i + 1
      ensures rest[i].next == rest[j]
    {
      assert rest[i] == chain[i + 1] && rest[j] == chain[j + 1];
      assert chain[i + 1].next == chain[j + 1];
    }
    if |chain| > 1 {
      assert chain[0].next == chain[1];
    }
  }

  lemma ChainTail(first: Node?, chain: seq<Node>)
    requires Chain(first, chain) && chain != []
    ensures first == chain[0] && first.Valid()
    ensures Chain(first.next, chain[1..])
    ensures Foot(chain) == first.repr + Foot(chain[1..]) && first.repr !! Foot(chain[1..])
  {
    hide Node.Valid;
    var rest := chain[1..];
    assert chain == [chain[0]] + rest;
    LinkedTail(chain);
    hide Linked;
    FootOfCons(chain[0], rest);
    ApartTail(chain);
    hide Apart;
    forall i | 0 <= i < |rest|
      ensures rest[i].repr <= Foot(rest) && rest[i].Valid()
    {
      InFoot(rest, i);
      assert rest[i] == chain[i + 1];
    }
    hide Foot;
  }

  lemma ChainBelow(node: Node)
    requires node.Valid()
    ensures Chain(node.children, node.kids)
    ensures Own(node) <= node.repr && Own(node) !! Foot(node.kids) && node.repr == Foot(node.kids) + Own(node)
    ensures Foot(node.kids) < node.repr
  {
    forall i | 0 <= i < |node.kids|
      ensures node.kids[i].repr <= Foot(node.kids)
    {
      InFoot(node.kids, i);
    }
    OwnApart(node);
    hide Foot, Apart, Linked;
  }

  lemma OwnApart(node: Node)
    requires node.Shape()
    ensures Own(node) !! Foot(node.kids)
  {
    hide Apart, Linked, Stands;
    assert forall i :: 0 <= i < |node.kids| ==> node.InsideOf(node.kids[i]);
  }

  /**
   asn1_free: releases every node and value of the sibling list starting at `node`, and of all
   lists below it, exactly once.
   */
  method Free(alloc: Allocator, node: Node?, ghost chain: seq<Node>)
    requires Chain(node, chain) && Foot(chain) <= alloc.live
    requires alloc !in Foot(chain)
    modifies alloc
    ensures alloc.live == old(alloc.live) - Foot(chain) && alloc.failures == old(alloc.failures)
    decreases Foot(chain)
  {
    hide *;
    ChainEmpty(node, chain);
    if node == null {
      return;
    }
    ChainTail(node, chain);
    ChainBelow(node);
    ghost var rest, below, live := chain[1..], Foot(node.kids), alloc.live;
    Free(alloc, node.children, node.kids);
    Free(alloc, node.next, rest);
    assert alloc.live == live - below - Foot(rest);
    ReleaseNode(alloc, node);
    assert node.repr == below + Own(node);
  }

  /** The node itself and its value. */
  ghost function Own(node: Node): set<object>
    reads node
  {
    {node} + if node.value == null then {} else {node.value}
  }

  method ReleaseNode(alloc: Allocator, node: Node)
    requires Own(node) <= alloc.live
    modifies alloc
    ensures alloc.live == old(alloc.live) - Own(node) && alloc.failures == old(alloc.failures)
  {
    if node.value != null {
      alloc.Release(node.value);
    }
    alloc.Release(node);
  }

  // ---------------------------------------------------------------- parsing

  /** asn1_read_length on the bytes from `pos` to `end`. */
  method ReadLengthAt(data: seq<byte>, pos: nat, end: nat) returns (ok: bool, length: nat, pos': nat)
    requires pos <= end <= |data|
    ensures pos <= pos' <= end && (ok ==> pos < pos')
    ensures ReadLength(data[pos..end]) == if ok then Some((length, pos' - pos)) else None
  {
    ghost var d := data[pos..end];
    pos' := pos;
    if end - pos' < 1 {
      return false, 0, pos';
    }
    var first := data[pos'];
    pos' := pos' + 1;
    if first < 0x80 {
      return true, first, pos';
    }
    var numBytes := first % 0x80;
    if numBytes > 4 || end - pos' < numBytes {
      return false, 0, pos';
    }
    length := 0;
    hide BigEndianValue;
    NoLengthByte(d);
    for i := 0 to numBytes
      invariant pos' == pos + 1 + i
      invariant length == BigEndianValue(d[1..1 + i])
    {
      NextLengthByte(d, i);
      length := (length * 256 + data[pos']) % 0x1_0000_0000;
      pos' := pos' + 1;
    }
    return true, length, pos';
  }

  lemma NoLengthByte(d: seq<byte>)
    requires d != []
    ensures BigEndianValue(d[1..1]) == 0
  {
  }

  /** Up to four length bytes fill a 32-bit number without overflow. */
  lemma NextLengthByte(d: seq<byte>, i: nat)
    requires i < 4 && 2 + i <= |d|
    ensures BigEndianValue(d[1..2 + i]) == (BigEndianValue(d[1..1 + i]) * 256 + d[1 + i]) % 0x1_0000_0000
  {
    ValueBound(d[1..1 + i]);
    Pow256Small(i);
    assert d[1..2 + i][..i] == d[1..1 + i];
    hide Pow256;
  }

  lemma Pow256Small(i: nat)
    requires i < 4
    ensures Pow256(i) <= 0x100_0000
  {
    assert Pow256(1) == 0x100 && Pow256(2) == 0x1_0000 && Pow256(3) == 0x100_0000;
  }

  lemma FootOfSnoc(kids: seq<Node>, k: Node)
    ensures Foot(kids + [k]) == Foot(kids) + k.repr
  {
    var all := kids + [k];
    assert all[|kids|] == k && forall i :: 0 <= i < |kids| ==> kids[i] == all[i];
  }

  lemma ApartSnoc(kids: seq<Node>, k: Node)
    requires Apart(kids) && forall i :: 0 <= i < |kids| ==> kids[i].repr !! k.repr
    ensures Apart(kids + [k])
  {
  }

  /** Changing the sibling pointer of a node leaves the node itself valid. */
  twostate lemma NextIsOutside(n: Node)
    requires old(n.Valid())
    requires n.tag == old(n.tag) && n.length == old(n.length) && n.value == old(n.value) && n.children == old(n.children)
    requires n.kids == old(n.kids) && n.repr == old(n.repr) && n.tree == old(n.tree)
    requires forall o <- n.repr :: o != n ==> unchanged(o)
    ensures n.Valid()
  {
    hide Apart, Linked, Foot, Trees;
    assert forall i :: 0 <= i < |n.kids| ==> unchanged(n.kids[i]) && n.kids[i] != n;
    forall i | 0 <= i < |n.kids|
      ensures n.kids[i].Valid()
    {
      hide Node.Shape;
      assert old(n.kids[i].Valid());
    }
  }

  /** The list without its terminator. */
  ghost predicate HalfLinked(kids: seq<Node>)
    reads kids
  {
    forall i, j :: 0 <= i < j < |kids| && j == i + 1 ==> kids[i].next == kids[j]
  }

  ghost predicate AllValid(kids: seq<Node>)
    reads kids, Foot(kids)
  {
    forall i :: 0 <= i < |kids| ==> kids[i] in kids[i].repr && kids[i].repr <= Foot(kids) && kids[i].Valid()
  }

  lemma AllValidSnoc(kids: seq<Node>, child: Node)
    requires AllValid(kids) && child in child.repr && child.Valid()
    ensures AllValid(kids + [child])
  {
    hide Node.Valid;
    var all := kids + [child];
    FootOfSnoc(kids, child);
    hide Foot;
    forall i | 0 <= i < |all|
      ensures all[i] in all[i].repr && all[i].repr <= Foot(all) && all[i].Valid()
    {
      if i < |kids| {
        assert all[i] == kids[i];
      }
    }
  }

  lemma LinkedSnoc(kids: seq<Node>, child: Node)
    requires HalfLinked(kids) && child.next == null && (kids != [] ==> kids[|kids| - 1].next == child)
    ensures HalfLinked(kids + [child]) && Linked((kids + [child])[0], kids + [child])
  {
    var all := kids + [child];
    forall i, j | 0 <= i < j < |all| && j == i + 1
      ensures all[i].next == all[j]
    {
      if j < |kids| {
        assert all[i] == kids[i] && all[j] == kids[j];
      }
    }
  }

  lemma TreesSnoc(kids: seq<Node>, child: Node)
    ensures Trees(kids + [child]) == Trees(kids) + [child.tree]
  {
  }

  twostate lemma SameBelow(kids: seq<Node>)
    requires forall i :: 0 <= i < |kids| ==> kids[i].repr == old(kids[i].repr) && kids[i].tree == old(kids[i].tree)
    ensures Foot(kids) == old(Foot(kids)) && Trees(kids) == old(Trees(kids))
    ensures old(Apart(kids)) ==> Apart(kids)
  {
    forall o
      ensures o in Foot(kids) <==> o in old(Foot(kids))
    {
      if o in Foot(kids) {
        var i :| 0 <= i < |kids| && o in kids[i].repr;
        assert o in old(kids[i].repr);
      }
      if o in old(Foot(kids)) {
        var i :| 0 <= i < |kids| && o in old(kids[i].repr);
        assert o in kids[i].repr;
      }
    }
  }

  twostate lemma KidsStayValid(kids: seq<Node>)
    requires old(AllValid(kids)) && old(Apart(kids)) && kids != []
    requires var last := kids[|kids| - 1];
             && last.tag == old(last.tag) && last.length == old(last.length) && last.value == old(last.value)
             && last.children == old(last.children) && last.kids == old(last.kids)
             && last.repr == old(last.repr) && last.tree == old(last.tree)
    requires forall o <- old(Foot(kids)) :: o != kids[|kids| - 1] ==> unchanged(o)
    ensures forall i :: 0 <= i < |kids| ==> kids[i] in kids[i].repr && kids[i].Valid()
  {
    hide Node.Valid;
    var last := kids[|kids| - 1];
    forall i | 0 <= i < |kids|
      ensures kids[i] in kids[i].repr && kids[i].Valid()
    {
      assert old(kids[i] in kids[i].repr && kids[i].repr <= Foot(kids) && kids[i].Valid());
      if i < |kids| - 1 {
        assert old(kids[i].repr !! last.repr);
      }
      hide Foot, Apart;
      if i == |kids| - 1 {
        NextIsOutside(last);
      } else {
        assert last !in old(kids[i].repr);
      }
    }
  }

  /** `last_child->next = child`. */
  method LinkNext(ghost kids: seq<Node>, last: Node, child: Node)
    requires AllValid(kids) && Apart(kids) && HalfLinked(kids) && kids != [] && last == kids[|kids| - 1]
    requires child.repr !! Foot(kids)
    modifies last`next
    ensures AllValid(kids) && Apart(kids) && HalfLinked(kids) && last.next == child
    ensures Foot(kids) == old(Foot(kids)) && Trees(kids) == old(Trees(kids))
  {
    hide Node.Valid, Apart, Foot, Trees, AllValid;
    LastIsApart(kids);
    last.next := child;
    LinkKeeps(kids);
  }

  twostate lemma LinkKeeps(kids: seq<Node>)
    requires old(AllValid(kids)) && old(Apart(kids)) && kids != []
    requires var last := kids[|kids| - 1];
             && last.tag == old(last.tag) && last.length == old(last.length) && last.value == old(last.value)
             && last.children == old(last.children) && last.kids == old(last.kids)
             && last.repr == old(last.repr) && last.tree == old(last.tree)
    requires forall i :: 0 <= i < |kids| ==> kids[i].repr == old(kids[i].repr) && kids[i].tree == old(kids[i].tree)
    requires forall o <- old(Foot(kids)) :: o != kids[|kids| - 1] ==> unchanged(o)
    ensures AllValid(kids) && Apart(kids)
    ensures Foot(kids) == old(Foot(kids)) && Trees(kids) == old(Trees(kids))
  {
    hide Node.Valid, Apart, Foot, Trees, AllValid;
    SameBelow(kids);
    KidsStayValid(kids);
    RebuildAllValid(kids);
  }

  lemma LastIsApart(kids: seq<Node>)
    requires AllValid(kids) && Apart(kids) && kids != []
    ensures forall i :: 0 <= i < |kids| - 1 ==> kids[i] != kids[|kids| - 1]
  {
    hide Node.Valid, Foot;
  }

  lemma RebuildAllValid(kids: seq<Node>)
    requires forall i :: 0 <= i < |kids| ==> kids[i] in kids[i].repr && kids[i].Valid()
    ensures AllValid(kids)
  {
    hide Node.Valid;
    forall i | 0 <= i < |kids|
      ensures kids[i].repr <= Foot(kids)
    {
      InFoot(kids, i);
    }
  }

  /** What a valid node knows about its children. */
  lemma KidsOf(parent: Node)
    requires parent.Valid()
    ensures AllValid(parent.kids) && Apart(parent.kids) && HalfLinked(parent.kids)
    ensures parent.children == if parent.kids == [] then null else parent.kids[0]
    ensures parent.repr == Own(parent) + Foot(parent.kids) && Own(parent) !! Foot(parent.kids)
    ensures Stands(parent)
  {
    OwnApart(parent);
    forall i | 0 <= i < |parent.kids|
      ensures parent.kids[i] in parent.kids[i].repr && parent.kids[i].repr <= Foot(parent.kids)
    {
      InFoot(parent.kids, i);
      assert parent.kids[i].Valid();
    }
  }

  /** And what is enough for it to be valid. */
  lemma MakeValid(parent: Node)
    requires AllValid(parent.kids) && Apart(parent.kids) && Linked(parent.children, parent.kids)
    requires parent.repr == Own(parent) + Foot(parent.kids) && Own(parent) !! Foot(parent.kids)
    requires Stands(parent) && (parent.value != null ==> parent.value.Length == parent.length)
    ensures parent.Valid()
  {
    hide Foot, Apart, Linked, Stands;
    forall i | 0 <= i < |parent.kids|
      ensures parent.InsideOf(parent.kids[i]) && parent.kids[i] in parent.repr
    {
      hide Node.Valid;
      assert parent in Own(parent) && (parent.value != null ==> parent.value in Own(parent));
      assert parent.kids[i] in parent.kids[i].repr && parent.kids[i].repr <= Foot(parent.kids);
    }
    hide AllValid;
    assert parent.Shape();
  }

  /** Links a parsed child behind the last one. */
  method AppendChild(parent: Node, last: Node?, child: Node)
    requires parent.Valid() && parent.tree.Constructed?
    requires child.Valid() && child.next == null && child.repr !! parent.repr
    requires last == if parent.kids == [] then null else parent.kids[|parent.kids| - 1]
    modifies parent, last
    ensures parent.Valid() && parent.kids == old(parent.kids) + [child]
    ensures parent.repr == old(parent.repr) + child.repr
    ensures parent.tag == old(parent.tag) && parent.length == old(parent.length) && parent.next == old(parent.next)
    ensures parent.tree == old(parent.tree).(children := old(parent.tree.children) + [child.tree])
  {
    hide Node.Valid, Foot, Apart, AllValid, Trees;
    ghost var kids, repr := parent.kids, parent.repr;
    KidsOf(parent);
    SelfInside(child);
    if parent.children == null {
      parent.children := child;
    } else if last != null {
      LinkNext(kids, last, child);
    }
    GrowKids(parent, kids, child);
  }

  lemma SelfInside(n: Node)
    requires n.Valid()
    ensures n in n.repr
  {
  }

  /** The bookkeeping for one more child, once it is linked. */
  ghost method GrowKids(parent: Node, kids: seq<Node>, child: Node)
    requires AllValid(kids) && Apart(kids) && HalfLinked(kids) && kids == parent.kids
    requires child.Valid() && child in child.repr && child.next == null && child.repr !! parent.repr
    requires parent.repr == Own(parent) + Foot(kids) && Own(parent) !! Foot(kids)
    requires parent.children == (if kids == [] then child else kids[0]) && (kids != [] ==> kids[|kids| - 1].next == child)
    requires Stands(parent) && parent.tree.Constructed?
    modifies parent`kids, parent`repr, parent`tree
    ensures parent.Valid() && parent.kids == kids + [child]
    ensures parent.repr == old(parent.repr) + child.repr
    ensures parent.tree == old(parent.tree).(children := old(parent.tree.children) + [child.tree])
  {
    hide Node.Valid, Foot, Apart, AllValid, Trees, HalfLinked, Linked;
    SnocAll(kids, child, parent);
    parent.kids := kids + [child];
    parent.repr := parent.repr + child.repr;
    parent.tree := parent.tree.(children := parent.tree.children + [child.tree]);
    MakeValid(parent);
  }

  lemma SnocAll(kids: seq<Node>, child: Node, parent: Node)
    requires AllValid(kids) && Apart(kids) && HalfLinked(kids)
    requires child.Valid() && child in child.repr && child.next == null && child.repr !! Foot(kids)
    requires kids != [] ==> kids[|kids| - 1].next == child
    requires parent !in Foot(kids) && parent !in child.repr
    ensures var all := kids + [child];
            && AllValid(all) && Apart(all) && Linked(all[0], all)
            && Trees(all) == Trees(kids) + [child.tree] && Foot(all) == Foot(kids) + child.repr
            && forall i :: 0 <= i < |all| ==> all[i] != parent
  {
    forall i | 0 <= i < |kids|
      ensures kids[i].repr !! child.repr && kids[i] != parent
    {
      InFoot(kids, i);
    }
    hide Node.Valid, Foot, Apart, AllValid, Trees, HalfLinked, Linked;
    AllValidSnoc(kids, child);
    LinkedSnoc(kids, child);
    ApartSnoc(kids, child);
    TreesSnoc(kids, child);
    FootOfSnoc(kids, child);
  }

  /** Trees already parsed, then the result for what is left. */
  function Prefixed(ts: seq<Tree>, rest: Option<seq<Tree>>): Option<seq<Tree>> {
    match rest
    case None => None
    case Some(more) => Some(ts + more)
  }

  lemma ParseAllStep(content: seq<byte>)
    requires content != []
    ensures ParseNode(content) == None ==> ParseAll(content) == None
    ensures ParseNode(content).Some? ==>
              ParseAll(content) == Prefixed([ParseNode(content).value.0], ParseAll(content[ParseNode(content).value.1..]))
  {
  }

  /**
   asn1_parse_node on the bytes from `pos` to `end`. When it fails, everything it allocated has
   been released; when it succeeds, exactly the objects below the new node have been added.
   */
  method ParseNodeAt(alloc: Allocator, data: seq<byte>, pos: nat, end: nat) returns (node: Node?, pos': nat)
    requires pos <= end <= |data|
    modifies alloc
    ensures alloc.failures >= old(alloc.failures)
    ensures node == null ==>
              alloc.live == old(alloc.live) && (ParseNode(data[pos..end]) == None || alloc.failures > old(alloc.failures))
    ensures node != null ==>
              && node.Valid() && node.next == null && fresh(node.repr)
              && alloc.live == old(alloc.live) + node.repr && alloc.failures == old(alloc.failures)
              && pos <= pos' <= end
              && ParseNode(data[pos..end]) == Some((node.tree, pos' - pos))
    decreases end - pos, 0
  {
    hide *;
    var n, p := ParseHeader(alloc, data, pos, end);
    if n == null {
      return null, p;
    }
    var length := n.length;
    ParseNodeContinues(data, pos, end, length, p);
    var ok := ParseBody(alloc, n, data, p, p + length);
    if !ok {
      return null, p;
    }
    SelfInside(n);
    return n, p + length;
  }

  /** Allocates the node and reads tag and length; when that fails, nothing stays allocated. */
  method ParseHeader(alloc: Allocator, data: seq<byte>, pos: nat, end: nat) returns (n: Node?, p: nat)
    requires pos <= end <= |data|
    modifies alloc
    ensures alloc.failures >= old(alloc.failures)
    ensures n == null ==>
              alloc.live == old(alloc.live) && (ParseNode(data[pos..end]) == None || alloc.failures > old(alloc.failures))
    ensures n != null ==>
              && fresh(n) && alloc.live == old(alloc.live) + {n} && alloc.failures == old(alloc.failures)
              && n.value == null && n.children == null && n.next == null
              && pos + 2 <= p && p + n.length <= end && n.tag == data[pos]
              && ReadLength(data[pos + 1..end]) == Some((n.length, p - (pos + 1)))
  {
    if end - pos < 1 {
      return null, pos;
    }
    hide *;
    n := alloc.AllocNode();
    if n == null {
      return null, pos;
    }
    n.tag := data[pos];
    var ok, length, p' := ReadLengthAt(data, pos + 1, end);
    if !ok || end - p' < length {
      ParseNodeRejects(data, pos, end, ok, length, p');
      alloc.Release(n);
      return null, p';
    }
    n.length := length;
    return n, p';
  }

  /** The branch on the constructed bit. On failure the node has been released. */
  method ParseBody(alloc: Allocator, n: Node, data: seq<byte>, pos: nat, end: nat) returns (ok: bool)
    requires pos <= end <= |data| && n in alloc.live && n.length == end - pos
    requires n.value == null && n.children == null && n.next == null
    modifies alloc, n
    ensures alloc.failures >= old(alloc.failures)
    ensures !ok ==>
              alloc.live == old(alloc.live) - {n} && (BodyOf(old(n.tag), data[pos..end]) == None || alloc.failures > old(alloc.failures))
    ensures ok ==>
              && n.Valid() && n.next == null && fresh(n.repr - {n})
              && alloc.live == old(alloc.live) + n.repr && alloc.failures == old(alloc.failures)
              && BodyOf(old(n.tag), data[pos..end]) == Some(n.tree)
    decreases end - pos, 3
  {
    hide Node.Valid, ParseAll;
    if IsConstructed(n.tag) {
      NoChildrenYet(n);
      ok := ParseChildren(alloc, n, data, pos, end);
    } else {
      ok := ParseValue(alloc, n, data, pos);
    }
  }

  lemma ParseNodeRejects(data: seq<byte>, pos: nat, end: nat, ok: bool, length: nat, p: nat)
    requires pos < end <= |data| && pos + 1 <= p <= end
    requires ReadLength(data[pos + 1..end]) == if ok then Some((length, p - (pos + 1))) else None
    requires !ok || end - p < length
    ensures ParseNode(data[pos..end]) == None
  {
    assert data[pos..end][1..] == data[pos + 1..end];
  }

  lemma ParseNodeContinues(data: seq<byte>, pos: nat, end: nat, length: nat, p: nat)
    requires pos < end <= |data| && pos + 2 <= p && p + length <= end
    requires ReadLength(data[pos + 1..end]) == Some((length, p - (pos + 1)))
    ensures var body := BodyOf(data[pos], data[p..p + length]);
            ParseNode(data[pos..end]) == if body == None then None else Some((body.value, p + length - pos))
  {
    hide BodyOf, ReadLength, ParseNode;
    var d := data[pos..end];
    assert d[1..] == data[pos + 1..end];
    ParseAfterHeader(d, p - pos, length);
    SliceOfSlice(data, pos, end, p, p + length);
  }

  lemma SliceOfSlice(data: seq<byte>, pos: nat, end: nat, i: nat, j: nat)
    requires pos <= i <= j <= end <= |data|
    ensures data[pos..end][i - pos..j - pos] == data[i..j]
  {
    var window := data[pos..end];
    var slice := window[i - pos..j - pos];
    forall k | 0 <= k < j - i
      ensures slice[k] == data[i..j][k]
    {
      assert slice[k] == window[i - pos + k];
    }
  }

  /** The primitive branch: copy the value, or release the node when there is no room for it. */
  method ParseValue(alloc: Allocator, n: Node, data: seq<byte>, p: nat) returns (ok: bool)
    requires p + n.length <= |data| && n in alloc.live
    requires !IsConstructed(n.tag) && n.value == null && n.children == null && n.next == null
    modifies alloc, n
    ensures alloc.failures >= old(alloc.failures)
    ensures !ok ==> alloc.live == old(alloc.live) - {n} && (old(n.length) == 0 || alloc.failures > old(alloc.failures))
    ensures ok ==>
              && n.Valid() && n.next == null && fresh(n.repr - {n}) && n.length == old(n.length) > 0
              && alloc.live == old(alloc.live) + n.repr && alloc.failures == old(alloc.failures)
              && n.tree == Primitive(old(n.tag), data[p..p + n.length])
  {
    n.value := alloc.AllocBytes(n.length);
    if n.value == null {
      alloc.Release(n);
      return false;
    }
    forall i | 0 <= i < n.length {
      n.value[i] := data[p + i];
    }
    n.kids := [];
    n.repr := {n, n.value};
    n.tree := Primitive(n.tag, n.value[..]);
    return true;
  }

  /**
   The constructed branch: parse children until the content is used up. A failing child has
   cleaned up after itself; asn1_free releases the node and the children before it.
   */
  method ParseChildren(alloc: Allocator, n: Node, data: seq<byte>, pos: nat, end: nat) returns (ok: bool)
    requires pos <= end <= |data| && n in alloc.live
    requires n.Valid() && n.next == null && n.repr == {n} && n.kids == []
    requires n.tree.Constructed? && n.tree.children == []
    modifies alloc, n
    ensures alloc.failures >= old(alloc.failures)
    ensures !ok ==>
              alloc.live == old(alloc.live) - {n} && (ParseAll(data[pos..end]) == None || alloc.failures > old(alloc.failures))
    ensures ok ==>
              && n.Valid() && n.next == null && fresh(n.repr - {n})
              && alloc.live == old(alloc.live) + n.repr && alloc.failures == old(alloc.failures)
              && n.tree.Constructed? && ParseAll(data[pos..end]) == Some(n.tree.children)
              && n.tree == old(n.tree).(children := n.tree.children)
    decreases end - pos, 2
  {
    hide *;
    PrefixedNothing(ParseAll(data[pos..end]));
    var p := pos;
    var last: Node? := LastKidOfNone(n);
    while p < end
      invariant pos <= p <= end
      invariant n.Valid() && n.next == null && fresh(n.repr - {n})
      invariant n.tree.Constructed? && n.tree == old(n.tree).(children := n.tree.children)
      invariant last == LastKid(n) && (last != null ==> last in n.repr && last != n)
      invariant alloc.live == old(alloc.live) + n.repr && alloc.failures == old(alloc.failures)
      invariant ParseAll(data[pos..end]) == Prefixed(n.tree.children, ParseAll(data[p..end]))
      decreases end - p
    {
      SelfInside(n);
      ghost var ts := n.tree.children;
      last, p := ParseChild(alloc, n, last, data, p, end);
      if last == null {
        PrefixedNone(ts);
        return false;
      }
      PrefixedTwice(ts, last.tree, ParseAll(data[p..end]));
    }
    ParsedAll(n.tree.children, data[pos..end], data[end..end]);
    return true;
  }

  method LastKidOfNone(n: Node) returns (last: Node?)
    requires n.kids == []
    ensures last == null == LastKid(n)
  {
    last := null;
  }

  lemma ParsedAll(ts: seq<Tree>, all: seq<byte>, rest: seq<byte>)
    requires rest == [] && ParseAll(all) == Prefixed(ts, ParseAll(rest))
    ensures ParseAll(all) == Some(ts)
  {
    assert ts + [] == ts;
  }

  ghost method NoChildrenYet(n: Node)
    requires IsConstructed(n.tag) && n.value == null && n.children == null
    modifies n`kids, n`repr, n`tree
    ensures n.Valid() && n.repr == {n} && n.kids == [] && n.tree == Constructed(n.tag, n.length, [])
  {
    n.kids := [];
    n.repr := {n};
    n.tree := Constructed(n.tag, n.length, []);
  }

  ghost function LastKid(n: Node): Node?
    reads n
  {
    if n.kids == [] then null else n.kids[|n.kids| - 1]
  }

  /** One turn of the loop: link the next child, or release the node and everything below it. */
  method ParseChild(alloc: Allocator, n: Node, last: Node?, data: seq<byte>, p: nat, end: nat)
    returns (child: Node?, p': nat)
    requires p < end <= |data|
    requires n.Valid() && n.next == null && n.tree.Constructed? && n.repr <= alloc.live
    requires last == LastKid(n) && (last != null ==> last in n.repr && last != n)
    requires alloc !in n.repr
    modifies alloc, n, last
    ensures alloc.failures >= old(alloc.failures)
    ensures child == null ==>
              alloc.live == old(alloc.live) - old(n.repr) && (ParseAll(data[p..end]) == None || alloc.failures > old(alloc.failures))
    ensures child != null ==>
              && n.Valid() && n.next == null && child == LastKid(n) && child in n.repr && child != n
              && old(n.repr) <= n.repr && fresh(n.repr - old(n.repr))
              && alloc.live == old(alloc.live) + n.repr && alloc.failures == old(alloc.failures)
              && p < p' <= end
              && n.tree == old(n.tree).(children := old(n.tree.children) + [child.tree])
              && ParseAll(data[p..end]) == Prefixed([child.tree], ParseAll(data[p'..end]))
    decreases end - p, 1
  {
    hide Node.Valid, ParseNode, ParseAll;
    child, p' := ParseNodeAt(alloc, data, p, end);
    ParseAllStep(data[p..end]);
    if child == null {
      ChainOfOne(n);
      Free(alloc, n, [n]);
      return;
    }
    assert data[p..end][p' - p..] == data[p'..end];
    SelfInside(child);
    AppendChild(n, last, child);
  }

  lemma ChainOfOne(n: Node)
    requires n.Valid() && n.next == null
    ensures Chain(n, [n]) && Foot([n]) == n.repr
  {
    InFoot([n], 0);
  }

  lemma PrefixedNothing(r: Option<seq<Tree>>)
    ensures Prefixed([], r) == r
  {
    if r.Some? {
      assert [] + r.value == r.value;
    }
  }

  lemma PrefixedNone(ts: seq<Tree>)
    ensures Prefixed(ts, None) == None
  {
  }

  lemma PrefixedTwice(ts: seq<Tree>, t: Tree, r: Option<seq<Tree>>)
    ensures Prefixed(ts, Prefixed([t], r)) == Prefixed(ts + [t], r)
  {
    if r.Some? {
      assert ts + ([t] + r.value) == ts + [t] + r.value;
    }
  }

  /** asn1_parse: one node from the start of the input; what follows it is ignored. */
  method Parse(alloc: Allocator, data: seq<byte>) returns (root: Node?)
    modifies alloc
    ensures root == null ==>
              alloc.live == old(alloc.live) && (ParseNode(data) == None || alloc.failures > old(alloc.failures))
    ensures root != null ==>
              && Chain(root, [root]) && fresh(root.repr) && Foot([root]) == root.repr
              && alloc.live == old(alloc.live) + root.repr
              && |root.repr| == Objects(root.tree)
              && ParseNode(data).Some? && root.tree == ParseNode(data).value.0
  {
    assert data[0..|data|] == data;
    if |data| == 0 {
      return null;
    }
    hide *;
    var end: nat;
    root, end := ParseNodeAt(alloc, data, 0, |data|);
    if root != null {
      ChainOfOne(root);
      CountObjects(root);
    }
  }

  // ---------------------------------------------------------------- how much is allocated

  /** One allocation for each node and one more for each primitive value. */
  function Objects(t: Tree): nat {
    match t
    case Primitive(_, _) => 2
    case Constructed(_, _, children) => 1 + ObjectsAll(children)
  }

  function ObjectsAll(ts: seq<Tree>): nat {
    if ts == [] then 0 else Objects(ts[0]) + ObjectsAll(ts[1..])
  }

  /** A node owns itself and its value or what is below it. */
  lemma OwnAndBelow(n: Node)
    requires n.Valid()
    ensures n.tree.Primitive? ==> n.value != null && n.repr == {n, n.value} && |n.repr| == 2
    ensures n.tree.Constructed? ==>
              && AllValid(n.kids) && Apart(n.kids) && n.tree.children == Trees(n.kids)
              && n.repr == {n} + Foot(n.kids) && {n} !! Foot(n.kids) && Foot(n.kids) < n.repr
  {
    KidsOf(n);
    ChainBelow(n);
    if n.tree.Primitive? {
      assert Foot(n.kids) == {};
      hide Node.Valid, AllValid, Apart;
      assert n.repr == {n, n.value};
    } else {
      hide Node.Valid, AllValid, Apart, Trees;
    }
  }

  lemma {:induction false} CountObjects(n: Node)
    requires n.Valid()
    ensures |n.repr| == Objects(n.tree)
    decreases n.repr, 0
  {
    OwnAndBelow(n);
    hide AllValid, Apart, Foot, Node.Valid, Trees, ObjectsAll;
    if n.tree.Constructed? {
      CountFoot(n.kids);
      DisjointCount({n}, Foot(n.kids));
    }
  }

  lemma {:induction false} CountFoot(kids: seq<Node>)
    requires AllValid(kids) && Apart(kids)
    ensures |Foot(kids)| == ObjectsAll(Trees(kids))
    decreases Foot(kids), 1 + |kids|
  {
    if kids == [] {
      assert Foot(kids) == {};
    } else {
      KidsSplit(kids);
      hide AllValid, Apart, Foot, Node.Valid, Trees, Objects;
      CountObjects(kids[0]);
      CountFoot(kids[1..]);
      DisjointCount(kids[0].repr, Foot(kids[1..]));
    }
  }

  lemma DisjointCount(a: set<object>, b: set<object>)
    requires a !! b
    ensures |a + b| == |a| + |b|
  {
  }

  lemma KidsSplit(kids: seq<Node>)
    requires AllValid(kids) && Apart(kids) && kids != []
    ensures var rest := kids[1..];
            && AllValid(rest) && Apart(rest) && kids[0].Valid() && kids[0].repr !! Foot(rest)
            && Foot(kids) == kids[0].repr + Foot(rest)
            && Trees(kids)[0] == kids[0].tree && Trees(kids)[1..] == Trees(rest) && Trees(kids) != []
  {
    hide Node.Valid, Foot;
    var rest := kids[1..];
    assert kids == [kids[0]] + rest;
    assert forall i :: 0 <= i < |rest| ==> rest[i] == kids[i + 1];
    ApartTail(kids);
    hide Apart;
    FootOfCons(kids[0], rest);
    RebuildAllValid(rest);
    hide AllValid;
  }

  lemma ApartTail(kids: seq<Node>)
    requires Apart(kids) && kids != []
    ensures Apart(kids[1..]) && kids[0].repr !! Foot(kids[1..])
  {
    var rest := kids[1..];
    assert forall i :: 0 <= i < |rest| ==> rest[i] == kids[i + 1] && kids[0].repr !! rest[i].repr;
  }

  // ---------------------------------------------------------------- searching

  /** asn1_find: the first node with the tag in the sibling list at `node` and below it. */
  method FindNode(node: Node?, tag: byte, ghost chain: seq<Node>) returns (found: Node?)
    requires Chain(node, chain)
    ensures match Find(Trees(chain), tag)
            case None => found == null
            case Some(t) => found != null && found in Foot(chain) && found.tree == t
    decreases Foot(chain)
  {
    hide Node.Valid, Trees, Find, Linked, Apart, Chain;
    ChainEmpty(node, chain);
    if node == null {
      FindNothing(chain, tag);
      return null;
    }
    ChainTail(node, chain);
    ChainBelow(node);
    FindStep(node, chain, tag);
    ghost var rest := chain[1..];
    if node.tag == tag {
      return node;
    }
    found := FindNode(node.children, tag, node.kids);
    if found != null {
      return found;
    }
    found := FindNode(node.next, tag, rest);
  }

  lemma FindNothing(chain: seq<Node>, tag: byte)
    requires chain == []
    ensures Find(Trees(chain), tag) == None
  {
  }

  lemma FindStep(node: Node, chain: seq<Node>, tag: byte)
    requires Chain(node, chain) && chain != []
    ensures Find(Trees(chain), tag) ==
            if node.tag == tag then Some(node.tree)
            else if Find(Trees(node.kids), tag).Some? then Find(Trees(node.kids), tag)
            else Find(Trees(chain[1..]), tag)
    ensures node in Foot(chain)
  {
    assert node.Valid();
    assert Trees(chain)[1..] == Trees(chain[1..]);
    InFoot(chain, 0);
  }
}
