/** Replacing one group node by a node of another group (`replace_single_node` in
    `__init__.py`): a new group node at the old node's location takes over the old node's
    incoming links, its unlinked defaults where they fit, and its outgoing links, and the old
    node is removed. */
module NodeReplace {
  import opened Wrappers
  import opened NodeGraph

  // ---------------------------------------------------------------------------
  // Default values

  /** When a default is copied: a number into a socket holding a number, or a vector into a
      socket holding a vector of the same length. Anything else (a socket with no readable
      default, a number and a vector, vectors of different lengths) is skipped. */
  predicate Compatible(src: SocketValue, dst: SocketValue) {
    || (src.Scalar? && dst.Scalar?)
    || (src.Vector? && dst.Vector? && |src.xs| == |dst.xs|)
  }

  /** Two socket values of the same kind, and for vectors of the same length. */
  predicate SameShape(a: SocketValue, b: SocketValue) {
    || (a.Scalar? && b.Scalar?)
    || (a.Vector? && b.Vector? && |a.xs| == |b.xs|)
    || (a.NoDefault? && b.NoDefault?)
  }

  /** The value input `i` of the new node ends with: the old node's default when that input
      exists on the old node, is not linked there, and fits; otherwise the group's own default. */
  function CopiedDefault(o: Node, ls: seq<Link>, g: NodeGroup, i: nat): SocketValue
    requires i < |g.inputs|
  {
    if i < |o.inputs| && LinksInto(ls, Endpoint(o.id, i)) == [] && Compatible(o.inputs[i], g.inputs[i])
    then o.inputs[i]
    else g.inputs[i]
  }

  /** The new node's input defaults once the inputs below `upto` have been visited. */
  function Defaults(o: Node, ls: seq<Link>, g: NodeGroup, upto: nat): seq<SocketValue> {
    seq(|g.inputs|, q requires 0 <= q < |g.inputs| =>
          if q < upto then CopiedDefault(o, ls, g, q) else g.inputs[q])
  }

  /** The new node's defaults: copying never changes a socket's kind or a vector's length, an
      input the old node has unlinked and a fitting value for takes that value, and every other
      input keeps the group's default. */
  lemma NewDefaults(o: Node, ls: seq<Link>, g: NodeGroup, i: nat)
    requires i < |g.inputs|
    ensures |Defaults(o, ls, g, |o.inputs|)| == |g.inputs|
    ensures Defaults(o, ls, g, |o.inputs|)[i] == g.inputs[i] || SameShape(Defaults(o, ls, g, |o.inputs|)[i], g.inputs[i])
    ensures Defaults(o, ls, g, |o.inputs|)[i] ==
              if i < |o.inputs| && LinksInto(ls, Endpoint(o.id, i)) == [] && Compatible(o.inputs[i], g.inputs[i])
              then o.inputs[i] else g.inputs[i]
  {
  }

  /** One more input visited: only that input's value can change, from the group's default to
      the one it ends with. */
  lemma DefaultsStep(o: Node, ls: seq<Link>, g: NodeGroup, i: nat)
    ensures i < |g.inputs| ==> Defaults(o, ls, g, i)[i] == g.inputs[i]
    ensures i < |g.inputs| ==> Defaults(o, ls, g, i + 1) == Defaults(o, ls, g, i)[i := CopiedDefault(o, ls, g, i)]
    ensures i >= |g.inputs| ==> Defaults(o, ls, g, i + 1) == Defaults(o, ls, g, i)
    ensures i < |g.inputs| && CopiedDefault(o, ls, g, i) == g.inputs[i] ==>
              Defaults(o, ls, g, i + 1) == Defaults(o, ls, g, i)
  {
  }

  // ---------------------------------------------------------------------------
  // Re-created links

  /** The copies, into input socket `b`, of the links into input socket `a`, in order: each
      keeps its source. */
  function CopiesInto(ls: seq<Link>, a: Endpoint, b: Endpoint): seq<Link> {
    if ls == [] then []
    else
      var l := ls[|ls| - 1];
      CopiesInto(ls[..|ls| - 1], a, b) + (if l.to == a then [Link(l.from, b)] else [])
  }

  /** The copies, out of output socket `b`, of the links out of output socket `a`, in order:
      each keeps its target. */
  function CopiesOutOf(ls: seq<Link>, a: Endpoint, b: Endpoint): seq<Link> {
    if ls == [] then []
    else
      var l := ls[|ls| - 1];
      CopiesOutOf(ls[..|ls| - 1], a, b) + (if l.from == a then [Link(b, l.to)] else [])
  }

  /** The links created for the old node's inputs below `c`: for every input
      index `i` below the new node's input count `n`, a copy of every link into old input `i`,
      now into new input `i`. */
  function InputRelinks(ls: seq<Link>, oid: NodeId, nid: NodeId, n: nat, c: nat): seq<Link> {
    if c == 0 then []
    else
      InputRelinks(ls, oid, nid, n, c - 1) +
      (if c - 1 < n then CopiesInto(ls, Endpoint(oid, c - 1), Endpoint(nid, c - 1)) else [])
  }

  /** The links created for the old node's outputs below `c`. */
  function OutputRelinks(ls: seq<Link>, oid: NodeId, nid: NodeId, n: nat, c: nat): seq<Link> {
    if c == 0 then []
    else
      OutputRelinks(ls, oid, nid, n, c - 1) +
      (if c - 1 < n then CopiesOutOf(ls, Endpoint(oid, c - 1), Endpoint(nid, c - 1)) else [])
  }

  /** A copy into `b` of a link into `a` is exactly a link into `b` whose source has a link into `a`. */
  lemma {:induction false} CopiedInto(ls: seq<Link>, a: Endpoint, b: Endpoint, l: Link)
    ensures l in CopiesInto(ls, a, b) <==> l.to == b && Link(l.from, a) in ls
  {
    if ls != [] {
      CopiedInto(ls[..|ls| - 1], a, b, l);
      assert ls == ls[..|ls| - 1] + [ls[|ls| - 1]];
    }
  }

  /** A copy out of `b` of a link out of `a` is exactly a link out of `b` whose target has a link
      out of `a`. */
  lemma {:induction false} CopiedOutOf(ls: seq<Link>, a: Endpoint, b: Endpoint, l: Link)
    ensures l in CopiesOutOf(ls, a, b) <==> l.from == b && Link(a, l.to) in ls
  {
    if ls != [] {
      CopiedOutOf(ls[..|ls| - 1], a, b, l);
      assert ls == ls[..|ls| - 1] + [ls[|ls| - 1]];
    }
  }

  /** Copying the links of a socket's own list (`socket.links`) is copying them from the tree. */
  lemma {:induction false} CopiesOfSocketLinks(ls: seq<Link>, a: Endpoint, b: Endpoint)
    ensures CopiesInto(LinksInto(ls, a), a, b) == CopiesInto(ls, a, b)
  {
    if ls != [] {
      var init, last := ls[..|ls| - 1], ls[|ls| - 1];
      CopiesOfSocketLinks(init, a, b);
      var p := LinksInto(init, a);
      if last.to == a {
        assert LinksInto(ls, a) == p + [last];
        assert (p + [last])[..|p|] == p;
      } else {
        assert LinksInto(ls, a) == p;
      }
    }
  }

  lemma {:induction false} CopiesOfSocketLinksOut(ls: seq<Link>, a: Endpoint, b: Endpoint)
    ensures CopiesOutOf(LinksOutOf(ls, a), a, b) == CopiesOutOf(ls, a, b)
  {
    if ls != [] {
      var init, last := ls[..|ls| - 1], ls[|ls| - 1];
      CopiesOfSocketLinksOut(init, a, b);
      var p := LinksOutOf(init, a);
      if last.from == a {
        assert LinksOutOf(ls, a) == p + [last];
        assert (p + [last])[..|p|] == p;
      } else {
        assert LinksOutOf(ls, a) == p;
      }
    }
  }

  lemma {:induction false} InputRelinksMember(ls: seq<Link>, oid: NodeId, nid: NodeId, n: nat, c: nat, l: Link)
    ensures l in InputRelinks(ls, oid, nid, n, c) <==>
              && l.to.node == nid && l.to.index < n && l.to.index < c
              && Link(l.from, Endpoint(oid, l.to.index)) in ls
  {
    if c > 0 {
      InputRelinksMember(ls, oid, nid, n, c - 1, l);
      if c - 1 < n {
        CopiedInto(ls, Endpoint(oid, c - 1), Endpoint(nid, c - 1), l);
      }
    }
  }

  lemma {:induction false} OutputRelinksMember(ls: seq<Link>, oid: NodeId, nid: NodeId, n: nat, c: nat, l: Link)
    ensures l in OutputRelinks(ls, oid, nid, n, c) <==>
              && l.from.node == nid && l.from.index < n && l.from.index < c
              && Link(Endpoint(oid, l.from.index), l.to) in ls
  {
    if c > 0 {
      OutputRelinksMember(ls, oid, nid, n, c - 1, l);
      if c - 1 < n {
        CopiedOutOf(ls, Endpoint(oid, c - 1), Endpoint(nid, c - 1), l);
      }
    }
  }

  /** Links that avoid a socket are not among its links. */
  lemma {:induction false} LinksIntoNone(ls: seq<Link>, e: Endpoint)
    requires forall l :: l in ls ==> l.to != e
    ensures LinksInto(ls, e) == []
  {
    if ls != [] {
      LinksIntoNone(ls[..|ls| - 1], e);
    }
  }

  lemma {:induction false} LinksOutOfNone(ls: seq<Link>, e: Endpoint)
    requires forall l :: l in ls ==> l.from != e
    ensures LinksOutOf(ls, e) == []
  {
    if ls != [] {
      LinksOutOfNone(ls[..|ls| - 1], e);
    }
  }

  /** The links created so far into the new node do not change what the old node's input `c`
      is linked to: copying its links now copies those of the old tree, and there are none to
      copy when it is not linked. */
  lemma InputStillLinked(ls: seq<Link>, oid: NodeId, nid: NodeId, n: nat, c: nat)
    requires oid != nid
    ensures var cur := ls + InputRelinks(ls, oid, nid, n, c);
            && LinksInto(cur, Endpoint(oid, c)) == LinksInto(ls, Endpoint(oid, c))
            && CopiesInto(cur, Endpoint(oid, c), Endpoint(nid, c)) == CopiesInto(ls, Endpoint(oid, c), Endpoint(nid, c))
            && (LinksInto(ls, Endpoint(oid, c)) == [] ==> CopiesInto(ls, Endpoint(oid, c), Endpoint(nid, c)) == [])
  {
    var r := InputRelinks(ls, oid, nid, n, c);
    var a, b := Endpoint(oid, c), Endpoint(nid, c);
    forall l | l in r ensures l.to != a {
      InputRelinksMember(ls, oid, nid, n, c, l);
    }
    LinksIntoNone(r, a);
    LinksIntoAppend(ls, r, a);
    assert LinksInto(ls, a) + [] == LinksInto(ls, a);
    CopiesOfSocketLinks(ls + r, a, b);
    CopiesOfSocketLinks(ls, a, b);
  }

  /** The links created so far out of the new node do not change what the old node's output
      `c` is linked to. */
  lemma OutputStillLinked(ls: seq<Link>, oid: NodeId, nid: NodeId, n: nat, c: nat)
    requires oid != nid
    ensures var cur := ls + OutputRelinks(ls, oid, nid, n, c);
            && LinksOutOf(cur, Endpoint(oid, c)) == LinksOutOf(ls, Endpoint(oid, c))
            && CopiesOutOf(cur, Endpoint(oid, c), Endpoint(nid, c)) == CopiesOutOf(ls, Endpoint(oid, c), Endpoint(nid, c))
            && (LinksOutOf(ls, Endpoint(oid, c)) == [] ==> CopiesOutOf(ls, Endpoint(oid, c), Endpoint(nid, c)) == [])
  {
    var r := OutputRelinks(ls, oid, nid, n, c);
    var a, b := Endpoint(oid, c), Endpoint(nid, c);
    forall l | l in r ensures l.from != a {
      OutputRelinksMember(ls, oid, nid, n, c, l);
    }
    LinksOutOfNone(r, a);
    LinksOutOfAppend(ls, r, a);
    assert LinksOutOf(ls, a) + [] == LinksOutOf(ls, a);
    CopiesOfSocketLinksOut(ls + r, a, b);
    CopiesOfSocketLinksOut(ls, a, b);
  }

  /** One more index visited: the copies of that index's links come after those made so far. */
  lemma InputRelinksStep(ls: seq<Link>, oid: NodeId, nid: NodeId, n: nat, c: nat)
    ensures ls + InputRelinks(ls, oid, nid, n, c + 1) ==
            ls + InputRelinks(ls, oid, nid, n, c) + (if c < n then CopiesInto(ls, Endpoint(oid, c), Endpoint(nid, c)) else [])
  {
  }

  /** One more output index visited. */
  lemma OutputRelinksStep(ls: seq<Link>, oid: NodeId, nid: NodeId, n: nat, c: nat)
    ensures ls + OutputRelinks(ls, oid, nid, n, c + 1) ==
            ls + OutputRelinks(ls, oid, nid, n, c) + (if c < n then CopiesOutOf(ls, Endpoint(oid, c), Endpoint(nid, c)) else [])
  {
  }

  // ---------------------------------------------------------------------------
  // The replacement

  /** The node `nodes.new` creates in place of `o`, once its group, location and defaults are set. */
  function Replacement(t: Tree, o: Node, g: NodeGroup): Node {
    Node(t.nextId, GroupKind, Some(g.name), o.location, Defaults(o, t.links, g, |o.inputs|), g.outputs)
  }

  /** The tree after `replace_single_node`: the replacement appended, the incoming links copied,
      then the outgoing ones (which sees the copies already made), then the old node removed
      with every link touching it. An id that names no node leaves the tree as it is. */
  function ReplacedTree(t: Tree, oid: NodeId, g: NodeGroup): Tree {
    match Lookup(t.nodes, oid)
    case None => t
    case Some(o) =>
      var nid := t.nextId;
      var links1 := t.links + InputRelinks(t.links, oid, nid, |g.inputs|, |o.inputs|);
      var links2 := links1 + OutputRelinks(links1, oid, nid, g.outputs, o.outputs);
      Tree(Without(t.nodes, oid) + [Replacement(t, o, g)], Detached(links2, oid), nid + 1)
  }

  /** After the replacement the old id finds nothing, the next fresh id finds the replacement,
      and every other id finds what it found before. */
  lemma ReplacedLookup(t: Tree, oid: NodeId, g: NodeGroup, x: NodeId)
    requires WellFormed(t) && HasNode(t.nodes, oid)
    ensures Lookup(ReplacedTree(t, oid, g).nodes, x) ==
              if x == oid then None
              else if x == t.nextId then Some(Replacement(t, Lookup(t.nodes, oid).value, g))
              else Lookup(t.nodes, x)
  {
    var o := Lookup(t.nodes, oid).value;
    var rest := Without(t.nodes, oid);
    LookupAppend(rest, Replacement(t, o, g), x);
    LookupWithout(t.nodes, oid, x);
    LookupWithout(t.nodes, oid, t.nextId);
  }

  /** The old node is gone; a group node of the new group stands at its location with the new
      group's sockets; every other node is kept as it was; the tree has as many nodes as before. */
  lemma ReplacedNodes(t: Tree, oid: NodeId, g: NodeGroup)
    requires WellFormed(t) && HasNode(t.nodes, oid)
    ensures var r := ReplacedTree(t, oid, g);
            && !HasNode(r.nodes, oid)
            && r.nextId == t.nextId + 1
            && |r.nodes| == |t.nodes|
            && (forall x :: x != oid && x != t.nextId ==> Lookup(r.nodes, x) == Lookup(t.nodes, x))
    ensures var n := Lookup(ReplacedTree(t, oid, g).nodes, t.nextId);
            && n.Some? && n.value.kind == GroupKind && n.value.group == Some(g.name)
            && n.value.location == Lookup(t.nodes, oid).value.location
            && |n.value.inputs| == |g.inputs| && n.value.outputs == g.outputs
  {
    var r := ReplacedTree(t, oid, g);
    ReplacedLookup(t, oid, g, oid);
    ReplacedLookup(t, oid, g, t.nextId);
    forall x | x != oid && x != t.nextId ensures Lookup(r.nodes, x) == Lookup(t.nodes, x) {
      ReplacedLookup(t, oid, g, x);
    }
    WithoutCount(t.nodes, oid);
  }

  /** The links of the tree after the replacement, link by link: those of the old tree that do
      not touch the old node; a copy into the new node's input `i` of every link into the old
      node's input `i`, for `i` below the new node's input count; a copy out of the new node's
      output `j` of every link out of the old node's output `j`, for `j` below the new node's
      output count; and for a link from the old node to itself, one from the new node to
      itself. Nothing else. */
  lemma ReplacedLinks(t: Tree, oid: NodeId, g: NodeGroup, l: Link)
    requires WellFormed(t) && HasNode(t.nodes, oid)
    ensures var nid := t.nextId;
            l in ReplacedTree(t, oid, g).links <==>
              || (l in t.links && l.from.node != oid && l.to.node != oid)
              || (&& l.to.node == nid && l.to.index < |g.inputs| && l.from.node != oid
                  && Link(l.from, Endpoint(oid, l.to.index)) in t.links)
              || (&& l.from.node == nid && l.from.index < g.outputs && l.to.node != oid
                  && Link(Endpoint(oid, l.from.index), l.to) in t.links)
              || (&& l.from.node == nid && l.from.index < g.outputs
                  && l.to.node == nid && l.to.index < |g.inputs|
                  && Link(Endpoint(oid, l.from.index), Endpoint(oid, l.to.index)) in t.links)
  {
    var o := Lookup(t.nodes, oid).value;
    var nid := t.nextId;
    var links1 := t.links + InputRelinks(t.links, oid, nid, |g.inputs|, |o.inputs|);
    var out := Link(Endpoint(oid, l.from.index), l.to);
    var into := Link(l.from, Endpoint(oid, l.to.index));
    var self := Link(Endpoint(oid, l.from.index), Endpoint(oid, l.to.index));
    DetachedMember(links1 + OutputRelinks(links1, oid, nid, g.outputs, o.outputs), oid, l);
    InputRelinksMember(t.links, oid, nid, |g.inputs|, |o.inputs|, l);
    InputRelinksMember(t.links, oid, nid, |g.inputs|, |o.inputs|, out);
    OutputRelinksMember(links1, oid, nid, g.outputs, o.outputs, l);
    LinkIndexBounds(t, oid, l);
    LinkIndexBounds(t, oid, out);
    LinkIndexBounds(t, oid, into);
    LinkIndexBounds(t, oid, self);
  }

  /** A link of a well-formed tree does not touch the next fresh id, and one into or out of a
      node's socket names a socket the node has. */
  lemma LinkIndexBounds(t: Tree, oid: NodeId, l: Link)
    requires WellFormed(t) && HasNode(t.nodes, oid)
    ensures l in t.links ==> l.from.node != t.nextId && l.to.node != t.nextId
    ensures l in t.links && l.to.node == oid ==> l.to.index < |Lookup(t.nodes, oid).value.inputs|
    ensures l in t.links && l.from.node == oid ==> l.from.index < Lookup(t.nodes, oid).value.outputs
  {
  }

  /** The replacement keeps the tree well formed: ids stay unique and below the next fresh id,
      and no link is left dangling or names a socket its node lacks. */
  lemma ReplacedWellFormed(t: Tree, oid: NodeId, g: NodeGroup)
    requires WellFormed(t) && HasNode(t.nodes, oid)
    ensures WellFormed(ReplacedTree(t, oid, g))
  {
    var o := Lookup(t.nodes, oid).value;
    var r := ReplacedTree(t, oid, g);
    var rest := Without(t.nodes, oid);
    var nn := Replacement(t, o, g);
    assert r.nodes == rest + [nn];
    WithoutUnique(t.nodes, oid);
    forall a, b | 0 <= a < b < |r.nodes| ensures r.nodes[a].id != r.nodes[b].id {
      if b == |rest| {
        assert r.nodes[a] in rest;
        WithoutMember(t.nodes, oid, r.nodes[a]);
      } else {
        assert r.nodes[a] == rest[a] && r.nodes[b] == rest[b];
      }
    }
    forall n | n in r.nodes ensures n.id < r.nextId {
      if n != nn {
        assert n in rest;
        WithoutMember(t.nodes, oid, n);
      }
    }
    forall l | l in r.links ensures IsOutput(r.nodes, l.from) && IsInput(r.nodes, l.to) {
      ReplacedLinkEnds(t, oid, g, l);
    }
  }

  /** Each end of a link after the replacement is a socket of a node after the replacement. */
  lemma ReplacedLinkEnds(t: Tree, oid: NodeId, g: NodeGroup, l: Link)
    requires WellFormed(t) && HasNode(t.nodes, oid)
    requires l in ReplacedTree(t, oid, g).links
    ensures IsOutput(ReplacedTree(t, oid, g).nodes, l.from) && IsInput(ReplacedTree(t, oid, g).nodes, l.to)
  {
    var nid := t.nextId;
    ReplacedLinks(t, oid, g, l);
    ReplacedLookup(t, oid, g, l.from.node);
    ReplacedLookup(t, oid, g, l.to.node);
    var into := Link(l.from, Endpoint(oid, l.to.index));
    var out := Link(Endpoint(oid, l.from.index), l.to);
    LinkIndexBounds(t, oid, l);
    LinkIndexBounds(t, oid, into);
    LinkIndexBounds(t, oid, out);
  }

  /** Appends, for each link into input socket `a` in list order, a link from the same source
      into input socket `b`. */
  method CopyLinksInto(tree: NodeTree, a: Endpoint, b: Endpoint)
    modifies tree
    ensures tree.links == old(tree.links) + CopiesInto(old(tree.links), a, b)
    ensures tree.nodes == old(tree.nodes) && tree.nextId == old(tree.nextId)
  {
    var ls := LinksInto(tree.links, a);
    var j := 0;
    while j < |ls|
      invariant j <= |ls|
      invariant tree.links == old(tree.links) + CopiesInto(ls[..j], a, b)
      invariant tree.nodes == old(tree.nodes) && tree.nextId == old(tree.nextId)
    {
      LinksIntoMember(old(tree.links), a, ls[j]);
      tree.NewLink(ls[j].from, b);
      assert ls[..j + 1][..j] == ls[..j];
      j := j + 1;
    }
    assert ls[..j] == ls;
    CopiesOfSocketLinks(old(tree.links), a, b);
  }

  /** Appends, for each link out of output socket `a` in list order, a link from output socket
      `b` to the same target. */
  method CopyLinksOutOf(tree: NodeTree, a: Endpoint, b: Endpoint)
    modifies tree
    ensures tree.links == old(tree.links) + CopiesOutOf(old(tree.links), a, b)
    ensures tree.nodes == old(tree.nodes) && tree.nextId == old(tree.nextId)
  {
    var ls := LinksOutOf(tree.links, a);
    var j := 0;
    while j < |ls|
      invariant j <= |ls|
      invariant tree.links == old(tree.links) + CopiesOutOf(ls[..j], a, b)
      invariant tree.nodes == old(tree.nodes) && tree.nextId == old(tree.nextId)
    {
      LinksOutOfMember(old(tree.links), a, ls[j]);
      tree.NewLink(b, ls[j].to);
      assert ls[..j + 1][..j] == ls[..j];
      j := j + 1;
    }
    assert ls[..j] == ls;
    CopiesOfSocketLinksOut(old(tree.links), a, b);
  }

  /** One pass of the loop over the old node's inputs, for input `i`: when the
      new node, at position `k`, has that input too, copy the links into it when it is linked,
      else copy its default when it fits. `ls0` are the links before the loop. */
  method TransferInput(tree: NodeTree, o: Node, k: nat, g: NodeGroup, i: nat, ghost ls0: seq<Link>)
    requires k < |tree.nodes| && tree.nodes[k].id != o.id && i < |o.inputs|
    requires tree.nodes[k].inputs == Defaults(o, ls0, g, i)
    requires tree.links == ls0 + InputRelinks(ls0, o.id, tree.nodes[k].id, |g.inputs|, i)
    modifies tree
    ensures tree.nodes == old(tree.nodes)[k := old(tree.nodes)[k].(inputs := Defaults(o, ls0, g, i + 1))]
    ensures tree.links == ls0 + InputRelinks(ls0, o.id, old(tree.nodes)[k].id, |g.inputs|, i + 1)
    ensures tree.nextId == old(tree.nextId)
  {
    var nid := tree.nodes[k].id;
    ghost var n0 := tree.nodes;
    assert n0[k := n0[k].(inputs := n0[k].inputs)] == n0;
    InputRelinksStep(ls0, o.id, nid, |g.inputs|, i);
    DefaultsStep(o, ls0, g, i);
    if i < |tree.nodes[k].inputs| {
      InputStillLinked(ls0, o.id, nid, |g.inputs|, i);
      if LinksInto(tree.links, Endpoint(o.id, i)) != [] {
        CopyLinksInto(tree, Endpoint(o.id, i), Endpoint(nid, i));
      } else {
        var src := o.inputs[i];
        var dst := tree.nodes[k].inputs[i];
        if Compatible(src, dst) {
          tree.SetInputDefault(k, i, src);
        }
      }
    }
  }

  /** The loop over the old node's inputs, the new node sitting at position `k`. */
  method TransferInputs(tree: NodeTree, o: Node, k: nat, g: NodeGroup)
    requires k < |tree.nodes| && tree.nodes[k].inputs == g.inputs && tree.nodes[k].id != o.id
    modifies tree
    ensures tree.nodes == old(tree.nodes)[k := old(tree.nodes)[k].(inputs := Defaults(o, old(tree.links), g, |o.inputs|))]
    ensures tree.links == old(tree.links) + InputRelinks(old(tree.links), o.id, old(tree.nodes)[k].id, |g.inputs|, |o.inputs|)
    ensures tree.nextId == old(tree.nextId)
  {
    ghost var ls0 := tree.links;
    ghost var n0 := tree.nodes;
    assert Defaults(o, ls0, g, 0) == g.inputs;
    var i := 0;
    while i < |o.inputs|
      invariant i <= |o.inputs|
      invariant tree.nodes == n0[k := n0[k].(inputs := Defaults(o, ls0, g, i))]
      invariant tree.links == ls0 + InputRelinks(ls0, o.id, n0[k].id, |g.inputs|, i)
      invariant tree.nextId == old(tree.nextId)
    {
      TransferInput(tree, o, k, g, i, ls0);
      i := i + 1;
    }
  }

  /** The loop over the old node's outputs: for each index the new node also
      has, copy the links out of it. */
  method TransferOutputs(tree: NodeTree, o: Node, k: nat, g: NodeGroup)
    requires k < |tree.nodes| && tree.nodes[k].outputs == g.outputs && tree.nodes[k].id != o.id
    modifies tree
    ensures tree.links == old(tree.links) + OutputRelinks(old(tree.links), o.id, old(tree.nodes)[k].id, g.outputs, o.outputs)
    ensures tree.nodes == old(tree.nodes) && tree.nextId == old(tree.nextId)
  {
    ghost var ls0 := tree.links;
    var nid := tree.nodes[k].id;
    var i := 0;
    while i < o.outputs
      invariant i <= o.outputs
      invariant tree.links == ls0 + OutputRelinks(ls0, o.id, nid, g.outputs, i)
      invariant tree.nodes == old(tree.nodes) && tree.nextId == old(tree.nextId)
    {
      OutputRelinksStep(ls0, o.id, nid, g.outputs, i);
      if i < tree.nodes[k].outputs {
        OutputStillLinked(ls0, o.id, nid, g.outputs, i);
        if LinksOutOf(tree.links, Endpoint(o.id, i)) != [] {
          CopyLinksOutOf(tree, Endpoint(o.id, i), Endpoint(nid, i));
        }
      }
      i := i + 1;
    }
  }

  /** Replaces node `oid` by a new node of group `g` at the same location: the new node takes
      the fitting unlinked defaults, every link into or out of the old node is re-created on the
      new node's socket of the same index, and the old node is removed with its links. */
  method ReplaceSingleNode(tree: NodeTree, oid: NodeId, g: NodeGroup)
    requires tree.Valid() && HasNode(tree.nodes, oid)
    modifies tree
    ensures tree.Value() == ReplacedTree(old(tree.Value()), oid, g)
    ensures tree.Valid()
  {
    ghost var t := tree.Value();
    var o := Lookup(tree.nodes, oid).value;
    var nid := tree.NewGroupNode(g, o.location);
    var k := |tree.nodes| - 1;
    assert nid != oid by {
      assert o in t.nodes;
    }
    TransferInputs(tree, o, k, g);
    ghost var links1 := tree.links;
    TransferOutputs(tree, o, k, g);
    assert tree.nodes == t.nodes + [Replacement(t, o, g)];
    tree.RemoveNode(oid);
    WithoutAppend(t.nodes, Replacement(t, o, g), oid);
    ReplacedWellFormed(t, oid, g);
  }
}
