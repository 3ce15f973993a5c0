/** A material's shader node tree as the add-on sees it through the host: nodes with ordered
    input and output sockets, and links from an output socket to an input socket. The host's
    `nodes` and `links` collections become the fields of `NodeTree`; its primitives
    (`nodes.new`, `links.new`, setting a socket's `default_value`, `nodes.remove`) become the
    class's methods. */
module NodeGraph {
  import opened Wrappers

  /** A node's identity. The host hands out node objects; a fresh number stands for a fresh object. */
  type NodeId = nat

  /** What an unlinked socket holds: a single number (float, int or bool socket), a vector or
      colour of some length, or nothing the add-on can read (a shader socket has no
      `default_value`). */
  datatype SocketValue = Scalar(x: real) | Vector(xs: seq<real>) | NoDefault

  datatype Location = Location(x: real, y: real)

  /** The node types the add-on tells apart: `GROUP`, `OUTPUT_MATERIAL`, everything else. */
  datatype Kind = GroupKind | OutputMaterialKind | OtherKind

  /** A node: its type, the name of the node group it instantiates (`node.node_tree.name`, or
      `None` when it has no group), its location, the values of its input sockets in order,
      and how many output sockets it has. */
  datatype Node = Node(id: NodeId, kind: Kind, group: Option<string>, location: Location,
                       inputs: seq<SocketValue>, outputs: nat)

  /** A node group's interface: what a group node instantiating it gets as sockets. */
  datatype NodeGroup = NodeGroup(name: string, inputs: seq<SocketValue>, outputs: nat)

  /** Socket `index` of node `node`; whether it is an input or an output depends on which end of
      a link it is. */
  datatype Endpoint = Endpoint(node: NodeId, index: nat)

  /** A link from an output socket to an input socket. */
  datatype Link = Link(from: Endpoint, to: Endpoint)

  /** A node tree's value: its nodes and links in the host's order, and the next fresh id. */
  datatype Tree = Tree(nodes: seq<Node>, links: seq<Link>, nextId: NodeId)

  // ---------------------------------------------------------------------------
  // Finding and removing nodes

  /** The node with the given id, if there is one. */
  function Lookup(ns: seq<Node>, id: NodeId): (r: Option<Node>)
    ensures r.Some? ==> r.value in ns && r.value.id == id
  {
    if ns == [] then None
    else if ns[0].id == id then Some(ns[0])
    else Lookup(ns[1..], id)
  }

  predicate HasNode(ns: seq<Node>, id: NodeId) {
    Lookup(ns, id).Some?
  }

  /** The nodes without the one whose id is given (`nodes.remove`). */
  function Without(ns: seq<Node>, id: NodeId): seq<Node> {
    if ns == [] then []
    else (if ns[0].id == id then [] else [ns[0]]) + Without(ns[1..], id)
  }

  /** The nodes kept are exactly those of another id. */
  lemma {:induction false} WithoutMember(ns: seq<Node>, id: NodeId, n: Node)
    ensures n in Without(ns, id) <==> n in ns && n.id != id
  {
    if ns != [] {
      WithoutMember(ns[1..], id, n);
      assert ns == [ns[0]] + ns[1..];
    }
  }

  predicate UniqueIds(ns: seq<Node>) {
    forall a, b :: 0 <= a < b < |ns| ==> ns[a].id != ns[b].id
  }

  /** In a tree whose ids are unique, a node present in the tree is what its id finds. */
  lemma {:induction false} LookupFinds(ns: seq<Node>, k: nat)
    requires UniqueIds(ns) && k < |ns|
    ensures Lookup(ns, ns[k].id) == Some(ns[k])
  {
    if k > 0 {
      assert ns[0].id != ns[k].id;
      assert UniqueIds(ns[1..]) by {
        forall a, b | 0 <= a < b < |ns| - 1 ensures ns[1..][a].id != ns[1..][b].id {
          assert ns[a + 1].id != ns[b + 1].id;
        }
      }
      LookupFinds(ns[1..], k - 1);
    }
  }

  /** Appending a node with a new id finds it and leaves every other lookup as it was. */
  lemma {:induction false} LookupAppend(ns: seq<Node>, n: Node, id: NodeId)
    ensures Lookup(ns + [n], id) ==
              if HasNode(ns, id) then Lookup(ns, id) else if n.id == id then Some(n) else None
  {
    if ns != [] {
      assert (ns + [n])[1..] == ns[1..] + [n];
      LookupAppend(ns[1..], n, id);
    } else {
      assert (ns + [n])[1..] == [];
    }
  }

  /** After removing a node, its id finds nothing and every other id finds what it found. */
  lemma {:induction false} LookupWithout(ns: seq<Node>, gone: NodeId, id: NodeId)
    ensures Lookup(Without(ns, gone), id) == if id == gone then None else Lookup(ns, id)
  {
    if ns != [] {
      var rest := Without(ns[1..], gone);
      LookupWithout(ns[1..], gone, id);
      if ns[0].id == gone {
        assert Without(ns, gone) == rest;
      } else {
        assert Without(ns, gone) == [ns[0]] + rest;
        assert ([ns[0]] + rest)[1..] == rest;
      }
    }
  }

  /** Removing a node keeps the order of the others and keeps their ids unique. */
  lemma {:induction false} WithoutUnique(ns: seq<Node>, gone: NodeId)
    requires UniqueIds(ns)
    ensures UniqueIds(Without(ns, gone))
  {
    if ns != [] {
      var rest := ns[1..];
      assert UniqueIds(rest) by {
        forall a, b | 0 <= a < b < |rest| ensures rest[a].id != rest[b].id {
          assert ns[a + 1].id != ns[b + 1].id;
        }
      }
      WithoutUnique(rest, gone);
      if ns[0].id != gone {
        var r := Without(ns, gone);
        assert r == [ns[0]] + Without(rest, gone);
        forall b | 0 < b < |r| ensures r[0].id != r[b].id {
          assert r[b] in Without(rest, gone);
          WithoutMember(rest, gone, r[b]);
          var q :| 0 <= q < |rest| && rest[q] == r[b];
          assert ns[0].id != ns[q + 1].id;
        }
      }
    }
  }

  /** Removing a node that is there, in a tree with unique ids, leaves one node fewer. */
  lemma {:induction false} WithoutCount(ns: seq<Node>, gone: NodeId)
    requires UniqueIds(ns) && HasNode(ns, gone)
    ensures |Without(ns, gone)| == |ns| - 1
  {
    var rest := ns[1..];
    assert UniqueIds(rest) by {
      forall a, b | 0 <= a < b < |rest| ensures rest[a].id != rest[b].id {
        assert ns[a + 1].id != ns[b + 1].id;
      }
    }
    if ns[0].id == gone {
      assert Without(rest, gone) == rest by {
        forall q | 0 <= q < |rest| ensures rest[q].id != gone {
          assert ns[0].id != ns[q + 1].id;
        }
        WithoutNothing(rest, gone);
      }
    } else {
      WithoutCount(rest, gone);
    }
  }

  /** Removing an id that no node has changes nothing. */
  lemma {:induction false} WithoutNothing(ns: seq<Node>, gone: NodeId)
    requires forall q :: 0 <= q < |ns| ==> ns[q].id != gone
    ensures Without(ns, gone) == ns
  {
    if ns != [] {
      WithoutNothing(ns[1..], gone);
    }
  }

  /** A node appended after the one removed stays last. */
  lemma {:induction false} WithoutAppend(ns: seq<Node>, n: Node, gone: NodeId)
    requires n.id != gone
    ensures Without(ns + [n], gone) == Without(ns, gone) + [n]
  {
    if ns == [] {
      assert Without([n], gone) == [n] + Without([], gone);
    } else {
      assert (ns + [n])[1..] == ns[1..] + [n];
      WithoutAppend(ns[1..], n, gone);
    }
  }

  // ---------------------------------------------------------------------------
  // Links at a socket

  /** `socket.links` of an input socket: the links into it, in the tree's order. */
  function LinksInto(ls: seq<Link>, e: Endpoint): seq<Link> {
    if ls == [] then []
    else LinksInto(ls[..|ls| - 1], e) + (if ls[|ls| - 1].to == e then [ls[|ls| - 1]] else [])
  }

  /** `socket.links` of an output socket: the links out of it, in the tree's order. */
  function LinksOutOf(ls: seq<Link>, e: Endpoint): seq<Link> {
    if ls == [] then []
    else LinksOutOf(ls[..|ls| - 1], e) + (if ls[|ls| - 1].from == e then [ls[|ls| - 1]] else [])
  }

  /** The links that survive removing a node: those touching it neither at their start nor at
      their end. */
  function Detached(ls: seq<Link>, id: NodeId): seq<Link> {
    if ls == [] then []
    else
      var l := ls[|ls| - 1];
      Detached(ls[..|ls| - 1], id) + (if l.from.node != id && l.to.node != id then [l] else [])
  }

  lemma {:induction false} LinksIntoMember(ls: seq<Link>, e: Endpoint, l: Link)
    ensures l in LinksInto(ls, e) <==> l in ls && l.to == e
  {
    if ls != [] {
      LinksIntoMember(ls[..|ls| - 1], e, l);
      assert ls == ls[..|ls| - 1] + [ls[|ls| - 1]];
    }
  }

  lemma {:induction false} LinksOutOfMember(ls: seq<Link>, e: Endpoint, l: Link)
    ensures l in LinksOutOf(ls, e) <==> l in ls && l.from == e
  {
    if ls != [] {
      LinksOutOfMember(ls[..|ls| - 1], e, l);
      assert ls == ls[..|ls| - 1] + [ls[|ls| - 1]];
    }
  }

  /** The links kept are exactly those touching the removed node at neither end. */
  lemma {:induction false} DetachedMember(ls: seq<Link>, id: NodeId, l: Link)
    ensures l in Detached(ls, id) <==> l in ls && l.from.node != id && l.to.node != id
  {
    if ls != [] {
      DetachedMember(ls[..|ls| - 1], id, l);
      assert ls == ls[..|ls| - 1] + [ls[|ls| - 1]];
    }
  }

  lemma {:induction false} LinksIntoAppend(a: seq<Link>, b: seq<Link>, e: Endpoint)
    ensures LinksInto(a + b, e) == LinksInto(a, e) + LinksInto(b, e)
  {
    if b == [] {
      assert a + b == a;
    } else {
      var b' := b[..|b| - 1];
      assert (a + b)[..|a + b| - 1] == a + b';
      LinksIntoAppend(a, b', e);
    }
  }

  lemma {:induction false} LinksOutOfAppend(a: seq<Link>, b: seq<Link>, e: Endpoint)
    ensures LinksOutOf(a + b, e) == LinksOutOf(a, e) + LinksOutOf(b, e)
  {
    if b == [] {
      assert a + b == a;
    } else {
      var b' := b[..|b| - 1];
      assert (a + b)[..|a + b| - 1] == a + b';
      LinksOutOfAppend(a, b', e);
    }
  }

  // ---------------------------------------------------------------------------
  // Well-formed trees

  /** A socket that is an input of a node of the tree. */
  predicate IsInput(ns: seq<Node>, e: Endpoint) {
    HasNode(ns, e.node) && e.index < |Lookup(ns, e.node).value.inputs|
  }

  /** A socket that is an output of a node of the tree. */
  predicate IsOutput(ns: seq<Node>, e: Endpoint) {
    HasNode(ns, e.node) && e.index < Lookup(ns, e.node).value.outputs
  }

  /** What the host keeps true of every node tree: node ids are unique and below the next fresh
      id, and every link runs from an output socket of a node of the tree to an input socket of
      a node of the tree. */
  predicate WellFormed(t: Tree) {
    && UniqueIds(t.nodes)
    && (forall n :: n in t.nodes ==> n.id < t.nextId)
    && (forall l :: l in t.links ==> IsOutput(t.nodes, l.from) && IsInput(t.nodes, l.to))
  }

  // ---------------------------------------------------------------------------
  // The host's node tree

  /** A material's node tree, whose `nodes` and `links` the add-on changes in place. */
  class NodeTree {
    var nodes: seq<Node>
    var links: seq<Link>
    var nextId: NodeId

    function Value(): Tree
      reads this
    {
      Tree(nodes, links, nextId)
    }

    ghost predicate Valid()
      reads this
    {
      WellFormed(Value())
    }

    /** `nodes.new(type='ShaderNodeGroup')` followed by setting the node's group and location:
        a fresh group node with the group's sockets and their defaults, appended to the nodes. */
    method NewGroupNode(g: NodeGroup, loc: Location) returns (id: NodeId)
      modifies this
      ensures id == old(nextId) && nextId == id + 1
      ensures nodes == old(nodes) + [Node(id, GroupKind, Some(g.name), loc, g.inputs, g.outputs)]
      ensures links == old(links)
    {
      id := nextId;
      nodes := nodes + [Node(id, GroupKind, Some(g.name), loc, g.inputs, g.outputs)];
      nextId := nextId + 1;
    }

    /** `links.new(from_socket, to_socket)`: the link is appended. */
    method NewLink(from: Endpoint, to: Endpoint)
      modifies this
      ensures links == old(links) + [Link(from, to)]
      ensures nodes == old(nodes) && nextId == old(nextId)
    {
      links := links + [Link(from, to)];
    }

    /** Assigning `default_value` of input socket `i` of the node at position `k`. */
    method SetInputDefault(k: nat, i: nat, v: SocketValue)
      requires k < |nodes| && i < |nodes[k].inputs|
      modifies this
      ensures nodes == old(nodes)[k := old(nodes)[k].(inputs := old(nodes)[k].inputs[i := v])]
      ensures links == old(links) && nextId == old(nextId)
    {
      nodes := nodes[k := nodes[k].(inputs := nodes[k].inputs[i := v])];
    }

    /** `nodes.remove(node)`: the node goes, and with it every link that touches it. */
    method RemoveNode(id: NodeId)
      modifies this
      ensures nodes == Without(old(nodes), id)
      ensures links == Detached(old(links), id)
      ensures nextId == old(nextId)
    {
      nodes := Without(nodes, id);
      links := Detached(links, id);
    }
  }
}
