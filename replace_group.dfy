/** `replace_node_group` in `__init__.py`: every material reachable from an object's material
    slots is visited once; in its node tree each group node of an old group named in the
    replacement table is replaced by a node of the matching new group, and then the group node
    feeding the Material Output's first input is replaced by a `PhlankaFortnite` node unless its
    group is one the add-on already handles. */
module ReplaceGroup {
  import opened Wrappers
  import opened NodeGraph
  import opened NodeReplace

  // ---------------------------------------------------------------------------
  // The table

  const MainGroup := "PhlankaFortnite"

  /** The replacement table, in its order: the new group's name, then the name of
      the group whose nodes it replaces. */
  const Replacements: seq<(string, string)> := [
    ("PhlankaFortnite", "FPv3 Material"),
    ("PhlankaGlassFortnite", "FPv3 Glass"),
    ("PhlankaLayersFortnite", "FPv3 Layer")
  ]

  /** The groups whose node, when it feeds the Material Output, is left alone. */
  const Excluded: seq<string> := [
    "PhlankaFortnite", "PhlankaGlassFortnite", "PhlankaLayersFortnite", "FPv3 Glass", "FPv3 Layer"
  ]

  /** No new name in the table is also an old name, so replacing never creates a node another
      entry would replace. */
  predicate NewNamesAreNotOld(es: seq<(string, string)>) {
    forall a, b :: a in es && b in es ==> a.0 != b.1
  }

  lemma TableNamesDisjoint()
    ensures NewNamesAreNotOld(Replacements)
    ensures forall e :: e in Replacements ==> e.1 != MainGroup
  {
  }

  /** What the host's `bpy.data.node_groups.get(name)` returns is the group of that name. */
  predicate GroupsNamed(loaded: map<string, NodeGroup>) {
    forall name :: name in loaded ==> loaded[name].name == name
  }

  // ---------------------------------------------------------------------------
  // Replacing the nodes of one group

  /** A `GROUP` node with a group assigned, and that group is `name`. */
  predicate IsGroupOf(n: Node, name: string) {
    n.kind == GroupKind && n.group == Some(name)
  }

  /** No node of the group `name` is left. */
  predicate NoGroup(ns: seq<Node>, name: string) {
    forall n :: n in ns ==> !IsGroupOf(n, name)
  }

  /** `nodes_to_replace`: the ids of the nodes of group `name`, in node order. */
  function MatchingIds(ns: seq<Node>, name: string): seq<NodeId> {
    if ns == [] then []
    else MatchingIds(ns[..|ns| - 1], name) + (if IsGroupOf(ns[|ns| - 1], name) then [ns[|ns| - 1].id] else [])
  }

  predicate Distinct(ids: seq<NodeId>) {
    forall a, b :: 0 <= a < b < |ids| ==> ids[a] != ids[b]
  }

  /** In a tree whose ids are unique, the last node's id is not found among the nodes before it. */
  lemma LastIdFresh(ns: seq<Node>)
    requires UniqueIds(ns) && ns != []
    ensures UniqueIds(ns[..|ns| - 1]) && !HasNode(ns[..|ns| - 1], ns[|ns| - 1].id)
  {
  }

  /** An id is listed exactly when it finds a node of the group. */
  lemma {:induction false} MatchingIdsMember(ns: seq<Node>, name: string, x: NodeId)
    requires UniqueIds(ns)
    ensures x in MatchingIds(ns, name) <==> HasNode(ns, x) && IsGroupOf(Lookup(ns, x).value, name)
  {
    if ns != [] {
      var p := ns[..|ns| - 1];
      var n := ns[|ns| - 1];
      LastIdFresh(ns);
      MatchingIdsMember(p, name, x);
      assert ns == p + [n];
      LookupAppend(p, n, x);
    }
  }

  /** No id is listed twice. */
  lemma {:induction false} MatchingIdsDistinct(ns: seq<Node>, name: string)
    requires UniqueIds(ns)
    ensures Distinct(MatchingIds(ns, name))
  {
    if ns != [] {
      var p := ns[..|ns| - 1];
      LastIdFresh(ns);
      MatchingIdsDistinct(p, name);
      MatchingIdsMember(p, name, ns[|ns| - 1].id);
    }
  }

  /** `replace_single_node` applied to each id in turn. */
  function ReplaceEach(t: Tree, ids: seq<NodeId>, g: NodeGroup): Tree {
    if ids == [] then t
    else ReplacedTree(ReplaceEach(t, ids[..|ids| - 1], g), ids[|ids| - 1], g)
  }

  /** Replacing distinct nodes of the tree one after the other keeps it well formed and keeps
      its node count, and uses one fresh id per replaced node. */
  lemma {:induction false} ReplaceEachShape(t: Tree, ids: seq<NodeId>, g: NodeGroup)
    requires WellFormed(t) && Distinct(ids)
    requires forall id :: id in ids ==> HasNode(t.nodes, id)
    ensures var r := ReplaceEach(t, ids, g);
            WellFormed(r) && r.nextId == t.nextId + |ids| && |r.nodes| == |t.nodes|
    decreases |ids|, 0
  {
    if ids != [] {
      var p := ids[..|ids| - 1];
      var y := ids[|ids| - 1];
      assert forall id :: id in p ==> id in ids;
      assert Distinct(p);
      assert y !in p && y in ids;
      var r' := ReplaceEach(t, p, g);
      ReplaceEachShape(t, p, g);
      ReplaceEachLookup(t, p, g, y);
      assert Lookup(t.nodes, y).value in t.nodes;
      WithoutCount(r'.nodes, y);
      ReplacedWellFormed(r', y, g);
    }
  }

  /** After replacing distinct nodes one after the other, each replaced id finds nothing, every
      other old id finds what it found, and the fresh ids, one per replaced node, find nodes of
      the new group. */
  lemma {:induction false} ReplaceEachLookup(t: Tree, ids: seq<NodeId>, g: NodeGroup, x: NodeId)
    requires WellFormed(t) && Distinct(ids)
    requires forall id :: id in ids ==> HasNode(t.nodes, id)
    ensures var r := ReplaceEach(t, ids, g);
            && (x < t.nextId ==> Lookup(r.nodes, x) == if x in ids then None else Lookup(t.nodes, x))
            && (t.nextId <= x ==> (HasNode(r.nodes, x) <==> x < t.nextId + |ids|))
            && (t.nextId <= x && HasNode(r.nodes, x) ==> IsGroupOf(Lookup(r.nodes, x).value, g.name))
    decreases |ids|, 1
  {
    if ids == [] {
      if HasNode(t.nodes, x) {
        assert Lookup(t.nodes, x).value in t.nodes;
      }
    } else {
      var p := ids[..|ids| - 1];
      var y := ids[|ids| - 1];
      assert forall id :: id in p ==> id in ids;
      assert Distinct(p);
      assert y !in p && y in ids;
      var r' := ReplaceEach(t, p, g);
      ReplaceEachShape(t, p, g);
      ReplaceEachLookup(t, p, g, x);
      ReplaceEachLookup(t, p, g, y);
      assert Lookup(t.nodes, y).value in t.nodes;
      ReplacedLookup(r', y, g, x);
    }
  }

  /** One entry: every node of group `name` is replaced by a node of group `g`,
      one fresh id per replaced node, and every other node is kept as it was. */
  lemma ReplaceMatching(t: Tree, name: string, g: NodeGroup, x: NodeId)
    requires WellFormed(t)
    ensures var r := ReplaceEach(t, MatchingIds(t.nodes, name), g);
            && WellFormed(r) && |r.nodes| == |t.nodes|
            && r.nextId == t.nextId + |MatchingIds(t.nodes, name)|
            && (x < t.nextId ==>
                  Lookup(r.nodes, x) ==
                    if HasNode(t.nodes, x) && IsGroupOf(Lookup(t.nodes, x).value, name) then None
                    else Lookup(t.nodes, x))
            && (t.nextId <= x ==> (HasNode(r.nodes, x) <==> x < r.nextId))
            && (t.nextId <= x && HasNode(r.nodes, x) ==> IsGroupOf(Lookup(r.nodes, x).value, g.name))
  {
    var ids := MatchingIds(t.nodes, name);
    MatchingIdsDistinct(t.nodes, name);
    forall id | id in ids ensures HasNode(t.nodes, id) {
      MatchingIdsMember(t.nodes, name, id);
    }
    MatchingIdsMember(t.nodes, name, x);
    ReplaceEachShape(t, ids, g);
    ReplaceEachLookup(t, ids, g, x);
  }

  /** Every node of a well-formed tree is what its id finds. */
  lemma NodeFound(t: Tree, n: Node)
    requires WellFormed(t) && n in t.nodes
    ensures Lookup(t.nodes, n.id) == Some(n) && n.id < t.nextId
  {
    var k :| 0 <= k < |t.nodes| && t.nodes[k] == n;
    LookupFinds(t.nodes, k);
  }

  /** Once an entry is applied no node of its old group is left, and a group that had no node
      still has none, provided the new group is another one. */
  lemma ReplaceMatchingClears(t: Tree, name: string, g: NodeGroup, other: string)
    requires WellFormed(t) && g.name != other
    requires other == name || NoGroup(t.nodes, other)
    ensures NoGroup(ReplaceEach(t, MatchingIds(t.nodes, name), g).nodes, other)
  {
    var r := ReplaceEach(t, MatchingIds(t.nodes, name), g);
    ReplaceMatching(t, name, g, 0);
    forall n | n in r.nodes ensures !IsGroupOf(n, other) {
      NodeFound(r, n);
      ReplaceMatching(t, name, g, n.id);
      if n.id < t.nextId {
        assert n in t.nodes;
      }
    }
  }

  // ---------------------------------------------------------------------------
  // The whole table

  /** One entry: when its new group loaded, replace the nodes of its old group. */
  function ApplyEntry(t: Tree, loaded: map<string, NodeGroup>, e: (string, string)): Tree {
    if e.0 in loaded then ReplaceEach(t, MatchingIds(t.nodes, e.1), loaded[e.0]) else t
  }

  /** The whole table applied to a tree, entry after entry in table order. */
  function ApplyTable(t: Tree, loaded: map<string, NodeGroup>, es: seq<(string, string)>): Tree {
    if es == [] then t
    else ApplyEntry(ApplyTable(t, loaded, es[..|es| - 1]), loaded, es[|es| - 1])
  }

  /** A node none of whose entries' new groups loaded and is of their old groups is not touched. */
  predicate Untouched(n: Node, loaded: map<string, NodeGroup>, es: seq<(string, string)>) {
    forall e :: e in es && e.0 in loaded ==> !IsGroupOf(n, e.1)
  }

  /** The table keeps the tree well formed, never lowers the next fresh id, and keeps every node
      no loaded entry applies to. */
  lemma {:induction false} ApplyTableKeeps(t: Tree, loaded: map<string, NodeGroup>, es: seq<(string, string)>, x: NodeId)
    requires WellFormed(t)
    ensures var r := ApplyTable(t, loaded, es);
            && WellFormed(r) && r.nextId >= t.nextId && |r.nodes| == |t.nodes|
            && (x < t.nextId && HasNode(t.nodes, x) && Untouched(Lookup(t.nodes, x).value, loaded, es) ==>
                  Lookup(r.nodes, x) == Lookup(t.nodes, x))
  {
    if es != [] {
      var p := es[..|es| - 1];
      var e := es[|es| - 1];
      var r' := ApplyTable(t, loaded, p);
      ApplyTableKeeps(t, loaded, p, x);
      assert forall f :: f in p ==> f in es;
      if e.0 in loaded {
        ReplaceMatching(r', e.1, loaded[e.0], x);
      }
    }
  }

  /** After the table, no node of an old group whose new group loaded is left. */
  lemma {:induction false} ApplyTableClears(t: Tree, loaded: map<string, NodeGroup>, es: seq<(string, string)>, e: (string, string))
    requires WellFormed(t) && GroupsNamed(loaded) && NewNamesAreNotOld(es)
    requires e in es && e.0 in loaded
    ensures NoGroup(ApplyTable(t, loaded, es).nodes, e.1)
  {
    var p := es[..|es| - 1];
    var last := es[|es| - 1];
    var r' := ApplyTable(t, loaded, p);
    ApplyTableKeeps(t, loaded, p, 0);
    assert es == p + [last];
    if e == last {
      ReplaceMatchingClears(r', e.1, loaded[e.0], e.1);
    } else {
      assert NewNamesAreNotOld(p);
      ApplyTableClears(t, loaded, p, e);
      if last.0 in loaded {
        ReplaceMatchingClears(r', last.1, loaded[last.0], e.1);
      }
    }
  }

  // ---------------------------------------------------------------------------
  // The node feeding the Material Output

  /** The first Material Output node of the tree, in node order, if there is one. */
  function FirstOutput(ns: seq<Node>): (r: Option<Node>)
    ensures r.Some? ==> r.value in ns && r.value.kind == OutputMaterialKind
    ensures r.None? ==> forall n :: n in ns ==> n.kind != OutputMaterialKind
  {
    if ns == [] then None
    else if ns[0].kind == OutputMaterialKind then Some(ns[0])
    else FirstOutput(ns[1..])
  }

  /** The output node found is the first one in node order. */
  lemma {:induction false} FirstOutputIsFirst(ns: seq<Node>)
    requires FirstOutput(ns).Some?
    ensures exists k :: 0 <= k < |ns| && ns[k] == FirstOutput(ns).value &&
                        forall q :: 0 <= q < k ==> ns[q].kind != OutputMaterialKind
  {
    if ns[0].kind != OutputMaterialKind {
      FirstOutputIsFirst(ns[1..]);
      var k :| 0 <= k < |ns[1..]| && ns[1..][k] == FirstOutput(ns[1..]).value &&
                forall q :: 0 <= q < k ==> ns[1..][q].kind != OutputMaterialKind;
      assert ns[k + 1] == FirstOutput(ns).value;
      forall q | 0 <= q < k + 1 ensures ns[q].kind != OutputMaterialKind {
        if q > 0 {
          assert ns[q] == ns[1..][q - 1];
        }
      }
    }
  }

  /** The node whose output feeds `output_node.inputs[0]` through that socket's first link. */
  function SurfaceSource(t: Tree, out: Node): Option<Node> {
    var ls := LinksInto(t.links, Endpoint(out.id, 0));
    if ls == [] then None else Lookup(t.nodes, ls[0].from.node)
  }

  /** Whether the node feeding the output is a group node of a group not already handled. */
  predicate ToReplace(m: Node) {
    m.kind == GroupKind && m.group.Some? && m.group.value !in Excluded
  }

  /** The Material Output special case: when the main group loaded and the first Material Output
      node's first input is linked from a group node whose group is not excluded, that node is
      replaced by a node of the main group; otherwise the tree is unchanged. */
  function OutputCase(t: Tree, loaded: map<string, NodeGroup>): Tree {
    if MainGroup !in loaded then t
    else match FirstOutput(t.nodes)
      case None => t
      case Some(out) =>
        match SurfaceSource(t, out)
        case None => t
        case Some(m) => if ToReplace(m) then ReplacedTree(t, m.id, loaded[MainGroup]) else t
  }

  /** The special case keeps the tree well formed. */
  lemma OutputCaseWellFormed(t: Tree, loaded: map<string, NodeGroup>)
    requires WellFormed(t)
    ensures WellFormed(OutputCase(t, loaded))
    ensures OutputCase(t, loaded).nextId >= t.nextId
  {
    if MainGroup in loaded && FirstOutput(t.nodes).Some? {
      var m := SurfaceSource(t, FirstOutput(t.nodes).value);
      if m.Some? && ToReplace(m.value) {
        ReplacedWellFormed(t, m.value.id, loaded[MainGroup]);
        ReplacedNodes(t, m.value.id, loaded[MainGroup]);
      }
    }
  }

  /** The special case changes the tree exactly when the main group loaded, there is an output
      node, its first input is linked, and the node at the other end of its first link is a group
      node of a group not excluded. That node is then gone, a `PhlankaFortnite` node stands at its
      location, and when the new group has the output the link came from, the new node feeds the
      Material Output in its place. */
  lemma OutputCaseReplaces(t: Tree, loaded: map<string, NodeGroup>)
    requires WellFormed(t)
    ensures var out := FirstOutput(t.nodes);
            var ls := if out.Some? then LinksInto(t.links, Endpoint(out.value.id, 0)) else [];
            var src := if ls != [] then Lookup(t.nodes, ls[0].from.node) else None;
            var feeds := MainGroup in loaded && src.Some? && ToReplace(src.value);
            && (OutputCase(t, loaded) != t <==> feeds)
            && (feeds ==>
                  var m := src.value;
                  var g := loaded[MainGroup];
                  var r := OutputCase(t, loaded);
                  var n := Lookup(r.nodes, t.nextId);
                  && !HasNode(r.nodes, m.id)
                  && n.Some? && IsGroupOf(n.value, g.name) && n.value.location == m.location
                  && (ls[0].from.index < g.outputs ==>
                        Link(Endpoint(t.nextId, ls[0].from.index), Endpoint(out.value.id, 0)) in r.links))
  {
    var out := FirstOutput(t.nodes);
    if out.Some? {
      var a := Endpoint(out.value.id, 0);
      var ls := LinksInto(t.links, a);
      if ls != [] {
        LinksIntoMember(t.links, a, ls[0]);
        var l := ls[0];
        var m := Lookup(t.nodes, l.from.node).value;
        if MainGroup in loaded && ToReplace(m) {
          var g := loaded[MainGroup];
          ReplacedNodes(t, m.id, g);
          NodeFound(t, out.value);
          assert out.value.id != m.id;
          ReplacedLinks(t, m.id, g, Link(Endpoint(t.nextId, l.from.index), a));
        }
      }
    }
  }

  /** The special case adds a node of the main group at most, so a group without nodes stays
      without nodes. */
  lemma OutputCaseKeepsClear(t: Tree, loaded: map<string, NodeGroup>, other: string)
    requires WellFormed(t) && NoGroup(t.nodes, other)
    requires MainGroup in loaded ==> loaded[MainGroup].name != other
    ensures NoGroup(OutputCase(t, loaded).nodes, other)
  {
    var r := OutputCase(t, loaded);
    if r != t {
      var m := SurfaceSource(t, FirstOutput(t.nodes).value).value;
      var g := loaded[MainGroup];
      OutputCaseWellFormed(t, loaded);
      forall n | n in r.nodes ensures !IsGroupOf(n, other) {
        NodeFound(r, n);
        ReplacedLookup(t, m.id, g, n.id);
        if n.id != t.nextId {
          assert n in t.nodes;
        }
      }
    }
  }

  /** One material's node tree once processed: the whole table, then the Material Output case. */
  function ProcessTree(t: Tree, loaded: map<string, NodeGroup>): Tree {
    OutputCase(ApplyTable(t, loaded, Replacements), loaded)
  }

  /** Processing keeps the tree well formed and leaves no node of an old group whose new group
      loaded. */
  lemma ProcessTreeClears(t: Tree, loaded: map<string, NodeGroup>, e: (string, string))
    requires WellFormed(t) && GroupsNamed(loaded)
    requires e in Replacements && e.0 in loaded
    ensures WellFormed(ProcessTree(t, loaded))
    ensures NoGroup(ProcessTree(t, loaded).nodes, e.1)
  {
    var r := ApplyTable(t, loaded, Replacements);
    TableNamesDisjoint();
    ApplyTableKeeps(t, loaded, Replacements, 0);
    ApplyTableClears(t, loaded, Replacements, e);
    OutputCaseWellFormed(r, loaded);
    OutputCaseKeepsClear(r, loaded, e.1);
  }

  // ---------------------------------------------------------------------------
  // On the host's node trees

  /** The nodes of group `name` are listed, then each is replaced by a node of `g`. */
  method ReplaceGroupNodes(tree: NodeTree, name: string, g: NodeGroup)
    requires tree.Valid()
    modifies tree
    ensures tree.Value() == ReplaceEach(old(tree.Value()), MatchingIds(old(tree.nodes), name), g)
    ensures tree.Valid()
  {
    ghost var t0 := tree.Value();
    var ids := MatchingIds(tree.nodes, name);
    MatchingIdsDistinct(t0.nodes, name);
    var j := 0;
    while j < |ids|
      invariant j <= |ids|
      invariant tree.Value() == ReplaceEach(t0, ids[..j], g)
      invariant tree.Valid()
    {
      MatchingIdsMember(t0.nodes, name, ids[j]);
      assert Lookup(t0.nodes, ids[j]).value in t0.nodes;
      assert ids[j] !in ids[..j];
      forall id | id in ids[..j] ensures HasNode(t0.nodes, id) {
        MatchingIdsMember(t0.nodes, name, id);
      }
      ReplaceEachLookup(t0, ids[..j], g, ids[j]);
      ReplaceSingleNode(tree, ids[j], g);
      assert ids[..j + 1][..j] == ids[..j];
      j := j + 1;
    }
    assert ids[..j] == ids;
  }

  /** The table's entries in order, each whose new group loaded replacing the
      nodes of its old group. */
  method ApplyReplacements(tree: NodeTree, loaded: map<string, NodeGroup>)
    requires tree.Valid()
    modifies tree
    ensures tree.Value() == ApplyTable(old(tree.Value()), loaded, Replacements)
    ensures tree.Valid()
  {
    ghost var t0 := tree.Value();
    var e := 0;
    while e < |Replacements|
      invariant e <= |Replacements|
      invariant tree.Value() == ApplyTable(t0, loaded, Replacements[..e])
      invariant tree.Valid()
    {
      var entry := Replacements[e];
      if entry.0 in loaded {
        ReplaceGroupNodes(tree, entry.1, loaded[entry.0]);
      }
      assert Replacements[..e + 1][..e] == Replacements[..e];
      e := e + 1;
    }
    assert Replacements[..e] == Replacements;
  }

  /** The node feeding the Material Output's first input, through that socket's
      first link, is replaced by a node of the main group when it is a group node of a group not
      excluded. */
  method ReplaceOutputFeeder(tree: NodeTree, loaded: map<string, NodeGroup>)
    requires tree.Valid()
    modifies tree
    ensures tree.Value() == OutputCase(old(tree.Value()), loaded)
    ensures tree.Valid()
  {
    if MainGroup in loaded {
      var out := FirstOutput(tree.nodes);
      if out.Some? {
        var a := Endpoint(out.value.id, 0);
        var ls := LinksInto(tree.links, a);
        if ls != [] {
          LinksIntoMember(tree.links, a, ls[0]);
          var main := Lookup(tree.nodes, ls[0].from.node).value;
          if main.kind == GroupKind && main.group.Some? && main.group.value !in Excluded {
            ReplaceSingleNode(tree, main.id, loaded[MainGroup]);
          }
        }
      }
    }
  }

  /** Processes one material's node tree in place: the table's entries in order, then the
      Material Output case. */
  method ProcessMaterial(tree: NodeTree, loaded: map<string, NodeGroup>)
    requires tree.Valid()
    modifies tree
    ensures tree.Value() == ProcessTree(old(tree.Value()), loaded)
    ensures tree.Valid()
  {
    ApplyReplacements(tree, loaded);
    ReplaceOutputFeeder(tree, loaded);
  }

  // ---------------------------------------------------------------------------
  // The operator

  datatype Status = Finished | Cancelled

  /** The table's new group names found in the asset library, in table order: the groups the
      library load asks for. */
  function GroupsToLoad(es: seq<(string, string)>, library: set<string>): (r: seq<string>)
    ensures forall name :: name in r <==> name in library && exists e :: e in es && e.0 == name
  {
    if es == [] then []
    else
      var rest := GroupsToLoad(es[1..], library);
      assert forall e :: e in es[1..] ==> e in es;
      assert forall e :: e in es ==> e == es[0] || e in es[1..];
      (if es[0].0 in library then [es[0].0] else []) + rest
  }

  /** Some new group of the table is present after the load. */
  predicate AnyLoaded(loaded: map<string, NodeGroup>) {
    exists e :: e in Replacements && e.0 in loaded
  }

  /** Looks through the table's entries for one whose new group is present after the load. */
  method AnyGroupLoaded(loaded: map<string, NodeGroup>) returns (found: bool)
    ensures found == AnyLoaded(loaded)
  {
    found := false;
    var e := 0;
    while e < |Replacements|
      invariant e <= |Replacements|
      invariant found <==> exists q :: 0 <= q < e && Replacements[q].0 in loaded
    {
      found := found || Replacements[e].0 in loaded;
      e := e + 1;
    }
  }

  /** The name of the material in a slot, if the slot holds one. */
  function SlotMaterial(slot: Option<string>): set<string> {
    if slot.Some? then {slot.value} else {}
  }

  /** The names of the materials in a list of slots. */
  function SlotMaterials(slots: seq<Option<string>>): set<string> {
    if slots == [] then {}
    else SlotMaterials(slots[..|slots| - 1]) + SlotMaterial(slots[|slots| - 1])
  }

  /** The names of the materials in any slot of any object. */
  function UsedMaterials(objects: seq<seq<Option<string>>>): set<string> {
    if objects == [] then {}
    else UsedMaterials(objects[..|objects| - 1]) + SlotMaterials(objects[|objects| - 1])
  }

  /** The objects a set of node trees depends on. */
  function TreeObjects(trees: map<string, NodeTree>): set<object> {
    set m | m in trees :: trees[m]
  }

  /** The state while the objects are visited: the materials in `processed` have had their node
      trees processed once, the others are as they were. */
  ghost predicate Progress(trees: map<string, NodeTree>, t0: map<string, Tree>,
                           loaded: map<string, NodeGroup>, processed: set<string>)
    reads TreeObjects(trees)
  {
    forall m :: m in trees ==>
      && m in t0 && trees[m].Valid()
      && trees[m].Value() == if m in processed then ProcessTree(t0[m], loaded) else t0[m]
  }

  /** One material slot: a material with a node tree that has not been processed yet is
      marked processed and its tree processed; anything else is skipped. */
  method VisitSlot(slot: Option<string>, trees: map<string, NodeTree>, loaded: map<string, NodeGroup>,
                   ghost t0: map<string, Tree>, processed: set<string>) returns (done: set<string>)
    requires forall m, m' :: m in trees && m' in trees && m != m' ==> trees[m] != trees[m']
    requires Progress(trees, t0, loaded, processed)
    modifies TreeObjects(trees)
    ensures done == processed + (SlotMaterial(slot) * trees.Keys)
    ensures Progress(trees, t0, loaded, done)
  {
    done := processed;
    if slot.Some? && slot.value in trees && slot.value !in processed {
      var name := slot.value;
      done := processed + {name};
      ProcessMaterial(trees[name], loaded);
    }
  }

  /** One object: its material slots visited in order. */
  method VisitSlots(slots: seq<Option<string>>, trees: map<string, NodeTree>, loaded: map<string, NodeGroup>,
                    ghost t0: map<string, Tree>, processed: set<string>) returns (done: set<string>)
    requires forall m, m' :: m in trees && m' in trees && m != m' ==> trees[m] != trees[m']
    requires Progress(trees, t0, loaded, processed)
    modifies TreeObjects(trees)
    ensures done == processed + (SlotMaterials(slots) * trees.Keys)
    ensures Progress(trees, t0, loaded, done)
  {
    done := processed;
    var j := 0;
    while j < |slots|
      invariant j <= |slots|
      invariant done == processed + (SlotMaterials(slots[..j]) * trees.Keys)
      invariant Progress(trees, t0, loaded, done)
    {
      assert slots[..j + 1][..j] == slots[..j];
      done := VisitSlot(slots[j], trees, loaded, t0, done);
      j := j + 1;
    }
    assert slots[..j] == slots;
  }

  /** `replace_node_group`: cancelled when the asset file is missing, when it holds none of the
      table's groups, or when none of them is present after the load; otherwise every material in
      some object's slot that has a node tree has that tree processed exactly once, and every
      other node tree is left as it was. */
  method ReplaceNodeGroup(assetsExist: bool, library: set<string>, loaded: map<string, NodeGroup>,
                          objects: seq<seq<Option<string>>>, trees: map<string, NodeTree>)
    returns (status: Status)
    requires forall m :: m in trees ==> trees[m].Valid()
    requires forall m, m' :: m in trees && m' in trees && m != m' ==> trees[m] != trees[m']
    modifies TreeObjects(trees)
    ensures status == Cancelled <==> !assetsExist || GroupsToLoad(Replacements, library) == [] || !AnyLoaded(loaded)
    ensures forall m :: m in trees ==> trees[m].Valid()
    ensures forall m :: m in trees ==>
              trees[m].Value() ==
                if status == Finished && m in UsedMaterials(objects) then ProcessTree(old(trees[m].Value()), loaded)
                else old(trees[m].Value())
  {
    if !assetsExist {
      return Cancelled;
    }
    var toLoad := GroupsToLoad(Replacements, library);
    if toLoad == [] {
      return Cancelled;
    }
    var found := AnyGroupLoaded(loaded);
    if !found {
      return Cancelled;
    }
    ghost var t0 := map m | m in trees :: trees[m].Value();
    var processed: set<string> := {};
    var i := 0;
    while i < |objects|
      invariant i <= |objects|
      invariant processed == UsedMaterials(objects[..i]) * trees.Keys
      invariant Progress(trees, t0, loaded, processed)
    {
      assert objects[..i + 1][..i] == objects[..i];
      processed := VisitSlots(objects[i], trees, loaded, t0, processed);
      i := i + 1;
    }
    assert objects[..i] == objects;
    return Finished;
  }
}
