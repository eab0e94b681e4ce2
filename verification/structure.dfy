/** The structural level of a condensed page: a forest built from the parent links of a flat node list. */
module Structures {
  import opened Options
  import opened Bytes
  import opened Sequences
  import opened Chains
  import opened Forests
  import opened ForestStacks
  import opened NodeLists

  datatype StructureNode = StructureNode(id: NodeId, role: string, name: Bytes, children: seq<StructureNode>)

  datatype Dropped = Dropped(nodesKept: nat, nodesPresent: nat, bytesKept: nat)

  function ParentLinks(nodes: seq<SemanticNode>): Links
  {
    var index := ById(nodes);
    map id | id in index :: KnownParent(index[id], index.Keys)
  }

  /** The forest the parent links describe, cycles and all. */
  function LinkForest(nodes: seq<SemanticNode>): Forest
  {
    Forest(ParentLinks(nodes), ChildLists(nodes, ById(nodes).Keys))
  }

  lemma UnderIsLinked(nodes: seq<SemanticNode>, p: Option<NodeId>, c: NodeId)
    requires UniqueIds(nodes)
    ensures c in Under(nodes, ById(nodes).Keys, p) <==> c in LinkForest(nodes).links && LinkForest(nodes).links[c] == p
  {
    var index := ById(nodes);
    UnderMembers(nodes, index.Keys, p, c);
    if c in index {
      ByIdFinds(nodes, c);
      assert index[c] in nodes && index[c].id == c;
    }
    if node :| node in nodes && node.id == c && KnownParent(node, index.Keys) == p {
      SameIdSameNode(nodes, node);
    }
  }

  lemma KidsMatchLinks(nodes: seq<SemanticNode>, p: NodeId, c: NodeId)
    requires UniqueIds(nodes)
    ensures c in LinkForest(nodes).Kids(p) <==> c in LinkForest(nodes).links && LinkForest(nodes).links[c] == Some(p)
    ensures Distinct(LinkForest(nodes).Kids(p))
  {
    hide Under, ById;
    UnderIsLinked(nodes, Some(p), c);
    UnderDistinct(nodes, ById(nodes).Keys, Some(p));
  }

  lemma LinkForestIsConsistent(nodes: seq<SemanticNode>)
    requires UniqueIds(nodes)
    ensures LinkForest(nodes).Consistent() && LinkForest(nodes).NoRepeats()
    ensures |LinkForest(nodes).links| == |nodes|
  {
    hide LinkForest, UniqueIds;
    var f := LinkForest(nodes);
    forall p: NodeId, c: NodeId
      ensures c in f.Kids(p) <==> c in f.links && f.links[c] == Some(p)
    {
      KidsMatchLinks(nodes, p, c);
    }
    forall p: NodeId ensures Distinct(f.Kids(p)) {
      KidsMatchLinks(nodes, p, 0);
    }
    LinksAreTheNodes(nodes);
  }

  lemma LinksAreTheNodes(nodes: seq<SemanticNode>)
    requires UniqueIds(nodes)
    ensures LinkForest(nodes).links.Keys == ById(nodes).Keys && |LinkForest(nodes).links| == |nodes|
  {
    hide Under, ById;
    ByIdFinds(nodes, 0);
    var links, index := LinkForest(nodes).links, ById(nodes);
    assert links.Keys == index.Keys;
    assert |links| == |links.Keys| == |index.Keys| == |index|;
  }

  /** The ids of the nodes without a listed parent, in input order. */
  function Roots(nodes: seq<SemanticNode>): seq<NodeId>
  {
    Under(nodes, ById(nodes).Keys, None)
  }

  /** Every child there is can be looked up. */
  ghost predicate Known(f: Forest, index: Index)
  {
    forall p: NodeId, c: NodeId {:trigger c in f.Kids(p)} :: c in f.Kids(p) ==> c in index
  }

  lemma KidsAreKnown(nodes: seq<SemanticNode>)
    ensures Known(LinkForest(nodes), ById(nodes)) && forall c :: c in Roots(nodes) ==> c in ById(nodes)
  {
    hide ById, Under;
    var f, index := LinkForest(nodes), ById(nodes);
    forall p: Option<NodeId>, c: NodeId | c in Under(nodes, index.Keys, p) ensures c in index {
      UnderMembers(nodes, index.Keys, p, c);
      var node :| node in nodes && node.id == c;
      IdsOfMembers(nodes);
      ByIdIsListed(nodes, c);
    }
    forall p: NodeId, c: NodeId | c in f.Kids(p) ensures c in index {
      assert c in Under(nodes, index.Keys, Some(p));
    }
  }

  /** Build one tree. The recursion ends because every way down from the node does. */
  function Build(f: Forest, index: Index, id: NodeId, ghost room: nat): StructureNode
    requires Known(f, index) && id in index && Shallow(f, id, room)
    decreases room, 0
  {
    StructureNode(id, index[id].role, index[id].name, BuildAll(f, index, f.Kids(id), room - 1))
  }

  function BuildAll(f: Forest, index: Index, ids: seq<NodeId>, ghost room: nat): seq<StructureNode>
    requires Known(f, index) && forall c :: c in ids ==> c in index && Shallow(f, c, room)
    decreases room, |ids| + 1
  {
    if ids == [] then [] else [Build(f, index, ids[0], room)] + BuildAll(f, index, ids[1..], room)
  }

  function TreeIds(t: StructureNode): seq<NodeId>
    decreases t, 0
  {
    [t.id] + AllIds(t.children)
  }

  function AllIds(ts: seq<StructureNode>): seq<NodeId>
    decreases ts, 1
  {
    if ts == [] then [] else TreeIds(ts[0]) + AllIds(ts[1..])
  }

  function CountName(t: StructureNode): nat
    decreases t, 0
  {
    |t.name| + CountNames(t.children)
  }

  function CountNames(ts: seq<StructureNode>): nat
    decreases ts, 1
  {
    if ts == [] then 0 else CountName(ts[0]) + CountNames(ts[1..])
  }

  /** Every node of a tree is the listed node of its id, with exactly its own children in input order. */
  predicate Mirrors(f: Forest, index: Index, t: StructureNode)
    decreases t, 0
  {
    && t.id in index && t.role == index[t.id].role && t.name == index[t.id].name
    && TopIds(t.children) == f.Kids(t.id)
    && AllMirror(f, index, t.children)
  }

  predicate AllMirror(f: Forest, index: Index, ts: seq<StructureNode>)
    decreases ts, 1
  {
    ts == [] || (Mirrors(f, index, ts[0]) && AllMirror(f, index, ts[1..]))
  }

  function TopIds(ts: seq<StructureNode>): seq<NodeId>
  {
    seq(|ts|, i requires 0 <= i < |ts| => ts[i].id)
  }

  function NameBytes(index: Index, ids: seq<NodeId>): nat
  {
    if ids == [] then 0
    else (if ids[0] in index then |index[ids[0]].name| else 0) + NameBytes(index, ids[1..])
  }

  lemma {:induction false} NameBytesConcat(index: Index, a: seq<NodeId>, b: seq<NodeId>)
    ensures NameBytes(index, a + b) == NameBytes(index, a) + NameBytes(index, b)
    decreases |a|
  {
    if a == [] {
      assert a + b == b;
    } else {
      NameBytesConcat(index, a[1..], b);
      assert (a + b)[1..] == a[1..] + b;
    }
  }

  lemma {:induction false} BuildsTheSubtree(f: Forest, index: Index, id: NodeId, room: nat)
    requires Known(f, index) && id in index && Shallow(f, id, room)
    ensures var t := Build(f, index, id, room);
      TreeIds(t) == Pre(f, id, room) && Mirrors(f, index, t) && CountName(t) == NameBytes(index, TreeIds(t))
    decreases room, 0
  {
    BuildsAll(f, index, f.Kids(id), room - 1);
    var t := Build(f, index, id, room);
    NameBytesConcat(index, [id], AllIds(t.children));
    assert [id][1..] == [];
  }

  lemma OneMoreTree(f: Forest, index: Index, head: StructureNode, tail: seq<StructureNode>)
    ensures AllIds([head] + tail) == TreeIds(head) + AllIds(tail)
    ensures TopIds([head] + tail) == [head.id] + TopIds(tail)
    ensures AllMirror(f, index, [head] + tail) <==> Mirrors(f, index, head) && AllMirror(f, index, tail)
    ensures CountNames([head] + tail) == CountName(head) + CountNames(tail)
    ensures NameBytes(index, TreeIds(head) + AllIds(tail)) ==
      NameBytes(index, TreeIds(head)) + NameBytes(index, AllIds(tail))
  {
    assert ([head] + tail)[1..] == tail;
    NameBytesConcat(index, TreeIds(head), AllIds(tail));
  }

  lemma {:induction false} BuildsAll(f: Forest, index: Index, ids: seq<NodeId>, room: nat)
    requires Known(f, index) && forall c :: c in ids ==> c in index && Shallow(f, c, room)
    ensures var ts := BuildAll(f, index, ids, room);
      && AllIds(ts) == PreAll(f, ids, room) && TopIds(ts) == ids && AllMirror(f, index, ts)
      && CountNames(ts) == NameBytes(index, AllIds(ts))
    decreases room, |ids| + 1
  {
    if ids != [] {
      BuildsTheSubtree(f, index, ids[0], room);
      BuildsAll(f, index, ids[1..], room);
      hide Mirrors, TreeIds, CountName, Pre, Known;
      OneMoreTree(f, index, Build(f, index, ids[0], room), BuildAll(f, index, ids[1..], room));
    }
  }

  /** The recursion ends below every root; otherwise it does not end at all. */
  ghost predicate RootsReturn(nodes: seq<SemanticNode>)
  {
    forall c :: c in Roots(nodes) ==> Finite(LinkForest(nodes), c)
  }

  ghost predicate RootsShallow(nodes: seq<SemanticNode>, room: nat)
  {
    forall c :: c in Roots(nodes) ==> Shallow(LinkForest(nodes), c, room)
  }

  lemma {:induction false} OneRoomForAll(f: Forest, ids: seq<NodeId>) returns (room: nat)
    requires forall c :: c in ids ==> Finite(f, c)
    ensures forall c :: c in ids ==> Shallow(f, c, room)
    decreases |ids|
  {
    if ids == [] {
      room := 0;
    } else {
      var others := OneRoomForAll(f, ids[1..]);
      assert ids[0] in ids;
      var own: nat :| Shallow(f, ids[0], own);
      room := if own <= others then others else own;
      PreStable(f, ids[0], own, room);
      PreAllStable(f, ids[1..], others, room);
    }
  }

  /** Room enough below every root. */
  ghost function RoomFor(nodes: seq<SemanticNode>): (room: nat)
    requires RootsReturn(nodes)
    ensures RootsShallow(nodes, room)
  {
    assert exists room: nat :: RootsShallow(nodes, room) by {
      var room := OneRoomForAll(LinkForest(nodes), Roots(nodes));
      assert RootsShallow(nodes, room);
    }
    var room: nat :| RootsShallow(nodes, room);
    room
  }

  /** The forest of a node list, roots in input order. */
  ghost function Trees(nodes: seq<SemanticNode>): seq<StructureNode>
    requires RootsReturn(nodes)
  {
    KidsAreKnown(nodes);
    BuildAll(LinkForest(nodes), ById(nodes), Roots(nodes), RoomFor(nodes))
  }

  lemma RootsFit(nodes: seq<SemanticNode>)
    requires UniqueIds(nodes)
    ensures forall c :: c in Roots(nodes) ==> Fits(LinkForest(nodes), c, 0, |nodes|)
  {
    LinksAreTheNodes(nodes);
    forall c | c in Roots(nodes) ensures Fits(LinkForest(nodes), c, 0, |nodes|) {
      UnderIsLinked(nodes, None, c);
    }
  }

  /** With unique ids the recursion ends whatever the parent links are: a circle has no root above it. */
  lemma UniqueIdsReturn(nodes: seq<SemanticNode>)
    requires UniqueIds(nodes)
    ensures RootsReturn(nodes) && RootsShallow(nodes, |nodes|)
  {
    hide LinkForest, UniqueIds, Roots;
    RootsFit(nodes);
    LinkForestIsConsistent(nodes);
    forall c | c in Roots(nodes) ensures Shallow(LinkForest(nodes), c, |nodes|) {
      FitsIsShallow(LinkForest(nodes), c, 0, |nodes|);
    }
  }

  /** What a structural condensation says it kept: the input's count, and the names of the forest. */
  ghost function Kept(nodes: seq<SemanticNode>): Dropped
    requires RootsReturn(nodes)
  {
    Dropped(|nodes|, |nodes|, CountNames(Trees(nodes)))
  }

  /** Fill the child lists and the root list, then build a tree from every root. */
  method Structure(nodes: seq<SemanticNode>) returns (trees: seq<StructureNode>, dropped: Dropped)
    requires RootsReturn(nodes)
    ensures trees == Trees(nodes)
    ensures dropped == Kept(nodes)
  {
    hide ById, BuildAll, LinkForest, Under, ChildLists, CountNames, Known, RootsReturn;
    var byId := ById(nodes);
    var known := byId.Keys;
    var children: map<NodeId, seq<NodeId>> := map[];
    var roots: seq<NodeId> := [];
    NothingUnder(known);
    for i := 0 to |nodes|
      invariant roots == Under(nodes[..i], known, None)
      invariant children == ChildLists(nodes[..i], known)
    {
      var node := nodes[i];
      OneMoreUnder(nodes, known, i);
      if node.parent.Some? && node.parent.value in known {
        var p := node.parent.value;
        children := children[p := (if p in children then children[p] else []) + [node.id]];
      } else {
        roots := roots + [node.id];
      }
    }
    assert nodes[..|nodes|] == nodes;
    KidsAreKnown(nodes);
    LinkForestIs(nodes, children);
    trees := BuildAll(Forest(ParentLinks(nodes), children), byId, roots, RoomFor(nodes));
    var kept := 0;
    assert trees[0..] == trees;
    for i := 0 to |trees|
      invariant kept + CountNames(trees[i..]) == CountNames(trees)
    {
      CountOneMore(trees, i);
      kept := kept + CountName(trees[i]);
    }
    CountNothing(trees);
    dropped := Dropped(|nodes|, |nodes|, kept);
  }

  lemma LinkForestIs(nodes: seq<SemanticNode>, children: map<NodeId, seq<NodeId>>)
    requires children == ChildLists(nodes, ById(nodes).Keys)
    ensures LinkForest(nodes) == Forest(ParentLinks(nodes), children)
  {
  }

  lemma CountOneMore(trees: seq<StructureNode>, i: nat)
    requires i < |trees|
    ensures CountNames(trees[i..]) == CountName(trees[i]) + CountNames(trees[i + 1..])
  {
    assert trees[i..][1..] == trees[i + 1..];
  }

  lemma CountNothing(trees: seq<StructureNode>)
    ensures CountNames(trees[|trees|..]) == 0
  {
  }

  /**
   The forest is exact for any parent links: it holds precisely the nodes whose parent chain ends, each
   once, every one with its own children and nothing else under it, children and roots in input order.
   */
  lemma ForestIsExact(nodes: seq<SemanticNode>, id: NodeId)
    requires UniqueIds(nodes)
    ensures RootsReturn(nodes)
    ensures id in AllIds(Trees(nodes)) <==> Ends(LinkForest(nodes).links, id)
    ensures Distinct(AllIds(Trees(nodes)))
    ensures AllMirror(LinkForest(nodes), ById(nodes), Trees(nodes))
    ensures TopIds(Trees(nodes)) == Roots(nodes)
  {
    hide UniqueIds, LinkForest, ById, Under, Mirrors, AllMirror, AllIds, CountNames, NameBytes, TopIds, Roots;
    var f, roots := LinkForest(nodes), Roots(nodes);
    UniqueIdsReturn(nodes);
    RootsFit(nodes);
    LinkForestIsConsistent(nodes);
    KidsAreKnown(nodes);
    BuildsAll(f, ById(nodes), roots, RoomFor(nodes));
    SameInAnyRoom(f, roots, RoomFor(nodes), |nodes|);
    RootsAreDistinct(nodes);
    PreAllDistinct(f, roots, 0, |nodes|);
    PreAllMembers(f, roots, |nodes|, id);
    if c :| c in roots && id in Pre(f, c, |nodes|) {
      var m := PreIsBelow(f, c, 0, |nodes|, id);
      assert Tops(f.links, id, m);
    }
    if m: nat :| Tops(f.links, id, m) {
      var c := Up(f.links, id, m).value;
      RootIsListed(nodes, c);
      BelowIsPre(f, c, 0, |nodes|, id, m);
    }
  }

  lemma SameInAnyRoom(f: Forest, ids: seq<NodeId>, room: nat, other: nat)
    requires forall c :: c in ids ==> Shallow(f, c, room) && Shallow(f, c, other)
    ensures PreAll(f, ids, room) == PreAll(f, ids, other)
  {
    if room <= other {
      PreAllStable(f, ids, room, other);
    } else {
      PreAllStable(f, ids, other, room);
    }
  }

  lemma RootsAreDistinct(nodes: seq<SemanticNode>)
    requires UniqueIds(nodes)
    ensures Distinct(Roots(nodes))
  {
    UnderDistinct(nodes, ById(nodes).Keys, None);
  }

  lemma RootIsListed(nodes: seq<SemanticNode>, c: NodeId)
    requires UniqueIds(nodes) && c in LinkForest(nodes).links && LinkForest(nodes).links[c].None?
    ensures c in Roots(nodes)
  {
    UnderIsLinked(nodes, None, c);
  }

  /** Somewhere in the trees, `c` is a child of `p`. */
  predicate IsChild(ts: seq<StructureNode>, p: NodeId, c: NodeId)
    decreases ts
  {
    ts != [] && (
      || (ts[0].id == p && c in TopIds(ts[0].children))
      || IsChild(ts[0].children, p, c)
      || IsChild(ts[1..], p, c))
  }

  lemma {:induction false} ChildrenAreKids(f: Forest, index: Index, ts: seq<StructureNode>, p: NodeId, c: NodeId)
    requires AllMirror(f, index, ts)
    ensures IsChild(ts, p, c) <==> p in AllIds(ts) && c in f.Kids(p)
    decreases ts
  {
    if ts != [] {
      ChildrenAreKids(f, index, ts[0].children, p, c);
      ChildrenAreKids(f, index, ts[1..], p, c);
    }
  }

  /**
   Every node of the list stands where its own parent puts it: among the roots exactly when its parent is absent
   or not listed, and under its parent, and under nothing else, exactly when that is in the forest.
   */
  lemma EachUnderItsParent(nodes: seq<SemanticNode>, node: SemanticNode, p: NodeId)
    requires UniqueIds(nodes) && node in nodes
    ensures RootsReturn(nodes)
    ensures node.id in TopIds(Trees(nodes)) <==> node.parent.None? || node.parent.value !in IdsOf(nodes)
    ensures IsChild(Trees(nodes), p, node.id) <==> node.parent == Some(p) && p in AllIds(Trees(nodes))
  {
    hide ById, Under, Trees, AllIds, AllMirror, IsChild, TopIds, UniqueIds;
    var f, index := LinkForest(nodes), ById(nodes);
    ForestIsExact(nodes, p);
    ChildrenAreKids(f, index, Trees(nodes), p, node.id);
    SameIdSameNode(nodes, node);
    UnderIsLinked(nodes, None, node.id);
    KidsMatchLinks(nodes, p, node.id);
    if node.parent.Some? {
      ByIdFinds(nodes, node.parent.value);
    }
    if p !in f.links {
      UnknownNeverEnds(f.links, p);
    }
  }

  /** Every parent chain ends. */
  ghost predicate NoCycles(nodes: seq<SemanticNode>)
  {
    forall id :: id in LinkForest(nodes).links ==> Ends(LinkForest(nodes).links, id)
  }

  lemma DistinctIds(nodes: seq<SemanticNode>)
    requires UniqueIds(nodes)
    ensures Distinct(IdsOf(nodes))
  {
  }

  lemma CountsFromBuild(nodes: seq<SemanticNode>)
    requires RootsReturn(nodes)
    ensures CountNames(Trees(nodes)) == NameBytes(ById(nodes), AllIds(Trees(nodes)))
  {
    hide LinkForest, ById, Under, AllIds, CountNames, NameBytes, Roots, RootsReturn;
    KidsAreKnown(nodes);
    BuildsAll(LinkForest(nodes), ById(nodes), Roots(nodes), RoomFor(nodes));
  }

  lemma {:induction false} SamePermutationSameBytes(index: Index, a: seq<NodeId>, b: seq<NodeId>)
    requires multiset(a) == multiset(b)
    ensures NameBytes(index, a) == NameBytes(index, b)
    decreases |a|
  {
    if a == [] {
      assert |multiset(a)| == 0 && |multiset(b)| == |b|;
    } else {
      assert a[0] in multiset(b);
      var i :| 0 <= i < |b| && b[i] == a[0];
      hide NameBytes;
      WithoutOne(b, i);
      assert a == [a[0]] + a[1..];
      NameBytesWithoutOne(index, b, i);
      NameBytesFirst(index, a);
      SamePermutationSameBytes(index, a[1..], b[..i] + b[i + 1..]);
    }
  }

  lemma WithoutOne(b: seq<NodeId>, i: nat)
    requires i < |b|
    ensures multiset(b[..i] + b[i + 1..]) == multiset(b) - multiset{b[i]}
  {
    assert b == b[..i] + [b[i]] + b[i + 1..];
  }

  lemma NameBytesFirst(index: Index, a: seq<NodeId>)
    requires a != []
    ensures NameBytes(index, a) == NameBytes(index, [a[0]]) + NameBytes(index, a[1..])
  {
    assert a == [a[0]] + a[1..];
    NameBytesConcat(index, [a[0]], a[1..]);
  }

  lemma NameBytesWithoutOne(index: Index, b: seq<NodeId>, i: nat)
    requires i < |b|
    ensures NameBytes(index, b) == NameBytes(index, [b[i]]) + NameBytes(index, b[..i] + b[i + 1..])
  {
    assert b == b[..i] + ([b[i]] + b[i + 1..]);
    NameBytesConcat(index, b[..i], [b[i]] + b[i + 1..]);
    NameBytesConcat(index, [b[i]], b[i + 1..]);
    NameBytesConcat(index, b[..i], b[i + 1..]);
  }

  /**
   `nodesKept` counts the input. It is the number of nodes in the forest exactly when no node sits on or
   under a cycle of parent links; the forest is then a rearrangement of the input, and `bytesKept` is the
   total length of all names.
   */
  lemma KeptCountsAreRight(nodes: seq<SemanticNode>)
    requires UniqueIds(nodes)
    ensures RootsReturn(nodes)
    ensures Kept(nodes).nodesKept == |AllIds(Trees(nodes))| <==> NoCycles(nodes)
    ensures Kept(nodes).bytesKept == NameBytes(ById(nodes), AllIds(Trees(nodes)))
    ensures NoCycles(nodes) ==> multiset(AllIds(Trees(nodes))) == multiset(IdsOf(nodes))
    ensures NoCycles(nodes) ==> Kept(nodes).bytesKept == NameBytes(ById(nodes), IdsOf(nodes))
  {
    hide UniqueIds, LinkForest, ById, Under, AllIds, CountNames, NameBytes, Trees;
    UniqueIdsReturn(nodes);
    var f, ids, all := LinkForest(nodes), IdsOf(nodes), AllIds(Trees(nodes));
    LinksAreTheNodes(nodes);
    LinkForestIsConsistent(nodes);
    CountsFromBuild(nodes);
    ForestIsExact(nodes, 0);
    forall id ensures id in ids <==> id in f.links {
      ByIdFinds(nodes, id);
    }
    forall id ensures id in all <==> Ends(f.links, id) {
      ForestIsExact(nodes, id);
    }
    assert Distinct(ids) by { DistinctIds(nodes); }
    forall id | id in all ensures id in ids {
      if id !in f.links {
        UnknownNeverEnds(f.links, id);
      }
    }
    SameLengthSameContents(all, ids);
    if NoCycles(nodes) {
      SamePermutationSameBytes(ById(nodes), all, ids);
    }
  }

  /** Two nodes that are each other's parent. */
  function TwoInACycle(): seq<SemanticNode>
  {
    [SemanticNode(1, Some(2), "group", [], true), SemanticNode(2, Some(1), "group", [], true)]
  }

  /** With a cycle the count is wrong: two nodes are said to be kept, and the forest is empty. */
  lemma CycleIsMiscounted()
    ensures UniqueIds(TwoInACycle()) && !NoCycles(TwoInACycle()) && RootsReturn(TwoInACycle())
    ensures Kept(TwoInACycle()).nodesKept == 2 && AllIds(Trees(TwoInACycle())) == []
  {
    var nodes := TwoInACycle();
    var index := ById(nodes);
    assert nodes[..1] == [nodes[0]] && nodes[..1][..0] == [];
    assert ById([nodes[0]]) == map[1 := nodes[0]];
    assert index == map[1 := nodes[0], 2 := nodes[1]];
    assert Under([nodes[0]], index.Keys, None) == [];
    assert Under(nodes, index.Keys, None) == [];
    KeptCountsAreRight(nodes);
  }
}
