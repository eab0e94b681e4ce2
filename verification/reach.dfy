/** The tree of a window as a sweep sees it: subtrees off a stack, ancestors, and how much of the screen they hold. */
module Reach {
  import opened Options
  import opened Sequences
  import opened Chains
  import opened Forests
  import opened ForestStacks
  import opened NodeLists

  /** Every id a list mentions, as a node or as a parent. */
  function Mentioned(nodes: seq<SemanticNode>): set<NodeId>
  {
    (set node | node in nodes :: node.id) + (set node | node in nodes && node.parent.Some? :: node.parent.value)
  }

  function Reversed(s: seq<NodeId>): (r: seq<NodeId>)
    ensures |r| == |s| && forall x :: x in r <==> x in s
    ensures Distinct(s) ==> Distinct(r)
    decreases |s|
  {
    if s == [] then []
    else
      var front, last := s[..|s| - 1], s[|s| - 1];
      assert s == front + [last];
      var rest := Reversed(front);
      assert Distinct(s) ==> Distinct(front) && last !in rest;
      assert Distinct(s) ==> Distinct([last] + rest);
      [last] + rest
  }

  /** The tree of a window: children come off a stack last one first, so they are listed that way round. */
  function Window(nodes: seq<SemanticNode>): Forest
  {
    var index, ids := ById(nodes), Mentioned(nodes);
    var children := ChildLists(nodes, ids);
    Forest(
      map id | id in ids :: if id in index then index[id].parent else None,
      map p | p in children :: Reversed(children[p]))
  }

  lemma MentionedNode(nodes: seq<SemanticNode>, node: SemanticNode)
    requires node in nodes
    ensures node.id in Mentioned(nodes) && KnownParent(node, Mentioned(nodes)) == node.parent
  {
  }

  lemma KidsOfWindow(nodes: seq<SemanticNode>, p: NodeId, c: NodeId)
    requires UniqueIds(nodes)
    ensures c in Window(nodes).Kids(p) <==> c in Window(nodes).links && Window(nodes).links[c] == Some(p)
    ensures Distinct(Window(nodes).Kids(p))
  {
    hide Under, ById;
    var ids, index := Mentioned(nodes), ById(nodes);
    UnderMembers(nodes, ids, Some(p), c);
    UnderDistinct(nodes, ids, Some(p));
    ByIdFinds(nodes, c);
    if c in index {
      MentionedNode(nodes, index[c]);
    }
    if node :| node in nodes && node.id == c && KnownParent(node, ids) == Some(p) {
      SameIdSameNode(nodes, node);
      MentionedNode(nodes, node);
    }
  }

  lemma WindowIsConsistent(nodes: seq<SemanticNode>)
    requires UniqueIds(nodes)
    ensures Window(nodes).Consistent() && Window(nodes).NoRepeats()
  {
    hide Window, UniqueIds;
    var f := Window(nodes);
    forall p: NodeId, c: NodeId ensures c in f.Kids(p) <==> c in f.links && f.links[c] == Some(p) {
      KidsOfWindow(nodes, p, c);
    }
    forall p: NodeId ensures Distinct(f.Kids(p)) {
      KidsOfWindow(nodes, p, 0);
    }
  }

  /** Whatever the list, a node is listed under the parent its climb goes to. */
  lemma WindowListsLinks(nodes: seq<SemanticNode>)
    ensures Window(nodes).LinksAreListed()
  {
    hide Under, ById;
    var f, ids, index := Window(nodes), Mentioned(nodes), ById(nodes);
    forall c: NodeId, p: NodeId | f.Below(c, p, 1) ensures c in f.Kids(p) {
      assert Up(f.links, c, 1) == if c in f.links && f.links[c].Some? then Up(f.links, f.links[c].value, 0) else None;
      ByIdIsListed(nodes, c);
      MentionedNode(nodes, index[c]);
      UnderMembers(nodes, ids, Some(p), c);
    }
  }

  /** Children grouped by parent, whether or not the parent is listed. */
  method GroupByParent(nodes: seq<SemanticNode>) returns (children: map<NodeId, seq<NodeId>>)
    ensures children == ChildLists(nodes, Mentioned(nodes))
  {
    hide Mentioned, Under, ChildLists;
    ghost var known := Mentioned(nodes);
    children := map[];
    NothingUnder(known);
    assert nodes[..0] == [];
    for i := 0 to |nodes|
      invariant children == ChildLists(nodes[..i], known)
    {
      OneMoreUnder(nodes, known, i);
      MentionedNode(nodes, nodes[i]);
      if nodes[i].parent.Some? {
        var parent := nodes[i].parent.value;
        var group := if parent in children then children[parent] else [];
        children := children[parent := group + [nodes[i].id]];
      }
    }
    assert nodes[..|nodes|] == nodes;
  }

  /** Pushing siblings in order leaves them owed in reverse. */
  lemma {:induction false} PushSiblings(f: Forest, stack: seq<NodeId>, ids: seq<NodeId>, room: nat)
    requires forall i :: 0 <= i < |ids| ==> SubtreeIn(f, ids[i]) == Pre(f, ids[i], room)
    ensures OwedIn(f, stack + ids) == PreAll(f, Reversed(ids), room) + OwedIn(f, stack)
    decreases |ids|
  {
    hide SubtreeIn, Pre, PreAll, OwedIn;
    if ids == [] {
      assert stack + ids == stack;
      PreAllNothing(f, room, OwedIn(f, stack));
    } else {
      var front, last := ids[..|ids| - 1], ids[|ids| - 1];
      PushSiblings(f, stack, front, room);
      assert stack + ids == (stack + front) + [last];
      OwedInPush(f, stack + front, last);
      assert Reversed(ids) == [last] + Reversed(front);
      PreAllHead(f, last, Reversed(front), room);
      Shift(Pre(f, last, room), PreAll(f, Reversed(front), room), OwedIn(f, stack));
    }
  }

  lemma PreAllNothing(f: Forest, room: nat, owed: seq<NodeId>)
    ensures PreAll(f, [], room) + owed == owed
  {
  }

  lemma Shift(a: seq<NodeId>, b: seq<NodeId>, c: seq<NodeId>)
    ensures a + b + c == a + (b + c)
  {
  }

  lemma PreAllHead(f: Forest, id: NodeId, rest: seq<NodeId>, room: nat)
    ensures PreAll(f, [id] + rest, room) == Pre(f, id, room) + PreAll(f, rest, room)
  {
    assert ([id] + rest)[1..] == rest;
  }

  /** One turn of the stack: the node comes out, its children go on. */
  lemma OneTurn(nodes: seq<SemanticNode>, stack: seq<NodeId>, id: NodeId)
    requires Finite(Window(nodes), id)
    ensures var f, children := Window(nodes), ChildLists(nodes, Mentioned(nodes));
      var pushed := if id in children then children[id] else [];
      && OwedIn(f, stack + [id]) == [id] + OwedIn(f, stack + pushed)
      && (forall i :: 0 <= i < |pushed| ==> Finite(f, pushed[i]))
  {
    hide OwedIn, SubtreeIn, Pre, PreAll, ChildLists, ById, Mentioned;
    var f, children := Window(nodes), ChildLists(nodes, Mentioned(nodes));
    var pushed := if id in children then children[id] else [];
    var room: nat :| Shallow(f, id, room);
    assert f.Kids(id) == Reversed(pushed);
    ReadyToPush(f, id, room, pushed);
    OwedInPush(f, stack, id);
    PushSiblings(f, stack, pushed, room - 1);
  }

  lemma ReadyToPush(f: Forest, id: NodeId, room: nat, pushed: seq<NodeId>)
    requires Shallow(f, id, room) && f.Kids(id) == Reversed(pushed)
    ensures SubtreeIn(f, id) == [id] + PreAll(f, Reversed(pushed), room - 1)
    ensures forall i :: 0 <= i < |pushed| ==>
      Finite(f, pushed[i]) && SubtreeIn(f, pushed[i]) == Pre(f, pushed[i], room - 1)
  {
    hide SubtreeIn, Pre, PreAll, Finite;
    SubtreeIs(f, id, room);
    PreUnfolds(f, id, room);
    forall i | 0 <= i < |pushed|
      ensures Finite(f, pushed[i]) && SubtreeIn(f, pushed[i]) == Pre(f, pushed[i], room - 1)
    {
      assert pushed[i] in f.Kids(id);
      SubtreeIs(f, pushed[i], room - 1);
    }
  }

  lemma NothingOwed(f: Forest, id: NodeId)
    ensures OwedIn(f, []) == [] && OwedIn(f, [id]) == SubtreeIn(f, id)
  {
    OwedInPush(f, [], id);
    assert [] + [id] == [id];
  }

  /** Everything under a root, itself first, in the order a stack meets it; any list will do if the subtree ends. */
  method SubtreeOf(nodes: seq<SemanticNode>, children: map<NodeId, seq<NodeId>>, root: NodeId)
      returns (out: seq<NodeId>)
    requires Finite(Window(nodes), root)
    requires children == ChildLists(nodes, Mentioned(nodes))
    ensures out == SubtreeIn(Window(nodes), root)
  {
    hide OwedIn, SubtreeIn, Finite, Window, ChildLists;
    ghost var f := Window(nodes);
    out := [];
    var stack := [root];
    NothingOwed(f, root);
    while stack != []
      invariant forall i :: 0 <= i < |stack| ==> Finite(f, stack[i])
      invariant out + OwedIn(f, stack) == SubtreeIn(f, root)
      decreases |OwedIn(f, stack)|
    {
      var id := stack[|stack| - 1];
      ghost var whole := stack;
      stack := stack[..|stack| - 1];
      assert whole == stack + [id];
      OneTurn(nodes, stack, id);
      out := out + [id];
      if id in children {
        stack := stack + children[id];
      }
      assert whole == whole[..|whole| - 1] + [id];
      assert id !in children ==> stack + [] == stack;
    }
  }

  /** The `j`-th ancestor of a node; an ancestor that is not listed itself still counts. */
  function Ancestor(nodes: seq<SemanticNode>, id: NodeId, j: nat): Option<NodeId>
  {
    Up(Window(nodes).links, id, j)
  }

  /** One step of a climb, read off the node list. */
  function ParentOf(index: Index, id: NodeId): Option<NodeId>
  {
    if id in index then index[id].parent else None
  }

  lemma ClimbOne(nodes: seq<SemanticNode>, id: NodeId, j: nat, at: NodeId)
    requires Ancestor(nodes, id, j) == Some(at)
    ensures Ancestor(nodes, id, j + 1) == ParentOf(ById(nodes), at)
    ensures Ancestor(nodes, id, j + 1).Some? ==> at in ById(nodes)
  {
    hide ById;
    var links := Window(nodes).links;
    UpAdd(links, id, j, 1);
    ByIdIsListed(nodes, at);
    if at in ById(nodes) {
      MentionedNode(nodes, ById(nodes)[at]);
    }
    assert Up(links, at, 1) == if at in links && links[at].Some? then Up(links, links[at].value, 0) else None;
  }

  lemma ClimbStaysEnded(nodes: seq<SemanticNode>, id: NodeId, j: nat)
    requires Ancestor(nodes, id, j).None?
    ensures forall k: nat :: k >= j ==> Ancestor(nodes, id, k).None?
  {
    forall k: nat | k >= j ensures Ancestor(nodes, id, k).None? {
      if Ancestor(nodes, id, k).Some? {
        UpPrefix(Window(nodes).links, id, j, k);
      }
    }
  }

  /** A climb longer than the list has come back to where it was, within as many steps as there are nodes. */
  lemma LongClimbsRepeat(nodes: seq<SemanticNode>, id: NodeId) returns (p: nat, q: nat)
    requires Ancestor(nodes, id, |nodes| + 1).Some?
    ensures p < q <= |nodes| && Ancestor(nodes, id, p).Some? && Ancestor(nodes, id, p) == Ancestor(nodes, id, q)
  {
    hide Window, ById;
    var links, index, n := Window(nodes).links, ById(nodes), |nodes| + 1;
    var trail := Trail(links, id, n)[..n];
    forall a | 0 <= a < n ensures trail[a] in index.Keys {
      UpPrefix(links, id, a, n);
      UpPrefix(links, id, a + 1, n);
      ClimbOne(nodes, id, a, trail[a]);
    }
    ByIdIsListed(nodes, id);
    assert |index.Keys| == |index| <= |nodes|;
    if Distinct(trail) {
      DistinctBound(trail, index.Keys);
      assert false;
    }
    p, q :| 0 <= p < q < n && trail[p] == trail[q];
  }

  /** From there on it goes round: what is met later was met earlier. */
  lemma RoundAgain(nodes: seq<SemanticNode>, id: NodeId, p: nat, q: nat, j: nat)
    requires p < q <= j && Ancestor(nodes, id, p).Some? && Ancestor(nodes, id, p) == Ancestor(nodes, id, q)
    ensures Ancestor(nodes, id, j) == Ancestor(nodes, id, j - (q - p))
  {
    UpAdd(Window(nodes).links, id, p, j - q);
    UpAdd(Window(nodes).links, id, q, j - q);
  }

  /** The subtree of an ancestor ends. */
  ghost predicate FiniteAt(nodes: seq<SemanticNode>, id: NodeId, j: nat)
  {
    Ancestor(nodes, id, j).Some? && Finite(Window(nodes), Ancestor(nodes, id, j).value)
  }

  /** An ancestor a climb comes back to has no end below it. */
  lemma RepeatedIsNotFinite(nodes: seq<SemanticNode>, id: NodeId, p: nat, q: nat)
    requires p < q && Ancestor(nodes, id, p).Some? && Ancestor(nodes, id, p) == Ancestor(nodes, id, q)
    ensures !FiniteAt(nodes, id, q)
  {
    hide Window;
    var f, at := Window(nodes), Ancestor(nodes, id, q).value;
    WindowListsLinks(nodes);
    UpAdd(f.links, id, p, q - p);
    forall room: nat ensures !Shallow(f, at, room) {
      LoopIsNotShallow(f, at, q - p, room);
    }
  }

  /** A climb past the length of the list passes an ancestor whose subtree has no end. */
  lemma FiniteClimbsAreShort(nodes: seq<SemanticNode>, id: NodeId)
    requires forall j: nat :: 0 < j <= |nodes| && Ancestor(nodes, id, j).Some? ==> FiniteAt(nodes, id, j)
    ensures Ancestor(nodes, id, |nodes| + 1).None?
  {
    if Ancestor(nodes, id, |nodes| + 1).Some? {
      var p, q := LongClimbsRepeat(nodes, id);
      RepeatedIsNotFinite(nodes, id, p, q);
    }
  }

  /** With unique ids and a climb that ends, every subtree on the way up ends. */
  lemma EndingClimbsAreFinite(nodes: seq<SemanticNode>, id: NodeId, j: nat)
    requires UniqueIds(nodes) && Ends(Window(nodes).links, id) && Ancestor(nodes, id, j).Some?
    ensures FiniteAt(nodes, id, j)
  {
    hide Window, UniqueIds, SubtreeIn;
    var f, at := Window(nodes), Ancestor(nodes, id, j).value;
    WindowIsConsistent(nodes);
    EndsAlong(f.links, id, j);
    var k: nat :| Tops(f.links, at, k);
    UnfoldIn(f, at, k);
  }

  /** How many of the ids are wanted ones. */
  function CountIn(ids: seq<NodeId>, wanted: set<NodeId>): nat
  {
    if ids == [] then 0 else (if ids[0] in wanted then 1 else 0) + CountIn(ids[1..], wanted)
  }

  lemma {:induction false} CountInConcat(a: seq<NodeId>, b: seq<NodeId>, wanted: set<NodeId>)
    ensures CountIn(a + b, wanted) == CountIn(a, wanted) + CountIn(b, wanted)
  {
    if a == [] {
      assert a + b == b;
    } else {
      CountInConcat(a[1..], b, wanted);
      assert (a + b)[1..] == a[1..] + b;
    }
  }

  /** Counting distinct ids counts the wanted ones that are there. */
  lemma {:induction false} CountInIsOverlap(ids: seq<NodeId>, wanted: set<NodeId>)
    requires Distinct(ids)
    ensures CountIn(ids, wanted) == |Members(ids) * wanted|
  {
    if ids != [] {
      CountInIsOverlap(ids[1..], wanted);
      var rest := Members(ids[1..]) * wanted;
      assert Members(ids) * wanted == if ids[0] in wanted then {ids[0]} + rest else rest;
    }
  }

  /** How many wanted nodes a traversal of the `j`-th ancestor meets. */
  ghost function Covered(nodes: seq<SemanticNode>, id: NodeId, j: nat, wanted: set<NodeId>): nat
  {
    if Ancestor(nodes, id, j).Some? then CountIn(SubtreeIn(Window(nodes), Ancestor(nodes, id, j).value), wanted) else 0
  }

  /** The subtree of an ancestor holds the whole subtree of every ancestor below it, in one piece. */
  lemma {:induction false} AncestorHolds(nodes: seq<SemanticNode>, id: NodeId, i: nat, j: nat)
      returns (before: seq<NodeId>, after: seq<NodeId>)
    requires i <= j && FiniteAt(nodes, id, j)
    ensures FiniteAt(nodes, id, i)
    ensures SubtreeIn(Window(nodes), Ancestor(nodes, id, j).value) ==
      before + SubtreeIn(Window(nodes), Ancestor(nodes, id, i).value) + after
    decreases j - i
  {
    hide Window, SubtreeIn, Finite;
    var f := Window(nodes);
    if i == j {
      before, after := [], [];
    } else {
      UpPrefix(f.links, id, j - 1, j);
      var low, high := Ancestor(nodes, id, j - 1).value, Ancestor(nodes, id, j).value;
      WindowListsLinks(nodes);
      assert f.Below(low, high, 1);
      var left, right := KidIsAPiece(f, high, low);
      var inner, outer := AncestorHolds(nodes, id, i, j - 1);
      before, after := left + inner, outer + right;
      Regroup([], left, inner, SubtreeIn(f, Ancestor(nodes, id, i).value), outer, right);
      assert [] + left + inner == before;
      assert [] + (left + SubtreeIn(f, low) + right) == left + SubtreeIn(f, low) + right;
    }
  }

  /** Coverage never shrinks on the way up. */
  lemma CoverageGrows(nodes: seq<SemanticNode>, id: NodeId, i: nat, j: nat, wanted: set<NodeId>)
    requires i <= j && FiniteAt(nodes, id, j)
    ensures Covered(nodes, id, i, wanted) <= Covered(nodes, id, j, wanted)
  {
    hide SubtreeIn, CountIn, Window, Finite;
    var before, after := AncestorHolds(nodes, id, i, j);
    var core := SubtreeIn(Window(nodes), Ancestor(nodes, id, i).value);
    CountInConcat(before + core, after, wanted);
    CountInConcat(before, core, wanted);
  }

  /** A climb goes by the nodes' own parents. */
  lemma FirstAncestorIsTheParent(nodes: seq<SemanticNode>, node: SemanticNode)
    requires UniqueIds(nodes) && node in nodes
    ensures Ancestor(nodes, node.id, 1) == node.parent
  {
    hide ById;
    SameIdSameNode(nodes, node);
    ClimbOne(nodes, node.id, 0, node.id);
  }

  /** The root comes first, then the child listed last. */
  lemma LastSiblingFirst(nodes: seq<SemanticNode>, root: NodeId)
    requires Finite(Window(nodes), root) && Under(nodes, Mentioned(nodes), Some(root)) != []
    ensures var owned, children := SubtreeIn(Window(nodes), root), Under(nodes, Mentioned(nodes), Some(root));
      |owned| > 1 && owned[0] == root && owned[1] == children[|children| - 1]
  {
    hide SubtreeIn, Under, ById;
    var f, children := Window(nodes), Under(nodes, Mentioned(nodes), Some(root));
    var room: nat :| Shallow(f, root, room);
    assert root in Mentioned(nodes) by {
      UnderMembers(nodes, Mentioned(nodes), Some(root), children[0]);
    }
    assert f.Kids(root) == Reversed(children) == [children[|children| - 1]] + Reversed(children[..|children| - 1]);
    assert f.Kids(root)[0] in f.Kids(root) && Shallow(f, f.Kids(root)[0], room - 1);
    SubtreeIs(f, root, room);
    PreUnfolds(f, root, room);
    PreUnfolds(f, f.Kids(root)[0], room - 1);
  }

  /** With unique ids a finite subtree is what hangs below its root, each node once. */
  lemma SubtreeIsWhatHangsBelow(nodes: seq<SemanticNode>, root: NodeId, x: NodeId)
    requires UniqueIds(nodes) && Finite(Window(nodes), root)
    ensures Distinct(SubtreeIn(Window(nodes), root))
    ensures x in SubtreeIn(Window(nodes), root) <==> exists m: nat :: Ancestor(nodes, x, m) == Some(root)
  {
    hide Window, Finite, SubtreeIn, UniqueIds;
    var f := Window(nodes);
    WindowIsConsistent(nodes);
    FiniteIsTheSubtree(f, root, x);
    assert forall m: nat :: f.Below(x, root, m) <==> Ancestor(nodes, x, m) == Some(root);
  }
}
