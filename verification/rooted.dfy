/** An inspection of one subtree, and how it relates to an inspection of the whole document. */
module Rooted {
  import opened Options
  import opened Chains
  import opened Forests
  import opened Documents
  import opened Subtrees
  import opened Inspection

  datatype Pending = Pending(id: NodeId, depth: U32)

  /** `x` lies `m` links below the root of a bounded inspection, with no more than `maxDepth` elements in between. */
  predicate WithinBelow(d: Document, x: NodeId, m: nat, maxDepth: U32)
  {
    maxDepth == 0 || Saturate(ElementsUpTo(d, x, m)) <= maxDepth
  }

  ghost function DepthBelow(d: Document, root: NodeId, x: NodeId): nat
  {
    if LevelOf(d, root) <= LevelOf(d, x) then LevelOf(d, x) - LevelOf(d, root) else 0
  }

  ghost predicate Listed(d: Document, root: NodeId, x: NodeId, maxDepth: U32)
  {
    ElementOrText(d, x) && WithinBelow(d, x, DepthBelow(d, root, x), maxDepth)
  }

  ghost function ListedFrom(d: Document, root: NodeId, ids: seq<NodeId>, maxDepth: U32): seq<NodeId>
  {
    if ids == [] then []
    else (if Listed(d, root, ids[0], maxDepth) then [ids[0]] else []) + ListedFrom(d, root, ids[1..], maxDepth)
  }

  lemma {:induction false} ListedConcat(d: Document, root: NodeId, a: seq<NodeId>, b: seq<NodeId>, maxDepth: U32)
    ensures ListedFrom(d, root, a + b, maxDepth) == ListedFrom(d, root, a, maxDepth) + ListedFrom(d, root, b, maxDepth)
    decreases |a|
  {
    if a == [] {
      assert a + b == b;
    } else {
      ListedConcat(d, root, a[1..], b, maxDepth);
      assert (a + b)[1..] == a[1..] + b;
    }
  }

  /** The count of elements on the way down to a node, the node included. */
  ghost predicate PendingFits(d: Document, root: NodeId, at: Pending, k: nat, m: nat)
  {
    && Tops(d.Parents(), root, k)
    && Up(d.Parents(), at.id, m) == Some(root) && Tops(d.Parents(), at.id, k + m)
    && at.depth == Saturate(ElementsUpTo(d, at.id, m))
  }

  ghost predicate PendingAllFit(d: Document, root: NodeId, stack: seq<Pending>, maxDepth: U32)
  {
    forall i :: 0 <= i < |stack| ==>
      && PendingFits(d, root, stack[i], LevelOf(d, root), DepthBelow(d, root, stack[i].id))
      && WithinBelow(d, stack[i].id, DepthBelow(d, root, stack[i].id), maxDepth)
  }

  function PendingIds(stack: seq<Pending>): seq<NodeId>
  {
    seq(|stack|, i requires 0 <= i < |stack| => stack[i].id)
  }

  lemma {:induction false} DeeperBelow(d: Document, x: NodeId, n: nat, c: NodeId, m: nat, maxDepth: U32)
    requires Up(d.Parents(), x, n) == Some(c)
    requires !WithinBelow(d, c, m, maxDepth)
    ensures !WithinBelow(d, x, n + m, maxDepth)
    decreases n
  {
    if n > 0 {
      DeeperBelow(d, d.Above(x).value, n - 1, c, m, maxDepth);
    }
  }

  lemma {:induction false} NothingListed(d: Document, root: NodeId, ids: seq<NodeId>, maxDepth: U32)
    requires forall i :: 0 <= i < |ids| ==> !Listed(d, root, ids[i], maxDepth)
    ensures ListedFrom(d, root, ids, maxDepth) == []
  {
    if ids != [] {
      NothingListed(d, root, ids[1..], maxDepth);
    }
  }

  /** Not pushing a too deep child loses nothing. */
  lemma SkippingIsSafe(d: Document, root: NodeId, k: nat, c: NodeId, m: nat, maxDepth: U32)
    requires d.WellFormed() && Tops(d.Parents(), root, k) && Tops(d.Parents(), c, k + m)
    requires !WithinBelow(d, c, m, maxDepth)
    ensures ListedFrom(d, root, Subtree(d, c), maxDepth) == []
  {
    LevelIs(d.Parents(), root, k);
    SubtreeUnfolds(d, c, k + m);
    forall i | 0 <= i < |Subtree(d, c)| ensures !Listed(d, root, Subtree(d, c)[i], maxDepth) {
      var x := Subtree(d, c)[i];
      var n := PreIsBelow(d.Tree(), c, k + m, Room(d, k + m), x);
      LevelIs(d.Parents(), x, k + m + n);
      DeeperBelow(d, x, n, c, m, maxDepth);
    }
    NothingListed(d, root, Subtree(d, c), maxDepth);
  }

  /** A child's own numbers, worked out from its parent's. */
  lemma ChildPending(d: Document, root: NodeId, at: Pending, k: nat, m: nat, c: NodeId)
    requires d.WellFormed() && PendingFits(d, root, at, k, m)
    requires at.id in d.nodes && c in d.nodes[at.id].children
    ensures c in d.nodes
    ensures PendingFits(d, root, Pending(c, Saturate(at.depth + ElementCount(d, c))), k, m + 1)
    ensures LevelOf(d, root) == k && DepthBelow(d, root, c) == m + 1
  {
    LevelIs(d.Parents(), root, k);
    ChildUnfolds(d, at.id, k + m, c);
  }

  /** The stack owes everything listed among the subtrees of `ids`, then `tail`. */
  ghost predicate Covers(d: Document, root: NodeId, stack: seq<Pending>, ids: seq<NodeId>, room: nat, tail: seq<NodeId>,
      size: nat, maxDepth: U32)
  {
    && ListedFrom(d, root, Owed(d, PendingIds(stack)), maxDepth) ==
      ListedFrom(d, root, PreAll(d.Tree(), ids, room), maxDepth) + tail
    && |Owed(d, PendingIds(stack))| <= |PreAll(d.Tree(), ids, room)| + size
  }

  lemma CoversNext(d: Document, root: NodeId, stack: seq<Pending>, ids: seq<NodeId>, room: nat, tail: seq<NodeId>,
      size: nat, maxDepth: U32, child: Pending)
    requires ids != [] && child.id == ids[0] && Subtree(d, child.id) == Pre(d.Tree(), child.id, room)
    requires Covers(d, root, stack, ids[1..], room, tail, size, maxDepth)
    ensures Covers(d, root, stack + [child], ids, room, tail, size, maxDepth)
    ensures ListedFrom(d, root, Subtree(d, child.id), maxDepth) == [] ==>
      Covers(d, root, stack, ids, room, tail, size, maxDepth)
  {
    hide Subtree, Owed, Pre, ListedFrom;
    var here, others := Subtree(d, child.id), PreAll(d.Tree(), ids[1..], room);
    assert PendingIds(stack + [child]) == PendingIds(stack) + [child.id];
    OwedPush(d, PendingIds(stack), child.id);
    ListedConcat(d, root, here, Owed(d, PendingIds(stack)), maxDepth);
    ListedConcat(d, root, here, others, maxDepth);
    assert PreAll(d.Tree(), ids, room) == here + others;
  }

  lemma PendingTops(d: Document, root: NodeId, at: Pending, k: nat, m: nat)
    requires PendingFits(d, root, at, k, m)
    ensures Tops(d.Parents(), root, k) && Tops(d.Parents(), at.id, k + m)
  {
  }

  /** One child, pushed or skipped. */
  lemma PushOrSkip(d: Document, root: NodeId, stack: seq<Pending>, at: Pending, k: nat, m: nat, ids: seq<NodeId>,
      tail: seq<NodeId>, size: nat, maxDepth: U32)
    requires d.WellFormed() && PendingFits(d, root, at, k, m) && at.id in d.nodes
    requires ids != [] && ids[0] in d.nodes[at.id].children
    requires PendingAllFit(d, root, stack, maxDepth)
    requires Room(d, k + m) > 0 && Covers(d, root, stack, ids[1..], Room(d, k + m) - 1, tail, size, maxDepth)
    ensures ids[0] in d.nodes
    ensures var pushed := Pending(ids[0], Saturate(at.depth + if d.nodes[ids[0]].isElement then 1 else 0));
      var next := if maxDepth == 0 || pushed.depth <= maxDepth then stack + [pushed] else stack;
      PendingAllFit(d, root, next, maxDepth) && Covers(d, root, next, ids, Room(d, k + m) - 1, tail, size, maxDepth)
  {
    hide Covers, Document.WellFormed, ListedFrom, Subtree, PendingFits, Pre, PreAll;
    PendingTops(d, root, at, k, m);
    ChildPending(d, root, at, k, m, ids[0]);
    ChildUnfolds(d, at.id, k + m, ids[0]);
    LevelIs(d.Parents(), at.id, k + m);
    var pushed := Pending(ids[0], Saturate(at.depth + ElementCount(d, ids[0])));
    CoversNext(d, root, stack, ids, Room(d, k + m) - 1, tail, size, maxDepth, pushed);
    PendingTops(d, root, pushed, k, m + 1);
    if maxDepth != 0 && pushed.depth > maxDepth {
      SkippingIsSafe(d, root, k, ids[0], m + 1, maxDepth);
    }
  }

  lemma CoversNone(d: Document, root: NodeId, stack: seq<Pending>, at: Pending, k: nat, m: nat, maxDepth: U32)
    requires d.WellFormed() && PendingFits(d, root, at, k, m)
    ensures at.id in d.nodes && Room(d, k + m) > 0 && LevelOf(d, at.id) == k + m
    ensures Descendants(d, at.id) == PreAll(d.Tree(), d.nodes[at.id].children, Room(d, k + m) - 1)
    ensures var owed := Owed(d, PendingIds(stack));
      Covers(d, root, stack, [], Room(d, k + m) - 1, ListedFrom(d, root, owed, maxDepth), |owed|, maxDepth)
  {
    SubtreeUnfolds(d, at.id, k + m);
  }

  /** Push the children that are not too deep, first child on top. */
  method PushListed(d: Document, root: NodeId, base: seq<Pending>, at: Pending, maxDepth: U32)
      returns (stack: seq<Pending>)
    requires d.WellFormed() && at.id in d.nodes && PendingAllFit(d, root, base, maxDepth)
    requires PendingFits(d, root, at, LevelOf(d, root), DepthBelow(d, root, at.id))
    ensures PendingAllFit(d, root, stack, maxDepth)
    ensures ListedFrom(d, root, Owed(d, PendingIds(stack)), maxDepth) ==
      ListedFrom(d, root, Descendants(d, at.id), maxDepth) + ListedFrom(d, root, Owed(d, PendingIds(base)), maxDepth)
    ensures |Owed(d, PendingIds(stack))| <= |Descendants(d, at.id)| + |Owed(d, PendingIds(base))|
  {
    hide ListedFrom, Owed, PendingFits, PendingAllFit, Document.WellFormed, Descendants;
    ghost var k, m := LevelOf(d, root), DepthBelow(d, root, at.id);
    ghost var tail, size := ListedFrom(d, root, Owed(d, PendingIds(base)), maxDepth), |Owed(d, PendingIds(base))|;
    CoversNone(d, root, base, at, k, m, maxDepth);
    var children := d.nodes[at.id].children;
    stack := base;
    for j := |children| downto 0
      invariant PendingAllFit(d, root, stack, maxDepth)
      invariant Covers(d, root, stack, children[j..], Room(d, k + m) - 1, tail, size, maxDepth)
    {
      var child := children[j];
      assert children[j..][1..] == children[j + 1..];
      PushOrSkip(d, root, stack, at, k, m, children[j..], tail, size, maxDepth);
      var childDepth := Saturate(at.depth + if d.nodes[child].isElement then 1 else 0);
      if maxDepth == 0 || childDepth <= maxDepth {
        stack := stack + [Pending(child, childDepth)];
      }
    }
    assert children[0..] == children;
  }

  lemma ListFirst(d: Document, root: NodeId, stack: seq<Pending>, at: Pending, maxDepth: U32)
    requires d.WellFormed() && PendingAllFit(d, root, stack + [at], maxDepth)
    ensures PendingFits(d, root, at, LevelOf(d, root), DepthBelow(d, root, at.id)) && at.id in d.nodes
    ensures PendingAllFit(d, root, stack, maxDepth)
    ensures |Owed(d, PendingIds(stack + [at]))| == 1 + |Descendants(d, at.id)| + |Owed(d, PendingIds(stack))|
    ensures ListedFrom(d, root, Owed(d, PendingIds(stack + [at])), maxDepth) ==
      (if ElementOrText(d, at.id) then [at.id] else [])
      + (ListedFrom(d, root, Descendants(d, at.id), maxDepth)
        + ListedFrom(d, root, Owed(d, PendingIds(stack)), maxDepth))
  {
    hide Document.WellFormed, Owed, Descendants, Subtree;
    assert (stack + [at])[|stack|] == at;
    forall i | 0 <= i < |stack| ensures (stack + [at])[i] == stack[i] {
    }
    SubtreeUnfolds(d, at.id, LevelOf(d, root) + DepthBelow(d, root, at.id));
    assert PendingIds(stack + [at]) == PendingIds(stack) + [at.id];
    OwedPush(d, PendingIds(stack), at.id);
    var rest := Descendants(d, at.id) + Owed(d, PendingIds(stack));
    assert Subtree(d, at.id) + Owed(d, PendingIds(stack)) == [at.id] + rest;
    assert ([at.id] + rest)[1..] == rest;
    ListedConcat(d, root, Descendants(d, at.id), Owed(d, PendingIds(stack)), maxDepth);
  }

  lemma OwedNone(d: Document)
    ensures Owed(d, []) == []
  {
  }

  lemma ListAtFirst(d: Document, root: NodeId, maxDepth: U32)
    requires d.WellFormed() && root in d.nodes
    ensures PendingAllFit(d, root, [Pending(root, 0)], maxDepth)
    ensures ListedFrom(d, root, Owed(d, PendingIds([Pending(root, 0)])), maxDepth) ==
      ListedFrom(d, root, Subtree(d, root), maxDepth)
  {
    hide Owed, Subtree, ListedFrom;
    assert Ends(d.Parents(), root);
    LevelIs(d.Parents(), root, LevelOf(d, root));
    assert PendingIds([Pending(root, 0)]) == [] + [root];
    OwedNone(d);
    OwedPush(d, [], root);
    assert Subtree(d, root) + [] == Subtree(d, root);
  }

  lemma ListAtLast(d: Document, root: NodeId, maxDepth: U32)
    ensures ListedFrom(d, root, Owed(d, PendingIds([])), maxDepth) == []
  {
  }

  /** Collect one rooted subtree in document order. */
  method SemanticSubtreeIds(d: Document, root: NodeId, maxDepth: U32) returns (out: seq<NodeId>)
    requires d.WellFormed() && root in d.nodes
    ensures out == ListedFrom(d, root, Subtree(d, root), maxDepth)
  {
    hide ListedFrom, Owed, PendingFits, PendingAllFit, Document.WellFormed, Descendants, PendingIds;
    out := [];
    var stack := [Pending(root, 0)];
    ListAtFirst(d, root, maxDepth);
    while |stack| > 0
      invariant PendingAllFit(d, root, stack, maxDepth)
      invariant out + ListedFrom(d, root, Owed(d, PendingIds(stack)), maxDepth) ==
        ListedFrom(d, root, Subtree(d, root), maxDepth)
      decreases |Owed(d, PendingIds(stack))|
    {
      var at := stack[|stack| - 1];
      var rest := stack[..|stack| - 1];
      assert stack == rest + [at];
      ListFirst(d, root, rest, at, maxDepth);
      if d.nodes[at.id].isElement || d.nodes[at.id].isText {
        out := out + [at.id];
      }
      stack := PushListed(d, root, rest, at, maxDepth);
    }
    ListAtLast(d, root, maxDepth);
  }
}
