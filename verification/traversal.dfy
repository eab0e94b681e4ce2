/** The two stack traversals of an inspection, each proved to list exactly what the upward walks would accept. */
module Traversal {
  import opened Options
  import opened Chains
  import opened Forests
  import opened Documents
  import opened Inspection
  import opened Subtrees

  datatype Frame = Frame(id: NodeId, depth: U32, semanticParent: Option<NodeId>, ancestorsVisible: bool)

  /** What the traversal carries down agrees with what a walk up from the node would find. */
  ghost predicate FrameFits(d: Document, frame: Frame, k: nat, maxDepth: U32)
  {
    && Tops(d.Parents(), frame.id, k)
    && frame.depth == Saturate(ElementsAbove(d, frame.id, k))
    && frame.semanticParent == NearestElement(d, frame.id, k)
    && frame.ancestorsVisible == (k > 0 && d.Above(frame.id).Some? ==> VisibleUpTo(d, d.Above(frame.id).value, k - 1))
    && (k > 0 && d.Above(frame.id).Some? ==> WithinDepth(d, d.Above(frame.id).value, k - 1, maxDepth))
  }

  ghost predicate StackFits(d: Document, stack: seq<Frame>, maxDepth: U32)
  {
    forall i :: 0 <= i < |stack| ==> FrameFits(d, stack[i], LevelOf(d, stack[i].id), maxDepth)
  }

  function Ids(stack: seq<Frame>): seq<NodeId>
  {
    seq(|stack|, i requires 0 <= i < |stack| => stack[i].id)
  }

  lemma {:induction false} OfferedConcat(d: Document, a: seq<NodeId>, b: seq<NodeId>, maxDepth: U32)
    ensures OfferedFrom(d, a + b, maxDepth) == OfferedFrom(d, a, maxDepth) + OfferedFrom(d, b, maxDepth)
    decreases |a|
  {
    if a == [] {
      assert a + b == b;
    } else {
      OfferedConcat(d, a[1..], b, maxDepth);
      assert (a + b)[1..] == a[1..] + b;
    }
  }

  /** A node under a too deep element is itself too deep. */
  lemma {:induction false} TooDeepBelow(d: Document, x: NodeId, k: nat, m: nat, id: NodeId, maxDepth: U32)
    requires Up(d.Parents(), x, m) == Some(id) && Tops(d.Parents(), x, k + m)
    requires !WithinDepth(d, id, k, maxDepth)
    ensures !WithinDepth(d, x, k + m, maxDepth)
    decreases m
  {
    if m > 0 {
      TooDeepBelow(d, d.Above(x).value, k, m - 1, id, maxDepth);
    }
  }

  lemma {:induction false} NothingOffered(d: Document, ids: seq<NodeId>, maxDepth: U32)
    requires forall i :: 0 <= i < |ids| ==> !Offered(d, ids[i], maxDepth)
    ensures OfferedFrom(d, ids, maxDepth) == []
  {
    if ids != [] {
      NothingOffered(d, ids[1..], maxDepth);
    }
  }

  /** Pruning at a too deep element drops nothing that should have been offered. */
  lemma PruningIsSafe(d: Document, id: NodeId, k: nat, maxDepth: U32)
    requires d.WellFormed() && Tops(d.Parents(), id, k) && !WithinDepth(d, id, k, maxDepth)
    ensures OfferedFrom(d, Subtree(d, id), maxDepth) == []
  {
    SubtreeUnfolds(d, id, k);
    forall i | 0 <= i < |Subtree(d, id)| ensures !Offered(d, Subtree(d, id)[i], maxDepth) {
      var x := Subtree(d, id)[i];
      var m := PreIsBelow(d.Tree(), id, k, Room(d, k), x);
      LevelIs(d.Parents(), x, k + m);
      TooDeepBelow(d, x, k, m, id, maxDepth);
    }
    NothingOffered(d, Subtree(d, id), maxDepth);
  }

  lemma LevelTops(d: Document, id: NodeId)
    requires d.WellFormed() && id in d.nodes
    ensures Tops(d.Parents(), id, LevelOf(d, id))
  {
    assert Ends(d.Parents(), id);
  }

  lemma NothingToPush(d: Document, id: NodeId, children: seq<NodeId>, owed: seq<NodeId>)
    requires d.WellFormed() && id in d.nodes && children == d.nodes[id].children
    ensures var room := Room(d, LevelOf(d, id));
      && room > 0
      && Descendants(d, id) == PreAll(d.Tree(), children, room - 1)
      && owed == PreAll(d.Tree(), children[|children|..], room - 1) + owed
  {
    LevelTops(d, id);
    SubtreeUnfolds(d, id, LevelOf(d, id));
  }

  /** Push the children of a visited node so that the first one comes off first. */
  method PushChildren(d: Document, base: seq<Frame>, id: NodeId, depth: U32, semanticParent: Option<NodeId>,
      visible: bool, maxDepth: U32)
      returns (stack: seq<Frame>)
    requires d.WellFormed() && id in d.nodes && StackFits(d, base, maxDepth)
    requires forall c :: c in d.nodes[id].children ==>
      FrameFits(d, Frame(c, depth, semanticParent, visible), LevelOf(d, id) + 1, maxDepth)
    ensures StackFits(d, stack, maxDepth)
    ensures Owed(d, Ids(stack)) == Descendants(d, id) + Owed(d, Ids(base))
  {
    hide Owed, FrameFits, StackFits, Descendants, Pre, PreAll;
    ghost var k := LevelOf(d, id);
    LevelTops(d, id);
    var children := d.nodes[id].children;
    stack := base;
    NothingToPush(d, id, children, Owed(d, Ids(base)));
    for j := |children| downto 0
      invariant StackFits(d, stack, maxDepth)
      invariant Owed(d, Ids(stack)) == PreAll(d.Tree(), children[j..], Room(d, k) - 1) + Owed(d, Ids(base))
    {
      var frame := Frame(children[j], depth, semanticParent, visible);
      assert children[j..][1..] == children[j + 1..];
      PushOne(d, stack, frame, id, k, children[j..], Owed(d, Ids(base)), maxDepth);
      stack := stack + [frame];
    }
    assert children[0..] == children;
  }

  lemma PushOne(d: Document, stack: seq<Frame>, frame: Frame, id: NodeId, k: nat, ids: seq<NodeId>, base: seq<NodeId>,
      maxDepth: U32)
    requires d.WellFormed() && Tops(d.Parents(), id, k) && id in d.nodes
    requires ids != [] && frame.id == ids[0] && ids[0] in d.nodes[id].children
    requires StackFits(d, stack, maxDepth) && FrameFits(d, frame, k + 1, maxDepth)
    requires Room(d, k) > 0 && Owed(d, Ids(stack)) == PreAll(d.Tree(), ids[1..], Room(d, k) - 1) + base
    ensures StackFits(d, stack + [frame], maxDepth)
    ensures Owed(d, Ids(stack + [frame])) == PreAll(d.Tree(), ids, Room(d, k) - 1) + base
  {
    hide Owed, FrameFits;
    ChildUnfolds(d, id, k, ids[0]);
    PushOwed(d, stack, frame);
    assert Owed(d, Ids(stack + [frame])) ==
      (Pre(d.Tree(), ids[0], Room(d, k) - 1) + PreAll(d.Tree(), ids[1..], Room(d, k) - 1)) + base;
  }

  lemma PushOwed(d: Document, stack: seq<Frame>, frame: Frame)
    ensures Owed(d, Ids(stack + [frame])) == Subtree(d, frame.id) + Owed(d, Ids(stack))
  {
    assert Ids(stack + [frame]) == Ids(stack) + [frame.id];
    OwedPush(d, Ids(stack), frame.id);
  }

  /** Everything a visit computes from its frame, and what the children inherit. */
  lemma Visit(d: Document, frame: Frame, k: nat, maxDepth: U32)
    requires d.WellFormed() && FrameFits(d, frame, k, maxDepth)
    ensures frame.id in d.nodes && LevelOf(d, frame.id) == k
    ensures var node := d.nodes[frame.id];
      var visible := frame.ancestorsVisible && node.visible;
      var pruned := node.isElement && maxDepth != 0 && frame.depth > maxDepth;
      && Describe(d, frame.id) == Candidate(frame.id, frame.semanticParent, visible)
      && (WithinDepth(d, frame.id, k, maxDepth) <==> !pruned)
      && (!pruned ==> forall c :: c in node.children ==>
        FrameFits(d, Frame(c, Saturate(frame.depth + ElementCount(d, frame.id)),
                           if node.isElement then Some(frame.id) else frame.semanticParent, visible), k + 1, maxDepth))
  {
    SubtreeUnfolds(d, frame.id, k);
    forall c | c in d.nodes[frame.id].children ensures d.Above(c) == Some(frame.id) && Tops(d.Parents(), c, k + 1) {
      ChildUnfolds(d, frame.id, k, c);
    }
  }

  lemma OfferFirst(d: Document, id: NodeId, ids: seq<NodeId>, maxDepth: U32)
    ensures OfferedFrom(d, [id] + ids, maxDepth) ==
      (if Offered(d, id, maxDepth) then [Describe(d, id)] else []) + OfferedFrom(d, ids, maxDepth)
  {
    assert ([id] + ids)[1..] == ids;
  }

  /** One turn of the loop, in terms of what is owed before and after it. */
  lemma Turn(d: Document, rest: seq<Frame>, frame: Frame, k: nat, maxDepth: U32)
    requires d.WellFormed() && FrameFits(d, frame, k, maxDepth) && frame.id in d.nodes
    ensures |Owed(d, Ids(rest + [frame]))| == 1 + |Descendants(d, frame.id)| + |Owed(d, Ids(rest))|
    ensures var node := d.nodes[frame.id];
      var before := OfferedFrom(d, Owed(d, Ids(rest + [frame])), maxDepth);
      if node.isElement && maxDepth != 0 && frame.depth > maxDepth then
        before == OfferedFrom(d, Owed(d, Ids(rest)), maxDepth)
      else
        before ==
        (if !node.isElement && !node.isText then []
         else [Candidate(frame.id, frame.semanticParent, frame.ancestorsVisible && node.visible)])
        + OfferedFrom(d, Descendants(d, frame.id) + Owed(d, Ids(rest)), maxDepth)
  {
    hide Owed, Describe, Descendants, Subtree, WithinDepth, OfferedFrom, Document.WellFormed;
    Visit(d, frame, k, maxDepth);
    SubtreeUnfolds(d, frame.id, k);
    PushOwed(d, rest, frame);
    var node := d.nodes[frame.id];
    if node.isElement && maxDepth != 0 && frame.depth > maxDepth {
      PruningIsSafe(d, frame.id, k, maxDepth);
      OfferedConcat(d, Subtree(d, frame.id), Owed(d, Ids(rest)), maxDepth);
    } else {
      OfferFirst(d, frame.id, Descendants(d, frame.id) + Owed(d, Ids(rest)), maxDepth);
      assert Owed(d, Ids(rest + [frame])) == [frame.id] + (Descendants(d, frame.id) + Owed(d, Ids(rest)));
    }
  }

  lemma AtFirst(d: Document, maxDepth: U32)
    requires d.WellFormed()
    ensures StackFits(d, [Frame(d.root, 0, None, true)], maxDepth)
    ensures OfferedFrom(d, Owed(d, Ids([Frame(d.root, 0, None, true)])), maxDepth) == FullInspection(d, maxDepth)
  {
    RootEnds(d);
    var frame := Frame(d.root, 0, None, true);
    assert Ids([frame]) == [] + [d.root];
    OwedPush(d, [], d.root);
    assert Owed(d, Ids([frame])) == Subtree(d, d.root);
  }

  /** Collect the attached document in one traversal. */
  method AttachedSemanticCandidates(d: Document, maxDepth: U32) returns (candidates: seq<Candidate>)
    requires d.WellFormed()
    ensures candidates == FullInspection(d, maxDepth)
  {
    hide Owed, OfferedFrom, Descendants, FrameFits, FullInspection;
    candidates := [];
    var stack := [Frame(d.root, 0, None, true)];
    AtFirst(d, maxDepth);
    while |stack| > 0
      invariant StackFits(d, stack, maxDepth)
      invariant candidates + OfferedFrom(d, Owed(d, Ids(stack)), maxDepth) == FullInspection(d, maxDepth)
      decreases |Owed(d, Ids(stack))|
    {
      var frame := stack[|stack| - 1];
      var rest := stack[..|stack| - 1];
      assert stack == rest + [frame];
      ghost var k := LevelOf(d, frame.id);
      Visit(d, frame, k, maxDepth);
      Turn(d, rest, frame, k, maxDepth);
      stack := rest;

      var node := d.nodes[frame.id];
      var visible := frame.ancestorsVisible && node.visible;
      if node.isElement && maxDepth != 0 && frame.depth > maxDepth {
        continue;
      }
      if node.isElement || node.isText {
        candidates := candidates + [Candidate(frame.id, frame.semanticParent, visible)];
      }
      var childDepth := Saturate(frame.depth + if node.isElement then 1 else 0);
      var childParent := if node.isElement then Some(frame.id) else frame.semanticParent;
      stack := PushChildren(d, stack, frame.id, childDepth, childParent, visible, maxDepth);
    }
    NothingOwed(d, maxDepth);
  }

  lemma NothingOwed(d: Document, maxDepth: U32)
    ensures OfferedFrom(d, Owed(d, Ids([])), maxDepth) == []
  {
  }
}
