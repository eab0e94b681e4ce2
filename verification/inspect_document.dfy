/** Candidate selection of an inspection, whole or rooted, and what the two have to do with each other. */
module InspectDocument {
  import opened Options
  import opened Chains
  import opened Forests
  import opened Documents
  import opened Subtrees
  import opened Inspection
  import opened Walks
  import opened Traversal
  import opened LayoutChains
  import opened Rooted

  /** A rooted inspection reports its own root without a parent. */
  ghost function DescribeUnder(d: Document, root: NodeId, id: NodeId): Candidate
  {
    if id == root then Describe(d, id).(parent := None) else Describe(d, id)
  }

  ghost function DescribeAll(d: Document, root: NodeId, ids: seq<NodeId>): seq<Candidate>
  {
    if ids == [] then [] else [DescribeUnder(d, root, ids[0])] + DescribeAll(d, root, ids[1..])
  }

  /** What a rooted inspection is meant to return: nothing at all for a detached root. */
  ghost function RootedInspection(d: Document, root: NodeId, maxDepth: U32): seq<Candidate>
  {
    if d.Attached(root) then DescribeAll(d, root, ListedFrom(d, root, Subtree(d, root), maxDepth)) else []
  }

  /** Candidates whose layout chain ends. */
  ghost function LaidOut(d: Document, candidates: seq<Candidate>): seq<Candidate>
  {
    if candidates == [] then []
    else (if Ends(d.LayoutParents(), candidates[0].id) then [candidates[0]] else []) + LaidOut(d, candidates[1..])
  }

  lemma {:induction false} DescribeAllConcat(d: Document, root: NodeId, a: seq<NodeId>, b: seq<NodeId>)
    ensures DescribeAll(d, root, a + b) == DescribeAll(d, root, a) + DescribeAll(d, root, b)
    decreases |a|
  {
    if a == [] {
      assert a + b == b;
    } else {
      DescribeAllConcat(d, root, a[1..], b);
      assert (a + b)[1..] == a[1..] + b;
    }
  }

  lemma {:induction false} LaidOutConcat(d: Document, a: seq<Candidate>, b: seq<Candidate>)
    ensures LaidOut(d, a + b) == LaidOut(d, a) + LaidOut(d, b)
    decreases |a|
  {
    if a == [] {
      assert a + b == b;
    } else {
      LaidOutConcat(d, a[1..], b);
      assert (a + b)[1..] == a[1..] + b;
    }
  }

  lemma {:induction false} ListedAreListed(d: Document, root: NodeId, ids: seq<NodeId>, maxDepth: U32, x: NodeId)
    requires x in ListedFrom(d, root, ids, maxDepth)
    ensures x in ids && ElementOrText(d, x)
  {
    if x in ListedFrom(d, root, ids[1..], maxDepth) {
      ListedAreListed(d, root, ids[1..], maxDepth, x);
    }
  }

  /** Either the whole subtree is attached or none of it is. */
  lemma AttachedTogether(d: Document, root: NodeId, x: NodeId)
    requires d.WellFormed() && root in d.nodes && x in Subtree(d, root)
    ensures d.Attached(x) <==> d.Attached(root)
  {
    var links := d.Parents();
    assert Ends(links, root);
    var k := LevelOf(d, root);
    SubtreeUnfolds(d, root, k);
    var m := PreIsBelow(d.Tree(), root, k, Room(d, k), x);
    RootEnds(d);
    if d.Attached(root) {
      var j: nat :| Up(links, root, j) == Some(d.root);
      UpAdd(links, x, m, j);
      assert Up(links, x, m + j) == Some(d.root);
    }
    if d.Attached(x) {
      var j: nat :| Up(links, x, j) == Some(d.root);
      assert Tops(links, x, j);
      TopsUnique(links, x, j, k + m);
      UpAdd(links, x, m, k);
      assert Up(links, root, k) == Some(d.root);
    }
  }

  /** The rooted branch: list the subtree, keep what is attached, describe each by walking up from it. */
  method RootedCandidates(d: Document, root: NodeId, maxDepth: U32) returns (candidates: seq<Candidate>)
    requires d.WellFormed() && root in d.nodes
    ensures candidates == RootedInspection(d, root, maxDepth)
  {
    hide ListedFrom, Describe, Subtree, Document.WellFormed;
    var nodeLimit := |d.nodes|;
    var ids := SemanticSubtreeIds(d, root, maxDepth);
    candidates := [];
    for i := 0 to |ids|
      invariant candidates == if d.Attached(root) then DescribeAll(d, root, ids[..i]) else []
    {
      var id := ids[i];
      assert id in ListedFrom(d, root, Subtree(d, root), maxDepth);
      ListedAreListed(d, root, Subtree(d, root), maxDepth, id);
      AttachedTogether(d, root, id);
      AttachedWithinTheNodeCount(d, id, nodeLimit);
      DescribeNext(d, root, ids, i);
      var attached := DomChainIsAttached(d, id, nodeLimit);
      if attached {
        var parent := SemanticParent(d, id, Some(root));
        var visible := NodeIsVisible(d, id);
        candidates := candidates + [Candidate(id, parent, visible)];
        DescribedByWalks(d, root, id, parent, visible);
      }
    }
    assert ids[..|ids|] == ids;
  }

  lemma DescribedByWalks(d: Document, root: NodeId, id: NodeId, parent: Option<NodeId>, visible: bool)
    requires parent == if id == root then None else SemanticParentOf(d, id)
    requires visible == VisibleInTree(d, id)
    ensures Candidate(id, parent, visible) == DescribeUnder(d, root, id)
  {
  }

  lemma DescribeNext(d: Document, root: NodeId, ids: seq<NodeId>, i: nat)
    requires i < |ids|
    ensures DescribeAll(d, root, ids[..i + 1]) == DescribeAll(d, root, ids[..i]) + [DescribeUnder(d, root, ids[i])]
  {
    assert ids[..i + 1] == ids[..i] + [ids[i]];
    DescribeAllConcat(d, root, ids[..i], [ids[i]]);
  }

  datatype InspectError = UnknownNode

  /** Select what an inspection reports: whole document or one subtree, then only nodes with a sound layout chain. */
  method InspectDocument(d: Document, root: Option<NodeId>, maxDepth: U32)
      returns (r: Result<seq<Candidate>, InspectError>)
    requires d.WellFormed()
    ensures r.Err? <==> root.Some? && root.value !in d.nodes
    ensures r.Ok? && root.None? ==> r.value == LaidOut(d, FullInspection(d, maxDepth))
    ensures r.Ok? && root.Some? ==> r.value == LaidOut(d, RootedInspection(d, root.value, maxDepth))
  {
    hide Document.WellFormed, RootedInspection, FullInspection;
    if root.Some? && root.value !in d.nodes {
      return Err(UnknownNode);
    }
    var nodeLimit := |d.nodes|;
    var candidates;
    if root.Some? {
      candidates := RootedCandidates(d, root.value, maxDepth);
    } else {
      candidates := AttachedSemanticCandidates(d, maxDepth);
    }
    var ids := seq(|candidates|, i requires 0 <= i < |candidates| => candidates[i].id);
    var validity, _ := LayoutChainValidities(d, ids, nodeLimit);
    var nodes: seq<Candidate> := [];
    for i := 0 to |candidates|
      invariant nodes == LaidOut(d, candidates[..i])
    {
      var candidate := candidates[i];
      assert ids[i] in ids;
      EndsWithinNodeLimit(d, candidate.id);
      LaidOutNext(d, candidates, i);
      if candidate.id in validity && validity[candidate.id] {
        nodes := nodes + [candidate];
      }
    }
    assert candidates[..|candidates|] == candidates;
    return Ok(nodes);
  }

  lemma EndsWithinNodeLimit(d: Document, id: NodeId)
    ensures EndsWithin(d.LayoutParents(), id, |d.nodes|) <==> Ends(d.LayoutParents(), id)
  {
    assert d.LayoutParents().Keys == d.nodes.Keys;
    assert |d.LayoutParents()| == |d.LayoutParents().Keys| == |d.nodes.Keys|;
    EndsWithinTheNodeCount(d.LayoutParents(), id, |d.nodes|);
  }

  lemma LaidOutNext(d: Document, candidates: seq<Candidate>, i: nat)
    requires i < |candidates|
    ensures LaidOut(d, candidates[..i + 1]) ==
      LaidOut(d, candidates[..i]) + if Ends(d.LayoutParents(), candidates[i].id) then [candidates[i]] else []
  {
    assert candidates[..i + 1] == candidates[..i] + [candidates[i]];
    LaidOutConcat(d, candidates[..i], [candidates[i]]);
    assert [candidates[i]][1..] == [];
  }
}
