/** The two main results about inspections: the traversal is exact, and a subtree inspection is a slice of the whole. */
module InspectionTheorems {
  import opened Options
  import opened Sequences
  import opened Chains
  import opened Forests
  import opened Documents
  import opened Subtrees
  import opened Inspection
  import opened Traversal
  import opened Rooted
  import opened InspectDocument

  function CandidateIds(candidates: seq<Candidate>): seq<NodeId>
  {
    seq(|candidates|, i requires 0 <= i < |candidates| => candidates[i].id)
  }

  lemma {:induction false} OfferedAreOffered(d: Document, ids: seq<NodeId>, maxDepth: U32, id: NodeId)
    ensures id in CandidateIds(OfferedFrom(d, ids, maxDepth)) <==> id in ids && Offered(d, id, maxDepth)
    decreases |ids|
  {
    if ids != [] {
      hide Offered, Describe;
      OfferedAreOffered(d, ids[1..], maxDepth, id);
      var here := if Offered(d, ids[0], maxDepth) then [Describe(d, ids[0])] else [];
      var others := OfferedFrom(d, ids[1..], maxDepth);
      assert CandidateIds(here + others) == CandidateIds(here) + CandidateIds(others);
      DescribeKeepsId(d, ids[0]);
      assert CandidateIds(here) == if Offered(d, ids[0], maxDepth) then [ids[0]] else [];
    }
  }

  lemma DescribeKeepsId(d: Document, id: NodeId)
    ensures Describe(d, id).id == id
  {
  }

  lemma {:induction false} OfferedAreDistinct(d: Document, ids: seq<NodeId>, maxDepth: U32)
    requires Distinct(ids)
    ensures Distinct(CandidateIds(OfferedFrom(d, ids, maxDepth)))
    decreases |ids|
  {
    if ids != [] {
      hide Offered, Describe;
      OfferedAreDistinct(d, ids[1..], maxDepth);
      var here := if Offered(d, ids[0], maxDepth) then [Describe(d, ids[0])] else [];
      var others := OfferedFrom(d, ids[1..], maxDepth);
      assert CandidateIds(here + others) == CandidateIds(here) + CandidateIds(others);
      DescribeKeepsId(d, ids[0]);
      OfferedAreOffered(d, ids[1..], maxDepth, ids[0]);
      DistinctConcat(CandidateIds(here), CandidateIds(others));
    }
  }

  lemma {:induction false} OfferedAreDescribed(d: Document, ids: seq<NodeId>, maxDepth: U32, c: Candidate)
    requires c in OfferedFrom(d, ids, maxDepth)
    ensures c == Describe(d, c.id)
    decreases |ids|
  {
    if c in OfferedFrom(d, ids[1..], maxDepth) {
      OfferedAreDescribed(d, ids[1..], maxDepth, c);
    }
  }

  /**
   The one-pass traversal is exact: it offers precisely the attached elements and text inside the depth
   limit, each once, and carries for each the parent and visibility that walking up would find.
   */
  lemma InspectionIsExact(d: Document, maxDepth: U32, id: NodeId)
    requires d.WellFormed()
    ensures id in CandidateIds(FullInspection(d, maxDepth)) <==> d.Attached(id) && Offered(d, id, maxDepth)
    ensures Distinct(CandidateIds(FullInspection(d, maxDepth)))
    ensures forall c :: c in FullInspection(d, maxDepth) ==> c == Describe(d, c.id)
  {
    hide Offered, Describe;
    RootEnds(d);
    SubtreeUnfolds(d, d.root, 0);
    PreIsTheSubtree(d.Tree(), d.root, 0, Room(d, 0), id);
    assert id in Subtree(d, d.root) <==> d.Attached(id) by {
      if m: nat :| d.Tree().Below(id, d.root, m) {
        assert Up(d.Parents(), id, m) == Some(d.root);
      }
      if m: nat :| Up(d.Parents(), id, m) == Some(d.root) {
        assert d.Tree().Below(id, d.root, m);
      }
    }
    OfferedAreOffered(d, Subtree(d, d.root), maxDepth, id);
    OfferedAreDistinct(d, Subtree(d, d.root), maxDepth);
    forall c | c in FullInspection(d, maxDepth) ensures c == Describe(d, c.id) {
      OfferedAreDescribed(d, Subtree(d, d.root), maxDepth, c);
    }
  }

  /** The node hangs under the root of a rooted inspection, with no more elements on the way than the limit allows. */
  ghost predicate HangsWithin(d: Document, root: NodeId, id: NodeId, maxDepth: U32)
  {
    exists m: nat :: Up(d.Parents(), id, m) == Some(root) && WithinBelow(d, id, m, maxDepth)
  }

  lemma {:induction false} DescribedIds(d: Document, root: NodeId, ids: seq<NodeId>)
    ensures CandidateIds(DescribeAll(d, root, ids)) == ids
    ensures forall c :: c in DescribeAll(d, root, ids) ==> c == DescribeUnder(d, root, c.id)
  {
    hide Describe;
    if ids != [] {
      DescribedIds(d, root, ids[1..]);
      DescribeKeepsId(d, ids[0]);
      assert ids == [ids[0]] + ids[1..];
      assert CandidateIds(DescribeAll(d, root, ids)) ==
        [ids[0]] + CandidateIds(DescribeAll(d, root, ids[1..]));
    }
  }

  lemma {:induction false} ListedAre(d: Document, root: NodeId, ids: seq<NodeId>, maxDepth: U32, id: NodeId)
    ensures id in ListedFrom(d, root, ids, maxDepth) <==> id in ids && Listed(d, root, id, maxDepth)
    ensures Distinct(ids) ==> Distinct(ListedFrom(d, root, ids, maxDepth))
  {
    hide Listed;
    if ids != [] {
      ListedAre(d, root, ids[1..], maxDepth, id);
      ListedAre(d, root, ids[1..], maxDepth, ids[0]);
    }
  }

  /** How far below the root a node hangs is the difference of their levels. */
  lemma LevelsBelow(d: Document, root: NodeId, id: NodeId, m: nat)
    requires d.WellFormed() && root in d.nodes && Up(d.Parents(), id, m) == Some(root)
    ensures DepthBelow(d, root, id) == m
  {
    assert Ends(d.Parents(), root);
    UpAdd(d.Parents(), id, m, LevelOf(d, root));
    LevelIs(d.Parents(), id, m + LevelOf(d, root));
  }

  /**
   A rooted inspection is exact at any depth limit, for attached roots and detached ones: it reports precisely the
   attached elements and text that hang under the root within the limit, each once, with the parent and
   visibility that walking up finds, its own root without a parent.
   */
  lemma RootedInspectionIsExact(d: Document, root: NodeId, maxDepth: U32, id: NodeId)
    requires d.WellFormed() && root in d.nodes
    ensures id in CandidateIds(RootedInspection(d, root, maxDepth)) <==>
      d.Attached(id) && ElementOrText(d, id) && HangsWithin(d, root, id, maxDepth)
    ensures Distinct(CandidateIds(RootedInspection(d, root, maxDepth)))
    ensures forall c :: c in RootedInspection(d, root, maxDepth) ==> c == DescribeUnder(d, root, c.id)
  {
    hide Describe, DescribeUnder, DescribeAll, ListedFrom, ElementOrText, WithinBelow;
    assert Ends(d.Parents(), root);
    var k := LevelOf(d, root);
    SubtreeUnfolds(d, root, k);
    PreIsTheSubtree(d.Tree(), root, k, Room(d, k), id);
    var ids := ListedFrom(d, root, Subtree(d, root), maxDepth);
    ListedAre(d, root, Subtree(d, root), maxDepth, id);
    DescribedIds(d, root, ids);
    forall m: nat | Up(d.Parents(), id, m) == Some(root)
      ensures DepthBelow(d, root, id) == m && id in Subtree(d, root)
    {
      LevelsBelow(d, root, id, m);
      assert d.Tree().Below(id, root, m);
    }
    if id in Subtree(d, root) {
      var m: nat :| d.Tree().Below(id, root, m);
      AttachedTogether(d, root, id);
      assert Up(d.Parents(), id, m) == Some(root);
      assert HangsWithin(d, root, id, maxDepth) <==> WithinBelow(d, id, m, maxDepth);
      assert Listed(d, root, id, maxDepth) <==> ElementOrText(d, id) && WithinBelow(d, id, m, maxDepth);
    }
    if d.Attached(root) {
      assert CandidateIds(RootedInspection(d, root, maxDepth)) == ids;
    } else {
      assert CandidateIds(RootedInspection(d, root, maxDepth)) == [];
    }
  }

  /**
   What is reported in the end, whole or rooted: precisely the attached elements and text inside the depth limit
   whose layout chain ends.
   */
  lemma ReportIsExact(d: Document, root: NodeId, maxDepth: U32, id: NodeId)
    requires d.WellFormed()
    ensures id in CandidateIds(LaidOut(d, FullInspection(d, maxDepth))) <==>
      d.Attached(id) && Offered(d, id, maxDepth) && Ends(d.LayoutParents(), id)
    ensures root in d.nodes ==> (
      id in CandidateIds(LaidOut(d, RootedInspection(d, root, maxDepth))) <==>
        && d.Attached(id) && ElementOrText(d, id) && HangsWithin(d, root, id, maxDepth)
        && Ends(d.LayoutParents(), id))
  {
    hide Offered, Describe, DescribeUnder, ElementOrText, HangsWithin, LaidOut, FullInspection, RootedInspection,
      Document.WellFormed;
    InspectionIsExact(d, maxDepth, id);
    LaidOutIds(d, FullInspection(d, maxDepth), id);
    if root in d.nodes {
      RootedInspectionIsExact(d, root, maxDepth, id);
      LaidOutIds(d, RootedInspection(d, root, maxDepth), id);
    }
  }

  lemma {:induction false} LaidOutIds(d: Document, candidates: seq<Candidate>, id: NodeId)
    ensures id in CandidateIds(LaidOut(d, candidates)) <==>
      id in CandidateIds(candidates) && Ends(d.LayoutParents(), id)
    decreases |candidates|
  {
    if candidates != [] {
      LaidOutIds(d, candidates[1..], id);
      var here := if Ends(d.LayoutParents(), candidates[0].id) then [candidates[0]] else [];
      var others := LaidOut(d, candidates[1..]);
      assert CandidateIds(here) == if Ends(d.LayoutParents(), candidates[0].id) then [candidates[0].id] else [];
      assert CandidateIds(here + others) == CandidateIds(here) + CandidateIds(others);
      assert candidates == [candidates[0]] + candidates[1..];
      assert CandidateIds(candidates) == [candidates[0].id] + CandidateIds(candidates[1..]);
    }
  }

  /** The same candidates, but the given root without its parent. */
  function Rerooted(candidates: seq<Candidate>, root: NodeId): seq<Candidate>
  {
    seq(|candidates|, i requires 0 <= i < |candidates| =>
      if candidates[i].id == root then candidates[i].(parent := None) else candidates[i])
  }

  /** The two depth limits select the same nodes under the root. */
  ghost predicate SameSelection(d: Document, root: NodeId, ids: seq<NodeId>, full: U32, rooted: U32)
  {
    forall id :: id in ids ==> (Offered(d, id, full) <==> Listed(d, root, id, rooted))
  }

  lemma {:induction false} OffersTheListed(d: Document, root: NodeId, ids: seq<NodeId>, full: U32, rooted: U32)
    requires SameSelection(d, root, ids, full, rooted)
    ensures DescribeAll(d, root, ListedFrom(d, root, ids, rooted)) == Rerooted(OfferedFrom(d, ids, full), root)
    decreases |ids|
  {
    if ids != [] {
      hide Offered, Describe, Listed, SameSelection;
      SameSelectionSplits(d, root, ids, full, rooted);
      OffersTheListed(d, root, ids[1..], full, rooted);
      var head := if Listed(d, root, ids[0], rooted) then [ids[0]] else [];
      DescribeAllConcat(d, root, head, ListedFrom(d, root, ids[1..], rooted));
      DescribeKeepsId(d, ids[0]);
      assert head != [] ==> head[1..] == [];
    }
  }

  lemma SameSelectionSplits(d: Document, root: NodeId, ids: seq<NodeId>, full: U32, rooted: U32)
    requires ids != [] && SameSelection(d, root, ids, full, rooted)
    ensures SameSelection(d, root, ids[1..], full, rooted)
    ensures Offered(d, ids[0], full) <==> Listed(d, root, ids[0], rooted)
  {
    hide Offered, Listed;
  }

  /** The elements on a chain are those up to the root, the root, and those above it. */
  lemma {:induction false} ElementsAdd(d: Document, x: NodeId, m: nat, root: NodeId, k: nat)
    requires Up(d.Parents(), x, m) == Some(root) && Tops(d.Parents(), root, k)
    ensures ElementCount(d, x) + ElementsAbove(d, x, k + m) ==
      ElementsUpTo(d, x, m) + ElementCount(d, root) + ElementsAbove(d, root, k)
    decreases m
  {
    if m > 0 {
      ElementsAdd(d, d.Above(x).value, m - 1, root, k);
    }
  }

  /** Nothing on a chain with few enough elements is too deep. */
  lemma {:induction false} FewElementsAreWithin(d: Document, x: NodeId, k: nat, limit: U32)
    requires ElementsAbove(d, x, k) <= limit
    ensures WithinDepth(d, x, k, limit)
    decreases k
  {
    if k > 0 && d.Above(x).Some? {
      FewElementsAreWithin(d, d.Above(x).value, k - 1, limit);
    }
  }

  /** Counting from an element root, and counting from the top with a limit that is larger by what is above it. */
  lemma {:induction false} LimitsAgree(d: Document, x: NodeId, m: nat, root: NodeId, k: nat, full: U32, rooted: U32)
    requires Up(d.Parents(), x, m) == Some(root) && Tops(d.Parents(), root, k) && ElementCount(d, root) == 1
    requires 0 < rooted && full == rooted + ElementsAbove(d, root, k) < U32_MAX
    ensures WithinDepth(d, x, k + m, full) <==> WithinBelow(d, x, m, rooted)
    decreases m
  {
    if m == 0 {
      FewElementsAreWithin(d, root, k, full);
    } else {
      var above := d.Above(x).value;
      LimitsAgree(d, above, m - 1, root, k, full, rooted);
      ElementsAdd(d, above, m - 1, root, k);
    }
  }

  lemma SelectsTheSameBounded(d: Document, root: NodeId, full: U32, rooted: U32)
    requires d.WellFormed() && root in d.nodes && d.nodes[root].isElement
    requires 0 < rooted && full == rooted + ElementsAbove(d, root, LevelOf(d, root)) < U32_MAX
    ensures SameSelection(d, root, Subtree(d, root), full, rooted)
  {
    hide WithinDepth, WithinBelow, ElementOrText;
    assert Ends(d.Parents(), root);
    var k := LevelOf(d, root);
    SubtreeUnfolds(d, root, k);
    forall id | id in Subtree(d, root) ensures Offered(d, id, full) <==> Listed(d, root, id, rooted) {
      var m := PreIsBelow(d.Tree(), root, k, Room(d, k), id);
      LevelIs(d.Parents(), id, k + m);
      LimitsAgree(d, id, m, root, k, full, rooted);
    }
  }

  /** Without a depth limit, rooted and whole inspections select by the same rule. */
  lemma Unlimited(d: Document, root: NodeId, id: NodeId)
    ensures Offered(d, id, 0) <==> Listed(d, root, id, 0)
  {
    NoLimit(d, id, LevelOf(d, id));
  }

  lemma {:induction false} NoLimit(d: Document, id: NodeId, k: nat)
    ensures WithinDepth(d, id, k, 0)
    decreases k
  {
    if k > 0 && d.Above(id).Some? {
      NoLimit(d, d.Above(id).value, k - 1);
    }
  }

  lemma {:induction false} LaidOutRerooted(d: Document, candidates: seq<Candidate>, root: NodeId)
    ensures LaidOut(d, Rerooted(candidates, root)) == Rerooted(LaidOut(d, candidates), root)
    decreases |candidates|
  {
    if candidates != [] {
      LaidOutRerooted(d, candidates[1..], root);
      assert Rerooted(candidates, root)[1..] == Rerooted(candidates[1..], root);
    }
  }

  /** Every candidate offered from `ids` is one of them. */
  lemma LaidOutFrom(d: Document, ids: seq<NodeId>, maxDepth: U32, c: Candidate)
    requires c in LaidOut(d, OfferedFrom(d, ids, maxDepth))
    ensures c.id in ids
  {
    LaidOutKeeps(d, OfferedFrom(d, ids, maxDepth), c);
    var i :| 0 <= i < |OfferedFrom(d, ids, maxDepth)| && OfferedFrom(d, ids, maxDepth)[i] == c;
    assert CandidateIds(OfferedFrom(d, ids, maxDepth))[i] == c.id;
    OfferedAreOffered(d, ids, maxDepth, c.id);
  }

  lemma {:induction false} LaidOutKeeps(d: Document, candidates: seq<Candidate>, c: Candidate)
    requires c in LaidOut(d, candidates)
    ensures c in candidates
    decreases |candidates|
  {
    if c in LaidOut(d, candidates[1..]) {
      LaidOutKeeps(d, candidates[1..], c);
    }
  }

  /**
   Inspecting an attached root with no depth limit reports one contiguous slice of what inspecting the
   whole document reports: the nodes under the root and no others, in the same order with the same
   parents and visibility, except that the root itself comes without its parent.
   */
  lemma RootedInspectionIsASlice(d: Document, root: NodeId)
      returns (before: seq<Candidate>, slice: seq<Candidate>, after: seq<Candidate>)
    requires d.WellFormed() && root in d.nodes && d.Attached(root)
    ensures LaidOut(d, FullInspection(d, 0)) == before + slice + after
    ensures LaidOut(d, RootedInspection(d, root, 0)) == Rerooted(slice, root)
    ensures forall c :: c in slice ==> Meets(d.Parents(), c.id, root)
    ensures forall c :: c in before + after ==> !Meets(d.Parents(), c.id, root)
  {
    hide Offered, Listed, Subtree, FullInspection, RootedInspection;
    forall id | id in Subtree(d, root) ensures Offered(d, id, 0) <==> Listed(d, root, id, 0) {
      Unlimited(d, root, id);
    }
    before, slice, after := SliceOfInspection(d, root, 0, 0);
  }

  /**
   The same with a depth limit, under an element: a rooted inspection limited to `rooted` is the slice of the whole
   inspection whose limit is larger by the number of elements above the root.
   */
  lemma BoundedInspectionIsASlice(d: Document, root: NodeId, full: U32, rooted: U32)
      returns (before: seq<Candidate>, slice: seq<Candidate>, after: seq<Candidate>)
    requires d.WellFormed() && root in d.nodes && d.Attached(root) && d.nodes[root].isElement
    requires 0 < rooted && full == rooted + ElementsAbove(d, root, LevelOf(d, root)) < U32_MAX
    ensures LaidOut(d, FullInspection(d, full)) == before + slice + after
    ensures LaidOut(d, RootedInspection(d, root, rooted)) == Rerooted(slice, root)
    ensures forall c :: c in slice ==> Meets(d.Parents(), c.id, root)
    ensures forall c :: c in before + after ==> !Meets(d.Parents(), c.id, root)
  {
    SelectsTheSameBounded(d, root, full, rooted);
    before, slice, after := SliceOfInspection(d, root, full, rooted);
  }

  /** Limits that select the same nodes under the root give the same candidates there. */
  lemma SliceOfInspection(d: Document, root: NodeId, full: U32, rooted: U32)
      returns (before: seq<Candidate>, slice: seq<Candidate>, after: seq<Candidate>)
    requires d.WellFormed() && root in d.nodes && d.Attached(root)
    requires SameSelection(d, root, Subtree(d, root), full, rooted)
    ensures LaidOut(d, FullInspection(d, full)) == before + slice + after
    ensures LaidOut(d, RootedInspection(d, root, rooted)) == Rerooted(slice, root)
    ensures forall c :: c in slice ==> Meets(d.Parents(), c.id, root)
    ensures forall c :: c in before + after ==> !Meets(d.Parents(), c.id, root)
  {
    var left, right := SubtreeIsASlice(d, root);
    var core := Subtree(d, root);
    OfferedConcat(d, left + core, right, full);
    OfferedConcat(d, left, core, full);
    var offered := OfferedFrom(d, core, full);
    LaidOutConcat(d, OfferedFrom(d, left, full) + offered, OfferedFrom(d, right, full));
    LaidOutConcat(d, OfferedFrom(d, left, full), offered);
    before, after := LaidOut(d, OfferedFrom(d, left, full)), LaidOut(d, OfferedFrom(d, right, full));
    slice := LaidOut(d, offered);
    OffersTheListed(d, root, core, full, rooted);
    LaidOutRerooted(d, offered, root);
    forall c | c in slice ensures Meets(d.Parents(), c.id, root) {
      LaidOutFrom(d, core, full, c);
    }
    forall c | c in before + after ensures !Meets(d.Parents(), c.id, root) {
      if c in before {
        LaidOutFrom(d, left, full, c);
      } else {
        LaidOutFrom(d, right, full, c);
      }
    }
  }

  /** In the preorder of the document, the nodes under `root` are exactly one slice. */
  lemma SubtreeIsASlice(d: Document, root: NodeId) returns (left: seq<NodeId>, right: seq<NodeId>)
    requires d.WellFormed() && root in d.nodes && d.Attached(root)
    ensures Subtree(d, d.root) == left + Subtree(d, root) + right
    ensures forall id :: id in Subtree(d, root) ==> Meets(d.Parents(), id, root)
    ensures forall id :: id in left || id in right ==> !Meets(d.Parents(), id, root)
  {
    hide Subtree, Document.WellFormed;
    RootEndsThere(d, root);
    var m := LevelOf(d, root);
    left, right := SliceOf(d, root, m);
    WholeIsDistinct(d);
    forall id ensures id in Subtree(d, root) <==> Meets(d.Parents(), id, root) {
      UnderIsSubtree(d, root, m, id);
    }
    DistinctParts(left, Subtree(d, root), right);
  }

  lemma DistinctParts(a: seq<NodeId>, b: seq<NodeId>, c: seq<NodeId>)
    requires Distinct(a + b + c)
    ensures forall x :: x in a || x in c ==> x !in b
  {
    var all := a + b + c;
    forall i, j | 0 <= i < |a| && 0 <= j < |b| ensures a[i] != b[j] {
      assert all[i] == a[i] && all[|a| + j] == b[j];
    }
    forall i, j | 0 <= i < |c| && 0 <= j < |b| ensures c[i] != b[j] {
      assert all[|a| + |b| + i] == c[i] && all[|a| + j] == b[j];
    }
  }

  lemma RootEndsThere(d: Document, root: NodeId)
    requires d.WellFormed() && root in d.nodes && d.Attached(root)
    ensures Up(d.Parents(), root, LevelOf(d, root)) == Some(d.root) && Tops(d.Parents(), root, LevelOf(d, root))
  {
    assert Ends(d.Parents(), root);
    var j: nat :| Up(d.Parents(), root, j) == Some(d.root);
    assert Tops(d.Parents(), root, j);
    LevelIs(d.Parents(), root, j);
  }

  lemma SliceOf(d: Document, root: NodeId, m: nat) returns (left: seq<NodeId>, right: seq<NodeId>)
    requires d.WellFormed() && Up(d.Parents(), root, m) == Some(d.root) && LevelOf(d, root) == m
    ensures Subtree(d, d.root) == left + Subtree(d, root) + right
  {
    RootEnds(d);
    SubtreeUnfolds(d, d.root, 0);
    left, right := PreSlice(d.Tree(), d.root, 0, Room(d, 0), root, m);
    SubtreeUnfolds(d, root, m);
  }

  lemma WholeIsDistinct(d: Document)
    requires d.WellFormed()
    ensures Distinct(Subtree(d, d.root))
  {
    RootEnds(d);
    SubtreeUnfolds(d, d.root, 0);
    PreDistinct(d.Tree(), d.root, 0, Room(d, 0));
  }

  lemma UnderIsSubtree(d: Document, root: NodeId, k: nat, id: NodeId)
    requires d.WellFormed() && Tops(d.Parents(), root, k)
    ensures id in Subtree(d, root) <==> Meets(d.Parents(), id, root)
  {
    SubtreeUnfolds(d, root, k);
    PreIsTheSubtree(d.Tree(), root, k, Room(d, k), id);
    if m: nat :| d.Tree().Below(id, root, m) {
      assert Up(d.Parents(), id, m) == Some(root);
    }
    if m: nat :| Up(d.Parents(), id, m) == Some(root) {
      assert d.Tree().Below(id, root, m);
    }
  }
}
