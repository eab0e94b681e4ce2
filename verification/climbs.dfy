/** Which part of a window a sweep may press: climbs from a marker or a dismiss control to the subtree that owns it. */
module Climbs {
  import opened Options
  import opened Sequences
  import opened Chains
  import opened Forests
  import opened ForestStacks
  import opened NodeLists
  import opened Reach

  const MAX_PLAUSIBLE_DIALOG_BUTTONS: nat := 12
  const MAX_DIALOG_CLIMB: nat := 8

  type Matcher = SemanticNode -> bool

  // Surfaces

  predicate IsOnscreenButton(node: SemanticNode)
  {
    node.role == "button" && node.onscreen
  }

  function OnscreenButtons(nodes: seq<SemanticNode>): set<NodeId>
  {
    set id | id in ById(nodes) && IsOnscreenButton(ById(nodes)[id])
  }

  function OnscreenTotal(nodes: seq<SemanticNode>): nat
    decreases |nodes|
  {
    if nodes == [] then 0
    else OnscreenTotal(nodes[..|nodes| - 1]) + if IsOnscreenButton(nodes[|nodes| - 1]) then 1 else 0
  }

  lemma {:induction false} TotalIsAllButtons(nodes: seq<SemanticNode>)
    requires UniqueIds(nodes)
    ensures OnscreenTotal(nodes) == |OnscreenButtons(nodes)|
    decreases |nodes|
  {
    if nodes != [] {
      var front, last := nodes[..|nodes| - 1], nodes[|nodes| - 1];
      UniqueFront(nodes);
      TotalIsAllButtons(front);
      ByIdFinds(front, last.id);
      var rest := OnscreenButtons(front);
      assert last.id !in rest;
      assert OnscreenButtons(nodes) == if IsOnscreenButton(last) then rest + {last.id} else rest;
    }
  }

  /** Covering anything takes an on-screen button, so the total is not zero. */
  lemma CoveringTakesButtons(nodes: seq<SemanticNode>, ids: seq<NodeId>)
    ensures CountIn(ids, OnscreenButtons(nodes)) > 0 ==> OnscreenTotal(nodes) > 0
  {
    hide ById;
    if OnscreenTotal(nodes) == 0 {
      forall id ensures id !in OnscreenButtons(nodes) {
        ByIdIsListed(nodes, id);
        NoButtonsNoTotal(nodes);
      }
      NothingWanted(ids, OnscreenButtons(nodes));
    }
  }

  lemma {:induction false} NoButtonsNoTotal(nodes: seq<SemanticNode>)
    requires OnscreenTotal(nodes) == 0
    ensures forall node :: node in nodes ==> !IsOnscreenButton(node)
    decreases |nodes|
  {
    if nodes != [] {
      NoButtonsNoTotal(nodes[..|nodes| - 1]);
      assert nodes == nodes[..|nodes| - 1] + [nodes[|nodes| - 1]];
    }
  }

  lemma {:induction false} NothingWanted(ids: seq<NodeId>, wanted: set<NodeId>)
    requires wanted == {}
    ensures CountIn(ids, wanted) == 0
  {
    if ids != [] {
      NothingWanted(ids[1..], wanted);
    }
  }

  /** The node is a button and on screen, as the sweep sees it. */
  predicate Shows(node: SemanticNode)
  {
    node.onscreen && node.role == "button"
  }

  /** The total counts every listed button that is on screen, repeated ids or not. */
  lemma {:induction false} TotalCountsTheShown(nodes: seq<SemanticNode>)
    ensures OnscreenTotal(nodes) == |set i | 0 <= i < |nodes| && Shows(nodes[i])|
    decreases |nodes|
  {
    var shown := set i | 0 <= i < |nodes| && Shows(nodes[i]);
    if nodes != [] {
      var n := |nodes| - 1;
      TotalCountsTheShown(nodes[..n]);
      var before := set i | 0 <= i < n && Shows(nodes[..n][i]);
      assert shown == before + if Shows(nodes[n]) then {n} else {};
    }
  }

  lemma ShownAreTheButtons(nodes: seq<SemanticNode>, x: NodeId)
    requires UniqueIds(nodes)
    ensures x in OnscreenButtons(nodes) <==> exists node :: node in nodes && node.id == x && Shows(node)
  {
    ByIdFinds(nodes, x);
    if node :| node in nodes && node.id == x && Shows(node) {
      SameIdSameNode(nodes, node);
    }
  }

  /** What the `j`-th ancestor covers of the screen. */
  ghost function Coverage(nodes: seq<SemanticNode>, id: NodeId, j: nat): nat
  {
    Covered(nodes, id, j, OnscreenButtons(nodes))
  }

  /** With unique ids an ancestor covers the whole total exactly when every on-screen button hangs below it. */
  lemma FullCoverageIsEverything(nodes: seq<SemanticNode>, id: NodeId, j: nat)
    requires UniqueIds(nodes) && FiniteAt(nodes, id, j)
    ensures Coverage(nodes, id, j) <= OnscreenTotal(nodes)
    ensures Coverage(nodes, id, j) == OnscreenTotal(nodes) <==>
      forall node :: node in nodes && Shows(node) ==>
        exists m: nat :: Ancestor(nodes, node.id, m) == Ancestor(nodes, id, j)
  {
    hide SubtreeIn, Window, UniqueIds, Finite, OnscreenButtons, OnscreenTotal, Shows;
    var wanted, root := OnscreenButtons(nodes), Ancestor(nodes, id, j).value;
    var held := Members(SubtreeIn(Window(nodes), root));
    TotalIsAllButtons(nodes);
    SubtreeIsWhatHangsBelow(nodes, root, root);
    CountInIsOverlap(SubtreeIn(Window(nodes), root), wanted);
    SmallerMeansMissing(held, wanted);
    forall x ensures x in held <==> exists m: nat :: Ancestor(nodes, x, m) == Some(root) {
      SubtreeIsWhatHangsBelow(nodes, root, x);
    }
    forall x ensures x in wanted <==> exists node :: node in nodes && node.id == x && Shows(node) {
      ShownAreTheButtons(nodes, x);
    }
    if wanted <= held {
      forall node | node in nodes && Shows(node)
        ensures exists m: nat :: Ancestor(nodes, node.id, m) == Ancestor(nodes, id, j)
      {
        assert node.id in wanted;
      }
    }
  }

  lemma SmallerMeansMissing(held: set<NodeId>, wanted: set<NodeId>)
    ensures |held * wanted| <= |wanted|
    ensures |held * wanted| == |wanted| <==> wanted <= held
  {
    var missing := wanted - held;
    assert wanted == held * wanted + missing && (held * wanted) !! missing;
    assert |wanted| == |held * wanted| + |missing|;
    assert |missing| == 0 <==> missing == {};
  }

  /** The `j`-th ancestor is a listed `main`. */
  predicate MainAt(nodes: seq<SemanticNode>, id: NodeId, j: nat)
  {
    var at := Ancestor(nodes, id, j);
    at.Some? && at.value in ById(nodes) && ById(nodes)[at.value].role == "main"
  }

  /** No nearer ancestor is a `main`. */
  ghost predicate NearestMain(nodes: seq<SemanticNode>, id: NodeId, j: nat)
  {
    j > 0 && MainAt(nodes, id, j) && forall i: nat :: 0 < i < j ==> !MainAt(nodes, id, i)
  }

  ghost predicate NoMain(nodes: seq<SemanticNode>, id: NodeId)
  {
    forall j: nat :: j > 0 ==> !MainAt(nodes, id, j)
  }

  /** Some, but not all, of the screen is below this ancestor. */
  ghost predicate Partial(nodes: seq<SemanticNode>, id: NodeId, j: nat)
  {
    j > 0 && 0 < Coverage(nodes, id, j) < OnscreenTotal(nodes)
  }

  /** The lowest of the ancestors that cover most without covering all. */
  ghost predicate LowestFullest(nodes: seq<SemanticNode>, id: NodeId, j: nat)
  {
    && Partial(nodes, id, j)
    && (forall i: nat :: Partial(nodes, id, i) ==> Coverage(nodes, id, i) <= Coverage(nodes, id, j))
    && (forall i: nat :: Partial(nodes, id, i) && i < j ==> Coverage(nodes, id, i) < Coverage(nodes, id, j))
  }

  /** The subtree a marker control at `id` stands for. */
  ghost predicate IsPaneOf(nodes: seq<SemanticNode>, id: NodeId, pane: seq<NodeId>)
  {
    || (exists j: nat :: NearestMain(nodes, id, j) && pane == SubtreeAt(nodes, id, j - 1))
    || (NoMain(nodes, id) && IsFullest(nodes, id, pane))
  }

  /** The subtree of the lowest fullest ancestor, or nothing when no ancestor is partial. */
  ghost predicate IsFullest(nodes: seq<SemanticNode>, id: NodeId, pane: seq<NodeId>)
  {
    || (exists j: nat :: LowestFullest(nodes, id, j) && pane == SubtreeAt(nodes, id, j))
    || (NothingPartial(nodes, id) && pane == [])
  }

  ghost predicate NothingPartial(nodes: seq<SemanticNode>, id: NodeId)
  {
    forall j: nat :: !Partial(nodes, id, j)
  }

  ghost function SubtreeAt(nodes: seq<SemanticNode>, id: NodeId, j: nat): seq<NodeId>
  {
    if Ancestor(nodes, id, j).Some? then SubtreeIn(Window(nodes), Ancestor(nodes, id, j).value) else []
  }

  /** The first node in list order that is on screen and matches. */
  ghost predicate IsAnchor(nodes: seq<SemanticNode>, matches: Matcher, i: nat)
  {
    && i < |nodes| && nodes[i].onscreen && matches(nodes[i])
    && forall k: nat :: k < i ==> !(nodes[k].onscreen && matches(nodes[k]))
  }

  // When the code comes back

  /** A climb for coverage gets to the `j`-th ancestor: none before it covers the whole screen. */
  ghost predicate Reaches(nodes: seq<SemanticNode>, id: NodeId, j: nat)
  {
    && j > 0 && Ancestor(nodes, id, j).Some?
    && forall i: nat :: 0 < i < j ==> !CoversAll(nodes, id, i)
  }

  ghost predicate CoversAll(nodes: seq<SemanticNode>, id: NodeId, j: nat)
  {
    OnscreenTotal(nodes) > 0 && Coverage(nodes, id, j) >= OnscreenTotal(nodes)
  }

  /** Every subtree a climb for coverage walks through ends. */
  ghost predicate CoverageReturns(nodes: seq<SemanticNode>, id: NodeId)
  {
    forall j: nat :: Reaches(nodes, id, j) ==> FiniteAt(nodes, id, j)
  }

  /** Every subtree that is walked through for a control at `id` ends. */
  ghost predicate PaneReturns(nodes: seq<SemanticNode>, id: NodeId)
  {
    && (forall j: nat :: NearestMain(nodes, id, j) ==> FiniteAt(nodes, id, j - 1))
    && (NoMain(nodes, id) ==> CoverageReturns(nodes, id))
  }

  /** The same for a marker; when nothing matches it, nothing is walked through. */
  ghost predicate MarkerReturns(nodes: seq<SemanticNode>, marker: Option<Matcher>)
  {
    marker.Some? ==> forall i: nat :: IsAnchor(nodes, marker.value, i) ==> PaneReturns(nodes, nodes[i].id)
  }

  /** Every box a dismiss control's climb walks through ends; the climb stops above the first that is too large. */
  ghost predicate DialogReturns(nodes: seq<SemanticNode>, dismiss: NodeId)
  {
    forall j: nat :: ReachesBox(nodes, dismiss, j) ==> FiniteAt(nodes, dismiss, j)
  }

  ghost predicate ReachesBox(nodes: seq<SemanticNode>, dismiss: NodeId, j: nat)
  {
    && 0 < j <= MAX_DIALOG_CLIMB && Ancestor(nodes, dismiss, j).Some?
    && forall i: nat :: 0 < i < j ==> Plausible(nodes, dismiss, i)
  }

  /** With unique ids and a climb that ends, as on any forest, all of them come back. */
  lemma ForestsReturn(nodes: seq<SemanticNode>, id: NodeId)
    requires UniqueIds(nodes) && Ends(Window(nodes).links, id)
    ensures PaneReturns(nodes, id) && DialogReturns(nodes, id) && Finite(Window(nodes), id)
  {
    hide UniqueIds, Window, Ends, FiniteAt, MainAt, Covered, OnscreenTotal;
    forall j: nat | Ancestor(nodes, id, j).Some? ensures FiniteAt(nodes, id, j) {
      EndingClimbsAreFinite(nodes, id, j);
    }
    forall j: nat | NearestMain(nodes, id, j) ensures FiniteAt(nodes, id, j - 1) {
      MainIsAnAncestor(nodes, id, j);
    }
    ItselfIsFinite(nodes, id);
  }

  lemma MainIsAnAncestor(nodes: seq<SemanticNode>, id: NodeId, j: nat)
    requires j > 0 && MainAt(nodes, id, j)
    ensures Ancestor(nodes, id, j - 1).Some?
  {
    UpPrefix(Window(nodes).links, id, j - 1, j);
  }

  lemma ItselfIsFinite(nodes: seq<SemanticNode>, id: NodeId)
    requires FiniteAt(nodes, id, 0)
    ensures Finite(Window(nodes), id)
  {
  }

  method FindAnchor(nodes: seq<SemanticNode>, matches: Matcher) returns (anchor: Option<nat>)
    ensures anchor.Some? ==> IsAnchor(nodes, matches, anchor.value)
    ensures anchor.None? ==> forall i: nat :: !IsAnchor(nodes, matches, i)
  {
    for i := 0 to |nodes|
      invariant forall k: nat :: k < i ==> !(nodes[k].onscreen && matches(nodes[k]))
    {
      if nodes[i].onscreen && matches(nodes[i]) {
        return Some(i);
      }
    }
    anchor := None;
  }

  /** A `main` that is not met within as many steps as there are nodes is never met, circles or not. */
  lemma {:induction false} NoLateMain(nodes: seq<SemanticNode>, id: NodeId, j: nat)
    requires j > |nodes| && forall k: nat :: 0 < k <= |nodes| ==> !MainAt(nodes, id, k)
    ensures !MainAt(nodes, id, j)
    decreases j
  {
    hide Window, ById;
    if MainAt(nodes, id, j) {
      UpPrefix(Window(nodes).links, id, |nodes| + 1, j);
      var p, q := LongClimbsRepeat(nodes, id);
      RoundAgain(nodes, id, p, q, j);
      assert MainAt(nodes, id, j - (q - p));
      if j - (q - p) > |nodes| {
        NoLateMain(nodes, id, j - (q - p));
      }
    }
  }

  /** The child of the nearest `main` on the way up, if there is a `main`. */
  method PaneUnderMain(nodes: seq<SemanticNode>, id: NodeId) returns (child: Option<NodeId>, ghost steps: nat)
    ensures child.Some? ==> NearestMain(nodes, id, steps + 1) && Ancestor(nodes, id, steps) == child
    ensures child.None? ==> NoMain(nodes, id)
  {
    hide Window, ById;
    var byId := ById(nodes);
    var cursor := id;
    steps := 0;
    for i := 0 to |nodes|
      invariant Ancestor(nodes, id, i) == Some(cursor)
      invariant forall k: nat :: 0 < k <= i ==> !MainAt(nodes, id, k)
    {
      ClimbOne(nodes, id, i, cursor);
      var parent := ParentOf(byId, cursor);
      if parent.None? {
        ClimbStaysEnded(nodes, id, i + 1);
        return None, 0;
      }
      if parent.value in byId && byId[parent.value].role == "main" {
        return Some(cursor), i;
      }
      cursor := parent.value;
    }
    forall j: nat | j > |nodes| ensures !MainAt(nodes, id, j) {
      NoLateMain(nodes, id, j);
    }
    child := None;
  }

  /** The ancestors climbed so far, with the best of them; `lead` is its place and zero when there is none. */
  ghost predicate BestSoFar(nodes: seq<SemanticNode>, id: NodeId, climbed: nat, lead: nat, best: seq<NodeId>,
      covered: nat)
  {
    && (forall j: nat :: 0 < j <= climbed ==> Coverage(nodes, id, j) <= covered)
    && (forall j: nat :: 0 < j <= climbed && Coverage(nodes, id, j) > 0 ==> Partial(nodes, id, j))
    && lead <= climbed
    && (lead == 0 ==> covered == 0 && best == [])
    && (lead > 0 ==>
          && covered == Coverage(nodes, id, lead) > 0
          && best == SubtreeAt(nodes, id, lead)
          && forall j: nat :: 0 < j < lead ==> Coverage(nodes, id, j) < covered)
  }

  lemma CoveringIsFinite(nodes: seq<SemanticNode>, id: NodeId, j: nat, wanted: set<NodeId>)
    ensures Covered(nodes, id, j, wanted) > 0 ==> FiniteAt(nodes, id, j)
  {
  }

  /** Once an ancestor covers the whole screen, or there is none, no later one is partial. */
  lemma NoneLater(nodes: seq<SemanticNode>, id: NodeId, from: nat)
    requires Ancestor(nodes, id, from).Some? ==> Coverage(nodes, id, from) >= OnscreenTotal(nodes)
    ensures forall j: nat :: j >= from ==> !Partial(nodes, id, j)
  {
    hide Window, Finite, OnscreenButtons, OnscreenTotal, SubtreeIn;
    forall j: nat | j >= from ensures !Partial(nodes, id, j) {
      CoveringIsFinite(nodes, id, j, OnscreenButtons(nodes));
      if FiniteAt(nodes, id, j) {
        UpPrefix(Window(nodes).links, id, from, j);
        CoverageGrows(nodes, id, from, j, OnscreenButtons(nodes));
      }
    }
  }

  lemma BestOfAll(nodes: seq<SemanticNode>, id: NodeId, climbed: nat, lead: nat, best: seq<NodeId>, covered: nat)
    requires BestSoFar(nodes, id, climbed, lead, best, covered)
    requires forall j: nat :: j > climbed ==> !Partial(nodes, id, j)
    ensures lead > 0 ==> LowestFullest(nodes, id, lead) && best == SubtreeAt(nodes, id, lead)
    ensures lead == 0 ==> NothingPartial(nodes, id) && best == []
  {
    hide Coverage, OnscreenTotal, SubtreeAt;
  }

  lemma BestOfNone(nodes: seq<SemanticNode>, id: NodeId)
    ensures BestSoFar(nodes, id, 0, 0, [], 0)
  {
  }

  lemma BestOneMore(nodes: seq<SemanticNode>, id: NodeId, climbed: nat, lead: nat, best: seq<NodeId>, covered: nat,
      at: NodeId, here: nat)
    requires BestSoFar(nodes, id, climbed, lead, best, covered)
    requires Ancestor(nodes, id, climbed + 1) == Some(at)
    requires here == CountIn(SubtreeIn(Window(nodes), at), OnscreenButtons(nodes))
    requires !(OnscreenTotal(nodes) > 0 && here >= OnscreenTotal(nodes))
    ensures if here > covered
      then BestSoFar(nodes, id, climbed + 1, climbed + 1, SubtreeIn(Window(nodes), at), here)
      else BestSoFar(nodes, id, climbed + 1, lead, best, covered)
  {
    hide Window, OnscreenButtons, OnscreenTotal, SubtreeIn, CountIn;
    CoveringTakesButtons(nodes, SubtreeIn(Window(nodes), at));
    assert Coverage(nodes, id, climbed + 1) == here;
  }

  /** The lowest ancestor of greatest coverage short of the whole screen. */
  method FullestAncestor(nodes: seq<SemanticNode>, children: map<NodeId, seq<NodeId>>, id: NodeId)
      returns (best: seq<NodeId>)
    requires CoverageReturns(nodes, id)
    requires children == ChildLists(nodes, Mentioned(nodes))
    ensures IsFullest(nodes, id, best)
  {
    hide Window, Finite, ById, OnscreenButtons, OnscreenTotal, ChildLists, Mentioned, SubtreeIn, Partial, CountIn,
      BestSoFar, LowestFullest, NothingPartial, SubtreeAt;
    var byId, wanted, total := ById(nodes), OnscreenButtons(nodes), OnscreenTotal(nodes);
    var cursor, covered := id, 0;
    best := [];
    ghost var lead: nat := 0;
    BestOfNone(nodes, id);
    for i := 0 to |nodes|
      invariant Ancestor(nodes, id, i) == Some(cursor)
      invariant BestSoFar(nodes, id, i, lead, best, covered)
      invariant forall k: nat :: 0 < k <= i ==> !CoversAll(nodes, id, k) && FiniteAt(nodes, id, k)
    {
      ClimbOne(nodes, id, i, cursor);
      var parent := ParentOf(byId, cursor);
      if parent.None? {
        NoneLater(nodes, id, i + 1);
        BestOfAll(nodes, id, i, lead, best, covered);
        return;
      }
      cursor := parent.value;
      assert Reaches(nodes, id, i + 1);
      var kept := SubtreeOf(nodes, children, cursor);
      var here := CountIn(kept, wanted);
      if total > 0 && here >= total {
        NoneLater(nodes, id, i + 1);
        BestOfAll(nodes, id, i, lead, best, covered);
        return;
      }
      BestOneMore(nodes, id, i, lead, best, covered, cursor, here);
      if here > covered {
        covered, best := here, kept;
        lead := i + 1;
      }
    }
    FiniteClimbsAreShort(nodes, id);
    NoneLater(nodes, id, |nodes| + 1);
    BestOfAll(nodes, id, |nodes|, lead, best, covered);
  }

  /** The controls of the surface a marker names, by ancestry; the whole list when nothing names one. */
  method OnSurfaceSubtree(nodes: seq<SemanticNode>, marker: Option<Matcher>) returns (owned: seq<NodeId>)
    requires MarkerReturns(nodes, marker)
    ensures marker.None? ==> owned == IdsOf(nodes)
    ensures marker.Some? && (forall i: nat :: !IsAnchor(nodes, marker.value, i)) ==> owned == []
    ensures marker.Some? ==> forall i: nat :: IsAnchor(nodes, marker.value, i) ==> IsPaneOf(nodes, nodes[i].id, owned)
  {
    hide Window, Finite, ById, Mentioned, SubtreeIn, NearestMain, NoMain, LowestFullest, NothingPartial;
    if marker.None? {
      return IdsOf(nodes);
    }
    var anchor := FindAnchor(nodes, marker.value);
    if anchor.None? {
      return [];
    }
    var id := nodes[anchor.value].id;
    var children := GroupByParent(nodes);
    var child, steps := PaneUnderMain(nodes, id);
    if child.Some? {
      owned := SubtreeOf(nodes, children, child.value);
      assert owned == SubtreeAt(nodes, id, steps + 1 - 1);
    } else {
      owned := FullestAncestor(nodes, children, id);
    }
  }

  /** A pane always holds the control it was found by, and with unique ids nothing twice. */
  lemma PaneHoldsItsMarker(nodes: seq<SemanticNode>, id: NodeId, pane: seq<NodeId>)
    requires IsPaneOf(nodes, id, pane) && pane != []
    ensures id in pane && (UniqueIds(nodes) ==> Distinct(pane))
  {
    hide Window, UniqueIds, OnscreenButtons, OnscreenTotal;
    var j: nat :| Ancestor(nodes, id, j).Some? && pane == SubtreeAt(nodes, id, j);
    var f, root := Window(nodes), Ancestor(nodes, id, j).value;
    assert SubtreeAt(nodes, id, j) == SubtreeIn(f, root);
    assert Finite(f, root) && FiniteAt(nodes, id, j);
    var before, after := AncestorHolds(nodes, id, 0, j);
    StartsWithItself(f, id);
    assert SubtreeIn(f, id)[0] == id;
    assert (before + SubtreeIn(f, id) + after)[|before|] == id;
    if UniqueIds(nodes) {
      SubtreeIsWhatHangsBelow(nodes, root, id);
    }
  }

  lemma StartsWithItself(f: Forest, id: NodeId)
    requires Finite(f, id)
    ensures SubtreeIn(f, id) != [] && SubtreeIn(f, id)[0] == id
  {
    var room: nat :| Shallow(f, id, room);
    SubtreeIs(f, id, room);
  }

  /** There is one pane for a control: the choice leaves nothing open. */
  lemma PaneIsUnique(nodes: seq<SemanticNode>, id: NodeId, a: seq<NodeId>, b: seq<NodeId>)
    requires IsPaneOf(nodes, id, a) && IsPaneOf(nodes, id, b)
    ensures a == b
  {
    hide MainAt, Coverage, OnscreenTotal, SubtreeAt;
    forall i: nat, j: nat | NearestMain(nodes, id, i) && NearestMain(nodes, id, j) ensures i == j {
    }
    forall i: nat, j: nat | LowestFullest(nodes, id, i) && LowestFullest(nodes, id, j) ensures i == j {
    }
  }

  // Inventory roots

  /** Where a selector matches. */
  function Matching(nodes: seq<SemanticNode>, matches: Matcher): seq<NodeId>
    decreases |nodes|
  {
    if nodes == [] then []
    else Matching(nodes[..|nodes| - 1], matches) + if matches(nodes[|nodes| - 1]) then [nodes[|nodes| - 1].id] else []
  }

  /** The selector matches this node and no other. */
  ghost predicate OnlyMatch(nodes: seq<SemanticNode>, matches: Matcher, i: nat)
  {
    i < |nodes| && matches(nodes[i]) && forall k: nat :: k < |nodes| && matches(nodes[k]) ==> k == i
  }

  ghost predicate NoMatch(nodes: seq<SemanticNode>, matches: Matcher)
  {
    forall k: nat :: k < |nodes| ==> !matches(nodes[k])
  }

  lemma {:induction false} MatchingMatch(nodes: seq<SemanticNode>, matches: Matcher)
    ensures |Matching(nodes, matches)| == 0 <==> NoMatch(nodes, matches)
    ensures |Matching(nodes, matches)| == 1 <==> exists i: nat :: OnlyMatch(nodes, matches, i)
    ensures forall i: nat :: OnlyMatch(nodes, matches, i) ==> Matching(nodes, matches) == [nodes[i].id]
    decreases |nodes|
  {
    if nodes != [] {
      var n := |nodes| - 1;
      var front := nodes[..n];
      MatchingMatch(front, matches);
      if matches(nodes[n]) {
        assert NoMatch(front, matches) ==> OnlyMatch(nodes, matches, n);
        if i: nat :| OnlyMatch(nodes, matches, i) {
          assert forall k: nat | k < n :: front[k] == nodes[k];
          assert i == n && NoMatch(front, matches);
        }
      } else {
        forall i: nat ensures OnlyMatch(nodes, matches, i) <==> OnlyMatch(front, matches, i) {
          assert forall k: nat | k < n :: front[k] == nodes[k];
        }
      }
    }
  }

  datatype InventoryError = RootNotFound | RootMatchesSeveral

  /** An authored root widens the inventory only when it names exactly one node. */
  method InventorySurfaceSubtree(nodes: seq<SemanticNode>, marker: Option<Matcher>, inventoryRoot: Option<Matcher>)
      returns (owned: Result<seq<NodeId>, InventoryError>)
    requires if inventoryRoot.None? then MarkerReturns(nodes, marker)
      else forall i: nat :: OnlyMatch(nodes, inventoryRoot.value, i) ==> Finite(Window(nodes), nodes[i].id)
    ensures inventoryRoot.None? ==> owned.Ok?
    ensures inventoryRoot.None? && marker.None? ==> owned.value == IdsOf(nodes)
    ensures inventoryRoot.None? && marker.Some? && (forall i: nat :: !IsAnchor(nodes, marker.value, i)) ==>
      owned.value == []
    ensures inventoryRoot.None? && marker.Some? ==>
      forall i: nat :: IsAnchor(nodes, marker.value, i) ==> IsPaneOf(nodes, nodes[i].id, owned.value)
    ensures inventoryRoot.Some? ==> (owned.Ok? <==> exists i: nat :: OnlyMatch(nodes, inventoryRoot.value, i))
    ensures inventoryRoot.Some? && owned.Ok? ==> forall i: nat :: OnlyMatch(nodes, inventoryRoot.value, i) ==>
      owned.value == SubtreeIn(Window(nodes), nodes[i].id)
    ensures inventoryRoot.Some? && owned.Err? ==>
      owned.error == if NoMatch(nodes, inventoryRoot.value) then RootNotFound else RootMatchesSeveral
  {
    hide IsPaneOf, Window, Finite, SubtreeIn, OnlyMatch, NoMatch, Matching;
    if inventoryRoot.None? {
      var surface := OnSurfaceSubtree(nodes, marker);
      return Ok(surface);
    }
    var roots := Matching(nodes, inventoryRoot.value);
    MatchingMatch(nodes, inventoryRoot.value);
    if |roots| == 0 {
      return Err(RootNotFound);
    }
    if |roots| > 1 {
      return Err(RootMatchesSeveral);
    }
    var children := GroupByParent(nodes);
    var subtree := SubtreeOf(nodes, children, roots[0]);
    owned := Ok(subtree);
  }

  // Dialogs

  function AsciiLower(c: char): char
  {
    if 'A' <= c <= 'Z' then c - 'A' + 'a' else c
  }

  predicate EqIgnoreAsciiCase(a: string, b: string)
  {
    |a| == |b| && forall i :: 0 <= i < |a| ==> AsciiLower(a[i]) == AsciiLower(b[i])
  }

  /** Two strings are the same but for the case of ASCII letters, which lie 32 apart. */
  lemma SameButForCase(a: string, b: string)
    ensures EqIgnoreAsciiCase(a, b) <==>
      |a| == |b| && forall i | 0 <= i < |a| ::
        || a[i] == b[i]
        || ('A' <= a[i] <= 'Z' && b[i] as nat == a[i] as nat + 32)
        || ('A' <= b[i] <= 'Z' && a[i] as nat == b[i] as nat + 32)
  {
  }

  lemma ButtonsAre(nodes: seq<SemanticNode>, x: NodeId)
    requires UniqueIds(nodes)
    ensures x in Buttons(nodes) <==>
      exists node :: node in nodes && node.id == x && EqIgnoreAsciiCase(node.role, "button")
  {
    ByIdFinds(nodes, x);
    if node :| node in nodes && node.id == x && EqIgnoreAsciiCase(node.role, "button") {
      SameIdSameNode(nodes, node);
    }
  }

  function Buttons(nodes: seq<SemanticNode>): set<NodeId>
  {
    set id | id in ById(nodes) && EqIgnoreAsciiCase(ById(nodes)[id].role, "button")
  }

  /** A small enough box, near enough to its dismiss control, to be a dialog. */
  ghost predicate Plausible(nodes: seq<SemanticNode>, dismiss: NodeId, j: nat)
  {
    && 0 < j <= MAX_DIALOG_CLIMB
    && FiniteAt(nodes, dismiss, j)
    && Covered(nodes, dismiss, j, Buttons(nodes)) <= MAX_PLAUSIBLE_DIALOG_BUTTONS
  }

  /** The highest plausible ancestor owns the dialog; the dismiss control stands alone when there is none. */
  ghost predicate IsDialogOf(nodes: seq<SemanticNode>, dismiss: NodeId, dialog: seq<NodeId>)
  {
    || (exists j: nat :: Plausible(nodes, dismiss, j)
          && (forall i: nat :: Plausible(nodes, dismiss, i) ==> i <= j)
          && dialog == SubtreeAt(nodes, dismiss, j))
    || ((forall j: nat :: !Plausible(nodes, dismiss, j)) && dialog == [dismiss])
  }

  /** When a box is too large to be a dialog, so is everything above it. */
  lemma TooLargeStaysTooLarge(nodes: seq<SemanticNode>, id: NodeId, from: nat)
    requires from > 0 && !Plausible(nodes, id, from)
    ensures forall j: nat :: j >= from ==> !Plausible(nodes, id, j)
  {
    hide Window, Finite, Buttons, SubtreeIn;
    forall j: nat | j >= from ensures !Plausible(nodes, id, j) {
      if FiniteAt(nodes, id, j) {
        var before, after := AncestorHolds(nodes, id, from, j);
        CoverageGrows(nodes, id, from, j, Buttons(nodes));
      }
    }
  }

  method EnclosingDialog(nodes: seq<SemanticNode>, dismiss: NodeId) returns (dialog: seq<NodeId>)
    requires DialogReturns(nodes, dismiss)
    ensures IsDialogOf(nodes, dismiss, dialog)
  {
    hide Window, Finite, ById, Mentioned, SubtreeIn, Buttons, CountIn;
    var byId, wanted := ById(nodes), Buttons(nodes);
    var children := GroupByParent(nodes);
    var cursor := dismiss;
    dialog := [dismiss];
    for i := 0 to MAX_DIALOG_CLIMB
      invariant Ancestor(nodes, dismiss, i) == Some(cursor)
      invariant forall j: nat :: 0 < j <= i ==> Plausible(nodes, dismiss, j)
      invariant dialog == if i == 0 then [dismiss] else SubtreeAt(nodes, dismiss, i)
    {
      ClimbOne(nodes, dismiss, i, cursor);
      var parent := ParentOf(byId, cursor);
      if parent.None? {
        ClimbStaysEnded(nodes, dismiss, i + 1);
        return;
      }
      cursor := parent.value;
      assert ReachesBox(nodes, dismiss, i + 1);
      var kept := SubtreeOf(nodes, children, cursor);
      if CountIn(kept, wanted) > MAX_PLAUSIBLE_DIALOG_BUTTONS {
        TooLargeStaysTooLarge(nodes, dismiss, i + 1);
        return;
      }
      dialog := kept;
    }
  }
}
