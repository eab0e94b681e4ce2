/**
 Layout ancestry: the bounded walk that accepts one node, and the memoised form
 that answers for every inspected node at once.
 */
module LayoutChains {
  import opened Options
  import opened Chains
  import opened Documents

  /** The layout chain reaches a node without a layout parent through at most `limit` nodes. */
  ghost predicate EndsWithin(links: Links, x: NodeId, limit: nat)
  {
    exists n: nat :: n < limit && Tops(links, x, n)
  }

  /** A limit of one step per node decides exactly whether the chain ends at all. */
  lemma EndsWithinTheNodeCount(links: Links, x: NodeId, limit: nat)
    requires limit >= |links|
    ensures EndsWithin(links, x, limit) <==> Ends(links, x)
  {
    if n: nat :| Tops(links, x, n) {
      TopsBound(links, x, n);
    }
  }

  /** Walk one layout chain, giving up after `limit + 1` looks. */
  method LayoutChainIsValid(document: Document, id: NodeId, limit: nat) returns (valid: bool)
    ensures valid <==> EndsWithin(document.LayoutParents(), id, limit)
  {
    ghost var links := document.LayoutParents();
    var current := Some(id);
    for step := 0 to limit + 1
      invariant current.Some? ==> Up(links, id, step) == current
      invariant current.None? ==> step > 0 && Tops(links, id, step - 1)
    {
      if current.None? {
        return true;
      }
      if current.value !in document.nodes {
        EndsAlong(links, id, step);
        UnknownNeverEnds(links, current.value);
        return false;
      }
      UpAdd(links, id, step, 1);
      current := document.nodes[current.value].layoutParent;
    }
    forall n: nat | n < limit ensures !Tops(links, id, n) {
      if current.Some? {
        StillClimbing(links, id, limit + 1);
      } else if Tops(links, id, n) {
        TopsUnique(links, id, n, limit);
      }
    }
    return false;
  }

  datatype ChainState = Visiting | Valid | Invalid

  type States = map<NodeId, ChainState>

  /** No mark is provisional, and every settled mark is right; `Invalid` needs the limit to be large enough. */
  ghost predicate Settled(document: Document, states: States, limit: nat)
  {
    forall id {:trigger states[id]} :: id in states ==>
      && id in document.nodes
      && states[id] != Visiting
      && (states[id] == Valid ==> Ends(document.LayoutParents(), id))
      && (states[id] == Invalid && limit >= |document.nodes| ==> !Ends(document.LayoutParents(), id))
  }

  /** The nodes of a climb in progress: `chain[i]` is `i` links above the start. */
  ghost predicate IsClimb(links: Links, start: NodeId, chain: seq<NodeId>, current: Option<NodeId>)
  {
    && (forall i :: 0 <= i < |chain| ==> chain[i] in links && Up(links, start, i) == Some(chain[i]))
    && (current.Some? ==> Up(links, start, |chain|) == current)
    && (current.None? ==> chain != [] && Tops(links, start, |chain| - 1))
  }

  /** Meeting a mark of the climb itself means the chain is a loop. */
  lemma MeetingItselfNeverEnds(links: Links, start: NodeId, chain: seq<NodeId>, current: NodeId, i: nat)
    requires IsClimb(links, start, chain, Some(current))
    requires i < |chain| && chain[i] == current
    ensures !Ends(links, start)
  {
    UpAdd(links, start, i, |chain| - i);
    forall n: nat ensures !Tops(links, current, n) {
      LoopNeverEnds(links, current, |chain| - i, n);
    }
    EndsAlong(links, start, i);
  }

  /** Mid-climb marks: what was settled before is untouched, and exactly the nodes met are being visited. */
  ghost predicate Marked(document: Document, before: States, met: set<NodeId>, states: States)
  {
    && met <= document.nodes.Keys
    && met !! before.Keys
    && states.Keys == before.Keys + met
    && (forall id {:trigger states[id]} :: id in states ==> states[id] == if id in met then Visiting else before[id])
  }

  /** The chain lists the nodes met, each at its one place. */
  ghost predicate Lists(chain: seq<NodeId>, place: map<NodeId, nat>)
  {
    && |chain| == |place|
    && (forall i :: 0 <= i < |chain| ==> chain[i] in place && place[chain[i]] == i)
    && (forall id :: id in place ==> place[id] < |chain| && chain[place[id]] == id)
  }

  lemma {:induction false} SubsetCount(a: set<NodeId>, b: set<NodeId>)
    requires a <= b
    ensures |a| <= |b|
  {
    if x :| x in a {
      SubsetCount(a - {x}, b - {x});
    }
  }

  /** Reaching a node that already carries a mark decides where the climb started. */
  lemma MarkDecides(document: Document, start: NodeId, before: States, place: map<NodeId, nat>, states: States,
                    chain: seq<NodeId>, id: NodeId, limit: nat)
    requires Settled(document, before, limit) && Marked(document, before, place.Keys, states) && Lists(chain, place)
    requires IsClimb(document.LayoutParents(), start, chain, Some(id)) && id in states
    ensures states[id] == Valid ==> Ends(document.LayoutParents(), start)
    ensures states[id] != Valid && limit >= |document.nodes| ==> !Ends(document.LayoutParents(), start)
  {
    EndsAlong(document.LayoutParents(), start, |chain|);
    if id in place {
      MeetingItselfNeverEnds(document.LayoutParents(), start, chain, id, place[id]);
    } else {
      assert states[id] == before[id];
    }
  }

  /** Leaving the document decides it too. */
  lemma UnknownDecides(links: Links, start: NodeId, chain: seq<NodeId>, id: NodeId)
    requires IsClimb(links, start, chain, Some(id)) && id !in links
    ensures !Ends(links, start)
  {
    EndsAlong(links, start, |chain|);
    UnknownNeverEnds(links, id);
  }

  lemma MarkOn(document: Document, before: States, met: set<NodeId>, states: States, id: NodeId)
    requires Marked(document, before, met, states)
    requires id in document.nodes && id !in states
    ensures Marked(document, before, met + {id}, states[id := Visiting])
  {
  }

  lemma ListOn(chain: seq<NodeId>, place: map<NodeId, nat>, id: NodeId)
    requires Lists(chain, place) && id !in place
    ensures Lists(chain + [id], place[id := |chain|])
    ensures place[id := |chain|].Keys == place.Keys + {id}
  {
  }

  lemma ClimbOn(links: Links, start: NodeId, chain: seq<NodeId>, id: NodeId)
    requires IsClimb(links, start, chain, Some(id)) && id in links
    ensures IsClimb(links, start, chain + [id], links[id])
  {
    UpAdd(links, start, |chain|, 1);
  }

  lemma FreshlyMarked(document: Document, before: States, met: set<NodeId>, states: States, id: NodeId)
    requires Marked(document, before, met, states) && id !in states
    ensures id !in met && met <= document.nodes.Keys
  {
  }

  lemma StartIsFresh(document: Document, before: States, place: map<NodeId, nat>, states: States, chain: seq<NodeId>,
      start: NodeId)
    requires Marked(document, before, place.Keys, states) && Lists(chain, place) && start !in before
    ensures chain == [] ==> start !in states
  {
  }

  lemma FarEnough(document: Document, before: States, place: map<NodeId, nat>, states: States, chain: seq<NodeId>,
      limit: nat)
    requires Marked(document, before, place.Keys, states) && Lists(chain, place) && |chain| > limit
    ensures limit < |document.nodes|
  {
    SubsetCount(place.Keys, document.nodes.Keys);
    assert |place.Keys| == |place| && |document.nodes.Keys| == |document.nodes|;
  }

  lemma ClimbSoFar(links: Links, start: NodeId, chain: seq<NodeId>, current: Option<NodeId>)
    requires IsClimb(links, start, chain, current)
    ensures forall i :: 0 <= i < |chain| ==> Up(links, start, i) == Some(chain[i])
    ensures current.None? ==> chain != [] && Ends(links, start)
  {
  }

  lemma NothingClimbed(document: Document, start: NodeId, before: States, limit: nat)
    requires Settled(document, before, limit)
    ensures IsClimb(document.LayoutParents(), start, [], Some(start))
    ensures Marked(document, before, {}, before) && Lists([], map[])
  {
  }

  /** The inner loop: climb from an undecided node until something decides it, marking the way. */
  method Climb(document: Document, start: NodeId, before: States, limit: nat)
      returns (valid: bool, chain: seq<NodeId>, states: States, ghost place: map<NodeId, nat>)
    requires Settled(document, before, limit) && start !in before
    ensures Marked(document, before, place.Keys, states) && Lists(chain, place)
    ensures forall i :: 0 <= i < |chain| ==> Up(document.LayoutParents(), start, i) == Some(chain[i])
    ensures start in document.nodes ==> start in place
    ensures valid ==> Ends(document.LayoutParents(), start)
    ensures !valid && limit >= |document.nodes| ==> !Ends(document.LayoutParents(), start)
  {
    hide IsClimb, Marked, Lists, Settled, Ends, Up;
    ghost var links := document.LayoutParents();
    states, chain, place := before, [], map[];
    var current := Some(start);
    NothingClimbed(document, start, before, limit);
    while true
      invariant IsClimb(links, start, chain, current)
      invariant if chain == [] then current == Some(start) else start in place
      invariant Marked(document, before, place.Keys, states) && Lists(chain, place)
      decreases document.nodes.Keys - place.Keys
    {
      ClimbSoFar(links, start, chain, current);
      if current.None? {
        return true, chain, states, place;
      }
      var id := current.value;
      if id in states {
        StartIsFresh(document, before, place, states, chain, start);
        MarkDecides(document, start, before, place, states, chain, id, limit);
        return states[id] == Valid, chain, states, place;
      }
      if |chain| > limit {
        FarEnough(document, before, place, states, chain, limit);
        return false, chain, states, place;
      }
      if id !in document.nodes {
        UnknownDecides(links, start, chain, id);
        return false, chain, states, place;
      }
      FreshlyMarked(document, before, place.Keys, states, id);
      ClimbOn(links, start, chain, id);
      MarkOn(document, before, place.Keys, states, id);
      ListOn(chain, place, id);
      states := states[id := Visiting];
      place := place[id := |chain|];
      chain := chain + [id];
      current := document.nodes[id].layoutParent;
    }
  }

  /** Replace every provisional mark of one climb. */
  method Resolve(marked: States, chain: seq<NodeId>, ghost place: map<NodeId, nat>, resolved: ChainState)
      returns (states: States)
    requires Lists(chain, place) && place.Keys <= marked.Keys
    ensures states.Keys == marked.Keys
    ensures forall id {:trigger states[id]} :: id in marked ==>
      states[id] == if id in place then resolved else marked[id]
  {
    states := marked;
    for i := 0 to |chain|
      invariant states.Keys == marked.Keys
      invariant forall id {:trigger states[id]} :: id in marked ==>
        states[id] == if id in place && place[id] < i then resolved else marked[id]
    {
      states := states[chain[i] := resolved];
    }
  }

  /** One pass of the outer loop: climb from an undecided node and settle everything it met. */
  method SettleChain(document: Document, start: NodeId, before: States, limit: nat)
      returns (states: States, ghost pushed: nat)
    requires Settled(document, before, limit) && start !in before
    ensures Settled(document, states, limit)
    ensures before.Keys <= states.Keys && pushed + |before| == |states|
    ensures start in states <==> start in document.nodes
  {
    ghost var links := document.LayoutParents();
    var valid, chain, marked, place := Climb(document, start, before, limit);
    pushed := |chain|;
    var resolved := if valid then Valid else Invalid;
    states := Resolve(marked, chain, place, resolved);
    SettledAll(document, start, before, marked, chain, place, states, resolved, limit);
  }

  lemma SettledAll(document: Document, start: NodeId, before: States, marked: States, chain: seq<NodeId>,
                   place: map<NodeId, nat>, states: States, resolved: ChainState, limit: nat)
    requires Settled(document, before, limit) && Marked(document, before, place.Keys, marked) && Lists(chain, place)
    requires forall i :: 0 <= i < |chain| ==> Up(document.LayoutParents(), start, i) == Some(chain[i])
    requires states.Keys == marked.Keys
    requires forall id {:trigger states[id]} :: id in marked ==>
      states[id] == if id in place then resolved else marked[id]
    requires resolved != Visiting
    requires resolved == Valid ==> Ends(document.LayoutParents(), start)
    requires resolved == Invalid && limit >= |document.nodes| ==> !Ends(document.LayoutParents(), start)
    ensures Settled(document, states, limit)
    ensures |chain| + |before| == |states|
  {
    assert |states| == |states.Keys| == |before.Keys| + |place.Keys|;
    forall id | id in place
      ensures Ends(document.LayoutParents(), id) <==> Ends(document.LayoutParents(), start)
    {
      EndsAlong(document.LayoutParents(), start, place[id]);
    }
  }

  lemma CandidateAgrees(document: Document, states: States, limit: nat, id: NodeId)
    requires Settled(document, states, limit) && limit >= |document.nodes|
    requires id in states || id !in document.nodes
    ensures id in states && states[id] == Valid <==> EndsWithin(document.LayoutParents(), id, limit)
  {
    var links := document.LayoutParents();
    assert links.Keys == document.nodes.Keys;
    assert |links| == |links.Keys|;
    EndsWithinTheNodeCount(links, id, limit);
    if id !in document.nodes {
      UnknownNeverEnds(links, id);
    }
  }

  /**
   The memoised form. Every candidate is accepted exactly when the bounded walk accepts it, cycles and
   dangling links included, and over all candidates no node is looked at twice.
   */
  method LayoutChainValidities(document: Document, candidates: seq<NodeId>, limit: nat)
      returns (validity: map<NodeId, bool>, ghost pushed: nat)
    ensures forall id :: id in validity ==> validity[id] ==> Ends(document.LayoutParents(), id)
    ensures limit >= |document.nodes| ==> forall id :: id in candidates ==>
      ((id in validity && validity[id]) <==> EndsWithin(document.LayoutParents(), id, limit))
    ensures pushed == |validity| <= |document.nodes|
  {
    ghost var links := document.LayoutParents();
    var states: States := map[];
    pushed := 0;
    for i := 0 to |candidates|
      invariant Settled(document, states, limit)
      invariant forall j :: 0 <= j < i ==> candidates[j] in states || candidates[j] !in document.nodes
      invariant pushed == |states|
    {
      var candidate := candidates[i];
      if candidate in states && (states[candidate] == Valid || states[candidate] == Invalid) {
        continue;
      }
      ghost var more;
      states, more := SettleChain(document, candidate, states, limit);
      pushed := pushed + more;
    }
    validity := map id | id in states && states[id] != Visiting :: states[id] == Valid;
    assert validity.Keys == states.Keys;
    SubsetCount(validity.Keys, document.nodes.Keys);
    assert |validity.Keys| == |states.Keys|;
    forall id | limit >= |document.nodes| && id in candidates
      ensures (id in validity && validity[id]) <==> EndsWithin(links, id, limit)
    {
      CandidateAgrees(document, states, limit, id);
    }
  }
}
