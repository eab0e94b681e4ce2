/**
 Finite link maps and the upward walks over them.

 A link map sends each known node to the node above it, or to nothing. Links may
 be cyclic, and may name nodes that are not known. DOM parents, layout parents
 and the parent links of a semantic node list are all instances.
 */
module Chains {
  import opened Options
  import opened Sequences

  type NodeId = nat
  type Links = map<NodeId, Option<NodeId>>

  /** The node `k` links above `x`; nothing once the chain has ended or left the map. */
  function Up(links: Links, x: NodeId, k: nat): Option<NodeId>
    decreases k
  {
    if k == 0 then Some(x)
    else if x !in links || links[x].None? then None
    else Up(links, links[x].value, k - 1)
  }

  /** The chain from `x` ends, after `k` links, at a known node with nothing above it. */
  predicate Tops(links: Links, x: NodeId, k: nat)
  {
    var top := Up(links, x, k);
    top.Some? && top.value in links && links[top.value].None?
  }

  ghost predicate Ends(links: Links, x: NodeId)
  {
    exists k: nat :: Tops(links, x, k)
  }

  lemma {:induction false} UpAdd(links: Links, x: NodeId, i: nat, j: nat)
    requires Up(links, x, i).Some?
    ensures Up(links, x, i + j) == Up(links, Up(links, x, i).value, j)
    decreases i
  {
    if i > 0 {
      UpAdd(links, links[x].value, i - 1, j);
    }
  }

  /** A chain that is still going after `k` links was going after every fewer. */
  lemma UpPrefix(links: Links, x: NodeId, i: nat, k: nat)
    requires i <= k && Up(links, x, k).Some?
    ensures Up(links, x, i).Some?
    ensures i < k ==> Up(links, x, i).value in links
    ensures Up(links, x, k) == Up(links, Up(links, x, i).value, k - i)
    decreases i
  {
    if i > 0 {
      UpPrefix(links, links[x].value, i - 1, k - 1);
    }
  }

  lemma {:induction false} TopsUnique(links: Links, x: NodeId, i: nat, j: nat)
    requires Tops(links, x, i) && Tops(links, x, j)
    ensures i == j
    decreases i
  {
    if i > 0 && j > 0 {
      TopsUnique(links, links[x].value, i - 1, j - 1);
    }
  }

  /** The nodes a chain passes through, from `x` up to and including the `k`-th. */
  ghost function Trail(links: Links, x: NodeId, k: nat): (s: seq<NodeId>)
    requires Up(links, x, k).Some?
    ensures |s| == k + 1
    ensures forall i :: 0 <= i <= k ==> Up(links, x, i) == Some(s[i])
    decreases k
  {
    if k == 0 then [x]
    else
      var rest := Trail(links, links[x].value, k - 1);
      assert forall i :: 0 < i <= k ==> Up(links, x, i) == Up(links, links[x].value, i - 1);
      [x] + rest
  }

  /** A chain meets its target for the first time within as many links as there are nodes. */
  lemma {:induction false} FirstMeetingIsEarly(links: Links, x: NodeId, target: NodeId, k: nat)
    requires Up(links, x, k) == Some(target)
    requires forall i: nat :: i < k ==> Up(links, x, i) != Some(target)
    ensures k <= |links|
  {
    var trail := Trail(links, x, k)[..k];
    forall i, j | 0 <= i < j < |trail| ensures trail[i] != trail[j] {
      if trail[i] == trail[j] {
        UpPrefix(links, x, j, k);
        UpAdd(links, x, i, k - j);
      }
    }
    forall i | 0 <= i < |trail| ensures trail[i] in links.Keys {
      UpPrefix(links, x, i, k);
    }
    DistinctBound(trail, links.Keys);
    assert |links.Keys| == |links|;
  }

  /** A chain that ends is shorter than the number of known nodes. */
  lemma TopsBound(links: Links, x: NodeId, k: nat)
    requires Tops(links, x, k)
    ensures k < |links|
  {
    var trail := Trail(links, x, k);
    forall i, j | 0 <= i < j < |trail| ensures trail[i] != trail[j] {
      if trail[i] == trail[j] {
        UpPrefix(links, x, i, k);
        UpPrefix(links, x, j, k);
        TopsUnique(links, trail[i], k - i, k - j);
      }
    }
    forall i | 0 <= i < |trail| ensures trail[i] in links.Keys {
      UpPrefix(links, x, i, k);
    }
    DistinctBound(trail, links.Keys);
    assert |links.Keys| == |links|;
  }

  /** A chain that comes back to where it started never ends. */
  lemma {:induction false} LoopNeverEnds(links: Links, x: NodeId, period: nat, k: nat)
    requires period > 0 && Up(links, x, period) == Some(x)
    ensures !Tops(links, x, k)
    decreases k
  {
    if Tops(links, x, k) {
      if k < period {
        UpPrefix(links, x, k, period);
        assert false;
      } else {
        UpAdd(links, x, period, k - period);
        LoopNeverEnds(links, x, period, k - period);
      }
    }
  }

  lemma StillClimbing(links: Links, x: NodeId, k: nat)
    requires Up(links, x, k).Some?
    ensures forall n: nat :: n < k ==> !Tops(links, x, n)
  {
    forall n: nat | n < k ensures !Tops(links, x, n) {
      UpPrefix(links, x, n, k);
      UpAdd(links, x, n, 1);
      UpPrefix(links, x, n + 1, k);
    }
  }

  /** Every node on a chain shares its fate. */
  lemma EndsAlong(links: Links, x: NodeId, k: nat)
    requires Up(links, x, k).Some?
    ensures Ends(links, x) <==> Ends(links, Up(links, x, k).value)
  {
    if n: nat :| Tops(links, x, n) {
      StillClimbing(links, x, k);
      UpAdd(links, x, k, n - k);
      assert Tops(links, Up(links, x, k).value, n - k);
    }
    if n: nat :| Tops(links, Up(links, x, k).value, n) {
      UpAdd(links, x, k, n);
      assert Tops(links, x, k + n);
    }
  }

  lemma UnknownNeverEnds(links: Links, x: NodeId)
    requires x !in links
    ensures !Ends(links, x)
  {
    forall n: nat ensures !Tops(links, x, n) {
    }
  }

  /** How far below the end of its chain a node is; zero when the chain never ends. */
  ghost function Level(links: Links, x: NodeId): (k: nat)
    ensures Ends(links, x) ==> Tops(links, x, k)
  {
    if Ends(links, x) then
      var k: nat :| Tops(links, x, k);
      k
    else 0
  }

  lemma LevelIs(links: Links, x: NodeId, k: nat)
    requires Tops(links, x, k)
    ensures Ends(links, x) && Level(links, x) == k
  {
    TopsUnique(links, x, k, Level(links, x));
  }

  ghost predicate Meets(links: Links, x: NodeId, target: NodeId)
  {
    exists k: nat :: Up(links, x, k) == Some(target)
  }

  ghost predicate MeetsWithin(links: Links, x: NodeId, target: NodeId, limit: nat)
  {
    exists k: nat :: k <= limit && Up(links, x, k) == Some(target)
  }

  /** A chain meets a target at all exactly when it does so within the node count. */
  lemma MeetsWithinTheNodeCount(links: Links, x: NodeId, target: NodeId, limit: nat)
    requires limit >= |links|
    ensures MeetsWithin(links, x, target, limit) <==> Meets(links, x, target)
  {
    if k: nat :| Up(links, x, k) == Some(target) {
      var first := FirstMeeting(links, x, target, k);
      FirstMeetingIsEarly(links, x, target, first);
      assert first <= limit;
    }
  }

  lemma FirstMeeting(links: Links, x: NodeId, target: NodeId, k: nat) returns (first: nat)
    requires Up(links, x, k) == Some(target)
    ensures Up(links, x, first) == Some(target)
    ensures forall i: nat :: i < first ==> Up(links, x, i) != Some(target)
  {
    first := 0;
    while Up(links, x, first) != Some(target)
      invariant first <= k
      invariant forall i: nat :: i < first ==> Up(links, x, i) != Some(target)
      decreases k - first
    {
      first := first + 1;
    }
  }
}
