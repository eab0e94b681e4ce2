/**
 Which nodes an inspection offers, and with which semantic parent and visibility:
 the reference, which looks at every node on its own by walking up from it.
 */
module Inspection {
  import opened Options
  import opened Chains
  import opened Documents
  import opened Subtrees

  const U32_MAX: nat := 0xFFFF_FFFF

  type U32 = n: nat | n <= U32_MAX

  function Saturate(n: nat): U32
  {
    if n > U32_MAX then U32_MAX else n
  }

  datatype Candidate = Candidate(id: NodeId, parent: Option<NodeId>, visible: bool)

  function ElementCount(d: Document, id: NodeId): nat
  {
    if id in d.nodes && d.nodes[id].isElement then 1 else 0
  }

  predicate Shows(d: Document, id: NodeId)
  {
    id in d.nodes && d.nodes[id].visible
  }

  predicate ElementOrText(d: Document, id: NodeId)
  {
    id in d.nodes && (d.nodes[id].isElement || d.nodes[id].isText)
  }

  /** How many of the next `k` proper ancestors are elements. */
  function ElementsAbove(d: Document, id: NodeId, k: nat): nat
    decreases k
  {
    if k == 0 || d.Above(id).None? then 0
    else ElementCount(d, d.Above(id).value) + ElementsAbove(d, d.Above(id).value, k - 1)
  }

  /** How many of the first `m` nodes on the chain, the node itself included, are elements. */
  function ElementsUpTo(d: Document, id: NodeId, m: nat): nat
    decreases m
  {
    if m == 0 || d.Above(id).None? then 0
    else ElementCount(d, id) + ElementsUpTo(d, d.Above(id).value, m - 1)
  }

  function NearestElement(d: Document, id: NodeId, k: nat): Option<NodeId>
    decreases k
  {
    if k == 0 || d.Above(id).None? then None
    else if ElementCount(d, d.Above(id).value) == 1 then d.Above(id)
    else NearestElement(d, d.Above(id).value, k - 1)
  }

  predicate VisibleUpTo(d: Document, id: NodeId, k: nat)
    decreases k
  {
    Shows(d, id) && (k > 0 && d.Above(id).Some? ==> VisibleUpTo(d, d.Above(id).value, k - 1))
  }

  /** No element among the node and its ancestors has more than `maxDepth` elements above it; zero is no limit. */
  predicate WithinDepth(d: Document, id: NodeId, k: nat, maxDepth: U32)
    decreases k
  {
    && (ElementCount(d, id) == 1 && maxDepth != 0 ==> Saturate(ElementsAbove(d, id, k)) <= maxDepth)
    && (k > 0 && d.Above(id).Some? ==> WithinDepth(d, d.Above(id).value, k - 1, maxDepth))
  }

  ghost function SemanticParentOf(d: Document, id: NodeId): Option<NodeId>
  {
    NearestElement(d, id, LevelOf(d, id))
  }

  ghost predicate VisibleInTree(d: Document, id: NodeId)
  {
    VisibleUpTo(d, id, LevelOf(d, id))
  }

  ghost function Describe(d: Document, id: NodeId): Candidate
  {
    Candidate(id, SemanticParentOf(d, id), VisibleInTree(d, id))
  }

  /** A full inspection offers elements and text inside the depth limit. */
  ghost predicate Offered(d: Document, id: NodeId, maxDepth: U32)
  {
    ElementOrText(d, id) && WithinDepth(d, id, LevelOf(d, id), maxDepth)
  }

  ghost function OfferedFrom(d: Document, ids: seq<NodeId>, maxDepth: U32): seq<Candidate>
  {
    if ids == [] then []
    else (if Offered(d, ids[0], maxDepth) then [Describe(d, ids[0])] else []) + OfferedFrom(d, ids[1..], maxDepth)
  }

  /** What a full inspection is meant to return. */
  ghost function FullInspection(d: Document, maxDepth: U32): seq<Candidate>
  {
    OfferedFrom(d, Subtree(d, d.root), maxDepth)
  }

  /** The chain of any known node, looked at as a climb of `Above`. */
  predicate Climb(d: Document, id: NodeId, j: nat, a: NodeId)
  {
    Up(d.Parents(), id, j) == Some(a)
  }

  /** The semantic parent is the first element met on the way up; it is missing only when there is none. */
  lemma {:induction false} NearestElementIsNearest(d: Document, id: NodeId, k: nat)
    requires Tops(d.Parents(), id, k)
    ensures NearestElement(d, id, k).None? ==>
      forall j: nat, a: NodeId :: 0 < j && Climb(d, id, j, a) ==> ElementCount(d, a) == 0
    ensures NearestElement(d, id, k).Some? ==>
      && ElementCount(d, NearestElement(d, id, k).value) == 1
      && (exists j: nat ::
        && 0 < j && Climb(d, id, j, NearestElement(d, id, k).value)
        && forall i: nat, a: NodeId :: 0 < i < j && Climb(d, id, i, a) ==> ElementCount(d, a) == 0)
    decreases k
  {
    if k == 0 {
      forall j: nat, a: NodeId | 0 < j ensures !Climb(d, id, j, a) {
      }
    } else {
      var p := d.Above(id).value;
      forall j: nat, a: NodeId | 0 < j ensures Climb(d, id, j, a) <==> Climb(d, p, j - 1, a) {
      }
      if ElementCount(d, p) == 1 {
        assert Climb(d, id, 1, p);
      } else {
        NearestElementIsNearest(d, p, k - 1);
        if NearestElement(d, p, k - 1).Some? {
          var j: nat :| 0 < j && Climb(d, p, j, NearestElement(d, p, k - 1).value)
            && forall i: nat, a: NodeId :: 0 < i < j && Climb(d, p, i, a) ==> ElementCount(d, a) == 0;
          assert Climb(d, id, j + 1, NearestElement(d, p, k - 1).value);
        }
      }
    }
  }

  /** Visibility is inherited from every ancestor. */
  lemma {:induction false} VisibleMeansAllTheWayUp(d: Document, id: NodeId, k: nat)
    requires Tops(d.Parents(), id, k)
    ensures VisibleUpTo(d, id, k) <==> forall j: nat, a: NodeId :: Climb(d, id, j, a) ==> Shows(d, a)
    decreases k
  {
    assert Climb(d, id, 0, id);
    if k == 0 {
      forall j: nat, a: NodeId | 0 < j ensures !Climb(d, id, j, a) {
      }
    } else {
      var p := d.Above(id).value;
      VisibleMeansAllTheWayUp(d, p, k - 1);
      forall j: nat, a: NodeId | 0 < j ensures Climb(d, id, j, a) <==> Climb(d, p, j - 1, a) {
      }
      forall j: nat, a: NodeId | Climb(d, p, j, a) ensures Climb(d, id, j + 1, a) {
      }
    }
  }
}
