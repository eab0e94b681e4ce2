/** The three upward walks, one node at a time. */
module Walks {
  import opened Options
  import opened Chains
  import opened Documents
  import opened Inspection
  import opened Subtrees

  /** The nearest element above a node; an inspection's own root is reported without a parent. */
  method SemanticParent(d: Document, id: NodeId, root: Option<NodeId>) returns (parent: Option<NodeId>)
    requires d.WellFormed()
    ensures parent == if id !in d.nodes || root == Some(id) then None else SemanticParentOf(d, id)
  {
    if Some(id) == root {
      return None;
    }
    if id !in d.nodes {
      return None;
    }
    assert Ends(d.Parents(), id);
    ghost var k := LevelOf(d, id);
    ghost var below := id;
    var current := d.nodes[id].parent;
    while current.Some?
      invariant below in d.nodes && current == d.nodes[below].parent
      invariant Tops(d.Parents(), below, k)
      invariant NearestElement(d, below, k) == SemanticParentOf(d, id)
      decreases k
    {
      var here := current.value;
      assert Tops(d.Parents(), here, k - 1);
      if d.nodes[here].isElement {
        return Some(here);
      }
      below := here;
      k := k - 1;
      current := d.nodes[here].parent;
    }
    return None;
  }

  /** Whether nothing hides the node: itself and every ancestor are individually visible. */
  method NodeIsVisible(d: Document, id: NodeId) returns (visible: bool)
    requires d.WellFormed()
    ensures visible == VisibleInTree(d, id)
  {
    if id !in d.nodes {
      return false;
    }
    assert Ends(d.Parents(), id);
    ghost var k := LevelOf(d, id);
    var current := Some(id);
    while current.Some?
      invariant current.Some? ==>
        Tops(d.Parents(), current.value, k) && VisibleInTree(d, id) == VisibleUpTo(d, current.value, k)
      invariant current.None? ==> VisibleInTree(d, id)
      decreases if current.Some? then k + 1 else 0
    {
      var here := current.value;
      if !d.nodes[here].visible {
        return false;
      }
      current := d.nodes[here].parent;
      k := if k > 0 then k - 1 else 0;
    }
    return true;
  }

  /** One step per node is enough to find the root from any node that hangs under it, whatever the links. */
  lemma AttachedWithinTheNodeCount(d: Document, id: NodeId, limit: nat)
    requires limit >= |d.nodes|
    ensures MeetsWithin(d.Parents(), id, d.root, limit) <==> d.Attached(id)
  {
    assert d.Parents().Keys == d.nodes.Keys;
    assert |d.Parents()| == |d.Parents().Keys| == |d.nodes.Keys|;
    MeetsWithinTheNodeCount(d.Parents(), id, d.root, limit);
  }

  /** Whether the parent chain reaches the document root; any links, cyclic and dangling ones included. */
  method DomChainIsAttached(d: Document, id: NodeId, limit: nat) returns (attached: bool)
    ensures attached <==> MeetsWithin(d.Parents(), id, d.root, limit)
  {
    ghost var links := d.Parents();
    var current := Some(id);
    for step := 0 to limit + 1
      invariant Up(links, id, step) == current
      invariant forall k: nat :: k < step ==> Up(links, id, k) != Some(d.root)
    {
      if current.None? {
        BeyondTheEnd(links, id, step);
        return false;
      }
      var here := current.value;
      if here == d.root {
        return true;
      }
      UpAdd(links, id, step, 1);
      if here !in d.nodes {
        BeyondTheEnd(links, id, step + 1);
        return false;
      }
      current := d.nodes[here].parent;
    }
    return false;
  }

  lemma BeyondTheEnd(links: Links, x: NodeId, k: nat)
    requires Up(links, x, k).None?
    ensures forall n: nat :: n >= k ==> Up(links, x, n).None?
  {
    forall n: nat | n >= k ensures Up(links, x, n).None? {
      if Up(links, x, n).Some? {
        UpPrefix(links, x, k, n);
      }
    }
  }
}
