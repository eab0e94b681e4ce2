/** Preorder subtrees of a document, and what a depth-first stack still owes of one. */
module Subtrees {
  import opened Options
  import opened Chains
  import opened Forests
  import opened ForestStacks
  import opened Documents

  ghost function LevelOf(d: Document, id: NodeId): nat
  {
    Level(d.Parents(), id)
  }

  function Room(d: Document, k: nat): nat
  {
    RoomIn(d.Tree(), k)
  }

  /** The preorder of the subtree under a node. */
  ghost function Subtree(d: Document, id: NodeId): seq<NodeId>
  {
    SubtreeIn(d.Tree(), id)
  }

  lemma RootEnds(d: Document)
    requires d.WellFormed()
    ensures Ends(d.Parents(), d.root) && LevelOf(d, d.root) == 0
  {
    assert Tops(d.Parents(), d.root, 0);
    LevelIs(d.Parents(), d.root, 0);
  }

  /** The preorder a depth-first stack still owes, its top being last in the sequence. */
  ghost function Owed(d: Document, stack: seq<NodeId>): seq<NodeId>
  {
    OwedIn(d.Tree(), stack)
  }

  lemma OwedPush(d: Document, stack: seq<NodeId>, id: NodeId)
    ensures Owed(d, stack + [id]) == Subtree(d, id) + Owed(d, stack)
  {
    OwedInPush(d.Tree(), stack, id);
  }

  /** The preorder below a node, without the node. */
  ghost function Descendants(d: Document, id: NodeId): seq<NodeId>
  {
    BelowIn(d.Tree(), id)
  }

  lemma SubtreeUnfolds(d: Document, id: NodeId, k: nat)
    requires d.WellFormed() && Tops(d.Parents(), id, k)
    ensures id in d.nodes && LevelOf(d, id) == k && 0 < Room(d, k) == |d.Parents()| - k
    ensures Subtree(d, id) == Pre(d.Tree(), id, Room(d, k)) == [id] + Descendants(d, id)
  {
    UnfoldIn(d.Tree(), id, k);
  }

  lemma ChildUnfolds(d: Document, id: NodeId, k: nat, c: NodeId)
    requires d.WellFormed() && Tops(d.Parents(), id, k)
    requires id in d.nodes && c in d.nodes[id].children
    ensures c in d.nodes && d.Above(c) == Some(id)
    ensures Tops(d.Parents(), c, k + 1) && LevelOf(d, c) == k + 1
    ensures Room(d, k) > 0 && Subtree(d, c) == Pre(d.Tree(), c, Room(d, k) - 1)
  {
    assert c in d.Tree().Kids(id);
    UnfoldKidIn(d.Tree(), id, k, c);
  }
}
