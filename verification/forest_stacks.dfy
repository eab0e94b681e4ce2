/** Whole subtrees, and what a depth-first stack still owes of them: the subtrees of its entries, top first. */
module ForestStacks {
  import opened Options
  import opened Sequences
  import opened Chains
  import opened Forests

  /** The subtree under a node ends; otherwise no traversal of it does. */
  ghost predicate Finite(f: Forest, id: NodeId)
  {
    exists room: nat :: Shallow(f, id, room)
  }

  /** The preorder of the subtree under a node. */
  ghost function SubtreeIn(f: Forest, id: NodeId): seq<NodeId>
  {
    if Finite(f, id) then
      var room: nat :| Shallow(f, id, room);
      Pre(f, id, room)
    else []
  }

  /** Any room that is enough gives the same preorder. */
  lemma SubtreeIs(f: Forest, id: NodeId, room: nat)
    requires Shallow(f, id, room)
    ensures Finite(f, id) && SubtreeIn(f, id) == Pre(f, id, room)
  {
    var other: nat :| Shallow(f, id, other) && SubtreeIn(f, id) == Pre(f, id, other);
    if other <= room {
      PreStable(f, id, other, room);
    } else {
      PreStable(f, id, room, other);
    }
  }

  function RoomIn(f: Forest, k: nat): nat
  {
    if k <= |f.links| then |f.links| - k else 0
  }

  /** The preorder below a node at a known level, without the node. */
  ghost function BelowIn(f: Forest, id: NodeId): seq<NodeId>
  {
    var room := RoomIn(f, Level(f.links, id));
    if room == 0 then [] else PreAll(f, f.Kids(id), room - 1)
  }

  /** The preorder a depth-first stack still owes, its top being last in the sequence. */
  ghost function OwedIn(f: Forest, stack: seq<NodeId>): seq<NodeId>
  {
    if stack == [] then [] else SubtreeIn(f, stack[|stack| - 1]) + OwedIn(f, stack[..|stack| - 1])
  }

  lemma OwedInPush(f: Forest, stack: seq<NodeId>, id: NodeId)
    ensures OwedIn(f, stack + [id]) == SubtreeIn(f, id) + OwedIn(f, stack)
  {
    assert (stack + [id])[..|stack|] == stack;
  }

  /** Below the end of a chain there is always room. */
  lemma UnfoldIn(f: Forest, id: NodeId, k: nat)
    requires f.Consistent() && Tops(f.links, id, k)
    ensures Level(f.links, id) == k && 0 < RoomIn(f, k) == |f.links| - k
    ensures Fits(f, id, k, RoomIn(f, k)) && Finite(f, id)
    ensures SubtreeIn(f, id) == Pre(f, id, RoomIn(f, k)) == [id] + BelowIn(f, id)
  {
    LevelIs(f.links, id, k);
    TopsBound(f.links, id, k);
    FitsIsShallow(f, id, k, RoomIn(f, k));
    SubtreeIs(f, id, RoomIn(f, k));
  }

  lemma UnfoldKidIn(f: Forest, id: NodeId, k: nat, c: NodeId)
    requires f.Consistent() && Tops(f.links, id, k) && c in f.Kids(id)
    ensures Tops(f.links, c, k + 1) && Level(f.links, c) == k + 1
    ensures RoomIn(f, k) > 0 && SubtreeIn(f, c) == Pre(f, c, RoomIn(f, k) - 1)
  {
    UnfoldIn(f, c, k + 1);
  }

  // Pieces of a finite subtree

  /** The subtree of a child is one piece of its parent's. */
  lemma KidIsAPiece(f: Forest, id: NodeId, c: NodeId) returns (before: seq<NodeId>, after: seq<NodeId>)
    requires Finite(f, id) && c in f.Kids(id)
    ensures Finite(f, c) && SubtreeIn(f, id) == before + SubtreeIn(f, c) + after
  {
    hide SubtreeIn, Pre, PreAll;
    var room: nat :| Shallow(f, id, room);
    SubtreeIs(f, id, room);
    SubtreeIs(f, c, room - 1);
    var kids := f.Kids(id);
    var i :| 0 <= i < |kids| && kids[i] == c;
    PreAllSplit(f, kids, room - 1, i);
    var left, right := PreAll(f, kids[..i], room - 1), PreAll(f, kids[i + 1..], room - 1);
    PreUnfolds(f, id, room);
    before, after := [id] + left, right;
    Regroup([id], left, [], SubtreeIn(f, c), [], right);
    assert [] + SubtreeIn(f, c) + [] == SubtreeIn(f, c);
    assert [id] + left + [] == before && [] + right == right;
  }

  lemma PreUnfolds(f: Forest, id: NodeId, room: nat)
    requires room > 0
    ensures Pre(f, id, room) == [id] + PreAll(f, f.Kids(id), room - 1)
  {
  }

  /** Everything in the preorder hangs below its root. */
  lemma {:induction false} InPreIsBelow(f: Forest, id: NodeId, room: nat, x: NodeId) returns (m: nat)
    requires f.Consistent() && x in Pre(f, id, room)
    ensures f.Below(x, id, m)
    decreases room
  {
    if x == id {
      m := 0;
    } else {
      PreAllMembers(f, f.Kids(id), room - 1, x);
      var c :| c in f.Kids(id) && x in Pre(f, c, room - 1);
      assert f.Below(c, id, 1);
      var n := InPreIsBelow(f, c, room - 1, x);
      UpAdd(f.links, x, n, 1);
      m := n + 1;
    }
  }

  /** Everything that hangs below the root is in the preorder, if there is room. */
  lemma {:induction false} BelowIsInPre(f: Forest, id: NodeId, room: nat, x: NodeId, m: nat)
    requires f.Consistent() && Shallow(f, id, room) && f.Below(x, id, m)
    ensures x in Pre(f, id, room)
    decreases m
  {
    if m > 0 {
      var c := LastStep(f, x, id, m);
      BelowIsInPre(f, c, room - 1, x, m - 1);
      PreAllMembers(f, f.Kids(id), room - 1, x);
    }
  }

  lemma ConsistentIsListed(f: Forest)
    requires f.Consistent()
    ensures f.LinksAreListed()
  {
    forall c: NodeId, p: NodeId | f.Below(c, p, 1) ensures c in f.Kids(p) {
      assert Up(f.links, c, 1) == Some(p);
    }
  }

  /** Two children of one node share nothing, when nothing below it runs in a circle. */
  lemma KidsApart(f: Forest, p: NodeId, room: nat, a: NodeId, b: NodeId, x: NodeId)
    requires f.Consistent() && Shallow(f, p, room) && a in f.Kids(p) && b in f.Kids(p) && a != b
    requires x in Pre(f, a, room - 1)
    ensures x !in Pre(f, b, room - 1)
  {
    if x in Pre(f, b, room - 1) {
      var m := InPreIsBelow(f, a, room - 1, x);
      var n := InPreIsBelow(f, b, room - 1, x);
      assert f.Below(a, p, 1) && f.Below(b, p, 1);
      UpAdd(f.links, x, m, 1);
      UpAdd(f.links, x, n, 1);
      TwoWaysUp(f, p, room, x, m + 1, n + 1);
    }
  }

  /** There is one way up to a node that is not its own descendant. */
  lemma TwoWaysUp(f: Forest, p: NodeId, room: nat, x: NodeId, m: nat, n: nat)
    requires f.Consistent() && Shallow(f, p, room) && f.Below(x, p, m) && f.Below(x, p, n)
    ensures m == n
  {
    ConsistentIsListed(f);
    if m < n {
      UpAdd(f.links, x, m, n - m);
      LoopIsNotShallow(f, p, n - m, room);
    } else if n < m {
      UpAdd(f.links, x, n, m - n);
      LoopIsNotShallow(f, p, m - n, room);
    }
  }

  /** A node is not among its own descendants. */
  lemma NotItsOwnDescendant(f: Forest, id: NodeId, room: nat)
    requires f.Consistent() && Shallow(f, id, room)
    ensures id !in PreAll(f, f.Kids(id), room - 1)
  {
    if id in PreAll(f, f.Kids(id), room - 1) {
      PreAllMembers(f, f.Kids(id), room - 1, id);
      var c :| c in f.Kids(id) && id in Pre(f, c, room - 1);
      var m := InPreIsBelow(f, c, room - 1, id);
      assert f.Below(c, id, 1);
      UpAdd(f.links, id, m, 1);
      TwoWaysUp(f, id, room, id, 0, m + 1);
    }
  }

  lemma {:induction false} ShallowPreDistinct(f: Forest, id: NodeId, room: nat)
    requires f.Consistent() && f.NoRepeats() && Shallow(f, id, room)
    ensures Distinct(Pre(f, id, room))
    decreases room, 0
  {
    hide PreAll, Forest.Consistent;
    var kids := f.Kids(id);
    assert Distinct(kids);
    KidsDistinct(f, id, kids, room);
    NotItsOwnDescendant(f, id, room);
    DistinctConcat([id], PreAll(f, kids, room - 1));
  }

  lemma {:induction false} KidsDistinct(f: Forest, p: NodeId, ids: seq<NodeId>, room: nat)
    requires f.Consistent() && f.NoRepeats() && Shallow(f, p, room) && Distinct(ids)
    requires forall c :: c in ids ==> c in f.Kids(p)
    ensures Distinct(PreAll(f, ids, room - 1))
    decreases room - 1, |ids| + 1
  {
    if ids != [] {
      assert ids[0] in f.Kids(p);
      ShallowPreDistinct(f, ids[0], room - 1);
      KidsDistinct(f, p, ids[1..], room);
      var others := PreAll(f, ids[1..], room - 1);
      forall x | x in others ensures x !in Pre(f, ids[0], room - 1) {
        PreAllMembers(f, ids[1..], room - 1, x);
        var c :| c in ids[1..] && x in Pre(f, c, room - 1);
        KidsApart(f, p, room, c, ids[0], x);
      }
      DistinctConcat(Pre(f, ids[0], room - 1), others);
    }
  }

  /** A finite subtree of consistent links is exactly what hangs below its root, each node once. */
  lemma FiniteIsTheSubtree(f: Forest, id: NodeId, x: NodeId)
    requires f.Consistent() && f.NoRepeats() && Finite(f, id)
    ensures Distinct(SubtreeIn(f, id))
    ensures x in SubtreeIn(f, id) <==> exists m: nat :: f.Below(x, id, m)
  {
    var room: nat :| Shallow(f, id, room);
    SubtreeIs(f, id, room);
    ShallowPreDistinct(f, id, room);
    if x in Pre(f, id, room) {
      var m := InPreIsBelow(f, id, room, x);
    }
    if m: nat :| f.Below(x, id, m) {
      BelowIsInPre(f, id, room, x, m);
    }
  }
}
