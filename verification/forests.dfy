/**
 Ordered forests given by two maps: a link upwards for every node, and a list of
 children for some. The preorder of a subtree is the reference every stack
 traversal of the repository is compared with.
 */
module Forests {
  import opened Options
  import opened Sequences
  import opened Chains

  datatype Forest = Forest(links: Links, kids: map<NodeId, seq<NodeId>>)
  {
    function Kids(p: NodeId): seq<NodeId>
    {
      if p in kids then kids[p] else []
    }

    /** The two maps tell the same story: `c` is listed under `p` exactly when `c` links up to `p`. */
    ghost predicate Consistent()
    {
      forall p: NodeId, c: NodeId {:trigger c in Kids(p)} :: c in Kids(p) <==> c in links && links[c] == Some(p)
    }

    /** Half of that: every link upwards is listed as a child, though a list may hold more. */
    ghost predicate LinksAreListed()
    {
      forall c: NodeId, p: NodeId {:trigger Below(c, p, 1)} :: Below(c, p, 1) ==> c in Kids(p)
    }

    /** No child is listed twice. */
    ghost predicate NoRepeats()
    {
      forall p: NodeId :: Distinct(Kids(p))
    }

    ghost predicate Acyclic()
    {
      forall x {:trigger Ends(links, x)} :: x in links ==> Ends(links, x)
    }

    /** `x` is `m` links below `id`. */
    predicate Below(x: NodeId, id: NodeId, m: nat)
    {
      Up(links, x, m) == Some(id)
    }
  }

  /**
   Every node of the subtree under `id`, each before its own descendants, siblings in order.
   `room` bounds the depth; the node count is always room enough for a chain that ends.
   */
  function Pre(f: Forest, id: NodeId, room: nat): seq<NodeId>
    decreases room, 0
  {
    if room == 0 then [] else [id] + PreAll(f, f.Kids(id), room - 1)
  }

  function PreAll(f: Forest, ids: seq<NodeId>, room: nat): seq<NodeId>
    decreases room, |ids| + 1
  {
    if ids == [] then [] else Pre(f, ids[0], room) + PreAll(f, ids[1..], room)
  }

  /** `id` is `k` links below the end of its chain, and `room` is what is left of the node count. */
  predicate Fits(f: Forest, id: NodeId, k: nat, room: nat)
  {
    Tops(f.links, id, k) && k + room == |f.links|
  }

  lemma FitsKid(f: Forest, id: NodeId, k: nat, room: nat, c: NodeId)
    requires f.Consistent() && Fits(f, id, k, room) && c in f.Kids(id)
    ensures room > 1 && Fits(f, c, k + 1, room - 1) && f.Below(c, id, 1)
  {
    assert Up(f.links, c, 1) == Some(id);
    TopsBound(f.links, c, k + 1);
  }

  lemma {:induction false} PreAllMembers(f: Forest, ids: seq<NodeId>, room: nat, x: NodeId)
    ensures x in PreAll(f, ids, room) <==> exists c :: c in ids && x in Pre(f, c, room)
    decreases |ids|
  {
    if ids != [] {
      PreAllMembers(f, ids[1..], room, x);
      if c :| c in ids && x in Pre(f, c, room) {
        assert c == ids[0] || c in ids[1..];
      }
    }
  }

  /** Nothing is in the preorder of a subtree that does not hang under its root. */
  lemma {:induction false} PreIsBelow(f: Forest, id: NodeId, k: nat, room: nat, x: NodeId) returns (m: nat)
    requires f.Consistent() && Fits(f, id, k, room)
    requires x in Pre(f, id, room)
    ensures f.Below(x, id, m) && Tops(f.links, x, k + m)
    decreases room
  {
    if x == id {
      m := 0;
    } else {
      PreAllMembers(f, f.Kids(id), room - 1, x);
      var c :| c in f.Kids(id) && x in Pre(f, c, room - 1);
      FitsKid(f, id, k, room, c);
      var n := PreIsBelow(f, c, k + 1, room - 1, x);
      UpAdd(f.links, x, n, 1);
      m := n + 1;
    }
  }

  /** The last step of a climb comes from a listed child. */
  lemma LastStep(f: Forest, x: NodeId, id: NodeId, m: nat) returns (c: NodeId)
    requires f.Consistent() && f.Below(x, id, m) && m > 0
    ensures f.Below(x, c, m - 1) && c in f.Kids(id)
  {
    UpPrefix(f.links, x, m - 1, m);
    c := Up(f.links, x, m - 1).value;
    assert Up(f.links, c, 1) == Some(id);
  }

  /** Everything that hangs under the root is in the preorder. */
  lemma {:induction false} BelowIsPre(f: Forest, id: NodeId, k: nat, room: nat, x: NodeId, m: nat)
    requires f.Consistent() && Fits(f, id, k, room)
    requires f.Below(x, id, m)
    ensures x in Pre(f, id, room) && Tops(f.links, x, k + m)
    decreases m
  {
    TopsBound(f.links, id, k);
    if m > 0 {
      var c := LastStep(f, x, id, m);
      FitsKid(f, id, k, room, c);
      BelowIsPre(f, c, k + 1, room - 1, x, m - 1);
      PreAllMembers(f, f.Kids(id), room - 1, x);
    }
  }

  lemma NotBelowItself(f: Forest, id: NodeId, k: nat, room: nat)
    requires f.Consistent() && Fits(f, id, k, room) && room > 0
    ensures id !in PreAll(f, f.Kids(id), room - 1)
  {
    if id in PreAll(f, f.Kids(id), room - 1) {
      PreAllMembers(f, f.Kids(id), room - 1, id);
      var c :| c in f.Kids(id) && id in Pre(f, c, room - 1);
      FitsKid(f, id, k, room, c);
      var m := PreIsBelow(f, c, k + 1, room - 1, id);
      TopsUnique(f.links, id, k, k + 1 + m);
    }
  }

  lemma {:induction false} PreDistinct(f: Forest, id: NodeId, k: nat, room: nat)
    requires f.Consistent() && f.NoRepeats() && Fits(f, id, k, room)
    ensures Distinct(Pre(f, id, room))
    decreases room, 0
  {
    TopsBound(f.links, id, k);
    forall c | c in f.Kids(id) ensures Fits(f, c, k + 1, room - 1) {
      FitsKid(f, id, k, room, c);
    }
    assert Distinct(f.Kids(id));
    PreAllDistinct(f, f.Kids(id), k + 1, room - 1);
    NotBelowItself(f, id, k, room);
    DistinctConcat([id], PreAll(f, f.Kids(id), room - 1));
  }

  lemma {:induction false} PreAllDistinct(f: Forest, ids: seq<NodeId>, k: nat, room: nat)
    requires f.Consistent() && f.NoRepeats() && Distinct(ids)
    requires forall c :: c in ids ==> Fits(f, c, k, room)
    ensures Distinct(PreAll(f, ids, room))
    decreases room, |ids| + 1
  {
    if ids != [] {
      PreDistinct(f, ids[0], k, room);
      PreAllDistinct(f, ids[1..], k, room);
      forall x | x in PreAll(f, ids[1..], room) ensures x !in Pre(f, ids[0], room) {
        SiblingsApart(f, ids, k, room, x);
      }
      DistinctConcat(Pre(f, ids[0], room), PreAll(f, ids[1..], room));
    }
  }

  /** Subtrees of different nodes at one level share nothing. */
  lemma SiblingsApart(f: Forest, ids: seq<NodeId>, k: nat, room: nat, x: NodeId)
    requires f.Consistent() && Distinct(ids) && ids != []
    requires forall c :: c in ids ==> Fits(f, c, k, room)
    requires x in PreAll(f, ids[1..], room)
    ensures x !in Pre(f, ids[0], room)
  {
    if x in Pre(f, ids[0], room) {
      PreAllMembers(f, ids[1..], room, x);
      var c :| c in ids[1..] && x in Pre(f, c, room);
      var m := PreIsBelow(f, ids[0], k, room, x);
      var n := PreIsBelow(f, c, k, room, x);
      TopsUnique(f.links, x, k + m, k + n);
    }
  }

  lemma {:induction false} PreAllSplit(f: Forest, ids: seq<NodeId>, room: nat, i: nat)
    requires i < |ids|
    ensures PreAll(f, ids, room) == PreAll(f, ids[..i], room) + Pre(f, ids[i], room) + PreAll(f, ids[i + 1..], room)
    decreases i
  {
    if i > 0 {
      PreAllSplit(f, ids[1..], room, i - 1);
      assert ids[..i][1..] == ids[1..][..i - 1];
    }
  }

  /** The subtree of a descendant is one contiguous piece of the whole preorder. */
  lemma {:induction false} PreSlice(f: Forest, id: NodeId, k: nat, room: nat, x: NodeId, m: nat)
      returns (before: seq<NodeId>, after: seq<NodeId>)
    requires f.Consistent() && Fits(f, id, k, room) && f.Below(x, id, m)
    ensures m < room && Fits(f, x, k + m, room - m)
    ensures Pre(f, id, room) == before + Pre(f, x, room - m) + after
    decreases m
  {
    TopsBound(f.links, id, k);
    if m == 0 {
      before, after := [], [];
    } else {
      var c := LastStep(f, x, id, m);
      FitsKid(f, id, k, room, c);
      var inner, outer := PreSlice(f, c, k + 1, room - 1, x, m - 1);
      var kids := f.Kids(id);
      var i :| 0 <= i < |kids| && kids[i] == c;
      PreAllSplit(f, kids, room - 1, i);
      var left, right := PreAll(f, kids[..i], room - 1), PreAll(f, kids[i + 1..], room - 1);
      before, after := [id] + left + inner, outer + right;
      Regroup([id], left, inner, Pre(f, x, room - m), outer, right);
    }
  }

  lemma Regroup(head: seq<NodeId>, left: seq<NodeId>, inner: seq<NodeId>, core: seq<NodeId>, outer: seq<NodeId>,
      right: seq<NodeId>)
    ensures head + (left + (inner + core + outer) + right) == (head + left + inner) + core + (outer + right)
  {
  }

  /** The preorder of a whole subtree, stated for one node at a time: exactly what lies under `id`, once. */
  lemma PreIsTheSubtree(f: Forest, id: NodeId, k: nat, room: nat, x: NodeId)
    requires f.Consistent() && f.NoRepeats() && Fits(f, id, k, room)
    ensures Distinct(Pre(f, id, room))
    ensures x in Pre(f, id, room) <==> exists m: nat :: f.Below(x, id, m)
  {
    PreDistinct(f, id, k, room);
    if x in Pre(f, id, room) {
      var m := PreIsBelow(f, id, k, room, x);
    }
    if m: nat :| f.Below(x, id, m) {
      BelowIsPre(f, id, k, room, x, m);
    }
  }

  // Subtrees of bounded height, whatever lies above or beside them

  /** Every way down from `id` ends before `room` nodes. */
  ghost predicate Shallow(f: Forest, id: NodeId, room: nat)
    decreases room
  {
    room > 0 && forall c :: c in f.Kids(id) ==> Shallow(f, c, room - 1)
  }

  lemma {:induction false} FitsIsShallow(f: Forest, id: NodeId, k: nat, room: nat)
    requires f.Consistent() && Fits(f, id, k, room)
    ensures Shallow(f, id, room)
    decreases room
  {
    TopsBound(f.links, id, k);
    forall c | c in f.Kids(id) ensures Shallow(f, c, room - 1) {
      FitsKid(f, id, k, room, c);
      FitsIsShallow(f, c, k + 1, room - 1);
    }
  }

  /** More room than it takes changes nothing. */
  lemma {:induction false} PreStable(f: Forest, id: NodeId, room: nat, more: nat)
    requires Shallow(f, id, room) && room <= more
    ensures Shallow(f, id, more) && Pre(f, id, room) == Pre(f, id, more)
    decreases room, 0
  {
    PreAllStable(f, f.Kids(id), room - 1, more - 1);
  }

  lemma {:induction false} PreAllStable(f: Forest, ids: seq<NodeId>, room: nat, more: nat)
    requires room <= more && forall c :: c in ids ==> Shallow(f, c, room)
    ensures forall c :: c in ids ==> Shallow(f, c, more)
    ensures PreAll(f, ids, room) == PreAll(f, ids, more)
    decreases room, |ids| + 1
  {
    if ids != [] {
      PreStable(f, ids[0], room, more);
      PreAllStable(f, ids[1..], room, more);
    }
  }

  /** A node that is its own descendant has no bounded subtree. */
  lemma {:induction false} LoopIsNotShallow(f: Forest, id: NodeId, m: nat, room: nat)
    requires m > 0 && f.Below(id, id, m) && f.LinksAreListed()
    ensures !Shallow(f, id, room)
    decreases room
  {
    if Shallow(f, id, room) {
      ShallowBelow(f, id, id, m, room);
      LoopIsNotShallow(f, id, m, room - m);
    }
  }

  /** What lies `m` links below has that much less room, and some left. */
  lemma {:induction false} ShallowBelow(f: Forest, x: NodeId, id: NodeId, m: nat, room: nat)
    requires Shallow(f, id, room) && f.Below(x, id, m) && f.LinksAreListed()
    ensures m < room && Shallow(f, x, room - m)
    decreases m
  {
    if m > 0 {
      UpPrefix(f.links, x, m - 1, m);
      var c := Up(f.links, x, m - 1).value;
      assert f.Below(c, id, 1);
      ShallowBelow(f, x, c, m - 1, room - 1);
    }
  }
}
