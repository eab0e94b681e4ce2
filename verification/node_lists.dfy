/** Flat lists of semantic nodes with parent links, indexed by id and by parent. */
module NodeLists {
  import opened Options
  import opened Bytes
  import opened Sequences
  import opened Chains

  /** `name` is UTF-8, as its length is counted. */
  datatype SemanticNode = SemanticNode(id: NodeId, parent: Option<NodeId>, role: string, name: Bytes, onscreen: bool)

  type Index = map<NodeId, SemanticNode>

  function IdsOf(nodes: seq<SemanticNode>): (ids: seq<NodeId>)
  {
    seq(|nodes|, i requires 0 <= i < |nodes| => nodes[i].id)
  }

  /** The last node of each id, as collecting into a map leaves it. */
  function ById(nodes: seq<SemanticNode>): Index
    decreases |nodes|
  {
    if nodes == [] then map[]
    else ById(nodes[..|nodes| - 1])[nodes[|nodes| - 1].id := nodes[|nodes| - 1]]
  }

  /** A parent that is not in the list does not count. */
  function KnownParent(node: SemanticNode, known: set<NodeId>): Option<NodeId>
  {
    if node.parent.Some? && node.parent.value in known then node.parent else None
  }

  /** The nodes listed under `p`, in input order; `None` lists the roots. */
  function Under(nodes: seq<SemanticNode>, known: set<NodeId>, p: Option<NodeId>): seq<NodeId>
    decreases |nodes|
  {
    if nodes == [] then []
    else
      var last := nodes[|nodes| - 1];
      Under(nodes[..|nodes| - 1], known, p) + if KnownParent(last, known) == p then [last.id] else []
  }

  ghost predicate UniqueIds(nodes: seq<SemanticNode>)
  {
    Distinct(IdsOf(nodes))
  }

  lemma UniqueFront(nodes: seq<SemanticNode>)
    requires UniqueIds(nodes) && nodes != []
    ensures var front, last := nodes[..|nodes| - 1], nodes[|nodes| - 1];
      UniqueIds(front) && last.id !in IdsOf(front) && IdsOf(nodes) == IdsOf(front) + [last.id]
        && nodes == front + [last]
  {
    var front, last := nodes[..|nodes| - 1], nodes[|nodes| - 1];
    var ids := IdsOf(nodes);
    forall i | 0 <= i < |front| ensures IdsOf(front)[i] == ids[i] && ids[i] != last.id {
      assert ids[|front|] == last.id;
    }
  }

  /** The children of every node that has any. */
  function ChildLists(nodes: seq<SemanticNode>, known: set<NodeId>): map<NodeId, seq<NodeId>>
  {
    map p | p in known && Under(nodes, known, Some(p)) != [] :: Under(nodes, known, Some(p))
  }

  /** Repeated ids or not, the map has exactly the listed ids, each with a node of that id. */
  lemma {:induction false} ByIdIsListed(nodes: seq<SemanticNode>, id: NodeId)
    ensures id in ById(nodes) <==> id in IdsOf(nodes)
    ensures id in ById(nodes) ==> ById(nodes)[id] in nodes && ById(nodes)[id].id == id
    ensures |ById(nodes)| <= |nodes|
    decreases |nodes|
  {
    if nodes != [] {
      var front, last := nodes[..|nodes| - 1], nodes[|nodes| - 1];
      ByIdIsListed(front, id);
      assert nodes == front + [last] && IdsOf(nodes) == IdsOf(front) + [last.id];
    }
  }

  lemma {:induction false} ByIdFinds(nodes: seq<SemanticNode>, id: NodeId)
    requires UniqueIds(nodes)
    ensures id in ById(nodes) <==> id in IdsOf(nodes)
    ensures id in ById(nodes) ==> ById(nodes)[id] in nodes && ById(nodes)[id].id == id
    ensures |ById(nodes)| == |nodes|
    decreases |nodes|
  {
    ByIdIsListed(nodes, id);
    if nodes != [] {
      var front, last := nodes[..|nodes| - 1], nodes[|nodes| - 1];
      UniqueFront(nodes);
      ByIdFinds(front, id);
      ByIdIsListed(front, last.id);
    }
  }

  lemma {:induction false} UnderMembers(nodes: seq<SemanticNode>, known: set<NodeId>, p: Option<NodeId>, c: NodeId)
    ensures c in Under(nodes, known, p) <==>
      exists node :: node in nodes && node.id == c && KnownParent(node, known) == p
    decreases |nodes|
  {
    if nodes != [] {
      var front, last := nodes[..|nodes| - 1], nodes[|nodes| - 1];
      UnderMembers(front, known, p, c);
      assert nodes == front + [last];
    }
  }

  lemma IdsOfMembers(nodes: seq<SemanticNode>)
    ensures forall node :: node in nodes ==> node.id in IdsOf(nodes)
  {
    forall node | node in nodes ensures node.id in IdsOf(nodes) {
      var i :| 0 <= i < |nodes| && nodes[i] == node;
      assert IdsOf(nodes)[i] == node.id;
    }
  }

  lemma {:induction false} UnderDistinct(nodes: seq<SemanticNode>, known: set<NodeId>, p: Option<NodeId>)
    requires UniqueIds(nodes)
    ensures Distinct(Under(nodes, known, p))
    decreases |nodes|
  {
    if nodes != [] {
      var front, last := nodes[..|nodes| - 1], nodes[|nodes| - 1];
      UniqueFront(nodes);
      UnderDistinct(front, known, p);
      UnderMembers(front, known, p, last.id);
      IdsOfMembers(front);
    }
  }

  /** The one node of an id, found by its id. */
  lemma SameIdSameNode(nodes: seq<SemanticNode>, node: SemanticNode)
    requires UniqueIds(nodes) && node in nodes
    ensures node.id in ById(nodes) && ById(nodes)[node.id] == node
  {
    var i :| 0 <= i < |nodes| && nodes[i] == node;
    assert IdsOf(nodes)[i] == node.id;
    ByIdFinds(nodes, node.id);
    var other := ById(nodes)[node.id];
    var j :| 0 <= j < |nodes| && nodes[j] == other;
    assert IdsOf(nodes)[j] == node.id;
  }

  lemma NothingUnder(known: set<NodeId>)
    ensures ChildLists([], known) == map[] && Under([], known, None) == []
  {
  }

  lemma UnderOneMore(nodes: seq<SemanticNode>, known: set<NodeId>, i: nat, p: Option<NodeId>)
    requires i < |nodes|
    ensures Under(nodes[..i + 1], known, p) == Under(nodes[..i], known, p)
      + if KnownParent(nodes[i], known) == p then [nodes[i].id] else []
  {
    assert nodes[..i + 1][..i] == nodes[..i];
  }

  /** One node more goes under its parent, or to the roots. */
  lemma OneMoreUnder(nodes: seq<SemanticNode>, known: set<NodeId>, i: nat)
    requires i < |nodes|
    ensures var node := nodes[i];
      var before := ChildLists(nodes[..i], known);
      if node.parent.Some? && node.parent.value in known then
        var p := node.parent.value;
        && ChildLists(nodes[..i + 1], known) == before[p := (if p in before then before[p] else []) + [node.id]]
        && Under(nodes[..i + 1], known, None) == Under(nodes[..i], known, None)
      else
        && ChildLists(nodes[..i + 1], known) == before
        && Under(nodes[..i + 1], known, None) == Under(nodes[..i], known, None) + [node.id]
  {
    hide Under;
    forall p: Option<NodeId>
      ensures Under(nodes[..i + 1], known, p) == Under(nodes[..i], known, p)
        + if KnownParent(nodes[i], known) == p then [nodes[i].id] else []
    {
      UnderOneMore(nodes, known, i, p);
    }
    var node := nodes[i];
    var before, after := ChildLists(nodes[..i], known), ChildLists(nodes[..i + 1], known);
    if node.parent.Some? && node.parent.value in known {
      var p := node.parent.value;
      var expected := before[p := (if p in before then before[p] else []) + [node.id]];
      forall q ensures q in after <==> q in expected {
      }
      forall q | q in after ensures after[q] == expected[q] {
      }
      assert after == expected;
    } else {
      forall q ensures q in after <==> q in before {
      }
      forall q | q in after ensures after[q] == before[q] {
      }
      assert after == before;
    }
  }
}
