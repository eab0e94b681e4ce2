/** The part of a document the inspection walks read. */
module Documents {
  import opened Options
  import opened Chains
  import opened Forests

  datatype Node = Node(
    parent: Option<NodeId>,
    children: seq<NodeId>,
    layoutParent: Option<NodeId>,
    isElement: bool,
    isText: bool,
    visible: bool)

  datatype Document = Document(nodes: map<NodeId, Node>, root: NodeId)
  {
    function Above(id: NodeId): Option<NodeId>
    {
      if id in nodes then nodes[id].parent else None
    }

    function Parents(): (links: Links)
    {
      map id | id in nodes :: nodes[id].parent
    }

    function LayoutParents(): (links: Links)
    {
      map id | id in nodes :: nodes[id].layoutParent
    }

    function Tree(): Forest
    {
      Forest(Parents(), map id | id in nodes :: nodes[id].children)
    }

    /** DOM parents and children agree and have no cycles. Layout parents are not constrained. */
    ghost predicate WellFormed()
    {
      && Tree().Consistent()
      && Tree().NoRepeats()
      && Tree().Acyclic()
      && root in nodes
      && nodes[root].parent.None?
    }

    /** The parent chain reaches the document root. */
    ghost predicate Attached(id: NodeId)
    {
      Meets(Parents(), id, root)
    }
  }
}
