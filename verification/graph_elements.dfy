/** Nodes and edges of the proof graph (`node_t`, `edge_t` in
    src/proof_graph.inline.h). Indices are plain integers into the graph's
    dense arrays; `-1` stands for "no hypernode" / "no axiom". */
module GraphElements {
  import opened Logic

  type NodeIdx = int
  type EdgeIdx = int
  type HypernodeIdx = int

  /** The index that stands for a missing hypernode, edge or axiom. */
  const NoIndex: int := -1

  datatype NodeType = Observable | Hypothesis

  /** A literal placed in the graph at some depth. `masterHypernode` is
      `NoIndex` until the node is assigned to a hypernode. */
  datatype Node = Node(
    literal: Literal,
    kind: NodeType,
    index: NodeIdx,
    depth: int,
    masterHypernode: HypernodeIdx,
    parents: set<NodeIdx>,
    ancestors: set<NodeIdx>,
    relatives: set<NodeIdx>)

  /** `is_equality_node`: an affirmed `=` literal. */
  function IsEqualityNode(n: Node): bool
  {
    n.literal.pred == EqualityPredicate && n.literal.truth
  }

  /** `is_non_equality_node`: a negated `=` literal. */
  function IsNonEqualityNode(n: Node): (r: bool)
    ensures r ==> !IsEqualityNode(n)
  {
    n.literal.pred == EqualityPredicate && !n.literal.truth
  }

  /** `is_transitive_equality_node`: an equality node not yet owned by a hypernode. */
  function IsTransitiveEqualityNode(n: Node): (r: bool)
    ensures r ==> !IsNonEqualityNode(n)
  {
    IsEqualityNode(n) && n.masterHypernode == NoIndex
  }

  /** No node is both an equality and a non-equality node, and only
      equality nodes can be transitive equality nodes. */
  lemma EqualityClassification(n: Node)
    ensures !(IsEqualityNode(n) && IsNonEqualityNode(n))
    ensures IsTransitiveEqualityNode(n) ==> IsEqualityNode(n) && !IsNonEqualityNode(n)
    ensures IsTransitiveEqualityNode(n) <==> IsEqualityNode(n) && n.masterHypernode == NoIndex
  {
  }

  /** `set_master_hypernode`: assigning an owner changes nothing but the
      owner, and an equality node stays transitive only while the owner is `-1`. */
  function SetMasterHypernode(n: Node, h: HypernodeIdx): (r: Node)
    ensures r.masterHypernode == h
    ensures r.literal == n.literal && r.kind == n.kind && r.index == n.index && r.depth == n.depth
    ensures r.parents == n.parents && r.ancestors == n.ancestors && r.relatives == n.relatives
    ensures IsEqualityNode(r) == IsEqualityNode(n) && IsNonEqualityNode(r) == IsNonEqualityNode(n)
    ensures IsTransitiveEqualityNode(r) <==> IsEqualityNode(n) && h == NoIndex
  {
    n.(masterHypernode := h)
  }

  /** Edge kinds: backward chaining (`EDGE_HYPOTHESIZE`), forward chaining
      (`EDGE_IMPLICATION`), unification, and the default-constructed kind. */
  datatype EdgeType = Underspecified | Hypothesize | Implication | Unification

  datatype Edge = Edge(kind: EdgeType, tail: HypernodeIdx, head: HypernodeIdx, axiomId: AxiomId)

  /** The default constructor `edge_t()`. */
  function DefaultEdge(): (e: Edge)
    ensures e.tail == NoIndex && e.head == NoIndex && e.axiomId == NoIndex
    ensures !IsChainEdge(e) && !IsUnifyEdge(e)
  {
    Edge(Underspecified, NoIndex, NoIndex, NoIndex)
  }

  /** The four-argument constructor `edge_t(type, tail, head, id)`. */
  function MakeEdge(kind: EdgeType, tail: HypernodeIdx, head: HypernodeIdx, id: AxiomId): (e: Edge)
    ensures e.kind == kind && e.tail == tail && e.head == head && e.axiomId == id
    ensures IsChainEdge(e) <==> kind == Hypothesize || kind == Implication
  {
    Edge(kind, tail, head, id)
  }

  /** `is_chain_edge`: an edge made by backward or forward chaining. */
  function IsChainEdge(e: Edge): (r: bool)
    ensures r ==> !IsUnifyEdge(e) && e.kind != Underspecified
  {
    e.kind == Hypothesize || e.kind == Implication
  }

  /** `is_unify_edge`. */
  function IsUnifyEdge(e: Edge): bool
  {
    e.kind == Unification
  }

  /** Every edge is a chain edge, a unification edge, or underspecified,
      and never two of these. */
  lemma EdgeClassification(e: Edge)
    ensures !(IsChainEdge(e) && IsUnifyEdge(e))
    ensures IsChainEdge(e) || IsUnifyEdge(e) || e.kind == Underspecified
    ensures e.kind == Underspecified ==> !IsChainEdge(e) && !IsUnifyEdge(e)
  {
  }
}
