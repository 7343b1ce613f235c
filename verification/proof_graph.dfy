/** The proof graph's read side and its small construction steps
    (`proof_graph_t` in src/proof_graph.inline.h). Nodes, edges and
    hypernodes live in dense sequences and are referred to by position;
    reverse indexes map terms, predicates, depths, nodes and node sets to
    the positions that mention them. The construction steps whose bodies
    live elsewhere (`add_node`, `chain`, the `_generate_*` steps, the
    pairwise coexistability test, `find_parental_edge`) are passed in as
    parameters, and only what src/proof_graph.inline.h does around them is
    modelled. */
module ProofGraph {
  import opened Wrappers
  import opened Logic
  import opened Numerals
  import opened Unification
  import opened VariableClusters
  import opened GraphElements
  import KnowledgeBase

  /** The reverse indexes of the graph (`m_maps`). Node sets are keyed by
      the set itself rather than by a hash of it. */
  datatype IndexMaps = IndexMaps(
    termToNodes: map<Term, set<NodeIdx>>,
    predicateToNodes: map<string, map<int, set<NodeIdx>>>,
    arityToNodes: map<KnowledgeBase.PredicateId, set<NodeIdx>>,
    depthToNodes: map<int, set<NodeIdx>>,
    hypernodeToEdge: map<HypernodeIdx, set<EdgeIdx>>,
    headNodeToEdges: map<NodeIdx, set<EdgeIdx>>,
    tailNodeToEdges: map<NodeIdx, set<EdgeIdx>>,
    nodeToHypernode: map<NodeIdx, set<HypernodeIdx>>,
    unorderedNodesToHypernode: map<set<NodeIdx>, set<HypernodeIdx>>)

  /** The mutual-exclusion table is keyed by the ordered pair of node
      indexes, so both orders of a pair reach the same entry. */
  datatype Graph = Graph(
    nodes: seq<Node>,
    edges: seq<Edge>,
    hypernodes: seq<seq<NodeIdx>>,
    observations: set<NodeIdx>,
    mutualExclusions: map<(NodeIdx, NodeIdx), Unifier>,
    maps: IndexMaps,
    unificationHypernodes: set<HypernodeIdx>,
    variableClusters: ClusterSet,
    attributes: map<string, string>)

  // ---------------------------------------------------------------------
  // Index invariants

  /** `m` maps each key `k` to exactly the positions below `count` for
      which `holds(k, i)`; keys with no such position may be absent. */
  ghost predicate IndexesExactly<K(!new)>(m: map<K, set<int>>, count: int, holds: (K, int) -> bool)
  {
    && (forall k, i :: k in m && i in m[k] ==> 0 <= i < count && holds(k, i))
    && (forall k, i :: 0 <= i < count && holds(k, i) ==> k in m && i in m[k])
  }

  /** A lookup in an exact index answers, once a missing entry is read as
      empty, the set of positions the index describes. */
  lemma LookupIndexExact<K(!new)>(m: map<K, set<int>>, count: int, holds: (K, int) -> bool, k: K)
    requires IndexesExactly(m, count, holds)
    ensures SetOrEmpty(Lookup(m, k)) == set i | 0 <= i < count && holds(k, i)
  {
    var expected := set i | 0 <= i < count && holds(k, i);
    if k in m {
      assert m[k] == expected;
    } else {
      assert expected == {};
    }
  }

  ghost predicate TermsIndexed(g: Graph)
  {
    IndexesExactly(g.maps.termToNodes, |g.nodes|,
      (t: Term, n: int) => 0 <= n < |g.nodes| && t in g.nodes[n].literal.terms)
  }

  ghost predicate DepthsIndexed(g: Graph)
  {
    IndexesExactly(g.maps.depthToNodes, |g.nodes|,
      (d: int, n: int) => 0 <= n < |g.nodes| && g.nodes[n].depth == d)
  }

  /** The predicate index is two-level: name, then arity. */
  ghost predicate PredicatesIndexed(g: Graph)
  {
    && (forall p, a, n {:trigger n in g.maps.predicateToNodes[p][a]} ::
          p in g.maps.predicateToNodes && a in g.maps.predicateToNodes[p] && n in g.maps.predicateToNodes[p][a] ==>
          0 <= n < |g.nodes| && g.nodes[n].literal.pred == p && |g.nodes[n].literal.terms| == a)
    && (forall n :: 0 <= n < |g.nodes| ==>
          var l := g.nodes[n].literal;
          && l.pred in g.maps.predicateToNodes
          && |l.terms| in g.maps.predicateToNodes[l.pred]
          && n in g.maps.predicateToNodes[l.pred][|l.terms|])
  }

  /** The predicate id the registry gives a node's predicate and arity. */
  function NodeArityId(db: KnowledgeBase.PredicateDatabase, n: Node): KnowledgeBase.PredicateId
  {
    KnowledgeBase.Pred2Id(db, KnowledgeBase.PredicateWithArity(n.literal.pred, |n.literal.terms|))
  }

  ghost predicate ArityIdsIndexed(g: Graph, db: KnowledgeBase.PredicateDatabase)
  {
    IndexesExactly(g.maps.arityToNodes, |g.nodes|,
      (id: KnowledgeBase.PredicateId, n: int) => 0 <= n < |g.nodes| && NodeArityId(db, g.nodes[n]) == id)
  }

  ghost predicate HypernodesOfNodeIndexed(g: Graph)
  {
    IndexesExactly(g.maps.nodeToHypernode, |g.hypernodes|,
      (n: NodeIdx, h: int) => 0 <= h < |g.hypernodes| && n in g.hypernodes[h])
  }

  /** The hypernode index lists each edge under its tail hypernode, the
      side chaining starts from. `add_edge`, which maintains it, is not part
      of this model, so this is a stated invariant. */
  ghost predicate HypernodeEdgesIndexed(g: Graph)
  {
    IndexesExactly(g.maps.hypernodeToEdge, |g.edges|,
      (h: HypernodeIdx, e: int) => 0 <= e < |g.edges| && g.edges[e].tail == h)
  }

  ghost predicate HeadEdgesIndexed(g: Graph)
  {
    IndexesExactly(g.maps.headNodeToEdges, |g.edges|,
      (n: NodeIdx, e: int) => 0 <= e < |g.edges| && 0 <= g.edges[e].head < |g.hypernodes|
                              && n in g.hypernodes[g.edges[e].head])
  }

  ghost predicate TailEdgesIndexed(g: Graph)
  {
    IndexesExactly(g.maps.tailNodeToEdges, |g.edges|,
      (n: NodeIdx, e: int) => 0 <= e < |g.edges| && 0 <= g.edges[e].tail < |g.hypernodes|
                              && n in g.hypernodes[g.edges[e].tail])
  }

  /** The set of node indexes a sequence of them holds, order and
      repetition forgotten. */
  function NodeSet(ns: seq<NodeIdx>): set<NodeIdx>
  {
    set i | i in ns
  }

  ghost predicate UnorderedNodesIndexed(g: Graph)
  {
    IndexesExactly(g.maps.unorderedNodesToHypernode, |g.hypernodes|,
      (s: set<NodeIdx>, h: int) => 0 <= h < |g.hypernodes| && NodeSet(g.hypernodes[h]) == s)
  }

  /** Every edge end is a hypernode position or `-1`. */
  ghost predicate EdgeEndsResolve(g: Graph)
  {
    forall e :: 0 <= e < |g.edges| ==>
      NoIndex <= g.edges[e].tail < |g.hypernodes| && NoIndex <= g.edges[e].head < |g.hypernodes|
  }

  // ---------------------------------------------------------------------
  // Hypernode access

  /** `hypernode(i)`: the nodes of hypernode `i`, and the empty sequence for
      a negative index. A non-negative index past the end is a caller error
      (`.at` throws). */
  function Hypernode(g: Graph, i: HypernodeIdx): (r: seq<NodeIdx>)
    requires i < |g.hypernodes|
    ensures i < 0 ==> r == []
    ensures 0 <= i ==> r == g.hypernodes[i]
  {
    if i >= 0 then g.hypernodes[i] else []
  }

  /** `find_parental_hypernode(idx)`, given the edge index `e` that
      `find_parental_edge(idx)` answered: the tail of that edge, or `-1`
      when there is none. On a graph whose edge ends resolve, the answer
      can always be passed to `hypernode`. */
  function FindParentalHypernode(g: Graph, e: EdgeIdx): (r: HypernodeIdx)
    requires e < |g.edges|
    ensures e < 0 ==> r == NoIndex
    ensures 0 <= e ==> r == g.edges[e].tail
    ensures EdgeEndsResolve(g) ==> NoIndex <= r < |g.hypernodes|
  {
    if e >= 0 then g.edges[e].tail else NoIndex
  }

  /** Without a parental edge the parental hypernode has no nodes. */
  lemma NoParentalEdgeMeansNoParentNodes(g: Graph, e: EdgeIdx)
    requires e < 0 && e < |g.edges|
    ensures Hypernode(g, FindParentalHypernode(g, e)) == []
  {
  }

  /** `is_hypernode_for_unification`. */
  predicate IsHypernodeForUnification(g: Graph, idx: HypernodeIdx)
  {
    idx in g.unificationHypernodes
  }

  // ---------------------------------------------------------------------
  // Lookups

  /** The canonical key of an unordered pair of node indexes. */
  function OrderedPair(n1: NodeIdx, n2: NodeIdx): (k: (NodeIdx, NodeIdx))
    ensures k.0 <= k.1
    ensures {k.0, k.1} == {n1, n2}
  {
    if n1 <= n2 then (n1, n2) else (n2, n1)
  }

  /** `search_mutual_exclusion_of_node(n1, n2)`: the unifier under which the
      two nodes exclude each other, or none. */
  function SearchMutualExclusionOfNode(g: Graph, n1: NodeIdx, n2: NodeIdx): (r: Option<Unifier>)
    ensures r.Some? <==> OrderedPair(n1, n2) in g.mutualExclusions
    ensures r.Some? ==> r.value == g.mutualExclusions[OrderedPair(n1, n2)]
  {
    Lookup(g.mutualExclusions, OrderedPair(n1, n2))
  }

  /** The mutual-exclusion lookup does not depend on the order of the pair. */
  lemma MutualExclusionSymmetric(g: Graph, n1: NodeIdx, n2: NodeIdx)
    ensures SearchMutualExclusionOfNode(g, n1, n2) == SearchMutualExclusionOfNode(g, n2, n1)
  {
  }

  /** `search_nodes_with_term`. */
  function SearchNodesWithTerm(g: Graph, t: Term): (r: Option<set<NodeIdx>>)
    ensures r.None? <==> t !in g.maps.termToNodes
    ensures r.Some? ==> r.value == g.maps.termToNodes[t]
  {
    Lookup(g.maps.termToNodes, t)
  }

  /** On an exact term index, the nodes found are those whose literal has
      the term among its arguments. */
  lemma SearchNodesWithTermExact(g: Graph, t: Term)
    requires TermsIndexed(g)
    ensures SetOrEmpty(SearchNodesWithTerm(g, t)) == set n | 0 <= n < |g.nodes| && t in g.nodes[n].literal.terms
  {
    LookupIndexExact(g.maps.termToNodes, |g.nodes|,
      (t: Term, n: int) => 0 <= n < |g.nodes| && t in g.nodes[n].literal.terms, t);
  }

  /** `search_nodes_with_predicate(predicate, arity)`: none when either the
      name or, under it, the arity is missing. */
  function SearchNodesWithPredicate(g: Graph, p: string, arity: int): (r: Option<set<NodeIdx>>)
    ensures r.Some? <==> p in g.maps.predicateToNodes && arity in g.maps.predicateToNodes[p]
    ensures r.Some? ==> r.value == g.maps.predicateToNodes[p][arity]
  {
    match Lookup(g.maps.predicateToNodes, p)
    case None => None
    case Some(byArity) => Lookup(byArity, arity)
  }

  /** On an exact predicate index, the nodes found are those whose literal
      has that predicate name and that many arguments. */
  lemma SearchNodesWithPredicateExact(g: Graph, p: string, arity: int)
    requires PredicatesIndexed(g)
    ensures SetOrEmpty(SearchNodesWithPredicate(g, p, arity)) ==
      set n | 0 <= n < |g.nodes| && g.nodes[n].literal.pred == p && |g.nodes[n].literal.terms| == arity
  {
    var expected := set n | 0 <= n < |g.nodes| && g.nodes[n].literal.pred == p && |g.nodes[n].literal.terms| == arity;
    var m := g.maps.predicateToNodes;
    var found := SetOrEmpty(SearchNodesWithPredicate(g, p, arity));
    forall n | n in expected
      ensures n in found
    {
      var l := g.nodes[n].literal;
      assert l.pred in m && |l.terms| in m[l.pred] && n in m[l.pred][|l.terms|];
    }
    forall n | n in found
      ensures n in expected
    {
      assert SearchNodesWithPredicate(g, p, arity).Some?;
      assert p in m && arity in m[p] && n in m[p][arity];
      assert 0 <= n < |g.nodes| && g.nodes[n].literal.pred == p && |g.nodes[n].literal.terms| == arity;
    }
    assert found == expected;
  }

  /** `search_nodes_with_arity(kb::arity_id_t)`: lookup by predicate id. */
  function SearchNodesWithArityId(g: Graph, id: KnowledgeBase.PredicateId): (r: Option<set<NodeIdx>>)
    ensures r.None? <==> id !in g.maps.arityToNodes
    ensures r.Some? ==> r.value == g.maps.arityToNodes[id]
  {
    Lookup(g.maps.arityToNodes, id)
  }

  /** On an exact predicate-id index, the nodes found are those whose
      predicate and arity the registry maps to that id. */
  lemma SearchNodesWithArityIdExact(g: Graph, db: KnowledgeBase.PredicateDatabase, id: KnowledgeBase.PredicateId)
    requires ArityIdsIndexed(g, db)
    ensures SetOrEmpty(SearchNodesWithArityId(g, id)) == set n | 0 <= n < |g.nodes| && NodeArityId(db, g.nodes[n]) == id
  {
    LookupIndexExact(g.maps.arityToNodes, |g.nodes|,
      (id: KnowledgeBase.PredicateId, n: int) => 0 <= n < |g.nodes| && NodeArityId(db, g.nodes[n]) == id, id);
  }

  /** `arity.rfind(c)`: the last position holding `c`, or `-1`. */
  function LastIndexOf(s: string, c: char): (r: int)
    ensures -1 <= r < |s|
    ensures 0 <= r ==> s[r] == c
    ensures forall k :: r < k < |s| ==> s[k] != c
    decreases |s|
  {
    if |s| == 0 then -1
    else if s[|s| - 1] == c then |s| - 1
    else LastIndexOf(s[..|s| - 1], c)
  }

  /** The `name/arity` strings `search_nodes_with_arity(string)` accepts:
      the last `/` is not the first character (the source asserts this)
      and what follows it is a decimal numeral. */
  predicate IsArityText(s: string)
  {
    var i := LastIndexOf(s, '/');
    i > 0 && IsDecimalNumeral(s[i + 1..])
  }

  /** `search_nodes_with_arity(const arity_t&)`: splits at the last `/` and
      looks up the name with the parsed arity. */
  function SearchNodesWithArityText(g: Graph, s: string): (r: Option<set<NodeIdx>>)
    requires IsArityText(s)
  {
    var i := LastIndexOf(s, '/');
    SearchNodesWithPredicate(g, s[..i], Parse(s[i + 1..], 10))
  }

  /** Writing a predicate name and an arity as `name/arity` and searching
      by that text finds what searching by the name and arity finds, even
      when the name itself contains `/`. */
  lemma SearchNodesWithArityTextRoundTrip(g: Graph, name: string, arity: nat)
    requires |name| > 0
    ensures IsArityText(name + "/" + ToDigits(arity, 10))
    ensures SearchNodesWithArityText(g, name + "/" + ToDigits(arity, 10)) == SearchNodesWithPredicate(g, name, arity)
  {
    var digits := ToDigits(arity, 10);
    var s := name + "/" + digits;
    DecimalDigitsAreNumeral(arity);
    assert s[|name|] == '/';
    forall k | |name| < k < |s|
      ensures s[k] != '/'
    {
      assert s[k] == digits[k - |name| - 1];
    }
    var i := LastIndexOf(s, '/');
    assert i == |name|;
    assert s[..i] == name;
    assert s[i + 1..] == digits;
    ParseToDigits(arity, 10);
  }

  /** `search_nodes_with_depth`. */
  function SearchNodesWithDepth(g: Graph, depth: int): (r: Option<set<NodeIdx>>)
    ensures r.None? <==> depth !in g.maps.depthToNodes
    ensures r.Some? ==> r.value == g.maps.depthToNodes[depth]
  {
    Lookup(g.maps.depthToNodes, depth)
  }

  /** On an exact depth index, the nodes found are those at that depth. */
  lemma SearchNodesWithDepthExact(g: Graph, depth: int)
    requires DepthsIndexed(g)
    ensures SetOrEmpty(SearchNodesWithDepth(g, depth)) == set n | 0 <= n < |g.nodes| && g.nodes[n].depth == depth
  {
    LookupIndexExact(g.maps.depthToNodes, |g.nodes|,
      (d: int, n: int) => 0 <= n < |g.nodes| && g.nodes[n].depth == d, depth);
  }

  /** `search_edges_with_hypernode`. */
  function SearchEdgesWithHypernode(g: Graph, idx: HypernodeIdx): (r: Option<set<EdgeIdx>>)
    ensures r.None? <==> idx !in g.maps.hypernodeToEdge
    ensures r.Some? ==> r.value == g.maps.hypernodeToEdge[idx]
  {
    Lookup(g.maps.hypernodeToEdge, idx)
  }

  /** On an exact hypernode index, the edges found for a hypernode are
      exactly those leaving it. */
  lemma SearchEdgesWithHypernodeExact(g: Graph, h: HypernodeIdx)
    requires HypernodeEdgesIndexed(g)
    ensures SetOrEmpty(SearchEdgesWithHypernode(g, h)) == set e | 0 <= e < |g.edges| && g.edges[e].tail == h
  {
    LookupIndexExact(g.maps.hypernodeToEdge, |g.edges|,
      (h: HypernodeIdx, e: int) => 0 <= e < |g.edges| && g.edges[e].tail == h, h);
  }

  /** `search_edges_with_node_in_head`. */
  function SearchEdgesWithNodeInHead(g: Graph, idx: NodeIdx): (r: Option<set<EdgeIdx>>)
    ensures r.None? <==> idx !in g.maps.headNodeToEdges
    ensures r.Some? ==> r.value == g.maps.headNodeToEdges[idx]
  {
    Lookup(g.maps.headNodeToEdges, idx)
  }

  /** `search_edges_with_node_in_tail`. */
  function SearchEdgesWithNodeInTail(g: Graph, idx: NodeIdx): (r: Option<set<EdgeIdx>>)
    ensures r.None? <==> idx !in g.maps.tailNodeToEdges
    ensures r.Some? ==> r.value == g.maps.tailNodeToEdges[idx]
  {
    Lookup(g.maps.tailNodeToEdges, idx)
  }

  /** On exact edge indexes, the edges found for a node are those whose
      head (respectively tail) hypernode contains the node. */
  lemma SearchEdgesWithNodeExact(g: Graph, n: NodeIdx)
    requires HeadEdgesIndexed(g) && TailEdgesIndexed(g)
    ensures SetOrEmpty(SearchEdgesWithNodeInHead(g, n)) ==
      set e | 0 <= e < |g.edges| && 0 <= g.edges[e].head < |g.hypernodes| && n in g.hypernodes[g.edges[e].head]
    ensures SetOrEmpty(SearchEdgesWithNodeInTail(g, n)) ==
      set e | 0 <= e < |g.edges| && 0 <= g.edges[e].tail < |g.hypernodes| && n in g.hypernodes[g.edges[e].tail]
  {
    LookupIndexExact(g.maps.headNodeToEdges, |g.edges|,
      (n: NodeIdx, e: int) => 0 <= e < |g.edges| && 0 <= g.edges[e].head < |g.hypernodes|
                              && n in g.hypernodes[g.edges[e].head], n);
    LookupIndexExact(g.maps.tailNodeToEdges, |g.edges|,
      (n: NodeIdx, e: int) => 0 <= e < |g.edges| && 0 <= g.edges[e].tail < |g.hypernodes|
                              && n in g.hypernodes[g.edges[e].tail], n);
  }

  /** `search_hypernodes_with_node`. */
  function SearchHypernodesWithNode(g: Graph, idx: NodeIdx): (r: Option<set<HypernodeIdx>>)
    ensures r.None? <==> idx !in g.maps.nodeToHypernode
    ensures r.Some? ==> r.value == g.maps.nodeToHypernode[idx]
  {
    Lookup(g.maps.nodeToHypernode, idx)
  }

  /** On an exact index, the hypernodes found are those containing the node. */
  lemma SearchHypernodesWithNodeExact(g: Graph, n: NodeIdx)
    requires HypernodesOfNodeIndexed(g)
    ensures SetOrEmpty(SearchHypernodesWithNode(g, n)) == set h | 0 <= h < |g.hypernodes| && n in g.hypernodes[h]
  {
    LookupIndexExact(g.maps.nodeToHypernode, |g.hypernodes|,
      (n: NodeIdx, h: int) => 0 <= h < |g.hypernodes| && n in g.hypernodes[h], n);
  }

  /** `find_hypernode_with_unordered_nodes`: the hypernodes made of the
      same set of nodes, keyed by that set. */
  function FindHypernodeWithUnorderedNodes(g: Graph, ns: seq<NodeIdx>): (r: Option<set<HypernodeIdx>>)
    ensures r.None? <==> NodeSet(ns) !in g.maps.unorderedNodesToHypernode
    ensures r.Some? ==> r.value == g.maps.unorderedNodesToHypernode[NodeSet(ns)]
  {
    Lookup(g.maps.unorderedNodesToHypernode, NodeSet(ns))
  }

  /** The hypernode search ignores the order of the nodes asked for, and on
      an exact index it finds exactly the hypernodes with the same node set:
      this is what lets repeated derivations reuse a hypernode. */
  lemma FindHypernodeWithUnorderedNodesExact(g: Graph, ns: seq<NodeIdx>, ms: seq<NodeIdx>)
    requires multiset(ns) == multiset(ms)
    requires UnorderedNodesIndexed(g)
    ensures FindHypernodeWithUnorderedNodes(g, ns) == FindHypernodeWithUnorderedNodes(g, ms)
    ensures SetOrEmpty(FindHypernodeWithUnorderedNodes(g, ns)) ==
      set h | 0 <= h < |g.hypernodes| && NodeSet(g.hypernodes[h]) == NodeSet(ns)
  {
    assert forall x :: x in ns <==> x in multiset(ns);
    assert forall x :: x in ms <==> x in multiset(ms);
    assert NodeSet(ns) == NodeSet(ms);
    LookupIndexExact(g.maps.unorderedNodesToHypernode, |g.hypernodes|,
      (s: set<NodeIdx>, h: int) => 0 <= h < |g.hypernodes| && NodeSet(g.hypernodes[h]) == s, NodeSet(ns));
  }

  /** `find_variable_cluster`: the unification cluster of a term. */
  function FindVariableCluster(g: Graph, t: Term): (r: Option<set<Term>>)
    requires t in g.variableClusters.termToCluster ==> g.variableClusters.termToCluster[t] in g.variableClusters.clusters
    ensures r.None? <==> t !in g.variableClusters.termToCluster
    ensures r.Some? ==> r.value == g.variableClusters.clusters[g.variableClusters.termToCluster[t]]
    ensures Consistent(g.variableClusters) && r.Some? ==> t in r.value
  {
    FindCluster(g.variableClusters, t)
  }

  // ---------------------------------------------------------------------
  // Updates

  /** `add_attribute(name, value)`: sets one attribute and changes nothing
      else in the graph. */
  function AddAttribute(g: Graph, name: string, value: string): (r: Graph)
    ensures name in r.attributes && r.attributes[name] == value
    ensures forall k :: k != name ==> Lookup(r.attributes, k) == Lookup(g.attributes, k)
    ensures r == g.(attributes := r.attributes)
  {
    g.(attributes := g.attributes[name := value])
  }

  /** The construction steps whose bodies are not part of this model. */
  datatype GraphOps = GraphOps(
    addNode: (Graph, Literal, NodeType, int, set<NodeIdx>) -> (Graph, NodeIdx),
    getMutualExclusions: (Graph, Literal) -> seq<(NodeIdx, Unifier)>,
    generateMutualExclusions: (Graph, NodeIdx, seq<(NodeIdx, Unifier)>) -> Graph,
    generateUnificationAssumptions: (Graph, NodeIdx) -> Graph,
    chain: (Graph, seq<NodeIdx>, Axiom, bool) -> (Graph, HypernodeIdx))

  /** `g'` keeps every node of `g` at its index and the observation set. */
  ghost predicate KeepsNodes(g: Graph, g': Graph)
  {
    |g'.nodes| >= |g.nodes| && g'.nodes[..|g.nodes|] == g.nodes && g'.observations == g.observations
  }

  /** What `add_node` is expected to do: append one node with the given
      literal, type, depth and parents, at the next index. */
  ghost predicate AddNodeAppends(ops: GraphOps)
  {
    forall g, lit, kind, depth, parents ::
      var (g', idx) := ops.addNode(g, lit, kind, depth, parents);
      && idx == |g.nodes|
      && KeepsNodes(g, g') && |g'.nodes| == |g.nodes| + 1
      && g'.nodes[idx].literal == lit && g'.nodes[idx].kind == kind
      && g'.nodes[idx].depth == depth && g'.nodes[idx].parents == parents
  }

  /** What the `_generate_*` steps are expected to respect: existing nodes
      keep their indices (new equality nodes may be appended) and the
      observation set is left alone. */
  ghost predicate GeneratorsKeepNodes(ops: GraphOps)
  {
    && (forall g, idx, muex :: KeepsNodes(g, ops.generateMutualExclusions(g, idx, muex)))
    && (forall g, idx :: KeepsNodes(g, ops.generateUnificationAssumptions(g, idx)))
  }

  /** `add_observation(lit, depth)`: adds an observable node with no
      parents, records its mutual exclusions and unification assumptions,
      registers it as an observation and returns its index. */
  function AddObservation(ops: GraphOps, g: Graph, lit: Literal, depth: int): (r: (Graph, NodeIdx))
    ensures r.1 == ops.addNode(g, lit, Observable, depth, {}).1
    ensures r.1 in r.0.observations
  {
    var (g1, idx) := ops.addNode(g, lit, Observable, depth, {});
    var muex := ops.getMutualExclusions(g1, lit);
    var g2 := ops.generateMutualExclusions(g1, idx, muex);
    var g3 := ops.generateUnificationAssumptions(g2, idx);
    (g3.(observations := g3.observations + {idx}), idx)
  }

  /** When its steps behave as expected, `add_observation` appends an
      observable, parentless node at the given depth, keeps every earlier
      node at its index, and grows the observation set by exactly that node. */
  lemma AddObservationAppendsObservable(ops: GraphOps, g: Graph, lit: Literal, depth: int)
    requires AddNodeAppends(ops) && GeneratorsKeepNodes(ops)
    ensures var (g', idx) := AddObservation(ops, g, lit, depth);
      && idx == |g.nodes| && |g'.nodes| > idx
      && g'.nodes[..|g.nodes|] == g.nodes
      && g'.nodes[idx].literal == lit && g'.nodes[idx].kind == Observable
      && g'.nodes[idx].depth == depth && g'.nodes[idx].parents == {}
      && g'.observations == g.observations + {idx}
  {
    var (g1, idx) := ops.addNode(g, lit, Observable, depth, {});
    assert KeepsNodes(g, g1) && |g1.nodes| == |g.nodes| + 1;
    var muex := ops.getMutualExclusions(g1, lit);
    var g2 := ops.generateMutualExclusions(g1, idx, muex);
    assert KeepsNodes(g1, g2);
    var g3 := ops.generateUnificationAssumptions(g2, idx);
    assert KeepsNodes(g2, g3);
    assert g2.nodes[..|g1.nodes|] == g1.nodes;
    assert g3.nodes[..|g2.nodes|] == g2.nodes;
    assert g3.nodes[idx] == g2.nodes[idx] == g1.nodes[idx];
    assert g3.nodes[..|g.nodes|] == g1.nodes[..|g.nodes|];
  }

  /** `backward_chain`: `chain` with the backward direction. */
  function BackwardChain(ops: GraphOps, g: Graph, targets: seq<NodeIdx>, axiom: Axiom): (Graph, HypernodeIdx)
  {
    ops.chain(g, targets, axiom, true)
  }

  /** `forward_chain`: `chain` with the forward direction. */
  function ForwardChain(ops: GraphOps, g: Graph, targets: seq<NodeIdx>, axiom: Axiom): (Graph, HypernodeIdx)
  {
    ops.chain(g, targets, axiom, false)
  }

  /** The two named wrappers cover `chain` in both directions. */
  lemma ChainWrappersFixDirection(ops: GraphOps, g: Graph, targets: seq<NodeIdx>, axiom: Axiom, backward: bool)
    ensures ops.chain(g, targets, axiom, backward) ==
      if backward then BackwardChain(ops, g, targets, axiom) else ForwardChain(ops, g, targets, axiom)
  {
  }

  // ---------------------------------------------------------------------
  // Coexistability

  /** Every node paired with each node before it passes the pairwise test. */
  predicate Coexistable(ns: seq<NodeIdx>, pairOk: (NodeIdx, NodeIdx) -> bool)
  {
    forall i, j :: 0 <= j < i < |ns| ==> pairOk(ns[i], ns[j])
  }

  /** `check_nodes_coexistability(begin, end)`: tests each node against the
      nodes before it with the pairwise test `pairOk` (the source's
      `_check_nodes_coexistability`) and answers false at the first failure. */
  method CheckNodesCoexistability(ns: seq<NodeIdx>, pairOk: (NodeIdx, NodeIdx) -> bool) returns (r: bool)
    ensures r <==> Coexistable(ns, pairOk)
    ensures !r <==> exists i, j :: 0 <= j < i < |ns| && !pairOk(ns[i], ns[j])
    ensures |ns| <= 1 ==> r
  {
    var i := 0;
    while i < |ns|
      invariant 0 <= i <= |ns|
      invariant forall a, b :: 0 <= b < a < i ==> pairOk(ns[a], ns[b])
    {
      var j := 0;
      while j < i
        invariant 0 <= j <= i
        invariant forall b :: 0 <= b < j ==> pairOk(ns[i], ns[b])
      {
        if !pairOk(ns[i], ns[j]) {
          return false;
        }
        j := j + 1;
      }
      i := i + 1;
    }
    return true;
  }

  /** With a symmetric pairwise test, testing each pair in one order is the
      same as testing every pair of distinct positions. */
  lemma CoexistableIffAllDistinctPairs(ns: seq<NodeIdx>, pairOk: (NodeIdx, NodeIdx) -> bool)
    requires forall a, b :: pairOk(a, b) == pairOk(b, a)
    ensures Coexistable(ns, pairOk) <==>
      forall i, j :: 0 <= i < |ns| && 0 <= j < |ns| && i != j ==> pairOk(ns[i], ns[j])
  {
    if Coexistable(ns, pairOk) {
      forall i, j | 0 <= i < |ns| && 0 <= j < |ns| && i != j
        ensures pairOk(ns[i], ns[j])
      {
        if j < i {
          assert pairOk(ns[i], ns[j]);
        } else {
          var a, b := ns[j], ns[i];
          assert pairOk(a, b);
          assert pairOk(a, b) == pairOk(b, a);
        }
      }
    }
  }

  /** The pairwise test read off the mutual-exclusion table: a pair passes
      when no exclusion is recorded for it. */
  function NotMutuallyExclusive(g: Graph): (NodeIdx, NodeIdx) -> bool
  {
    (a: NodeIdx, b: NodeIdx) => SearchMutualExclusionOfNode(g, a, b).None?
  }

  /** Checked against the mutual-exclusion table, a set of nodes coexists
      exactly when no two of its positions hold a recorded exclusion. */
  lemma CoexistableIffNoRecordedExclusion(g: Graph, ns: seq<NodeIdx>)
    ensures Coexistable(ns, NotMutuallyExclusive(g)) <==>
      forall i, j :: 0 <= i < |ns| && 0 <= j < |ns| && i != j ==> SearchMutualExclusionOfNode(g, ns[i], ns[j]).None?
  {
    var ok := NotMutuallyExclusive(g);
    forall a, b
      ensures ok(a, b) == ok(b, a)
    {
      MutualExclusionSymmetric(g, a, b);
    }
    CoexistableIffAllDistinctPairs(ns, ok);
  }
}
