# Phillip hypothesis-graph core, modelled in Dafny

Phillip is an abductive reasoner. It takes an observation, which is a set of
first-order literals, plus a library of axioms. It builds a proof graph of
candidate hypotheses and hands that graph to an ILP optimiser. This project
models three small, sequential parts of that system as pure functions over
immutable state, and proves their properties:

- **Proof-graph primitives** (`src/proof_graph.inline.h`):
  - the `unifier_t` substitution builder (module `Unification`);
  - the unifiable-variable cluster lookups (`VariableClusters`);
  - node and edge classification (`GraphElements`);
  - the dense hypernode access with its `-1` sentinel;
  - every `search_*` / `find_*` index lookup;
  - `add_observation`, `add_attribute`, the chaining wrappers and the pairwise `check_nodes_coexistability` scan (`ProofGraph`).
- **Knowledge-base registry** (`src/kb.inline.h`, module `KnowledgeBase`):
  - `pred2id` / `id2pred`;
  - functional-predicate lookup;
  - ordered-pair mutual-exclusion lookup;
  - axiom lookup by predicate;
  - names for unnamed axioms.
- **Inference configuration** (`src/phillip.inline.h`, module `Phillip`):
  - parameters and flags;
  - the target and exclusion observation filters;
  - component slots and `check_validity`.

Supporting modules:

- `Wrappers` has `Option`, `Result` and a missing-key-safe map `Lookup`.
- `Logic` has terms, literals and axioms.
- `Numerals` has the positional numerals that `printf("%x")` writes and `sscanf("%d")` reads.

Some steps are defined outside src/proof_graph.inline.h and are not part of this model: `add_node`, `chain`, `get_mutual_exclusions`, the `_generate_*` steps, `find_parental_edge` and `_check_nodes_coexistability`. They are passed in as function-valued parameters. `GraphOps` bundles the construction steps, `pairOk` is the pairwise test, and the parental edge index is an argument. No behaviour is invented for them. Where a lemma needs something from them, it states that as a hypothesis. For example, `AddNodeAppends` says that `add_node` appends at the next index.

Reverse indexes of the graph are described by *exactness* invariants (`TermsIndexed`, `PredicatesIndexed`, `HypernodeEdgesIndexed`, …). Each `search_*` / `find_hypernode_with_unordered_nodes` lookup over a node, edge or hypernode index is then proved to answer exactly the positions the invariant describes, reading a missing entry as empty. The hypernode-to-edge index is taken to list each edge under its tail hypernode.

Three behaviours of the code are worth stating up front:

- `unifier_t::add` overwrites an existing binding (src/proof_graph.inline.h:126), so the *last* binding of a term wins while the equality literals of both bindings stay recorded (`LastBindingWins`, `FindAfterAddAll`).
- `id2pred` falls back to `arities[0]` for an id past the end (src/kb.inline.h:87) (`Id2Pred`).
- `check_validity` is declared to return a `bool` but never returns `false`: it throws instead. It is modelled as a `Result` whose success value is always `true`.

`INVALID_PREDICATE_ID` is declared in src/kb.h, which is not part of this model. It is taken to be `0`, the reserved first registry slot. `UnregisteredResolvesToFirst` depends on that choice. The other registry lemmas do not.

`predicate_id_t` is also declared in src/kb.h. Predicate ids are taken to be non-negative (`PredicateId = nat`), since every id the registry hands out is a position in `arities`.

## Model

| member | source | states |
|---|---|---|
| Unification.Add | src/proof_graph.inline.h:119-127 | `add(x, x)` changes nothing. Otherwise `=(x, y)` joins the substitutions and `x` maps to `y`, replacing any earlier binding. Lookups of every other term are unchanged, and well-formedness (each binding recorded, no self-binding) is preserved. |
| Unification.Of | src/proof_graph.inline.h:96-97 | The two-term constructor gives an empty unifier for equal terms, and otherwise exactly `{=(x, y)}` with the single binding `x -> y`. |
| Unification.FindSubstitutionTerm | src/proof_graph.inline.h:100-104 | Returns a term exactly when `x` is bound, and that term is the one `x` is bound to. |
| Unification.Clear | src/proof_graph.inline.h:130-134 | After `clear()`, `empty()` holds, the unifier is well formed, and no term has a substitution. |
| Unification.IsEmpty | src/proof_graph.inline.h:137-140 | `empty()` reads only the equality set. On a well-formed unifier, an empty one binds no term. |
| Unification.EmptyHasNoBindings | src/proof_graph.inline.h:137-140 | On a well-formed unifier, `empty()` (which only inspects the substitutions) also means the mapping is empty. |
| Unification.LastBindingWins | src/proof_graph.inline.h:119-127 | `add(x, y)` followed by `add(x, z)` makes `x` map to `z`, while both `=(x, y)` and `=(x, z)` stay recorded. |
| Unification.FindAfterAddAll | src/proof_graph.inline.h:100-127 | After any sequence of `add` calls, a term's substitution is its last non-trivial binding in the sequence (an independent reference scan). A term never bound keeps its previous lookup. |
| Unification.NeverBoundIsMissing | src/proof_graph.inline.h:100-104 | Starting from empty, a term never passed as the first argument of a non-trivial `add` has no substitution. |
| Unification.SubstitutionsAfterAddAll | src/proof_graph.inline.h:119-127 | A sequence of `add` calls records exactly the equalities of its non-trivial pairs, including pairs whose binding was later overwritten. |
| VariableClusters.FindCluster | src/proof_graph.inline.h:148-153 | Returns none exactly for unmapped terms, and otherwise the cluster stored under the term's id. On consistent indexes that cluster contains the term. |
| VariableClusters.IsInSameCluster | src/proof_graph.inline.h:156-165 | On consistent indexes, two terms share a cluster iff the first is mapped and the second lies in the cluster stored under the first's id. `UnmappedIsAlone`, `MappedSameIdIff` and the symmetry, transitivity and reflexivity lemmas pin down the rest. |
| VariableClusters.UnmappedIsAlone | src/proof_graph.inline.h:156-165 | `is_in_same_cluster` is false when either term is unmapped. |
| VariableClusters.MappedSameIdIff | src/proof_graph.inline.h:156-165 | For two mapped terms, `is_in_same_cluster` holds iff their cluster ids are equal. |
| VariableClusters.SameClusterSymmetric | src/proof_graph.inline.h:156-165 | Cluster membership is symmetric. |
| VariableClusters.SameClusterTransitive | src/proof_graph.inline.h:156-165 | Cluster membership is transitive. |
| VariableClusters.SameClusterReflexive | src/proof_graph.inline.h:156-165 | A term is in its own cluster iff it is mapped. |
| VariableClusters.SameClusterIffInFoundCluster | src/proof_graph.inline.h:148-165 | On consistent indexes, `t1` and `t2` share a cluster iff `t2` is in the cluster `find_cluster(t1)` returns. |
| GraphElements.IsEqualityNode | src/proof_graph.inline.h:48-51 | An affirmed `=` literal. `EqualityClassification` shows it excludes the non-equality kind, and `SetMasterHypernode` shows it is unaffected by the owner. |
| GraphElements.IsNonEqualityNode | src/proof_graph.inline.h:54-57 | A negated `=` literal. It is never also an equality node. |
| GraphElements.IsTransitiveEqualityNode | src/proof_graph.inline.h:60-63 | Never a non-equality node. `EqualityClassification` shows it is exactly an equality node with master hypernode -1. |
| GraphElements.EqualityClassification | src/proof_graph.inline.h:48-63 | No node is both an equality and a non-equality node. A transitive equality node is exactly an equality node whose master hypernode is -1. |
| GraphElements.SetMasterHypernode | src/proof_graph.inline.h:36-39 | Only the owner changes. The node stays an equality or non-equality node as before, and it is a transitive equality node iff it is an equality node and the new owner is -1. |
| GraphElements.DefaultEdge | src/proof_graph.inline.h:72-75 | A default edge has tail, head and axiom id all -1, and is neither a chain edge nor a unification edge. |
| GraphElements.MakeEdge | src/proof_graph.inline.h:78-81 | The constructor keeps its four arguments. The edge is a chain edge iff its kind is backward or forward chaining. |
| GraphElements.IsChainEdge | src/proof_graph.inline.h:84-87 | A chain edge is never a unification edge and never underspecified. |
| GraphElements.IsUnifyEdge | src/proof_graph.inline.h:90-93 | A unification edge. `EdgeClassification` shows it excludes the chain kinds, and `DefaultEdge` shows a default edge is not one. |
| GraphElements.EdgeClassification | src/proof_graph.inline.h:84-93 | No edge is both a chain and a unification edge. Every edge is one of those or underspecified, and an underspecified edge is neither. |
| ProofGraph.Hypernode | src/proof_graph.inline.h:224-229 | A negative index gives the empty sequence, and an index in range gives that hypernode's nodes. |
| ProofGraph.FindParentalHypernode | src/proof_graph.inline.h:341-346 | Gives -1 without a parental edge, and the edge's tail otherwise. On graphs whose edge ends resolve, the result is always a valid argument to `hypernode`. |
| ProofGraph.NoParentalEdgeMeansNoParentNodes | src/proof_graph.inline.h:341-346 | Without a parental edge, the parental hypernode has no nodes. |
| ProofGraph.IsHypernodeForUnification | src/proof_graph.inline.h:371-373 | Membership of the index in the set of unification hypernodes. No further property is claimed. |
| ProofGraph.SearchMutualExclusionOfNode | src/proof_graph.inline.h:244-248 | Finds a unifier exactly when the unordered node pair is in the exclusion table, and that unifier is the one stored for the pair. |
| ProofGraph.MutualExclusionSymmetric | src/proof_graph.inline.h:244-248 | The exclusion lookup for `(n1, n2)` equals the lookup for `(n2, n1)`. |
| ProofGraph.SearchNodesWithTerm | src/proof_graph.inline.h:251-256 | Returns none exactly when the term has no index entry, and the stored set otherwise. |
| ProofGraph.SearchNodesWithTermExact | src/proof_graph.inline.h:251-256 | On an exact index, returns the nodes whose literal has the term as an argument. |
| ProofGraph.SearchNodesWithPredicate | src/proof_graph.inline.h:259-269 | Finds a set exactly when the name is present and the arity is present under it, and that set is the one stored there. |
| ProofGraph.SearchNodesWithPredicateExact | src/proof_graph.inline.h:259-269 | On an exact index, returns the nodes with that predicate name and that number of arguments. |
| ProofGraph.SearchNodesWithArityId | src/proof_graph.inline.h:283-288 | Returns none exactly when the predicate id has no index entry, and the stored set otherwise. |
| ProofGraph.SearchNodesWithArityIdExact | src/proof_graph.inline.h:283-288 | On an exact index, returns the nodes whose predicate and arity the registry maps to that id. |
| ProofGraph.LastIndexOf | src/proof_graph.inline.h:275 | `rfind` gives the last position of the character, or -1 when the character is absent. |
| ProofGraph.SearchNodesWithArityText | src/proof_graph.inline.h:272-280 | Splits the text at the last `/` and searches by name and parsed arity. `SearchNodesWithArityTextRoundTrip` shows it agrees with the name-and-arity search on every `name/arity` text. |
| ProofGraph.SearchNodesWithArityTextRoundTrip | src/proof_graph.inline.h:272-280 | Searching by `name/arity` text is the same as searching by name and arity, even when the name contains `/`. The text always passes the `idx > 0` check. |
| ProofGraph.SearchNodesWithDepth | src/proof_graph.inline.h:291-296 | Returns none exactly when the depth has no index entry, and the stored set otherwise. |
| ProofGraph.SearchNodesWithDepthExact | src/proof_graph.inline.h:291-296 | On an exact index, returns the nodes at that depth. |
| ProofGraph.SearchEdgesWithHypernode | src/proof_graph.inline.h:299-304 | Returns none exactly for hypernodes with no entry, and otherwise the stored edge set. |
| ProofGraph.SearchEdgesWithHypernodeExact | src/proof_graph.inline.h:299-304 | On an index that lists each edge under its tail hypernode, returns the edges leaving that hypernode. |
| ProofGraph.SearchEdgesWithNodeInHead | src/proof_graph.inline.h:307-312 | Returns none exactly when the node has no head-edge entry, and the stored set otherwise. |
| ProofGraph.SearchEdgesWithNodeInTail | src/proof_graph.inline.h:315-320 | Returns none exactly when the node has no tail-edge entry, and the stored set otherwise. |
| ProofGraph.SearchEdgesWithNodeExact | src/proof_graph.inline.h:307-320 | On exact indexes, returns the edges whose head (or tail) hypernode contains the node. |
| ProofGraph.SearchHypernodesWithNode | src/proof_graph.inline.h:323-328 | Returns none exactly when the node has no entry, and the stored set otherwise. |
| ProofGraph.SearchHypernodesWithNodeExact | src/proof_graph.inline.h:323-328 | On an exact index, returns the hypernodes containing the node. |
| ProofGraph.FindHypernodeWithUnorderedNodes | src/proof_graph.inline.h:331-338 | Returns none exactly when the set of the given nodes has no entry, and the set stored under it otherwise. |
| ProofGraph.FindHypernodeWithUnorderedNodesExact | src/proof_graph.inline.h:331-338 | Permuting the nodes asked for does not change the answer. On an exact index, it finds the hypernodes with the same node set. |
| ProofGraph.FindVariableCluster | src/proof_graph.inline.h:349-353 | Returns none exactly for unclustered terms, and the cluster stored under the term's id otherwise. On consistent indexes, the cluster found contains the term. |
| ProofGraph.AddAttribute | src/proof_graph.inline.h:376-379 | Sets the attribute and leaves every other attribute, and the rest of the graph, unchanged. |
| ProofGraph.AddObservation | src/proof_graph.inline.h:168-180 | Returns the index `add_node` returned, and that index is in the observation set. |
| ProofGraph.AddObservationAppendsObservable | src/proof_graph.inline.h:168-180 | If `add_node` appends and the `_generate_*` steps keep existing nodes, the new node sits at the next index and earlier nodes keep their indices. The node is observable, has no parents and has the given literal and depth. The observation set grows by exactly that index. |
| ProofGraph.BackwardChain | src/proof_graph.inline.h:183-187 | `chain` with the backward direction. `ChainWrappersFixDirection` shows it covers that direction. |
| ProofGraph.ForwardChain | src/proof_graph.inline.h:190-194 | `chain` with the forward direction. `ChainWrappersFixDirection` shows it covers that direction. |
| ProofGraph.ChainWrappersFixDirection | src/proof_graph.inline.h:183-194 | `chain` in either direction equals the named wrapper for that direction. |
| ProofGraph.CheckNodesCoexistability | src/proof_graph.inline.h:356-368 | Returns false iff some node fails the pairwise test against an earlier node. Empty and singleton inputs return true. |
| ProofGraph.CoexistableIffAllDistinctPairs | src/proof_graph.inline.h:356-368 | With a symmetric pairwise test, checking each pair once is the same as checking every pair of distinct positions. |
| ProofGraph.CoexistableIffNoRecordedExclusion | src/proof_graph.inline.h:356-368 | Tested against the exclusion table, a node sequence coexists iff no two distinct positions have a recorded exclusion. |
| KnowledgeBase.Pred2Id | src/kb.inline.h:78-82 | Returns the stored id of a registered predicate, and the invalid id otherwise. |
| KnowledgeBase.Id2Pred | src/kb.inline.h:85-88 | Returns `arities[id]` for an id in range and `arities[0]` otherwise. The result is always a registry entry. |
| KnowledgeBase.Id2PredOfPred2Id | src/kb.inline.h:78-88 | Under the registry invariant, `id2pred(pred2id(p)) == p` for every registered `p`. |
| KnowledgeBase.UnregisteredResolvesToFirst | src/kb.inline.h:78-88 | An unregistered predicate resolves through its id to the first, reserved entry. |
| KnowledgeBase.Pred2IdOfId2Pred | src/kb.inline.h:78-88 | Under the registry invariant, `pred2id(id2pred(i)) == i` for every id whose entry is registered. |
| KnowledgeBase.FindFunctionalPredicateById | src/kb.inline.h:98-103 | Returns none exactly for ids without a functional configuration. |
| KnowledgeBase.FindFunctionalPredicate | src/kb.inline.h:106-110 | Equals the id lookup applied to `pred2id`. Registered predicates without a configuration give none. |
| KnowledgeBase.FindInconsistentTerms | src/kb.inline.h:113-126 | Requires `a1 <= a2`. Returns none when `a1` has no entry or `a2` is absent under it, and otherwise the stored position pairs. |
| KnowledgeBase.InconsistentTermsSymmetric | src/kb.inline.h:113-126 | Ordering the pair before the lookup makes exclusion symmetric, although only one direction is stored. |
| KnowledgeBase.GetsByLhsId | src/kb.inline.h:25-29 | The constant-time store's left-hand-side answer for the id. `GetsByPredicateOfRegisteredId` relates it to the lookup by predicate. |
| KnowledgeBase.GetsByRhsId | src/kb.inline.h:11-15 | The constant-time store's right-hand-side answer for the id. `GetsByPredicateOfRegisteredId` relates it to the lookup by predicate. |
| KnowledgeBase.GetsByLhs | src/kb.inline.h:32-36 | Equals the id lookup at `pred2id(p)`. An unknown predicate is looked up under the invalid id. |
| KnowledgeBase.GetsByRhs | src/kb.inline.h:18-22 | Equals the id lookup at `pred2id(p)`. An unknown predicate is looked up under the invalid id. |
| KnowledgeBase.GetsByPredicateOfRegisteredId | src/kb.inline.h:18-36 | Looking axioms up by a registered id's predicate equals looking them up by the id, on both sides. |
| KnowledgeBase.UnnamedAxiomName | src/kb.inline.h:64-69 | The name begins with `_` and is at least nine characters long. |
| KnowledgeBase.UnnamedAxiomNameRoundTrip | src/kb.inline.h:64-69 | The counter can be read back from the `_%#.8lx` text. |
| KnowledgeBase.UnnamedAxiomNameInjective | src/kb.inline.h:64-69 | Different counter values give different names. |
| KnowledgeBase.GetNameOfUnnamedAxiom | src/kb.inline.h:64-69 | Advances the counter by exactly one and leaves the axiom index alone. The name begins with `_` and encodes the old counter. |
| KnowledgeBase.SuccessiveNamesDistinct | src/kb.inline.h:64-69 | `k` successive calls give pairwise distinct names, each starting with `_`, encoding consecutive counter values. |
| Phillip.Param | src/phillip.inline.h:154-159 | Returns the stored value, or `""` for a missing key. |
| Phillip.SetParam | src/phillip.inline.h:89-93 | Afterwards `param(key)` is `value`. Every other key reads as before and nothing but the parameters changes. |
| Phillip.EraseParam | src/phillip.inline.h:96-99 | Afterwards `param(key)` is `""` and the key is gone. Every other key reads as before and nothing but the parameters changes. |
| Phillip.EmptyParamReadsAsErased | src/phillip.inline.h:89-99 | Setting a key to `""` reads the same as erasing it everywhere, but only erasing removes it from `params()`. |
| Phillip.Flag | src/phillip.inline.h:184-187 | Flag membership. `SetFlag`, `EraseFlag` and `SetThenEraseFlagRestores` pin down how it changes. |
| Phillip.SetFlag | src/phillip.inline.h:102-105 | Afterwards `flag(key)` holds. Every other flag and the rest of the state are unchanged. |
| Phillip.EraseFlag | src/phillip.inline.h:108-111 | Afterwards `flag(key)` is false. Every other flag and the rest of the state are unchanged. |
| Phillip.SetThenEraseFlagRestores | src/phillip.inline.h:102-111 | Raising and then lowering an absent flag restores the original state. |
| Phillip.DoInferPseudoPositive | src/phillip.inline.h:190-193 | Reads the `get_pseudo_positive` flag. `PseudoPositiveFollowsItsFlag` shows no other flag matters. |
| Phillip.PseudoPositiveFollowsItsFlag | src/phillip.inline.h:190-193 | `do_infer_pseudo_positive` follows the `get_pseudo_positive` flag and no other. |
| Phillip.AddTarget | src/phillip.inline.h:220-223 | The name becomes a target. Any other name is a target afterwards iff it was named before, and nothing else changes. |
| Phillip.ClearTargets | src/phillip.inline.h:226-229 | Afterwards every name is a target. Nothing else changes. |
| Phillip.IsTarget | src/phillip.inline.h:232-235 | Every name is a target while no target is named, and otherwise only the named ones are. `AddTarget`, `ClearedTargetsAcceptAll` and `AddTargetNarrows` state the consequences. |
| Phillip.ClearedTargetsAcceptAll | src/phillip.inline.h:226-235 | After `clear_targets`, `is_target` holds for every name. |
| Phillip.AddTargetNarrows | src/phillip.inline.h:220-235 | Naming the first target turns every other name from a target into a non-target, because an empty target set means "everything". |
| Phillip.AddExclusion | src/phillip.inline.h:238-241 | The name becomes excluded, no other name changes status, and nothing else changes. |
| Phillip.ClearExclusions | src/phillip.inline.h:244-247 | Afterwards no name is excluded. Nothing else changes. |
| Phillip.IsExcluded | src/phillip.inline.h:250-253 | Despite its empty-set branch, `is_excluded` always equals membership in the exclusion set. |
| Phillip.ExcludedIsMembership | src/phillip.inline.h:238-253 | `is_excluded` always equals set membership, grows monotonically under `add_exclusion` and is false after `clear_exclusions`. |
| Phillip.FiltersIndependent | src/phillip.inline.h:220-253 | Changing the targets never changes exclusion answers, and the other way round. |
| Phillip.SetLhsEnumerator | src/phillip.inline.h:65-70 | Replaces the enumerator slot, where null empties it, and nothing else. |
| Phillip.SetIlpConverter | src/phillip.inline.h:73-78 | Replaces the converter slot and nothing else. |
| Phillip.SetIlpSolver | src/phillip.inline.h:81-86 | Replaces the solver slot and nothing else. |
| Phillip.CheckValidity | src/phillip.inline.h:256-277 | Succeeds, always with `true`, iff enumerator, converter and solver are all present. Otherwise it fails with the message naming the first missing one, in that order. |
| Phillip.InstallingAllComponentsValidates | src/phillip.inline.h:256-277 | Once the three components are installed, `check_validity` succeeds whatever the rest of the state is. |
| Phillip.ValidityIgnoresConfiguration | src/phillip.inline.h:256-277 | Parameters, flags and filters never change the validity verdict. |

## Left out

- Bodies defined outside src/proof_graph.inline.h and src/kb.inline.h are parameters: `add_node`, `chain`, `get_mutual_exclusions`, `_generate_mutual_exclusions`, `_generate_unification_assumptions`, `find_parental_edge` and `_check_nodes_coexistability`. Their effects on the graph are not modelled.
- The reverse indexes are not built here: the code that maintains them lives in `add_node` and `chain`. Their exactness is a stated invariant, not a proved consequence of construction.
- `get_depth_of_deepest_node`: it delegates to an overload that is not part of this model.
- `_is_considered_unification` and the temporal bookkeeping behind it are not modelled.
- `threshold_distance_for_soft_unifying`, `get_distance`, `get_max_distance` and `clear_distance_cache` are left out. They are float-valued, and the cache is mutex-guarded process state.
- `gets_from_cdb`: the on-disk constant-time store is an opaque function from predicate id to axiom ids (`cdbLhs` / `cdbRhs`).
- Plain accessors are read as fields: `nodes()`, `node(i)`, `edges()`, `edge(i)`, `hypernodes()`, `observation_indices()`, `clusters()`, `parents()`, `ancestors()`, `relatives()`, `master_hypernode()`, `mapping()`, `substitutions()`, `arities()`, `functional_predicates()`, `params()` and `flags()`.
- `requirements()` is left out because the requirement type is not part of this model.
- `to_string` (text rendering) is left out.
- The mutual-exclusion table is keyed by the ordered node pair. The pair-keyed utility container of the source is not part of this model.
- ProofGraph.Hypernode: `m_hypernodes.at(i)` throws `std::out_of_range` for an index past the end. Here `i < |hypernodes|` is a precondition, and the exception path is not modelled.
- ProofGraph.FindParentalHypernode: `edge(e)` throws `std::out_of_range` for an edge index past the end. Here `e < |edges|` is a precondition, and the exception path is not modelled.
- VariableClusters.FindCluster: `m_clusters.at(id)` throws `std::out_of_range` when a term's cluster id names no stored cluster. Here the id's presence is a precondition, and the exception path is not modelled.
- ProofGraph.FindVariableCluster: it inherits the precondition of `VariableClusters.FindCluster`.
- SearchNodesWithArityTextRoundTrip: the arity is read back as an unbounded integer. The source parses it with `%d` into an `int` and passes an `int` arity on, so for arities above 2^31-1 the source's behaviour is undefined and the round trip says nothing about it.
- FindHypernodeWithUnorderedNodes: keyed by the node *set*, not by a hash of the node list. Hash collisions are not modelled, and repeated nodes in a query collapse.
- SearchNodesWithArityText: accepts only a plain decimal arity after the last `/`. `sscanf("%d")` also takes signs, leading blanks and trailing junk, and leaves the number unset on garbage.
- GetNameOfUnnamedAxiom: the counter is unbounded. A 64-bit wrap-around after 2^64 names, which would repeat names, is not modelled.
- The `DISABLE_CANCELING` build, in which `check_nodes_coexistability` always answers true, is left out. The default build is modelled.
- Edge kinds other than the four src/proof_graph.inline.h mentions are left out.
- `param_int` and `param_float` are left out because they parse with `sscanf` into ints and floats.
- Timing getters and verbosity (`set_verbose`, `verbose`, `IF_VERBOSE`) are left out.
- `set_input`, `get_input`, `get_observation`, `get_requirement`, `reset_for_inference` and the `execute_*` steps are left out. They manage input and product ownership and run the pipeline.
- The `delete`-then-reassign in the component setters is memory management. Slots are `Option`s that the setter replaces.
- src/phillip.h declares `unique_ptr` accessors and `check_validity_for_infer`, while src/phillip.inline.h uses raw pointers and `check_validity`. The inline file's logic is modelled.
- src/sol/sol_gurobi.cpp is left out: it is a wrapper over a foreign solver API working in floating point.
