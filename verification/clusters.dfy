/** The lookups of `unifiable_variable_clusters_set_t`
    (src/proof_graph.inline.h): clusters of terms keyed by a cluster id,
    and a map from each clustered term to the id of its cluster. */
module VariableClusters {
  import opened Wrappers
  import opened Logic

  type ClusterId = int

  datatype ClusterSet = ClusterSet(clusters: map<ClusterId, set<Term>>, termToCluster: map<Term, ClusterId>)

  /** What the `.at` lookup in `find_cluster` relies on: a term's cluster id
      names a stored cluster. */
  ghost predicate IdsResolve(cs: ClusterSet)
  {
    forall t :: t in cs.termToCluster ==> cs.termToCluster[t] in cs.clusters
  }

  /** The two indexes agree: a term lies in a stored cluster exactly when
      the term is mapped to that cluster's id. */
  ghost predicate Consistent(cs: ClusterSet)
  {
    && IdsResolve(cs)
    && (forall c, t :: c in cs.clusters && t in cs.clusters[c] <==>
          t in cs.termToCluster && cs.termToCluster[t] == c)
  }

  /** `find_cluster(t)`: the cluster holding `t`, or none for an unmapped term. */
  function FindCluster(cs: ClusterSet, t: Term): (r: Option<set<Term>>)
    requires t in cs.termToCluster ==> cs.termToCluster[t] in cs.clusters
    ensures r.None? <==> t !in cs.termToCluster
    ensures r.Some? ==> r.value == cs.clusters[cs.termToCluster[t]]
    ensures Consistent(cs) && r.Some? ==> t in r.value
  {
    if t in cs.termToCluster then
      var c := cs.termToCluster[t];
      assert Consistent(cs) ==> (c in cs.clusters && t in cs.clusters[c] <==> t in cs.termToCluster && cs.termToCluster[t] == c);
      Some(cs.clusters[c])
    else None
  }

  /** `is_in_same_cluster(t1, t2)`: compares cluster ids. On consistent
      indexes this is membership of `t2` in the cluster stored for `t1`. */
  function IsInSameCluster(cs: ClusterSet, t1: Term, t2: Term): (r: bool)
    ensures Consistent(cs) ==>
      (r <==> t1 in cs.termToCluster && t2 in cs.clusters[cs.termToCluster[t1]])
  {
    if t1 !in cs.termToCluster then false
    else
      var c := cs.termToCluster[t1];
      assert Consistent(cs) ==>
        (c in cs.clusters && t2 in cs.clusters[c] <==> t2 in cs.termToCluster && cs.termToCluster[t2] == c);
      if t2 !in cs.termToCluster then false
      else c == cs.termToCluster[t2]
  }

  /** An unmapped term is in no cluster with anything, itself included. */
  lemma UnmappedIsAlone(cs: ClusterSet, t1: Term, t2: Term)
    requires t1 !in cs.termToCluster || t2 !in cs.termToCluster
    ensures !IsInSameCluster(cs, t1, t2)
  {
  }

  /** Two mapped terms share a cluster exactly when their ids agree. */
  lemma MappedSameIdIff(cs: ClusterSet, t1: Term, t2: Term)
    requires t1 in cs.termToCluster && t2 in cs.termToCluster
    ensures IsInSameCluster(cs, t1, t2) <==> cs.termToCluster[t1] == cs.termToCluster[t2]
  {
  }

  /** Cluster membership is symmetric. */
  lemma SameClusterSymmetric(cs: ClusterSet, t1: Term, t2: Term)
    ensures IsInSameCluster(cs, t1, t2) <==> IsInSameCluster(cs, t2, t1)
  {
  }

  /** Cluster membership is transitive. */
  lemma SameClusterTransitive(cs: ClusterSet, t1: Term, t2: Term, t3: Term)
    requires IsInSameCluster(cs, t1, t2) && IsInSameCluster(cs, t2, t3)
    ensures IsInSameCluster(cs, t1, t3)
  {
  }

  /** Cluster membership is reflexive on clustered terms only. */
  lemma SameClusterReflexive(cs: ClusterSet, t: Term)
    ensures IsInSameCluster(cs, t, t) <==> t in cs.termToCluster
  {
  }

  /** The two lookups agree on consistent indexes: `t1` and `t2` share a
      cluster exactly when `t2` lies in the cluster `find_cluster(t1)` returns. */
  lemma SameClusterIffInFoundCluster(cs: ClusterSet, t1: Term, t2: Term)
    requires Consistent(cs)
    ensures IsInSameCluster(cs, t1, t2) <==> FindCluster(cs, t1).Some? && t2 in FindCluster(cs, t1).value
  {
    if t1 in cs.termToCluster {
      var c := cs.termToCluster[t1];
      assert c in cs.clusters;
      if t2 in cs.clusters[c] {
        assert t2 in cs.termToCluster && cs.termToCluster[t2] == c;
      }
      if IsInSameCluster(cs, t1, t2) {
        assert t2 in cs.termToCluster && cs.termToCluster[t2] == c;
        assert t2 in cs.clusters[c];
      }
    }
  }
}
