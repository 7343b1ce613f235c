/** The knowledge base's read side (src/kb.inline.h): the predicate
    registry (`predicate_database_t`), the axiom index lookups by
    predicate (`axioms_database_t::gets_by_lhs` / `gets_by_rhs`) and the
    names given to unnamed axioms. */
module KnowledgeBase {
  import opened Wrappers
  import opened Numerals
  import opened Logic

  /** Predicate ids are taken to be non-negative: `predicate_id_t` is
      declared in src/kb.h, which is not part of this model, and every id
      here is a position in the registry. */
  type PredicateId = nat
  type TermIdx = int

  /** The id `pred2id` answers for an unregistered predicate. Its value
      lives in src/kb.h, which is not part of this model; 0 is the reserved
      first slot of the registry. */
  const InvalidPredicateId: PredicateId := 0

  /** A predicate name together with its arity. */
  datatype PredicateWithArity = PredicateWithArity(name: string, arity: nat)

  /** The settings of a functional predicate; their contents are not part
      of this model. */
  datatype FunctionalPredicateConfig = FunctionalPredicateConfig(settings: string)

  datatype PredicateDatabase = PredicateDatabase(
    arities: seq<PredicateWithArity>,
    arityToId: map<PredicateWithArity, PredicateId>,
    functionalPredicates: map<PredicateId, FunctionalPredicateConfig>,
    mutualExclusions: map<PredicateId, map<PredicateId, seq<(TermIdx, TermIdx)>>>)

  /** The registry invariant: the first slot exists, every registered
      predicate's id indexes its own entry, and no entry appears twice. */
  ghost predicate Consistent(db: PredicateDatabase)
  {
    && |db.arities| > 0
    && (forall p :: p in db.arityToId ==>
          db.arityToId[p] < |db.arities| && db.arities[db.arityToId[p]] == p)
    && (forall i, j :: 0 <= i < j < |db.arities| ==> db.arities[i] != db.arities[j])
  }

  /** `pred2id`: the registered id, or `InvalidPredicateId` for an unknown predicate. */
  function Pred2Id(db: PredicateDatabase, p: PredicateWithArity): (id: PredicateId)
    ensures p in db.arityToId ==> id == db.arityToId[p]
    ensures p !in db.arityToId ==> id == InvalidPredicateId
  {
    match Lookup(db.arityToId, p)
    case Some(id) => id
    case None => InvalidPredicateId
  }

  /** `id2pred`: the entry at `id`, falling back to the first entry when
      `id` is past the end. */
  function Id2Pred(db: PredicateDatabase, id: PredicateId): (p: PredicateWithArity)
    requires |db.arities| > 0
    ensures id < |db.arities| ==> p == db.arities[id]
    ensures id >= |db.arities| ==> p == db.arities[0]
    ensures p in db.arities
  {
    if id < |db.arities| then db.arities[id] else db.arities[0]
  }

  /** Every registered predicate survives the round trip through its id. */
  lemma Id2PredOfPred2Id(db: PredicateDatabase, p: PredicateWithArity)
    requires Consistent(db)
    requires p in db.arityToId
    ensures Id2Pred(db, Pred2Id(db, p)) == p
  {
  }

  /** An unregistered predicate resolves to the first, reserved entry. */
  lemma UnregisteredResolvesToFirst(db: PredicateDatabase, p: PredicateWithArity)
    requires |db.arities| > 0
    requires p !in db.arityToId
    ensures Id2Pred(db, Pred2Id(db, p)) == db.arities[0]
  {
  }

  /** Every id whose entry is registered survives the round trip through
      its entry. */
  lemma Pred2IdOfId2Pred(db: PredicateDatabase, id: PredicateId)
    requires Consistent(db)
    requires id < |db.arities| && db.arities[id] in db.arityToId
    ensures Pred2Id(db, Id2Pred(db, id)) == id
  {
    var p := db.arities[id];
    var k := db.arityToId[p];
    assert db.arities[k] == db.arities[id];
  }

  /** `find_functional_predicate` by id: the configuration, or none. */
  function FindFunctionalPredicateById(db: PredicateDatabase, id: PredicateId): (r: Option<FunctionalPredicateConfig>)
    ensures r.None? <==> id !in db.functionalPredicates
    ensures r.Some? ==> r.value == db.functionalPredicates[id]
  {
    Lookup(db.functionalPredicates, id)
  }

  /** `find_functional_predicate` by predicate: resolved through `pred2id`. */
  function FindFunctionalPredicate(db: PredicateDatabase, p: PredicateWithArity): (r: Option<FunctionalPredicateConfig>)
    ensures r == FindFunctionalPredicateById(db, Pred2Id(db, p))
    ensures p in db.arityToId && db.arityToId[p] !in db.functionalPredicates ==> r.None?
    ensures p !in db.arityToId ==> r == FindFunctionalPredicateById(db, InvalidPredicateId)
  {
    FindFunctionalPredicateById(db, Pred2Id(db, p))
  }

  /** `find_inconsistent_terms(a1, a2)`: the argument positions that must
      differ for the two predicates to exclude each other. The pair is
      stored once, under its ordered key, so callers must pass `a1 <= a2`. */
  function FindInconsistentTerms(db: PredicateDatabase, a1: PredicateId, a2: PredicateId): (r: Option<seq<(TermIdx, TermIdx)>>)
    requires a1 <= a2
    ensures a1 !in db.mutualExclusions ==> r.None?
    ensures a1 in db.mutualExclusions && a2 !in db.mutualExclusions[a1] ==> r.None?
    ensures r.Some? <==> a1 in db.mutualExclusions && a2 in db.mutualExclusions[a1]
    ensures r.Some? ==> r.value == db.mutualExclusions[a1][a2]
  {
    match Lookup(db.mutualExclusions, a1)
    case None => None
    case Some(inner) => Lookup(inner, a2)
  }

  /** The exclusion lookup a caller makes for an unordered pair of ids:
      it orders the pair before asking. */
  function InconsistentTermsOfPair(db: PredicateDatabase, a: PredicateId, b: PredicateId): (r: Option<seq<(TermIdx, TermIdx)>>)
  {
    if a <= b then FindInconsistentTerms(db, a, b) else FindInconsistentTerms(db, b, a)
  }

  /** Ordering the pair first makes the exclusion relation symmetric
      although only one direction is stored. */
  lemma InconsistentTermsSymmetric(db: PredicateDatabase, a: PredicateId, b: PredicateId)
    ensures InconsistentTermsOfPair(db, a, b) == InconsistentTermsOfPair(db, b, a)
    ensures a <= b ==> InconsistentTermsOfPair(db, a, b) == FindInconsistentTerms(db, a, b)
  {
  }

  /** The axiom store. The on-disk constant-time index behind
      `gets_from_cdb` is modelled as two functions from a predicate id to
      the ids of the axioms mentioning it on the left / right. */
  datatype AxiomsDatabase = AxiomsDatabase(
    cdbLhs: PredicateId -> seq<AxiomId>,
    cdbRhs: PredicateId -> seq<AxiomId>,
    numUnnamedAxioms: nat)

  /** `gets_by_lhs(predicate_id_t)`. */
  function GetsByLhsId(ax: AxiomsDatabase, id: PredicateId): seq<AxiomId>
  {
    ax.cdbLhs(id)
  }

  /** `gets_by_rhs(predicate_id_t)`. */
  function GetsByRhsId(ax: AxiomsDatabase, id: PredicateId): seq<AxiomId>
  {
    ax.cdbRhs(id)
  }

  /** `gets_by_lhs(predicate_with_arity_t)`: resolves the predicate through
      the registry, so an unknown predicate is looked up under the invalid id. */
  function GetsByLhs(ax: AxiomsDatabase, db: PredicateDatabase, p: PredicateWithArity): (r: seq<AxiomId>)
    ensures r == GetsByLhsId(ax, Pred2Id(db, p))
    ensures p !in db.arityToId ==> r == ax.cdbLhs(InvalidPredicateId)
  {
    GetsByLhsId(ax, Pred2Id(db, p))
  }

  /** `gets_by_rhs(predicate_with_arity_t)`. */
  function GetsByRhs(ax: AxiomsDatabase, db: PredicateDatabase, p: PredicateWithArity): (r: seq<AxiomId>)
    ensures r == GetsByRhsId(ax, Pred2Id(db, p))
    ensures p !in db.arityToId ==> r == ax.cdbRhs(InvalidPredicateId)
  {
    GetsByRhsId(ax, Pred2Id(db, p))
  }

  /** Looking axioms up by a registered id's predicate is the same as
      looking them up by the id. */
  lemma GetsByPredicateOfRegisteredId(ax: AxiomsDatabase, db: PredicateDatabase, id: PredicateId)
    requires Consistent(db)
    requires id < |db.arities| && db.arities[id] in db.arityToId
    ensures GetsByLhs(ax, db, Id2Pred(db, id)) == GetsByLhsId(ax, id)
    ensures GetsByRhs(ax, db, Id2Pred(db, id)) == GetsByRhsId(ax, id)
  {
    Pred2IdOfId2Pred(db, id);
  }

  /** The text `printf("_%#.8lx", n)` produces: an underscore, then `0x`
      unless `n` is zero, then at least eight lower-case hex digits. */
  function UnnamedAxiomName(n: nat): (s: string)
    ensures |s| >= 9 && s[0] == '_'
  {
    "_" + (if n == 0 then "" else "0x") + PadLeft(ToDigits(n, 16), 8)
  }

  /** Reads the counter back out of a name made by `UnnamedAxiomName`. */
  function UnnamedAxiomNumber(s: string): nat
  {
    if |s| >= 3 && s[1] == '0' && s[2] == 'x' then Parse(s[3..], 16)
    else if |s| >= 1 then Parse(s[1..], 16)
    else 0
  }

  lemma {:induction false} UnnamedAxiomNameRoundTrip(n: nat)
    ensures UnnamedAxiomNumber(UnnamedAxiomName(n)) == n
  {
    var digits := PadLeft(ToDigits(n, 16), 8);
    ParsePadded(n, 16, 8);
    var s := UnnamedAxiomName(n);
    if n == 0 {
      assert s == "_" + digits;
      assert s[1..] == digits;
      assert ToDigits(0, 16) == ['0'];
      assert digits == Zeros(7) + ['0'];
      assert s[2] == '0';
    } else {
      assert s == "_0x" + digits;
      assert s[3..] == digits;
    }
  }

  /** Different counter values give different names. */
  lemma UnnamedAxiomNameInjective(n: nat, m: nat)
    requires n != m
    ensures UnnamedAxiomName(n) != UnnamedAxiomName(m)
  {
    UnnamedAxiomNameRoundTrip(n);
    UnnamedAxiomNameRoundTrip(m);
  }

  /** `get_name_of_unnamed_axiom`: names the next unnamed axiom after the
      counter and advances the counter by one. */
  function GetNameOfUnnamedAxiom(ax: AxiomsDatabase): (r: (AxiomsDatabase, string))
    ensures r.0.numUnnamedAxioms == ax.numUnnamedAxioms + 1
    ensures r.0.cdbLhs == ax.cdbLhs && r.0.cdbRhs == ax.cdbRhs
    ensures |r.1| > 0 && r.1[0] == '_'
    ensures UnnamedAxiomNumber(r.1) == ax.numUnnamedAxioms
  {
    UnnamedAxiomNameRoundTrip(ax.numUnnamedAxioms);
    (ax.(numUnnamedAxioms := ax.numUnnamedAxioms + 1), UnnamedAxiomName(ax.numUnnamedAxioms))
  }

  /** The names handed out by `k` successive calls, with the final store. */
  function NameUnnamedAxioms(ax: AxiomsDatabase, k: nat): (r: (AxiomsDatabase, seq<string>))
    ensures |r.1| == k
    ensures r.0.numUnnamedAxioms == ax.numUnnamedAxioms + k
    decreases k
  {
    if k == 0 then (ax, [])
    else
      var (ax', names) := NameUnnamedAxioms(ax, k - 1);
      var (ax'', name) := GetNameOfUnnamedAxiom(ax');
      (ax'', names + [name])
  }

  /** Successive calls hand out pairwise distinct names, each starting with `_`. */
  lemma {:induction false} SuccessiveNamesDistinct(ax: AxiomsDatabase, k: nat)
    ensures forall i :: 0 <= i < k ==> UnnamedAxiomNumber(NameUnnamedAxioms(ax, k).1[i]) == ax.numUnnamedAxioms + i
    ensures forall i :: 0 <= i < k ==> |NameUnnamedAxioms(ax, k).1[i]| > 0 && NameUnnamedAxioms(ax, k).1[i][0] == '_'
    ensures forall i, j :: 0 <= i < j < k ==> NameUnnamedAxioms(ax, k).1[i] != NameUnnamedAxioms(ax, k).1[j]
    decreases k
  {
    if k > 0 {
      SuccessiveNamesDistinct(ax, k - 1);
      var names := NameUnnamedAxioms(ax, k).1;
      assert names[..k - 1] == NameUnnamedAxioms(ax, k - 1).1;
      forall i, j | 0 <= i < j < k
        ensures names[i] != names[j]
      {
        assert UnnamedAxiomNumber(names[i]) == ax.numUnnamedAxioms + i;
        assert UnnamedAxiomNumber(names[j]) == ax.numUnnamedAxioms + j;
      }
    }
  }
}
