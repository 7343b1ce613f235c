/** The term substitution builder used while chaining and unifying
    (`unifier_t` in src/proof_graph.inline.h). A unifier keeps the set of
    equality literals it has recorded and a term-to-term mapping; `Add`
    overwrites an existing binding of the same term, so the most recent
    binding of a term is the one the mapping reports. */
module Unification {
  import opened Wrappers
  import opened Logic

  datatype Unifier = Unifier(substitutions: set<Literal>, mapping: map<Term, Term>)

  /** The unifier with nothing recorded. */
  const EmptyUnifier: Unifier := Unifier({}, map[])

  /** What every unifier built by `Add` and `Clear` satisfies: each binding
      has its equality literal recorded and never maps a term to itself. */
  ghost predicate WellFormed(u: Unifier)
  {
    forall x :: x in u.mapping ==>
      x != u.mapping[x] && Equality(x, u.mapping[x]) in u.substitutions
  }

  /** `add(x, y)`: records `=(x, y)` and binds `x` to `y`, unless both are
      the same term, in which case nothing changes. */
  function Add(u: Unifier, x: Term, y: Term): (r: Unifier)
    ensures x == y ==> r == u
    ensures x != y ==> r.substitutions == u.substitutions + {Equality(x, y)}
    ensures x != y ==> x in r.mapping && r.mapping[x] == y
    ensures forall t :: t != x ==> FindSubstitutionTerm(r, t) == FindSubstitutionTerm(u, t)
    ensures WellFormed(u) ==> WellFormed(r)
  {
    if x == y then u
    else Unifier(u.substitutions + {Equality(x, y)}, u.mapping[x := y])
  }

  /** The two-term constructor `unifier_t(x, y)`: one `Add` on an empty unifier. */
  function Of(x: Term, y: Term): (r: Unifier)
    ensures WellFormed(r)
    ensures x == y ==> IsEmpty(r) && r.mapping == map[]
    ensures x != y ==> r.substitutions == {Equality(x, y)} && r.mapping == map[x := y]
  {
    Add(EmptyUnifier, x, y)
  }

  /** `find_substitution_term(x)`: the term `x` is bound to, if any. */
  function FindSubstitutionTerm(u: Unifier, x: Term): (r: Option<Term>)
    ensures r.Some? <==> x in u.mapping
    ensures r.Some? ==> r.value == u.mapping[x]
  {
    Lookup(u.mapping, x)
  }

  /** `clear()`: forgets every equality and every binding. */
  function Clear(u: Unifier): (r: Unifier)
    ensures IsEmpty(r) && WellFormed(r)
    ensures forall t :: FindSubstitutionTerm(r, t).None?
  {
    EmptyUnifier
  }

  /** `empty()`: decided by the recorded equalities alone; on a
      well-formed unifier an empty one also binds no term. */
  function IsEmpty(u: Unifier): (r: bool)
    ensures r && WellFormed(u) ==> u.mapping == map[]
  {
    UnboundWithoutEqualities(u);
    u.substitutions == {}
  }

  /** Every binding of a well-formed unifier has its equality recorded, so
      with no equality recorded nothing is bound. */
  lemma UnboundWithoutEqualities(u: Unifier)
    ensures WellFormed(u) && u.substitutions == {} ==> u.mapping == map[]
  {
    if WellFormed(u) && u.mapping != map[] {
      var x :| x in u.mapping;
      assert Equality(x, u.mapping[x]) in u.substitutions;
    }
  }

  /** On a well-formed unifier `empty()` also means no term is bound, even
      though the source only inspects the equality set. */
  lemma EmptyHasNoBindings(u: Unifier)
    requires WellFormed(u)
    ensures IsEmpty(u) <==> u.mapping == map[] && u.substitutions == {}
  {
    if u.mapping != map[] {
      var x :| x in u.mapping;
      assert Equality(x, u.mapping[x]) in u.substitutions;
    }
  }

  /** A later `add(x, z)` replaces the binding made by `add(x, y)` while both
      equalities stay recorded. */
  lemma LastBindingWins(u: Unifier, x: Term, y: Term, z: Term)
    requires x != y && x != z
    ensures FindSubstitutionTerm(Add(Add(u, x, y), x, z), x) == Some(z)
    ensures Equality(x, y) in Add(Add(u, x, y), x, z).substitutions
    ensures Equality(x, z) in Add(Add(u, x, y), x, z).substitutions
  {
  }

  /** The unifier after adding every pair of `pairs` in order. */
  function AddAll(u: Unifier, pairs: seq<(Term, Term)>): (r: Unifier)
    decreases |pairs|
  {
    if |pairs| == 0 then u
    else
      var last := pairs[|pairs| - 1];
      Add(AddAll(u, pairs[..|pairs| - 1]), last.0, last.1)
  }

  /** Reference definition: the second term of the last pair in `pairs`
      whose first term is `x` and whose two terms differ. */
  function LastBinding(pairs: seq<(Term, Term)>, x: Term): (r: Option<Term>)
    ensures r.None? <==> forall i :: 0 <= i < |pairs| ==> pairs[i].0 != x || pairs[i].0 == pairs[i].1
    decreases |pairs|
  {
    if |pairs| == 0 then None
    else
      var last := pairs[|pairs| - 1];
      if last.0 == x && last.0 != last.1 then Some(last.1)
      else LastBinding(pairs[..|pairs| - 1], x)
  }

  /** A sequence of `add` calls binds each term to its last non-trivial
      partner; terms never bound by the sequence keep their old lookup. */
  lemma {:induction false} FindAfterAddAll(u: Unifier, pairs: seq<(Term, Term)>, x: Term)
    ensures FindSubstitutionTerm(AddAll(u, pairs), x) ==
      match LastBinding(pairs, x)
      case Some(y) => Some(y)
      case None => FindSubstitutionTerm(u, x)
    decreases |pairs|
  {
    if |pairs| > 0 {
      FindAfterAddAll(u, pairs[..|pairs| - 1], x);
    }
  }

  /** Starting from an empty unifier, a term never passed as the first
      argument of a non-trivial `add` has no substitution. */
  lemma NeverBoundIsMissing(pairs: seq<(Term, Term)>, x: Term)
    requires forall i :: 0 <= i < |pairs| ==> pairs[i].0 != x || pairs[i].0 == pairs[i].1
    ensures FindSubstitutionTerm(AddAll(EmptyUnifier, pairs), x) == None
  {
    FindAfterAddAll(EmptyUnifier, pairs, x);
  }

  /** A sequence of `add` calls records exactly the equalities of its
      non-trivial pairs, whatever later pairs overwrite in the mapping. */
  lemma {:induction false} SubstitutionsAfterAddAll(u: Unifier, pairs: seq<(Term, Term)>)
    ensures AddAll(u, pairs).substitutions ==
      u.substitutions + set i | 0 <= i < |pairs| && pairs[i].0 != pairs[i].1 :: Equality(pairs[i].0, pairs[i].1)
    decreases |pairs|
  {
    if |pairs| > 0 {
      var init := pairs[..|pairs| - 1];
      SubstitutionsAfterAddAll(u, init);
      var last := pairs[|pairs| - 1];
      var before := set i | 0 <= i < |init| && init[i].0 != init[i].1 :: Equality(init[i].0, init[i].1);
      var after := set i | 0 <= i < |pairs| && pairs[i].0 != pairs[i].1 :: Equality(pairs[i].0, pairs[i].1);
      if last.0 != last.1 {
        assert after == before + {Equality(last.0, last.1)};
      } else {
        assert after == before;
      }
    }
  }
}
