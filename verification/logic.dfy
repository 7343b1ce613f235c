/** First-order terms and literals, as used by the knowledge base and the
    proof graph. */
module Logic {

  /** A term is an atomic symbol; variables and constants share one type. */
  type Term = string

  /** A literal: a predicate name, its ordered arguments and its polarity
      (`truth` is false for a negated literal). */
  datatype Literal = Literal(pred: string, terms: seq<Term>, truth: bool)

  /** Axioms are numbered; `-1` marks "no axiom". */
  type AxiomId = int

  /** The name of the built-in equality predicate. */
  const EqualityPredicate: string := "="

  /** The affirmed equality literal `=(x, y)`. */
  function Equality(x: Term, y: Term): (lit: Literal)
    ensures lit.pred == EqualityPredicate && lit.truth
    ensures lit.terms == [x, y]
  {
    Literal(EqualityPredicate, [x, y], true)
  }

  /** An implication rule between a left and a right literal set, usable
      forwards (left to right) and backwards (right to left). */
  datatype Axiom = Axiom(id: AxiomId, name: string, lhs: seq<Literal>, rhs: seq<Literal>)
}
