/** Syntax trees shaped like the evaluator's grammar: an expression is a
    left-nested chain of sums and differences of terms, a term a left-nested
    chain of products of factors, and a factor a numeral, a negated factor or
    a parenthesised expression. Each tree has a value, computed by plain
    structural recursion, and a text, the characters that spell it. */
module Syntax {
  import opened Numerals
  import opened Grammar

  datatype ExprTree =
    | Plus(left: ExprTree, right: TermTree)
    | Minus(left: ExprTree, right: TermTree)
    | OfTerm(term: TermTree)

  datatype TermTree =
    | Times(left: TermTree, right: FactorTree)
    | OfFactor(factor: FactorTree)

  datatype FactorTree =
    | Numeral(text: string)
    | Negated(operand: FactorTree)
    | Group(inner: ExprTree)

  /** Every numeral in the tree is one the decimal conversion accepts. */
  predicate ExprWellFormed(e: ExprTree) {
    match e
    case Plus(a, b) => ExprWellFormed(a) && TermWellFormed(b)
    case Minus(a, b) => ExprWellFormed(a) && TermWellFormed(b)
    case OfTerm(t) => TermWellFormed(t)
  }

  predicate TermWellFormed(t: TermTree) {
    match t
    case Times(a, b) => TermWellFormed(a) && FactorWellFormed(b)
    case OfFactor(f) => FactorWellFormed(f)
  }

  predicate FactorWellFormed(f: FactorTree) {
    match f
    case Numeral(n) => WellFormedNumeral(n)
    case Negated(g) => FactorWellFormed(g)
    case Group(e) => ExprWellFormed(e)
  }

  /** The value of a tree. A numeral the conversion rejects, which
      well-formedness excludes, is given the value 0. */
  function ExprValue(e: ExprTree): real {
    match e
    case Plus(a, b) => ExprValue(a) + TermValue(b)
    case Minus(a, b) => ExprValue(a) - TermValue(b)
    case OfTerm(t) => TermValue(t)
  }

  function TermValue(t: TermTree): real {
    match t
    case Times(a, b) => Product(TermValue(a), FactorValue(b))
    case OfFactor(f) => FactorValue(f)
  }

  function FactorValue(f: FactorTree): real {
    match f
    case Numeral(n) => if DecimalValue(n).Some? then DecimalValue(n).value else 0.0
    case Negated(g) => -FactorValue(g)
    case Group(e) => ExprValue(e)
  }

  /** The text of a tree, without whitespace. */
  function ExprText(e: ExprTree): string {
    match e
    case Plus(a, b) => ExprText(a) + "+" + TermText(b)
    case Minus(a, b) => ExprText(a) + "-" + TermText(b)
    case OfTerm(t) => TermText(t)
  }

  function TermText(t: TermTree): string {
    match t
    case Times(a, b) => TermText(a) + "*" + FactorText(b)
    case OfFactor(f) => FactorText(f)
  }

  function FactorText(f: FactorTree): string {
    match f
    case Numeral(n) => n
    case Negated(g) => "-" + FactorText(g)
    case Group(e) => "(" + ExprText(e) + ")"
  }
}
