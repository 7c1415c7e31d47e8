/** An independent reference for what the calculator computes: plain
    arithmetic trees with their mathematical value, and the conversion that
    writes such a tree in the calculator's grammar, adding parentheses only
    where precedence and left associativity need them. The main theorem says
    that the calculator gives every tree written this way its mathematical
    value. */
module Precedence {
  import opened Numerals
  import opened Grammar
  import opened Syntax
  import opened RoundTrip

  datatype Ast =
    | Num(text: string)          // a numeral such as "12" or "1.5"
    | Neg(operand: Ast)
    | Add(left: Ast, right: Ast)
    | Sub(left: Ast, right: Ast)
    | Mul(left: Ast, right: Ast)

  predicate WellFormed(e: Ast) {
    match e
    case Num(t) => WellFormedNumeral(t)
    case Neg(a) => WellFormed(a)
    case Add(a, b) => WellFormed(a) && WellFormed(b)
    case Sub(a, b) => WellFormed(a) && WellFormed(b)
    case Mul(a, b) => WellFormed(a) && WellFormed(b)
  }

  /** The mathematical value of a tree; as in the syntax trees, a numeral
      that is not well formed counts as 0. */
  function Eval(e: Ast): real {
    match e
    case Num(t) => if DecimalValue(t).Some? then DecimalValue(t).value else 0.0
    case Neg(a) => -Eval(a)
    case Add(a, b) => Eval(a) + Eval(b)
    case Sub(a, b) => Eval(a) - Eval(b)
    case Mul(a, b) => Product(Eval(a), Eval(b))
  }

  /** The grammar level: 0 for an expression, 1 for a term, 2 for a factor. */
  type Level = l: nat | l < 3

  /** The level a tree belongs to: sums and differences are expressions,
      products are terms, numerals and negations are factors. */
  function Home(e: Ast): Level {
    if e.Add? || e.Sub? then 0 else if e.Mul? then 1 else 2
  }

  /** Termination measure for the conversion: a tree converted away from
      its home level is handed on, at the same size, from level to level
      (expression, term, factor, then back to expression inside
      parentheses) until it reaches home; the rank counts the hand-offs
      left. */
  function Rank(level: Level, e: Ast): nat {
    (Home(e) + 3 - level) % 3
  }

  /** The tree as an expression of the grammar. */
  function ToExpr(e: Ast): ExprTree
    decreases e, Rank(0, e)
  {
    match e
    case Add(a, b) => Plus(ToExpr(a), ToTerm(b))
    case Sub(a, b) => Minus(ToExpr(a), ToTerm(b))
    case _ => OfTerm(ToTerm(e))
  }

  /** The tree as a term: a sum or difference is wrapped in parentheses. */
  function ToTerm(e: Ast): TermTree
    decreases e, Rank(1, e)
  {
    match e
    case Mul(a, b) => Times(ToTerm(a), ToFactor(b))
    case _ => OfFactor(ToFactor(e))
  }

  /** The tree as a factor: a sum, difference or product is wrapped in
      parentheses. */
  function ToFactor(e: Ast): FactorTree
    decreases e, Rank(2, e)
  {
    match e
    case Num(t) => Numeral(t)
    case Neg(a) => Negated(ToFactor(a))
    case _ => Group(ToExpr(e))
  }

  /** The text the conversion gives: the tree written with the fewest
      parentheses. */
  function Print(e: Ast): string {
    ExprText(ToExpr(e))
  }

  /** Forgets the grammar's levels and parentheses. */
  function ExprAst(e: ExprTree): Ast {
    match e
    case Plus(a, b) => Add(ExprAst(a), TermAst(b))
    case Minus(a, b) => Sub(ExprAst(a), TermAst(b))
    case OfTerm(t) => TermAst(t)
  }

  function TermAst(t: TermTree): Ast {
    match t
    case Times(a, b) => Mul(TermAst(a), FactorAst(b))
    case OfFactor(f) => FactorAst(f)
  }

  function FactorAst(f: FactorTree): Ast {
    match f
    case Numeral(n) => Num(n)
    case Negated(g) => Neg(FactorAst(g))
    case Group(e) => ExprAst(e)
  }

  /** Forgetting the levels undoes the conversion. */
  lemma {:induction false} ExprAstInverse(e: Ast)
    ensures ExprAst(ToExpr(e)) == e
    decreases e, Rank(0, e)
  {
    match e
    case Add(a, b) => ExprAstInverse(a); TermAstInverse(b);
    case Sub(a, b) => ExprAstInverse(a); TermAstInverse(b);
    case _ => TermAstInverse(e);
  }

  lemma {:induction false} TermAstInverse(e: Ast)
    ensures TermAst(ToTerm(e)) == e
    decreases e, Rank(1, e)
  {
    match e
    case Mul(a, b) => TermAstInverse(a); FactorAstInverse(b);
    case _ => FactorAstInverse(e);
  }

  lemma {:induction false} FactorAstInverse(e: Ast)
    ensures FactorAst(ToFactor(e)) == e
    decreases e, Rank(2, e)
  {
    match e
    case Num(_) =>
    case Neg(a) => FactorAstInverse(a);
    case _ => ExprAstInverse(e);
  }

  /** A syntax tree's value is the mathematical value of the tree it
      stands for: the grammar's levels and parentheses only group. */
  lemma {:induction false} ExprAstValue(e: ExprTree)
    ensures Eval(ExprAst(e)) == ExprValue(e)
  {
    match e
    case Plus(a, b) => ExprAstValue(a); TermAstValue(b);
    case Minus(a, b) => ExprAstValue(a); TermAstValue(b);
    case OfTerm(t) => TermAstValue(t);
  }

  lemma {:induction false} TermAstValue(t: TermTree)
    ensures Eval(TermAst(t)) == TermValue(t)
  {
    match t
    case Times(a, b) => TermAstValue(a); FactorAstValue(b);
    case OfFactor(f) => FactorAstValue(f);
  }

  lemma {:induction false} FactorAstValue(f: FactorTree)
    ensures Eval(FactorAst(f)) == FactorValue(f)
  {
    match f
    case Numeral(_) =>
    case Negated(g) => FactorAstValue(g);
    case Group(e) => ExprAstValue(e);
  }

  /** Forgetting the levels keeps the numerals, so it keeps
      well-formedness in both directions. */
  lemma {:induction false} ExprAstWellFormed(e: ExprTree)
    ensures WellFormed(ExprAst(e)) <==> ExprWellFormed(e)
  {
    match e
    case Plus(a, b) => ExprAstWellFormed(a); TermAstWellFormed(b);
    case Minus(a, b) => ExprAstWellFormed(a); TermAstWellFormed(b);
    case OfTerm(t) => TermAstWellFormed(t);
  }

  lemma {:induction false} TermAstWellFormed(t: TermTree)
    ensures WellFormed(TermAst(t)) <==> TermWellFormed(t)
  {
    match t
    case Times(a, b) => TermAstWellFormed(a); FactorAstWellFormed(b);
    case OfFactor(f) => FactorAstWellFormed(f);
  }

  lemma {:induction false} FactorAstWellFormed(f: FactorTree)
    ensures WellFormed(FactorAst(f)) <==> FactorWellFormed(f)
  {
    match f
    case Numeral(_) =>
    case Negated(g) => FactorAstWellFormed(g);
    case Group(e) => ExprAstWellFormed(e);
  }

  /** The conversion keeps the value and well-formedness. */
  lemma ToExprFaithful(e: Ast)
    ensures ExprValue(ToExpr(e)) == Eval(e)
    ensures ExprWellFormed(ToExpr(e)) <==> WellFormed(e)
  {
    ExprAstInverse(e);
    ExprAstValue(ToExpr(e));
    ExprAstWellFormed(ToExpr(e));
  }

  /** The calculator evaluates every input whose whitespace-free form is a
      printed well-formed tree to the tree's mathematical value: it respects
      precedence ("*" before "+" and "-"), left associativity, unary minus
      and grouping. */
  lemma EvaluatesPrinted(e: Ast, input: string)
    requires WellFormed(e)
    requires Strip(input) == Print(e)
    ensures Evaluate(input) == Ok(Eval(e))
  {
    ToExprFaithful(e);
    EvaluatesText(ToExpr(e), input);
  }

  /** In particular the printed text itself. */
  lemma EvaluatePrint(e: Ast)
    requires WellFormed(e)
    ensures Evaluate(Print(e)) == Ok(Eval(e))
  {
    ToExprFaithful(e);
    EvaluatesOwnText(ToExpr(e));
  }
}
