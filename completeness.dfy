/** The converse of the round trip: every value the evaluator returns is
    the value of a well-formed syntax tree whose text is the whitespace-free
    input. So an input that is not such a text always fails. The proof
    builds the tree from each successful parse, rule by rule, and lays it
    out at the position the rule started from. */
module Completeness {
  import opened Numerals
  import opened Grammar
  import opened Syntax
  import opened Layout
  import opened RoundTrip

  /** A successful factor parse from `p` is a factor tree laid out at `p`,
      as wide as the parse consumed, with the parsed value. */
  lemma {:induction false} FactorBuilt(s: string, p: nat, v: real, end: nat) returns (f: FactorTree)
    requires Factor(s, p) == Ok(Parsed(v, end))
    ensures FactorLaid(f, s, p) && p + FactorWidth(f) == end && FactorValue(f) == v
    decreases |s| - p, 1
  {
    if s[p] == '-' {
      var g := NegatedBuilt(s, p, v, end);
      f := Negated(g);
    } else if s[p] == '(' {
      var e := GroupBuilt(s, p, v, end);
      f := Group(e);
    } else {
      f := NumeralBuilt(s, p, v, end);
    }
  }

  /** At `-`: the operand's tree, built from the inner factor parse. */
  lemma {:induction false} NegatedBuilt(s: string, p: nat, v: real, end: nat) returns (g: FactorTree)
    requires p < |s| && s[p] == '-'
    requires Factor(s, p) == Ok(Parsed(v, end))
    ensures OperatorAt(s, p, '-') && FactorLaid(g, s, p + 1)
    ensures p + 1 + FactorWidth(g) == end && FactorValue(g) == -v
    decreases |s| - p, 0
  {
    assert Factor(s, p + 1) == Ok(Parsed(-v, end));
    g := FactorBuilt(s, p + 1, -v, end);
  }

  /** At `(`: the inner expression's tree, followed by `)`. */
  lemma {:induction false} GroupBuilt(s: string, p: nat, v: real, end: nat) returns (e: ExprTree)
    requires p < |s| && s[p] == '('
    requires Factor(s, p) == Ok(Parsed(v, end))
    ensures OperatorAt(s, p, '(') && ExprLaid(e, s, p + 1) && OperatorAt(s, p + 1 + ExprWidth(e), ')')
    ensures p + 1 + ExprWidth(e) + 1 == end && ExprValue(e) == v
    decreases |s| - p, 0
  {
    var inner := Expr(s, p + 1);
    assert inner == Ok(Parsed(v, end - 1)) && s[end - 1] == ')';
    e := ExprBuilt(s, p + 1, v, end - 1);
  }

  /** Otherwise: the numeral the number rule consumed. */
  lemma NumeralBuilt(s: string, p: nat, v: real, end: nat) returns (f: FactorTree)
    requires p < |s| && s[p] != '-' && s[p] != '('
    requires Factor(s, p) == Ok(Parsed(v, end))
    ensures FactorLaid(f, s, p) && p + FactorWidth(f) == end && FactorValue(f) == v
  {
    assert Number(s, p) == Ok(Parsed(v, end));
    var q := NumberEnd(s, p);
    assert q == end && DecimalValue(s[p..q]) == Some(v);
    f := Numeral(s[p..q]);
  }

  /** A successful term parse from `p` is a term tree laid out at `p`. */
  lemma {:induction false} TermBuilt(s: string, p: nat, v: real, end: nat) returns (t: TermTree)
    requires Term(s, p) == Ok(Parsed(v, end))
    ensures TermLaid(t, s, p) && p + TermWidth(t) == end && TermValue(t) == v
    decreases |s| - p, 2
  {
    var first := Factor(s, p).value;
    assert TermLoop(s, first.value, first.pos) == Ok(Parsed(v, end));
    var f := FactorBuilt(s, p, first.value, first.pos);
    t := TermLoopBuilt(s, p, OfFactor(f), first.pos, v, end);
  }

  /** The term loop, entered at `q` after the laid-out term `left`, extends
      `left` by one product per round. */
  lemma {:induction false} TermLoopBuilt(s: string, p: nat, left: TermTree, q: nat, v: real, end: nat)
      returns (t: TermTree)
    requires q <= |s| && TermLaid(left, s, p) && p + TermWidth(left) == q
    requires TermLoop(s, TermValue(left), q) == Ok(Parsed(v, end))
    ensures TermLaid(t, s, p) && p + TermWidth(t) == end && TermValue(t) == v
    decreases |s| - q, 0
  {
    if q < |s| && s[q] == '*' {
      var right := Factor(s, q + 1).value;
      assert TermLoop(s, Product(TermValue(left), right.value), right.pos) == Ok(Parsed(v, end));
      var g := FactorBuilt(s, q + 1, right.value, right.pos);
      var next := Times(left, g);
      assert TermValue(next) == Product(TermValue(left), right.value);
      t := TermLoopBuilt(s, p, next, right.pos, v, end);
    } else {
      t := left;
    }
  }

  /** A successful expression parse from `p` is an expression tree laid out
      at `p`. */
  lemma {:induction false} ExprBuilt(s: string, p: nat, v: real, end: nat) returns (e: ExprTree)
    requires Expr(s, p) == Ok(Parsed(v, end))
    ensures ExprLaid(e, s, p) && p + ExprWidth(e) == end && ExprValue(e) == v
    decreases |s| - p, 3
  {
    var first := Term(s, p).value;
    assert ExprLoop(s, first.value, first.pos) == Ok(Parsed(v, end));
    var t := TermBuilt(s, p, first.value, first.pos);
    e := ExprLoopBuilt(s, p, OfTerm(t), first.pos, v, end);
  }

  /** The expression loop, entered at `q` after the laid-out expression
      `left`, extends `left` by one sum or difference per round. */
  lemma {:induction false} ExprLoopBuilt(s: string, p: nat, left: ExprTree, q: nat, v: real, end: nat)
      returns (e: ExprTree)
    requires q <= |s| && ExprLaid(left, s, p) && p + ExprWidth(left) == q
    requires ExprLoop(s, ExprValue(left), q) == Ok(Parsed(v, end))
    ensures ExprLaid(e, s, p) && p + ExprWidth(e) == end && ExprValue(e) == v
    decreases |s| - q, 1
  {
    if q < |s| && IsAdditive(s[q]) {
      var next, m := AdditiveBuilt(s, p, left, q);
      e := ExprLoopBuilt(s, p, next, m, v, end);
    } else {
      e := left;
    }
  }

  /** One round of the expression loop at `+` or `-`: `left` extended by the
      term after the operator, and the position after that term. */
  lemma {:induction false} AdditiveBuilt(s: string, p: nat, left: ExprTree, q: nat)
      returns (next: ExprTree, m: nat)
    requires q < |s| && IsAdditive(s[q]) && ExprLaid(left, s, p) && p + ExprWidth(left) == q
    requires ExprLoop(s, ExprValue(left), q).Ok?
    ensures q < m <= |s| && ExprLaid(next, s, p) && p + ExprWidth(next) == m
    ensures ExprContinues(s, ExprValue(left), q, ExprValue(next), m)
    decreases |s| - q, 0
  {
    var right := Term(s, q + 1).value;
    var b := TermBuilt(s, q + 1, right.value, right.pos);
    if s[q] == '+' {
      next := Plus(left, b);
      assert ExprValue(next) == ExprValue(left) + right.value;
    } else {
      next := Minus(left, b);
      assert ExprValue(next) == ExprValue(left) - right.value;
    }
    m := right.pos;
    AdditiveContinues(s, ExprValue(left), q, right.value, m, ExprValue(next));
  }

  /** The expression loop at `+` or `-`, followed by a term that parses to
      `v` and ends at `m`, goes on from `m` with `v` added or subtracted. */
  lemma AdditiveContinues(s: string, acc: real, q: nat, v: real, m: nat, acc2: real)
    requires q < |s| && IsAdditive(s[q]) && Term(s, q + 1) == Ok(Parsed(v, m))
    requires acc2 == if s[q] == '+' then acc + v else acc - v
    ensures m <= |s|
    ensures ExprContinues(s, acc, q, acc2, m)
  {
  }

  /** `a` then `b`. */
  lemma PrintedJoin(s: string, p: nat, a: string, b: string)
    requires PrintedAt(s, p, a) && PrintedAt(s, p + |a|, b)
    ensures PrintedAt(s, p, a + b)
  {
    assert s[p..p + |a| + |b|] == s[p..p + |a|] + s[p + |a|..p + |a| + |b|];
  }

  lemma OperatorPrinted(s: string, k: nat, c: char)
    requires OperatorAt(s, k, c)
    ensures PrintedAt(s, k, [c])
  {
    assert s[k..k + 1] == [s[k]];
  }

  /** `left`, the character `c`, then `right`. */
  lemma OperatorJoin(s: string, p: nat, left: string, c: char, right: string)
    requires PrintedAt(s, p, left) && OperatorAt(s, p + |left|, c) && PrintedAt(s, p + |left| + 1, right)
    ensures PrintedAt(s, p, left + [c] + right)
  {
    OperatorPrinted(s, p + |left|, c);
    PrintedJoin(s, p, left, [c]);
    PrintedJoin(s, p, left + [c], right);
  }

  /** A tree laid out at `p` is well formed and its text is found at `p`,
      as long as its width: the converse of `Layout.ExprTextLaid`. */
  lemma {:induction false} ExprLaidText(e: ExprTree, s: string, p: nat)
    requires ExprLaid(e, s, p)
    ensures ExprWellFormed(e) && PrintedAt(s, p, ExprText(e)) && ExprWidth(e) == |ExprText(e)|
  {
    match e
    case Plus(a, b) =>
      ExprLaidText(a, s, p);
      TermLaidText(b, s, p + ExprWidth(a) + 1);
      OperatorJoin(s, p, ExprText(a), '+', TermText(b));
    case Minus(a, b) =>
      ExprLaidText(a, s, p);
      TermLaidText(b, s, p + ExprWidth(a) + 1);
      OperatorJoin(s, p, ExprText(a), '-', TermText(b));
    case OfTerm(t) =>
      TermLaidText(t, s, p);
  }

  lemma {:induction false} TermLaidText(t: TermTree, s: string, p: nat)
    requires TermLaid(t, s, p)
    ensures TermWellFormed(t) && PrintedAt(s, p, TermText(t)) && TermWidth(t) == |TermText(t)|
  {
    match t
    case Times(a, b) =>
      TermLaidText(a, s, p);
      FactorLaidText(b, s, p + TermWidth(a) + 1);
      OperatorJoin(s, p, TermText(a), '*', FactorText(b));
    case OfFactor(f) =>
      FactorLaidText(f, s, p);
  }

  lemma {:induction false} FactorLaidText(f: FactorTree, s: string, p: nat)
    requires FactorLaid(f, s, p)
    ensures FactorWellFormed(f) && PrintedAt(s, p, FactorText(f)) && FactorWidth(f) == |FactorText(f)|
  {
    match f
    case Numeral(_) =>
    case Negated(g) =>
      FactorLaidText(g, s, p + 1);
      OperatorPrinted(s, p, '-');
      PrintedJoin(s, p, "-", FactorText(g));
    case Group(e) =>
      ExprLaidText(e, s, p + 1);
      OperatorPrinted(s, p, '(');
      PrintedJoin(s, p, "(", ExprText(e));
      assert "(" + ExprText(e) + ")" == "(" + ExprText(e) + [')'] + [];
      OperatorJoin(s, p, "(" + ExprText(e), ')', []);
  }

  /** Every value the evaluator returns is the value of a well-formed tree
      whose text is the whitespace-free input. */
  lemma EvaluateOnlyTrees(input: string, v: real)
    requires Evaluate(input) == Ok(v)
    ensures exists e :: ExprWellFormed(e) && Strip(input) == ExprText(e) && ExprValue(e) == v
  {
    var s := Strip(input);
    assert Expr(s, 0) == Ok(Parsed(v, |s|));
    var e := ExprBuilt(s, 0, v, |s|);
    ExprLaidText(e, s, 0);
    assert s[0..|s|] == s;
  }

  /** Together with the round trip: the evaluator returns `v` exactly when
      the whitespace-free input is the text of a well-formed tree with value
      `v`. */
  lemma EvaluateIffTree(input: string, v: real)
    ensures Evaluate(input) == Ok(v)
        <==> exists e :: ExprWellFormed(e) && Strip(input) == ExprText(e) && ExprValue(e) == v
  {
    if Evaluate(input) == Ok(v) {
      EvaluateOnlyTrees(input, v);
    }
    if exists e :: ExprWellFormed(e) && Strip(input) == ExprText(e) && ExprValue(e) == v {
      var e :| ExprWellFormed(e) && Strip(input) == ExprText(e) && ExprValue(e) == v;
      EvaluatesText(e, input);
    }
  }
}
