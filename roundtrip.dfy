/** Where each part of a tree's text sits when the text occurs in an input:
    the width of every subtree and the characters found at the operator
    positions. */
module Layout {
  import opened Numerals
  import opened Syntax

  /** `t` occurs in `s` at position `p`. */
  predicate PrintedAt(s: string, p: nat, t: string) {
    p + |t| <= |s| && s[p..p + |t|] == t
  }

  predicate OperatorAt(s: string, k: nat, c: char) {
    k < |s| && s[k] == c
  }

  function ExprWidth(e: ExprTree): nat {
    match e
    case Plus(a, b) => ExprWidth(a) + 1 + TermWidth(b)
    case Minus(a, b) => ExprWidth(a) + 1 + TermWidth(b)
    case OfTerm(t) => TermWidth(t)
  }

  function TermWidth(t: TermTree): nat {
    match t
    case Times(a, b) => TermWidth(a) + 1 + FactorWidth(b)
    case OfFactor(f) => FactorWidth(f)
  }

  function FactorWidth(f: FactorTree): nat {
    match f
    case Numeral(n) => |n|
    case Negated(g) => 1 + FactorWidth(g)
    case Group(e) => ExprWidth(e) + 2
  }

  /** `e` is laid out in `s` from position `p`: its operators and
      parentheses are at the positions its subtrees' widths give, and its
      numerals are well formed and spelled out in place. */
  predicate ExprLaid(e: ExprTree, s: string, p: nat) {
    match e
    case Plus(a, b) =>
      ExprLaid(a, s, p) && OperatorAt(s, p + ExprWidth(a), '+') && TermLaid(b, s, p + ExprWidth(a) + 1)
    case Minus(a, b) =>
      ExprLaid(a, s, p) && OperatorAt(s, p + ExprWidth(a), '-') && TermLaid(b, s, p + ExprWidth(a) + 1)
    case OfTerm(t) => TermLaid(t, s, p)
  }

  predicate TermLaid(t: TermTree, s: string, p: nat) {
    match t
    case Times(a, b) =>
      TermLaid(a, s, p) && OperatorAt(s, p + TermWidth(a), '*') && FactorLaid(b, s, p + TermWidth(a) + 1)
    case OfFactor(f) => FactorLaid(f, s, p)
  }

  predicate FactorLaid(f: FactorTree, s: string, p: nat) {
    match f
    case Numeral(n) => WellFormedNumeral(n) && PrintedAt(s, p, n)
    case Negated(g) => OperatorAt(s, p, '-') && FactorLaid(g, s, p + 1)
    case Group(e) => OperatorAt(s, p, '(') && ExprLaid(e, s, p + 1) && OperatorAt(s, p + 1 + ExprWidth(e), ')')
  }

  lemma PrintedSplit(s: string, p: nat, a: string, b: string)
    requires PrintedAt(s, p, a + b)
    ensures PrintedAt(s, p, a) && PrintedAt(s, p + |a|, b)
  {
    assert s[p..p + |a|] == (a + b)[..|a|];
    assert s[p + |a|..p + |a| + |b|] == (a + b)[|a|..];
  }

  /** `left`, then the character `c`, then `right`. */
  lemma OperatorSplit(s: string, p: nat, left: string, c: char, right: string)
    requires PrintedAt(s, p, left + [c] + right)
    ensures PrintedAt(s, p, left)
    ensures OperatorAt(s, p + |left|, c)
    ensures PrintedAt(s, p + |left| + 1, right)
  {
    PrintedSplit(s, p, left + [c], right);
    PrintedSplit(s, p, left, [c]);
    assert s[p + |left|] == s[p + |left|..p + |left| + 1][0];
  }

  /** A well-formed tree's text, found in `s` at `p`, is the tree laid out
      there, and the text is as long as the tree's width. */
  lemma {:induction false} ExprTextLaid(e: ExprTree, s: string, p: nat)
    requires ExprWellFormed(e)
    requires PrintedAt(s, p, ExprText(e))
    ensures ExprLaid(e, s, p) && ExprWidth(e) == |ExprText(e)|
    decreases e, 1
  {
    match e
    case Plus(a, b) => PlusTextLaid(a, b, s, p);
    case Minus(a, b) => MinusTextLaid(a, b, s, p);
    case OfTerm(t) => TermTextLaid(t, s, p);
  }

  lemma {:induction false} PlusTextLaid(a: ExprTree, b: TermTree, s: string, p: nat)
    requires ExprWellFormed(Plus(a, b))
    requires PrintedAt(s, p, ExprText(Plus(a, b)))
    ensures ExprLaid(Plus(a, b), s, p) && ExprWidth(Plus(a, b)) == |ExprText(Plus(a, b))|
    decreases Plus(a, b), 0
  {
    var left, right := ExprText(a), TermText(b);
    assert ExprText(Plus(a, b)) == left + ['+'] + right;
    OperatorSplit(s, p, left, '+', right);
    ExprTextLaid(a, s, p);
    assert OperatorAt(s, p + ExprWidth(a), '+');
    TermTextLaid(b, s, p + ExprWidth(a) + 1);
    assert ExprWidth(Plus(a, b)) == |left| + 1 + |right|;
  }

  lemma {:induction false} MinusTextLaid(a: ExprTree, b: TermTree, s: string, p: nat)
    requires ExprWellFormed(Minus(a, b))
    requires PrintedAt(s, p, ExprText(Minus(a, b)))
    ensures ExprLaid(Minus(a, b), s, p) && ExprWidth(Minus(a, b)) == |ExprText(Minus(a, b))|
    decreases Minus(a, b), 0
  {
    var left, right := ExprText(a), TermText(b);
    assert ExprText(Minus(a, b)) == left + ['-'] + right;
    OperatorSplit(s, p, left, '-', right);
    ExprTextLaid(a, s, p);
    assert OperatorAt(s, p + ExprWidth(a), '-');
    TermTextLaid(b, s, p + ExprWidth(a) + 1);
    assert ExprWidth(Minus(a, b)) == |left| + 1 + |right|;
  }

  lemma {:induction false} TermTextLaid(t: TermTree, s: string, p: nat)
    requires TermWellFormed(t)
    requires PrintedAt(s, p, TermText(t))
    ensures TermLaid(t, s, p) && TermWidth(t) == |TermText(t)|
    decreases t, 2
  {
    match t
    case Times(a, b) =>
      var left, right := TermText(a), FactorText(b);
      assert TermText(t) == left + ['*'] + right;
      OperatorSplit(s, p, left, '*', right);
      TermTextLaid(a, s, p);
      assert OperatorAt(s, p + TermWidth(a), '*');
      FactorTextLaid(b, s, p + TermWidth(a) + 1);
    case OfFactor(f) =>
      FactorTextLaid(f, s, p);
  }

  lemma {:induction false} FactorTextLaid(f: FactorTree, s: string, p: nat)
    requires FactorWellFormed(f)
    requires PrintedAt(s, p, FactorText(f))
    ensures FactorLaid(f, s, p) && FactorWidth(f) == |FactorText(f)|
    decreases f, 2
  {
    match f
    case Numeral(n) =>
    case Negated(g) =>
      var operand := FactorText(g);
      assert FactorText(f) == [] + ['-'] + operand;
      OperatorSplit(s, p, [], '-', operand);
      FactorTextLaid(g, s, p + 1);
    case Group(e) =>
      var inner := ExprText(e);
      assert FactorText(f) == [] + ['('] + (inner + [')']);
      OperatorSplit(s, p, [], '(', inner + [')']);
      assert inner + [')'] == inner + [')'] + [];
      OperatorSplit(s, p + 1, inner, ')', []);
      ExprTextLaid(e, s, p + 1);
      assert OperatorAt(s, p + 1 + ExprWidth(e), ')');
  }
}

/** The evaluator agrees with the trees: a tree laid out in the input is
    parsed to the tree's value, and parsing stops right after it. */
module RoundTrip {
  import opened Numerals
  import opened Grammar
  import opened GrammarProperties
  import opened Syntax
  import opened Layout

  /** Position `q` ends a number: the end of the input or a character that
      is neither a digit nor a dot. */
  predicate FactorStop(s: string, q: nat) {
    q <= |s| && (q == |s| || !IsNumberChar(s[q]))
  }

  /** Position `q` ends a term: it ends a number and holds no "*". */
  predicate TermStop(s: string, q: nat) {
    FactorStop(s, q) && (q == |s| || s[q] != '*')
  }

  lemma NumeralChars(t: string)
    requires WellFormedNumeral(t)
    ensures |t| > 0 && AllNumberChars(t)
  {
    var k := DotIndex(t);
    forall i | 0 <= i < |t| ensures IsNumberChar(t[i]) {
      if i < k {
        assert t[i] == t[..k][i];
      } else if i > k {
        assert t[i] == t[k + 1..][i - k - 1];
      }
    }
  }

  /** A well-formed numeral spelled out at `p`, followed by a character
      that cannot continue it, is parsed as a factor with its decimal
      value. */
  lemma NumeralStep(s: string, p: nat, t: string)
    requires WellFormedNumeral(t)
    requires PrintedAt(s, p, t)
    requires FactorStop(s, p + |t|)
    ensures Factor(s, p) == Ok(Parsed(DecimalValue(t).value, p + |t|))
  {
    NumeralChars(t);
    assert s[p] == t[0];
    forall i | p <= i < p + |t| ensures IsNumberChar(s[i]) {
      assert s[i] == t[i - p];
    }
    NumberConvertsRun(s, p, p + |t|);
  }

  lemma NegationStep(s: string, p: nat, v: real, end: nat)
    requires OperatorAt(s, p, '-')
    requires Factor(s, p + 1) == Ok(Parsed(v, end))
    ensures Factor(s, p) == Ok(Parsed(-v, end))
  {
  }

  lemma GroupStep(s: string, p: nat, v: real, m: nat)
    requires p < m && OperatorAt(s, p, '(') && OperatorAt(s, m, ')')
    requires Expr(s, p + 1) == ExprLoop(s, v, m)
    ensures Factor(s, p) == Ok(Parsed(v, m + 1))
  {
  }

  lemma ProductStep(s: string, acc: real, m: nat, v: real, end: nat)
    requires OperatorAt(s, m, '*')
    requires Factor(s, m + 1) == Ok(Parsed(v, end))
    ensures TermContinues(s, acc, m, Product(acc, v), end)
  {
  }

  /** From position `m` with `acc` so far, the loop of the expression rule
      continues exactly as it does from `end` with `acc2`. */
  predicate ExprContinues(s: string, acc: real, m: nat, acc2: real, end: nat)
    requires m <= |s| && end <= |s|
  {
    ExprLoop(s, acc, m) == ExprLoop(s, acc2, end)
  }

  /** The same for the loop of the term rule. */
  predicate TermContinues(s: string, acc: real, m: nat, acc2: real, end: nat)
    requires m <= |s| && end <= |s|
  {
    TermLoop(s, acc, m) == TermLoop(s, acc2, end)
  }

  lemma AddStep(s: string, acc: real, m: nat, v: real, end: nat)
    requires OperatorAt(s, m, '+')
    requires TermStop(s, end)
    requires Term(s, m + 1) == TermLoop(s, v, end)
    ensures ExprContinues(s, acc, m, acc + v, end)
  {
  }

  lemma SubtractStep(s: string, acc: real, m: nat, v: real, end: nat)
    requires OperatorAt(s, m, '-')
    requires TermStop(s, end)
    requires Term(s, m + 1) == TermLoop(s, v, end)
    ensures ExprContinues(s, acc, m, acc - v, end)
  {
  }

  lemma {:induction false} FactorParses(f: FactorTree, s: string, p: nat)
    requires FactorLaid(f, s, p)
    requires FactorStop(s, p + FactorWidth(f))
    ensures Factor(s, p) == Ok(Parsed(FactorValue(f), p + FactorWidth(f)))
    decreases f, 1
  {
    match f
    case Numeral(n) =>
      assert FactorValue(f) == DecimalValue(n).value && FactorWidth(f) == |n|;
      NumeralStep(s, p, n);
    case Negated(g) =>
      assert FactorValue(f) == -FactorValue(g);
      NegatedTail(g, s, p, FactorValue(g), p + FactorWidth(f));
    case Group(e) =>
      assert FactorValue(f) == ExprValue(e) && FactorWidth(f) == ExprWidth(e) + 2;
      GroupTail(e, s, p, ExprValue(e), p + 1 + ExprWidth(e));
  }

  /** "-" followed by the factor `g` is parsed as its negation. */
  lemma {:induction false} NegatedTail(g: FactorTree, s: string, p: nat, v: real, end: nat)
    requires OperatorAt(s, p, '-')
    requires FactorLaid(g, s, p + 1)
    requires v == FactorValue(g) && end == p + 1 + FactorWidth(g)
    requires FactorStop(s, end)
    ensures Factor(s, p) == Ok(Parsed(-v, end))
    decreases g, 2
  {
    FactorParses(g, s, p + 1);
    NegationStep(s, p, v, end);
  }

  /** "(", the expression `e` and ")" are parsed as the value of `e`. */
  lemma {:induction false} GroupTail(e: ExprTree, s: string, p: nat, v: real, m: nat)
    requires OperatorAt(s, p, '(')
    requires ExprLaid(e, s, p + 1)
    requires v == ExprValue(e) && m == p + 1 + ExprWidth(e)
    requires OperatorAt(s, m, ')')
    ensures Factor(s, p) == Ok(Parsed(v, m + 1))
    decreases e, 2
  {
    ExprParses(e, s, p + 1);
    GroupStep(s, p, v, m);
  }

  lemma {:induction false} TermParses(t: TermTree, s: string, p: nat)
    requires TermLaid(t, s, p)
    requires FactorStop(s, p + TermWidth(t))
    ensures Term(s, p) == TermLoop(s, TermValue(t), p + TermWidth(t))
    decreases t, 1
  {
    match t
    case Times(a, b) => TimesParses(a, b, s, p, TermValue(t), p + TermWidth(t));
    case OfFactor(f) => FactorParses(f, s, p);
  }

  lemma {:induction false} TimesParses(a: TermTree, b: FactorTree, s: string, p: nat, v: real, end: nat)
    requires TermLaid(Times(a, b), s, p)
    requires v == TermValue(Times(a, b)) && end == p + TermWidth(Times(a, b))
    requires FactorStop(s, end)
    ensures Term(s, p) == TermLoop(s, v, end)
    decreases Times(a, b), 0
  {
    TermParses(a, s, p);
    TimesTail(b, s, p + TermWidth(a), TermValue(a), FactorValue(b), end);
  }

  /** The loop of the term rule, standing before "*" and the factor `b`,
      multiplies its value by that factor's. */
  lemma {:induction false} TimesTail(b: FactorTree, s: string, m: nat, acc: real, v: real, end: nat)
    requires OperatorAt(s, m, '*')
    requires FactorLaid(b, s, m + 1)
    requires v == FactorValue(b) && end == m + 1 + FactorWidth(b)
    requires FactorStop(s, end)
    ensures TermContinues(s, acc, m, Product(acc, v), end)
    decreases b, 2
  {
    FactorParses(b, s, m + 1);
    ProductStep(s, acc, m, v, end);
  }

  lemma {:induction false} ExprParses(e: ExprTree, s: string, p: nat)
    requires ExprLaid(e, s, p)
    requires TermStop(s, p + ExprWidth(e))
    ensures Expr(s, p) == ExprLoop(s, ExprValue(e), p + ExprWidth(e))
    decreases e, 1
  {
    match e
    case Plus(a, b) => PlusParses(a, b, s, p, ExprValue(e), p + ExprWidth(e));
    case Minus(a, b) => MinusParses(a, b, s, p, ExprValue(e), p + ExprWidth(e));
    case OfTerm(t) => TermParses(t, s, p);
  }

  lemma {:induction false} PlusParses(a: ExprTree, b: TermTree, s: string, p: nat, v: real, end: nat)
    requires ExprLaid(Plus(a, b), s, p)
    requires v == ExprValue(Plus(a, b)) && end == p + ExprWidth(Plus(a, b))
    requires TermStop(s, end)
    ensures Expr(s, p) == ExprLoop(s, v, end)
    decreases Plus(a, b), 0
  {
    ExprParses(a, s, p);
    PlusTail(b, s, p + ExprWidth(a), ExprValue(a), TermValue(b), end);
  }

  lemma {:induction false} MinusParses(a: ExprTree, b: TermTree, s: string, p: nat, v: real, end: nat)
    requires ExprLaid(Minus(a, b), s, p)
    requires v == ExprValue(Minus(a, b)) && end == p + ExprWidth(Minus(a, b))
    requires TermStop(s, end)
    ensures Expr(s, p) == ExprLoop(s, v, end)
    decreases Minus(a, b), 0
  {
    ExprParses(a, s, p);
    MinusTail(b, s, p + ExprWidth(a), ExprValue(a), TermValue(b), end);
  }

  /** The loop of the expression rule, standing before "+" and the term
      `b`, adds that term's value to its own. */
  lemma {:induction false} PlusTail(b: TermTree, s: string, m: nat, acc: real, v: real, end: nat)
    requires OperatorAt(s, m, '+')
    requires TermLaid(b, s, m + 1)
    requires v == TermValue(b) && end == m + 1 + TermWidth(b)
    requires TermStop(s, end)
    ensures ExprContinues(s, acc, m, acc + v, end)
    decreases b, 2
  {
    TermParses(b, s, m + 1);
    AddStep(s, acc, m, v, end);
  }

  /** The same before "-": the term's value is subtracted. */
  lemma {:induction false} MinusTail(b: TermTree, s: string, m: nat, acc: real, v: real, end: nat)
    requires OperatorAt(s, m, '-')
    requires TermLaid(b, s, m + 1)
    requires v == TermValue(b) && end == m + 1 + TermWidth(b)
    requires TermStop(s, end)
    ensures ExprContinues(s, acc, m, acc - v, end)
    decreases b, 2
  {
    TermParses(b, s, m + 1);
    SubtractStep(s, acc, m, v, end);
  }

  /** Every input whose whitespace-free form is the text of a well-formed
      tree evaluates to the tree's value. */
  lemma EvaluatesText(e: ExprTree, input: string)
    requires ExprWellFormed(e)
    requires Strip(input) == ExprText(e)
    ensures Evaluate(input) == Ok(ExprValue(e))
  {
    var s := Strip(input);
    assert s[0..|s|] == s;
    ExprTextLaid(e, s, 0);
    ExprParses(e, s, 0);
  }
  lemma NoWhitespaceJoin(a: string, b: string)
    requires NoWhitespace(a) && NoWhitespace(b)
    ensures NoWhitespace(a + b)
  {
    forall i | 0 <= i < |a + b| ensures !IsWhitespace((a + b)[i]) {
      if i < |a| {
        assert (a + b)[i] == a[i];
      } else {
        assert (a + b)[i] == b[i - |a|];
      }
    }
  }

  /** The text of a well-formed tree holds no whitespace. */
  lemma {:induction false} ExprTextNoWhitespace(e: ExprTree)
    requires ExprWellFormed(e)
    ensures NoWhitespace(ExprText(e))
  {
    match e
    case Plus(a, b) =>
      ExprTextNoWhitespace(a);
      TermTextNoWhitespace(b);
      NoWhitespaceJoin(ExprText(a), "+");
      NoWhitespaceJoin(ExprText(a) + "+", TermText(b));
    case Minus(a, b) =>
      ExprTextNoWhitespace(a);
      TermTextNoWhitespace(b);
      NoWhitespaceJoin(ExprText(a), "-");
      NoWhitespaceJoin(ExprText(a) + "-", TermText(b));
    case OfTerm(t) =>
      TermTextNoWhitespace(t);
  }

  lemma {:induction false} TermTextNoWhitespace(t: TermTree)
    requires TermWellFormed(t)
    ensures NoWhitespace(TermText(t))
  {
    match t
    case Times(a, b) =>
      TermTextNoWhitespace(a);
      FactorTextNoWhitespace(b);
      NoWhitespaceJoin(TermText(a), "*");
      NoWhitespaceJoin(TermText(a) + "*", FactorText(b));
    case OfFactor(f) =>
      FactorTextNoWhitespace(f);
  }

  lemma {:induction false} FactorTextNoWhitespace(f: FactorTree)
    requires FactorWellFormed(f)
    ensures NoWhitespace(FactorText(f))
  {
    match f
    case Numeral(n) =>
      NumeralChars(n);
      assert forall i :: 0 <= i < |n| ==> IsNumberChar(n[i]);
    case Negated(g) =>
      FactorTextNoWhitespace(g);
      NoWhitespaceJoin("-", FactorText(g));
    case Group(e) =>
      ExprTextNoWhitespace(e);
      NoWhitespaceJoin("(", ExprText(e));
      NoWhitespaceJoin("(" + ExprText(e), ")");
  }

  /** A well-formed tree's own text evaluates to the tree's value. */
  lemma EvaluatesOwnText(e: ExprTree)
    requires ExprWellFormed(e)
    ensures Evaluate(ExprText(e)) == Ok(ExprValue(e))
  {
    ExprTextNoWhitespace(e);
    StripWithoutWhitespace(ExprText(e));
    EvaluatesText(e, ExprText(e));
  }
}
