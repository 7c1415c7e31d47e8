/** Properties of the grammar functions: what each rule consumes, how the
    unary minus and the parentheses behave, and what the top level
    accepts. */
module GrammarProperties {
  import opened Numerals
  import opened Grammar

  /** The greedy scan stops at the first position of `[p, q)`'s complement:
      if `s[p..q]` is all digits and dots and `q` is not one, the scan from
      `p` ends exactly at `q`. */
  lemma {:induction false} NumberEndAt(s: string, p: nat, q: nat)
    requires p <= q <= |s|
    requires forall i :: p <= i < q ==> IsNumberChar(s[i])
    requires q == |s| || !IsNumberChar(s[q])
    ensures NumberEnd(s, p) == q
    decreases q - p
  {
    if p < q {
      NumberEndAt(s, p + 1, q);
    }
  }

  /** The number rule converts exactly the maximal run of digits and dots
      that starts at `p`: it succeeds with the run's decimal value and the
      position after the run, or fails with the run itself when the
      conversion rejects it. */
  lemma NumberConvertsRun(s: string, p: nat, q: nat)
    requires p < q <= |s|
    requires forall i :: p <= i < q ==> IsNumberChar(s[i])
    requires q == |s| || !IsNumberChar(s[q])
    ensures DecimalValue(s[p..q]).Some? ==> Number(s, p) == Ok(Parsed(DecimalValue(s[p..q]).value, q))
    ensures DecimalValue(s[p..q]).None? ==> Number(s, p) == Err(MalformedNumber(s[p..q]))
  {
    NumberEndAt(s, p, q);
  }

  /** A successful number rule consumed a non-empty run whose conversion
      gave its value. */
  lemma NumberValue(s: string, p: nat)
    requires Number(s, p).Ok?
    ensures var r := Number(s, p).value;
      p < r.pos <= |s| && DecimalValue(s[p..r.pos]) == Some(r.value)
  {
  }

  /** A unary minus at `p` parses the factor after it and negates its value;
      the position it returns is that factor's, and errors pass through. */
  lemma FactorNegation(s: string, p: nat)
    requires p < |s| && s[p] == '-'
    ensures Factor(s, p).Ok? <==> Factor(s, p + 1).Ok?
    ensures Factor(s, p).Ok? ==>
      Factor(s, p).value == Parsed(-Factor(s, p + 1).value.value, Factor(s, p + 1).value.pos)
    ensures Factor(s, p).Err? ==> Factor(s, p).error == Factor(s, p + 1).error
  {
  }

  /** Two unary minuses cancel: "--x" means what "x" means, and ends where
      it ends. */
  lemma DoubleNegation(s: string, p: nat)
    requires p + 1 < |s| && s[p] == '-' && s[p + 1] == '-'
    ensures Factor(s, p) == Factor(s, p + 2)
  {
    FactorNegation(s, p);
    FactorNegation(s, p + 1);
  }

  /** A parenthesised factor that succeeds ends just after a ")". */
  lemma ParenthesisCloses(s: string, p: nat)
    requires p < |s| && s[p] == '('
    requires Factor(s, p).Ok?
    ensures Expr(s, p + 1).Ok?
    ensures Factor(s, p).value.pos == Expr(s, p + 1).value.pos + 1
    ensures Factor(s, p).value.value == Expr(s, p + 1).value.value
    ensures s[Factor(s, p).value.pos - 1] == ')'
  {
  }

  /** If the expression inside "(" stops at the end of the input or at a
      character other than ")", the factor fails with a missing closing
      parenthesis. */
  lemma ParenthesisMissing(s: string, p: nat)
    requires p < |s| && s[p] == '('
    requires Expr(s, p + 1).Ok?
    requires Expr(s, p + 1).value.pos == |s| || s[Expr(s, p + 1).value.pos] != ')'
    ensures Factor(s, p) == Err(MissingClosingParenthesis)
  {
  }

  /** Evaluation succeeds exactly when the expression parsed from position 0
      of the stripped input consumes all of it. */
  lemma EvaluateSucceedsIff(expression: string, v: real)
    ensures Evaluate(expression) == Ok(v)
        <==> Expr(Strip(expression), 0) == Ok(Parsed(v, |Strip(expression)|))
  {
  }

  /** Input left over after the top-level expression is reported at the
      position where the expression stopped, which holds neither "+", "-"
      nor "*"; and this is the only way the error arises. */
  lemma EvaluateTrailing(expression: string, q: nat)
    ensures Evaluate(expression) == Err(UnexpectedCharacter(q))
        <==> Expr(Strip(expression), 0).Ok? && Expr(Strip(expression), 0).value.pos == q < |Strip(expression)|
    ensures Evaluate(expression) == Err(UnexpectedCharacter(q)) ==>
      var c := Strip(expression)[q]; c != '+' && c != '-' && c != '*'
  {
    if Expr(Strip(expression), 0).Ok? {
      TermStopsWithExpr(Strip(expression), 0);
    }
  }

  /** Where an expression stops, its last term stopped too; in particular
      the character there is not "*". */
  lemma TermStopsWithExpr(s: string, p: nat)
    requires Expr(s, p).Ok?
    ensures var q := Expr(s, p).value.pos; q == |s| || s[q] != '*'
  {
    ExprLoopStop(s, Term(s, p).value.value, Term(s, p).value.pos);
  }

  lemma {:induction false} ExprLoopStop(s: string, acc: real, q: nat)
    requires q <= |s| && (q == |s| || s[q] != '*')
    requires ExprLoop(s, acc, q).Ok?
    ensures var e := ExprLoop(s, acc, q).value.pos; e == |s| || s[e] != '*'
    decreases |s| - q
  {
    if q < |s| && IsAdditive(s[q]) {
      var right := Term(s, q + 1).value;
      ExprLoopStop(s, if s[q] == '+' then acc + right.value else acc - right.value, right.pos);
    }
  }

  /** The stripped input holds no whitespace. */
  lemma {:induction false} StripRemovesWhitespace(s: string)
    ensures NoWhitespace(Strip(s))
  {
    if s != [] {
      StripRemovesWhitespace(s[1..]);
    }
  }

  /** Stripping keeps every other character, as often as it occurs. */
  lemma {:induction false} StripKeepsOthers(s: string)
    ensures forall c :: !IsWhitespace(c) ==> multiset(Strip(s))[c] == multiset(s)[c]
  {
    if s != [] {
      StripKeepsOthers(s[1..]);
      assert s == [s[0]] + s[1..];
      assert multiset(s) == multiset{s[0]} + multiset(s[1..]);
    }
  }

  /** Text without whitespace is left as it is. */
  lemma {:induction false} StripWithoutWhitespace(s: string)
    requires NoWhitespace(s)
    ensures Strip(s) == s
  {
    if s != [] {
      assert !IsWhitespace(s[0]);
      StripWithoutWhitespace(s[1..]);
    }
  }

  /** Stripping works character by character, so it distributes over
      concatenation. */
  lemma {:induction false} StripAppend(a: string, b: string)
    ensures Strip(a + b) == Strip(a) + Strip(b)
  {
    if a != [] {
      assert (a + b)[0] == a[0];
      assert (a + b)[1..] == a[1..] + b;
      StripAppend(a[1..], b);
    } else {
      assert a + b == b;
    }
  }

  /** Stripping is idempotent. */
  lemma StripIdempotent(s: string)
    ensures Strip(Strip(s)) == Strip(s)
  {
    StripRemovesWhitespace(s);
    StripWithoutWhitespace(Strip(s));
  }

  /** Evaluating an input and evaluating it with its whitespace removed give
      the same outcome. */
  lemma EvaluateIgnoresWhitespace(expression: string)
    ensures Evaluate(Strip(expression)) == Evaluate(expression)
  {
    StripIdempotent(expression);
  }
}
