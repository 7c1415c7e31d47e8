/** The calculator's routines as they run: each parse routine returns a
    freshly allocated, mutable Result record that its caller updates in place
    while its loop advances. Each routine is proved to compute exactly what
    its specification function in module Grammar denotes. */
module Calculator {
  import opened Numerals
  import opened Grammar

  /** The mutable (value, position) record the parse routines hand back. */
  class Result {
    var value: real
    var position: nat

    constructor (value: real, position: nat)
      ensures this.value == value && this.position == position
    {
      this.value := value;
      this.position := position;
    }
  }

  /** The current contents of a routine's outcome, as a value. */
  function View(out: Outcome<Result>): Outcome<Parsed>
    reads if out.Ok? then {out.value} else {}
  {
    match out
    case Err(e) => Err(e)
    case Ok(r) => Ok(Parsed(r.value, r.position))
  }

  /** Entry point: strips whitespace, parses an expression from position 0
      and rejects input left over. */
  method EvaluateMathExpression(expression: string) returns (out: Outcome<real>)
    ensures out == Evaluate(expression)
  {
    var s := Strip(expression);
    var parsed := ParseExpression(s, 0);
    match parsed
    case Err(e) =>
      out := Err(e);
    case Ok(result) =>
      if result.position < |s| {
        out := Err(UnexpectedCharacter(result.position));
      } else {
        out := Ok(result.value);
      }
  }

  method ParseExpression(s: string, p: nat) returns (out: Outcome<Result>)
    ensures out.Ok? ==> fresh(out.value)
    ensures View(out) == Expr(s, p)
    decreases |s| - p, 3
  {
    out := ParseTerm(s, p);
    if out.Err? {
      return;
    }
    var result := out.value;
    ghost var target := Expr(s, p);
    while result.position < |s|
      invariant ExprLoopGives(s, result.value, result.position, target)
      decreases |s| - result.position
    {
      var operator := s[result.position];
      if operator == '+' || operator == '-' {
        var right := ParseTerm(s, result.position + 1);
        if right.Err? {
          return right;
        }
        if operator == '+' {
          result.value := result.value + right.value.value;
        } else {
          result.value := result.value - right.value.value;
        }
        result.position := right.value.position;
      } else {
        break;
      }
    }
  }

  method ParseTerm(s: string, p: nat) returns (out: Outcome<Result>)
    ensures out.Ok? ==> fresh(out.value)
    ensures View(out) == Term(s, p)
    decreases |s| - p, 2
  {
    out := ParseFactor(s, p);
    if out.Err? {
      return;
    }
    var result := out.value;
    ghost var target := Term(s, p);
    while result.position < |s|
      invariant TermLoopGives(s, result.value, result.position, target)
      decreases |s| - result.position
    {
      if s[result.position] == '*' {
        var right := ParseFactor(s, result.position + 1);
        if right.Err? {
          return right;
        }
        result.value := Product(result.value, right.value.value);
        result.position := right.value.position;
      } else {
        break;
      }
    }
  }

  method ParseFactor(s: string, p: nat) returns (out: Outcome<Result>)
    ensures out.Ok? ==> fresh(out.value)
    ensures View(out) == Factor(s, p)
    decreases |s| - p, 1
  {
    if p >= |s| {
      return Err(UnexpectedEnd);
    }
    var ch := s[p];
    if ch == '-' {
      out := ParseFactor(s, p + 1);
      if out.Ok? {
        var result := out.value;
        result.value := -result.value;
      }
      return;
    }
    if ch == '(' {
      out := ParseExpression(s, p + 1);
      if out.Err? {
        return;
      }
      var result := out.value;
      if result.position < |s| && s[result.position] == ')' {
        result.position := result.position + 1;
        return;
      } else {
        return Err(MissingClosingParenthesis);
      }
    }
    out := ParseNumber(s, p);
  }

  method ParseNumber(s: string, p: nat) returns (out: Outcome<Result>)
    ensures out.Ok? ==> fresh(out.value)
    ensures View(out) == Number(s, p)
  {
    var builder: string := [];
    var position := p;
    while position < |s|
      invariant p <= position
      invariant NumberEnd(s, position) == NumberEnd(s, p)
      invariant |builder| == position - p
      invariant forall k :: 0 <= k < |builder| ==> builder[k] == s[p + k]
      decreases |s| - position
    {
      var ch := s[position];
      if IsDigit(ch) || ch == '.' {
        builder := builder + [ch];
        position := position + 1;
      } else {
        break;
      }
    }
    if |builder| == 0 {
      return Err(ExpectedNumber(position));
    }
    assert builder == s[p..position];
    match DecimalValue(builder)
    case None =>
      out := Err(MalformedNumber(builder));
    case Some(v) =>
      var result := new Result(v, position);
      out := Ok(result);
  }

  /** From `q` with `acc` so far, the loop of the expression rule gives
      `r`. */
  predicate ExprLoopGives(s: string, acc: real, q: nat, r: Outcome<Parsed>) {
    q <= |s| && ExprLoop(s, acc, q) == r
  }

  /** The same for the loop of the term rule. */
  predicate TermLoopGives(s: string, acc: real, q: nat, r: Outcome<Parsed>) {
    q <= |s| && TermLoop(s, acc, q) == r
  }
}
