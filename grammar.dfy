/** The evaluator's grammar and meaning as pure functions of the input and a
    cursor position. Each function here is the specification of one parse
    routine of the calculator; the routines themselves are in module
    Calculator. */
module Grammar {
  import opened Numerals

  /** The ways an evaluation fails; each is an IllegalArgumentException in
      the calculator, and positions refer to the whitespace-free input. */
  datatype Error =
    | UnexpectedCharacter(position: nat)  // input left over after the top-level expression
    | UnexpectedEnd                       // a factor was expected at the end of the input
    | MissingClosingParenthesis           // "(" whose expression is not followed by ")"
    | ExpectedNumber(position: nat)       // no digit or dot where a number was expected
    | MalformedNumber(text: string)       // a digit run the decimal conversion rejects

  datatype Outcome<T> = Ok(value: T) | Err(error: Error)

  /** The value a routine computed and the position of the next unconsumed
      character. */
  datatype Parsed = Parsed(value: real, pos: nat)

  /** The characters the whitespace class of the preprocessing step matches:
      space, tab, line feed, vertical tab, form feed and carriage return. */
  predicate IsWhitespace(c: char) {
    c == ' ' || '\t' <= c <= '\r'
  }

  predicate NoWhitespace(s: string) {
    forall i :: 0 <= i < |s| ==> !IsWhitespace(s[i])
  }

  /** The input with every whitespace character removed. */
  function Strip(s: string): string {
    if s == [] then []
    else if IsWhitespace(s[0]) then Strip(s[1..])
    else [s[0]] + Strip(s[1..])
  }

  predicate IsAdditive(c: char) {
    c == '+' || c == '-'
  }

  /** Where the number rule's greedy scan that starts at `p` stops: the first
      position at or after `p` that does not hold a digit or a dot. */
  function NumberEnd(s: string, p: nat): (q: nat)
    ensures p <= q
    ensures p <= |s| ==> q <= |s|
    ensures q > p ==> q <= |s|
    ensures forall i :: p <= i < q ==> IsNumberChar(s[i])
    ensures q >= |s| || !IsNumberChar(s[q])
    decreases |s| - p
  {
    if p < |s| && IsNumberChar(s[p]) then NumberEnd(s, p + 1) else p
  }

  /** expression := term (("+" | "-") term)*, folded from the left. */
  function Expr(s: string, p: nat): (r: Outcome<Parsed>)
    ensures r.Ok? ==> p < r.value.pos <= |s|
    ensures r.Ok? ==> r.value.pos == |s| || !IsAdditive(s[r.value.pos])
    ensures r.Err? ==> !r.error.UnexpectedCharacter?
    decreases |s| - p, 3
  {
    match Term(s, p)
    case Err(e) => Err(e)
    case Ok(first) => ExprLoop(s, first.value, first.pos)
  }

  /** The loop of the expression rule, with `acc` the value so far and `q`
      the cursor. */
  function ExprLoop(s: string, acc: real, q: nat): (r: Outcome<Parsed>)
    requires q <= |s|
    ensures r.Ok? ==> q <= r.value.pos <= |s|
    ensures r.Ok? ==> r.value.pos == |s| || !IsAdditive(s[r.value.pos])
    ensures r.Err? ==> !r.error.UnexpectedCharacter?
    decreases |s| - q, 0
  {
    if q < |s| && IsAdditive(s[q]) then
      match Term(s, q + 1)
      case Err(e) => Err(e)
      case Ok(right) =>
        ExprLoop(s, if s[q] == '+' then acc + right.value else acc - right.value, right.pos)
    else
      Ok(Parsed(acc, q))
  }

  /** Real multiplication, named so that the solver treats the recursive
      definitions that use it as linear. */
  function Product(a: real, b: real): real {
    a * b
  }

  /** term := factor ("*" factor)*, folded from the left. */
  function Term(s: string, p: nat): (r: Outcome<Parsed>)
    ensures r.Ok? ==> p < r.value.pos <= |s|
    ensures r.Ok? ==> r.value.pos == |s| || s[r.value.pos] != '*'
    ensures r.Err? ==> !r.error.UnexpectedCharacter?
    decreases |s| - p, 2
  {
    match Factor(s, p)
    case Err(e) => Err(e)
    case Ok(first) => TermLoop(s, first.value, first.pos)
  }

  /** The loop of the term rule. */
  function TermLoop(s: string, acc: real, q: nat): (r: Outcome<Parsed>)
    requires q <= |s|
    ensures r.Ok? ==> q <= r.value.pos <= |s|
    ensures r.Ok? ==> r.value.pos == |s| || s[r.value.pos] != '*'
    ensures r.Err? ==> !r.error.UnexpectedCharacter?
    decreases |s| - q, 0
  {
    if q < |s| && s[q] == '*' then
      match Factor(s, q + 1)
      case Err(e) => Err(e)
      case Ok(right) => TermLoop(s, Product(acc, right.value), right.pos)
    else
      Ok(Parsed(acc, q))
  }

  /** factor := "-" factor | "(" expression ")" | number. */
  function Factor(s: string, p: nat): (r: Outcome<Parsed>)
    ensures r.Ok? ==> p < r.value.pos <= |s|
    ensures p >= |s| ==> r == Err(UnexpectedEnd)
    ensures r.Err? ==> !r.error.UnexpectedCharacter?
    decreases |s| - p, 1
  {
    if p >= |s| then Err(UnexpectedEnd)
    else if s[p] == '-' then
      match Factor(s, p + 1)
      case Err(e) => Err(e)
      case Ok(f) => Ok(Parsed(-f.value, f.pos))
    else if s[p] == '(' then
      match Expr(s, p + 1)
      case Err(e) => Err(e)
      case Ok(inner) =>
        if inner.pos < |s| && s[inner.pos] == ')' then Ok(Parsed(inner.value, inner.pos + 1))
        else Err(MissingClosingParenthesis)
    else
      Number(s, p)
  }

  /** number := a greedy run of digits and dots, converted to its decimal
      value. */
  function Number(s: string, p: nat): (r: Outcome<Parsed>)
    ensures r.Ok? ==> p < r.value.pos <= |s|
    ensures r.Ok? ==> forall i :: p <= i < r.value.pos ==> IsNumberChar(s[i])
    ensures r.Ok? ==> r.value.pos == |s| || !IsNumberChar(s[r.value.pos])
    ensures r == Err(ExpectedNumber(p)) <==> p >= |s| || !IsNumberChar(s[p])
    ensures r != Err(UnexpectedEnd)
    ensures r.Err? ==> !r.error.UnexpectedCharacter?
    decreases |s| - p, 0
  {
    var q := NumberEnd(s, p);
    if q == p then Err(ExpectedNumber(p))
    else
      match DecimalValue(s[p..q])
      case None => Err(MalformedNumber(s[p..q]))
      case Some(v) => Ok(Parsed(v, q))
  }

  /** The whole evaluation: strip whitespace, parse an expression from
      position 0, and reject any input left over. */
  function Evaluate(expression: string): (r: Outcome<real>)
    ensures r.Err? && r.error.UnexpectedCharacter? ==> r.error.position < |Strip(expression)|
  {
    var s := Strip(expression);
    match Expr(s, 0)
    case Err(e) => Err(e)
    case Ok(top) => if top.pos < |s| then Err(UnexpectedCharacter(top.pos)) else Ok(top.value)
  }
}
