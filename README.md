# Calculator: a verified model of a recursive-descent expression evaluator

`Calculator.evaluateMathExpression` takes a string and evaluates it as an
arithmetic expression. It removes all whitespace first. Then four mutually
recursive routines parse the rest, one per precedence level:

- `parseExpression` handles `+` and `-` and folds from the left.
- `parseTerm` handles `*` and folds from the left.
- `parseFactor` handles unary `-`, parentheses and numbers.
- `parseNumber` takes a greedy run of digits and dots and converts it.

Each routine hands back a small mutable `Result` record (value, position).
Its caller updates the record in place as its loop advances. Input left over
after the top-level expression is an error. So is a missing factor, a missing
`)`, a missing number, or a digit run that the conversion rejects.

The model has two layers.

- **Specification.** Module `Grammar` states each routine as a pure function
  of the input and a cursor position: `Expr`, `ExprLoop`, `Term`,
  `TermLoop`, `Factor`, `Number` and `Evaluate`. It returns
  `Ok(Parsed(value, pos))` or `Err(error)`, and the `Error` datatype names
  each exception the source throws. Module `Numerals` models the
  decimal-to-number conversion.
- **Implementation.** Module `Calculator` has the routines as imperative
  methods. They use `while` loops that update the fields of a heap-allocated
  `Result` class, as the source does. Each method is proved to return exactly
  what its specification function denotes.

On top of that:

- `GrammarProperties` proves the cursor, error and whitespace properties.
- `Syntax`, `Layout` and `RoundTrip` prove a round trip. Grammar-shaped
  syntax trees have values and texts, and the evaluator gives the text of
  every well-formed tree that tree's value, for any whitespace around or
  inside the text.
- `Precedence` lifts the round trip to plain arithmetic trees. Their
  mathematical value is an independent reference. A conversion writes them
  with the fewest parentheses that precedence and left associativity need.
  The evaluator gives every tree written this way its mathematical value.
- `Completeness` proves the converse of the round trip. Whenever the
  evaluator returns a value, the whitespace-free input is the text of a
  well-formed syntax tree with that value. Every other input fails.
- `Examples` works through concrete inputs.

Whitespace is removed before parsing, so `"1 2"` becomes `"12"` and
evaluates to 12 (`Examples.SpaceInsideNumber`).

## Model

| member | source | states |
|---|---|---|
| Calculator.EvaluateMathExpression | Calculator.java:6-19 | the outcome is exactly `Evaluate(expression)`: whitespace stripped, an expression parsed from 0, `UnexpectedCharacter(pos)` when it stops before the end, otherwise its value |
| Calculator.ParseExpression | Calculator.java:23-47 | returns a fresh `Result` whose fields are `Expr(s, p)`; the loop keeps "the rest of the fold from the current record gives the routine's result"; errors of the inner calls propagate |
| Calculator.ParseTerm | Calculator.java:51-70 | returns a fresh `Result` whose fields are `Term(s, p)`, the left fold of `*` over factors; errors propagate |
| Calculator.ParseFactor | Calculator.java:74-105 | returns a fresh `Result` whose fields are `Factor(s, p)`: unexpected end, negating the inner record in place, the parenthesis check with `position++`, or the number routine |
| Calculator.ParseNumber | Calculator.java:109-129 | the builder loop collects exactly the run of digits and dots; the outcome is `Number(s, p)`: a fresh record after the run, `ExpectedNumber` with the unchanged position for an empty run, or the conversion's rejection |
| Calculator.Result.constructor | Calculator.java:137-140 | the record holds the given value and position |
| Grammar.IsWhitespace | Calculator.java:8 | no contract of its own: the characters `\s` matches; `StripRemovesWhitespace` and `StripKeepsOthers` state what removing them does |
| Grammar.Strip | Calculator.java:8 | no contract of its own: the `replaceAll` that removes whitespace; its properties are carried by `StripRemovesWhitespace`, `StripKeepsOthers`, `StripWithoutWhitespace`, `StripAppend` and `StripIdempotent` |
| Grammar.Evaluate | Calculator.java:6-19 | a reported leftover position lies inside the whitespace-free input; `EvaluateSucceedsIff`, `EvaluateTrailing`, `EvaluateIgnoresWhitespace` and `Completeness.EvaluateIffTree` carry the rest |
| Numerals.IsDigit | Calculator.java:116 | no contract of its own: the digit test of the scan, for ASCII digits; `Grammar.NumberEnd` and `Grammar.Number` state what the scan does with it |
| Numerals.DecimalValue | Calculator.java:128 | no contract of its own: `Double.parseDouble` on a digit run; `DecimalValueAcceptsIff`, `DecimalValueScaled` and `IntegerNumeral` carry its properties |
| Grammar.NumberEnd | Calculator.java:113-122 | the greedy scan started within the input stays within it, stops at the first position that does not hold a digit or dot, and every position before it holds one |
| Grammar.Expr | Calculator.java:23-47 | on success the cursor strictly advances, stays within the input, and stops at the end or at a character that is neither `+` nor `-`; it never reports trailing input |
| Grammar.ExprLoop | Calculator.java:26-44 | the loop never moves the cursor backwards or past the end, and exits only at the end or at a non-additive character |
| Grammar.Term | Calculator.java:51-70 | on success the cursor strictly advances within the input and stops at the end or at a character other than `*` |
| Grammar.TermLoop | Calculator.java:54-67 | the loop never moves the cursor backwards or past the end, and exits only at the end or at a character other than `*` |
| Grammar.Factor | Calculator.java:74-105 | on success the cursor strictly advances within the input; at or past the end the outcome is `UnexpectedEnd` |
| Grammar.Number | Calculator.java:109-129 | on success the cursor strictly advances, every consumed character is a digit or dot and the next is not; `ExpectedNumber(p)` exactly when `p` is at the end or not at a digit or dot |
| Numerals.DecimalValueAcceptsIff | Calculator.java:128 | the conversion accepts a digit run exactly when it holds at most one dot and at least one digit |
| Numerals.DecimalValueScaled | Calculator.java:128 | an accepted run's value is the integer of all its digits divided by ten to the number of digits after the dot |
| Numerals.IntegerNumeral | Calculator.java:128 | a non-empty run without a dot is accepted and converts to the integer its digits spell |
| GrammarProperties.NumberEndAt | Calculator.java:113-122 | the scan from `p` ends exactly at `q` when `[p, q)` holds digits and dots and `q` does not |
| GrammarProperties.NumberConvertsRun | Calculator.java:109-129 | the number routine converts exactly the maximal run: the run's value and the position after it, or `MalformedNumber(run)` |
| GrammarProperties.NumberValue | Calculator.java:124-128 | a successful number consumed a non-empty run whose conversion gave its value |
| GrammarProperties.FactorNegation | Calculator.java:82-87 | at `-`, the factor succeeds exactly when the factor after it does, with the negated value and the same position; errors pass through |
| GrammarProperties.DoubleNegation | Calculator.java:82-87 | `--x` gives the outcome of `x` |
| GrammarProperties.ParenthesisCloses | Calculator.java:90-97 | a successful `(` factor has the inner expression's value and ends just after a `)` |
| GrammarProperties.ParenthesisMissing | Calculator.java:94-100 | an inner expression stopping at the end or at a character other than `)` makes the factor fail with `MissingClosingParenthesis` |
| GrammarProperties.EvaluateSucceedsIff | Calculator.java:11-18 | evaluation gives `v` exactly when the expression from 0 of the stripped input gives `v` and consumes all of it |
| GrammarProperties.EvaluateTrailing | Calculator.java:11-16 | `UnexpectedCharacter(q)` exactly when the top-level expression stopped at `q` before the end; the character there is not `+`, `-` or `*` |
| GrammarProperties.TermStopsWithExpr | Calculator.java:23-70 | where an expression stops, the character is not `*` |
| GrammarProperties.ExprLoopStop | Calculator.java:26-44 | the expression loop, entered where a term stopped, exits where a term stopped |
| GrammarProperties.StripRemovesWhitespace | Calculator.java:8 | the stripped input holds no whitespace |
| GrammarProperties.StripKeepsOthers | Calculator.java:8 | stripping keeps every other character as often as it occurs |
| GrammarProperties.StripWithoutWhitespace | Calculator.java:8 | input without whitespace is left unchanged |
| GrammarProperties.StripAppend | Calculator.java:8 | stripping distributes over concatenation |
| GrammarProperties.StripIdempotent | Calculator.java:8 | stripping twice is stripping once |
| GrammarProperties.EvaluateIgnoresWhitespace | Calculator.java:6-11 | evaluating the input and evaluating it without whitespace give the same outcome |
| RoundTrip.NumeralStep | Calculator.java:109-129 | a well-formed numeral followed by a non-number character is parsed as a factor with its decimal value, ending right after it |
| RoundTrip.NegatedTail | Calculator.java:82-87 | `-` followed by a laid-out factor is parsed as the negated value, ending where the factor ends |
| RoundTrip.GroupTail | Calculator.java:90-97 | `(`, a laid-out expression and `)` are parsed as the expression's value, ending after the `)` |
| RoundTrip.FactorParses | Calculator.java:74-105 | a factor tree laid out at `p` is parsed to its value, ending right after it |
| RoundTrip.TimesTail | Calculator.java:57-62 | the term loop at `*` and a laid-out factor multiplies the accumulated value by the factor's and continues after it |
| RoundTrip.TermParses | Calculator.java:51-70 | a term tree laid out at `p` is parsed to its value, and the loop continues right after it |
| RoundTrip.TimesParses | Calculator.java:51-70 | the same for a product: the left operand's value times the right operand's |
| RoundTrip.PlusTail | Calculator.java:29-39 | the expression loop at `+` and a laid-out term adds the term's value and continues after it |
| RoundTrip.MinusTail | Calculator.java:29-39 | the expression loop at `-` and a laid-out term subtracts the term's value and continues after it |
| RoundTrip.ExprParses | Calculator.java:23-47 | an expression tree laid out at `p` is parsed to its value, and the loop continues right after it |
| RoundTrip.PlusParses | Calculator.java:23-47 | the same for a sum, folded from the left |
| RoundTrip.MinusParses | Calculator.java:23-47 | the same for a difference, folded from the left |
| RoundTrip.EvaluatesText | Calculator.java:6-19 | every input whose whitespace-free form is a well-formed tree's text evaluates to the tree's value |
| RoundTrip.EvaluatesOwnText | Calculator.java:6-19 | a well-formed tree's own text evaluates to its value |
| Completeness.FactorBuilt | Calculator.java:74-105 | a successful factor parse from `p` is a factor tree laid out at `p`, as wide as the parse consumed, with the parsed value |
| Completeness.TermBuilt | Calculator.java:51-70 | a successful term parse is a term tree laid out where it started, with the parsed value |
| Completeness.TermLoopBuilt | Calculator.java:54-67 | each round of the term loop extends the tree so far by one product |
| Completeness.ExprBuilt | Calculator.java:23-47 | a successful expression parse is an expression tree laid out where it started, with the parsed value |
| Completeness.ExprLoopBuilt | Calculator.java:26-44 | each round of the expression loop extends the tree so far by one sum or difference |
| Completeness.ExprLaidText | Calculator.java:23-105 | a tree laid out at `p` is well formed and its text is found at `p` |
| Completeness.EvaluateOnlyTrees | Calculator.java:6-19 | whenever evaluation returns `v`, the whitespace-free input is the text of a well-formed tree with value `v` |
| Completeness.EvaluateIffTree | Calculator.java:6-19 | evaluation returns `v` exactly when the whitespace-free input is the text of a well-formed tree with value `v` |
| Precedence.ExprAstInverse | Calculator.java:23-105 | converting an arithmetic tree to the grammar's three levels and forgetting the levels again gives back the tree |
| Precedence.ToExprFaithful | Calculator.java:23-105 | the conversion to the grammar keeps the mathematical value and keeps well-formedness in both directions |
| Precedence.EvaluatesPrinted | Calculator.java:6-129 | an input whose whitespace-free form is a printed arithmetic tree evaluates to the tree's mathematical value: `*` before `+`/`-`, left associativity, unary minus, grouping |
| Precedence.EvaluatePrint | Calculator.java:6-129 | the printed text of every well-formed arithmetic tree evaluates to its mathematical value |
| Examples.MultiplicationFirst | Calculator.java:23-70 | `"1 + 2 * 3"` evaluates to 7 |
| Examples.SubtractionFromTheLeft | Calculator.java:26-44 | `"8-3-2"` evaluates to 3 |
| Examples.Parenthesised | Calculator.java:90-101 | `"(1+2)*3"` evaluates to 9 |
| Examples.NegatedGroup | Calculator.java:82-101 | `"-(2+3)"` evaluates to -5 |
| Examples.NegatedTwice | Calculator.java:82-87 | `"--5"` evaluates to 5 |
| Examples.DecimalOperand | Calculator.java:128 | `"1.5*2"` evaluates to 3 |
| Examples.SpaceInsideNumber | Calculator.java:8 | `"1 2"` evaluates to 12 |
| Examples.DanglingOperator | Calculator.java:75-77 | `"1+"` fails with an unexpected end |
| Examples.EmptyInput | Calculator.java:75-77 | `""` fails with an unexpected end |
| Examples.UnclosedParenthesis | Calculator.java:94-100 | `"(1+2"` fails with a missing closing parenthesis |
| Examples.OperatorWhereNumberExpected | Calculator.java:124-126 | `"1+*2"` fails with a number expected at position 2 |
| Examples.TrailingInput | Calculator.java:14-16 | `"1)2"` fails with an unexpected character at position 1 |
| Examples.TwoDots | Calculator.java:128 | `"1.2.3"` is consumed whole and rejected by the conversion |

## Left out

- Floating point: values are exact `real`s. The source computes with `double`, so its `+=`, `-=`, `*=` and the conversion round, and large or long inputs can differ from the exact value. Multiplication is the named function `Grammar.Product`.
- `Double.parseDouble` is a library conversion. It is modelled as the exact decimal value of a run of digits with at most one dot and at least one digit. Any other run (`"."`, `"1.2.3"`) becomes `MalformedNumber(run)`. In the source that is a `NumberFormatException`, a kind of `IllegalArgumentException`.
- `Character.isDigit` also accepts non-ASCII digits. The model accepts only `'0'..'9'`. In the source, a run with a non-ASCII digit is consumed and then rejected by the conversion; in the model the run stops before that digit.
- The `\s+` regular expression is modelled as removing space, tab, line feed, vertical tab, form feed and carriage return, the characters Java's `\s` matches by default.
- Exceptions are modelled as the `Error` datatype with its positions. The message texts are not modelled. Positions refer to the whitespace-free input, as in the source.
- Stack exhaustion on deeply nested input, and `int` overflow of positions on inputs longer than 2^31 characters, are runtime limits and are not modelled.
- The syntax and arithmetic trees give a numeral the conversion rejects the value 0. Every theorem about them requires well-formed trees, so this value is never used.
