/** Worked inputs: what the calculator gives for a few expressions and
    which error it reports for a few malformed ones. */
module Examples {
  import opened Numerals
  import opened Grammar
  import opened GrammarProperties
  import opened Syntax
  import opened Layout
  import opened RoundTrip
  import opened Precedence

  /** "*" binds tighter than "+", and whitespace is ignored. */
  lemma MultiplicationFirst()
    ensures Evaluate("1 + 2 * 3") == Ok(7.0)
  {
    var e := Add(Num("1"), Mul(Num("2"), Num("3")));
    IntegerNumeral("1");
    IntegerNumeral("2");
    IntegerNumeral("3");
    assert Eval(e) == 7.0;
    assert Print(e) == "1+2*3";
    SpacesDropped();
    EvaluatesPrinted(e, "1 + 2 * 3");
  }

  lemma SpacesDropped()
    ensures Strip("1 + 2 * 3") == "1+2*3"
  {
    assert "1 + 2 * 3" == "1 +" + " 2" + " * 3";
    StripAppend("1 +" + " 2", " * 3");
    StripAppend("1 +", " 2");
  }

  /** Subtraction associates to the left. */
  lemma SubtractionFromTheLeft()
    ensures Evaluate("8-3-2") == Ok(3.0)
  {
    var e := Sub(Sub(Num("8"), Num("3")), Num("2"));
    IntegerNumeral("8");
    IntegerNumeral("3");
    IntegerNumeral("2");
    assert Eval(e) == 3.0;
    assert Print(e) == "8-3-2";
    EvaluatePrint(e);
  }

  /** Parentheses override precedence. */
  lemma Parenthesised()
    ensures Evaluate("(1+2)*3") == Ok(9.0)
  {
    var e := Mul(Add(Num("1"), Num("2")), Num("3"));
    IntegerNumeral("1");
    IntegerNumeral("2");
    IntegerNumeral("3");
    assert Eval(e) == 9.0;
    assert Print(e) == "(1+2)*3";
    EvaluatePrint(e);
  }

  /** A unary minus applies to the factor after it. */
  lemma NegatedGroup()
    ensures Evaluate("-(2+3)") == Ok(-5.0)
  {
    var e := Neg(Add(Num("2"), Num("3")));
    IntegerNumeral("2");
    IntegerNumeral("3");
    assert Eval(e) == -5.0;
    assert Print(e) == "-(2+3)";
    EvaluatePrint(e);
  }

  lemma NegatedTwice()
    ensures Evaluate("--5") == Ok(5.0)
  {
    var e := Neg(Neg(Num("5")));
    IntegerNumeral("5");
    assert Eval(e) == 5.0;
    assert Print(e) == "--5";
    EvaluatePrint(e);
  }

  lemma DecimalOperand()
    ensures Evaluate("1.5*2") == Ok(3.0)
  {
    var e := Mul(Num("1.5"), Num("2"));
    OneAndAHalf();
    IntegerNumeral("2");
    assert Eval(e) == 3.0;
    assert Print(e) == "1.5*2";
    EvaluatePrint(e);
  }

  lemma OneAndAHalf()
    ensures WellFormedNumeral("1.5") && DecimalValue("1.5") == Some(1.5)
  {
    var t := "1.5";
    assert DotIndex(t) == 1 by {
      assert t[1..] == ".5";
    }
    assert t[..1] == "1" && t[2..] == "5";
  }

  /** Whitespace is removed before anything else, so digits it separated
      join into one number. */
  lemma SpaceInsideNumber()
    ensures Evaluate("1 2") == Ok(12.0)
  {
    var e := Num("12");
    IntegerNumeral("12");
    assert DigitsValue("12") == 12 by {
      assert "12"[..1] == "1";
    }
    assert Strip("1 2") == "12" == Print(e);
    EvaluatesPrinted(e, "1 2");
  }

  /** A factor is missing at the end of the input. */
  lemma DanglingOperator()
    ensures Evaluate("1+") == Err(UnexpectedEnd)
  {
  }

  lemma EmptyInput()
    ensures Evaluate("") == Err(UnexpectedEnd)
  {
  }

  lemma UnclosedParenthesis()
    ensures Evaluate("(1+2") == Err(MissingClosingParenthesis)
  {
    var s := "(1+2";
    InsideUnclosed();
    assert Factor(s, 0) == Err(MissingClosingParenthesis);
    assert Term(s, 0) == Err(MissingClosingParenthesis);
    assert Expr(s, 0) == Err(MissingClosingParenthesis);
    StripWithoutWhitespace(s);
  }

  /** The expression after the "(" runs to the end of the input. */
  lemma InsideUnclosed()
    ensures Expr("(1+2", 1) == Ok(Parsed(3.0, 4))
  {
    var s := "(1+2";
    var e := Plus(OfTerm(OfFactor(Numeral("1"))), OfFactor(Numeral("2")));
    IntegerNumeral("1");
    IntegerNumeral("2");
    assert ExprValue(e) == 3.0;
    assert s[1..4] == ExprText(e);
    ExprTextLaid(e, s, 1);
    ExprParses(e, s, 1);
  }

  /** Position 2 of "1+*2" holds "*", which cannot start a number. */
  lemma OperatorWhereNumberExpected()
    ensures Evaluate("1+*2") == Err(ExpectedNumber(2))
  {
    var s := "1+*2";
    LeadingOne(s);
    assert Factor(s, 2) == Err(ExpectedNumber(2));
    assert Term(s, 2) == Err(ExpectedNumber(2));
    assert ExprLoop(s, 1.0, 1) == Err(ExpectedNumber(2));
    StripWithoutWhitespace(s);
  }

  /** The expression "1" stops at the ")" at position 1. */
  lemma TrailingInput()
    ensures Evaluate("1)2") == Err(UnexpectedCharacter(1))
  {
    var s := "1)2";
    LeadingOne(s);
    assert ExprLoop(s, 1.0, 1) == Ok(Parsed(1.0, 1));
    StripWithoutWhitespace(s);
  }

  /** An input that starts with the digit 1 followed by a character that
      neither continues the number nor multiplies starts with the term 1. */
  lemma LeadingOne(s: string)
    requires |s| > 1 && s[0] == '1' && !IsNumberChar(s[1]) && s[1] != '*'
    ensures Term(s, 0) == Ok(Parsed(1.0, 1))
  {
    IntegerNumeral("1");
    assert DigitsValue("1") == 1 by {
      assert "1"[..0] == [];
    }
    NumberConvertsRun(s, 0, 1);
    assert s[0..1] == "1";
    assert Factor(s, 0) == Ok(Parsed(1.0, 1));
  }

  /** A run with two dots is taken whole and rejected by the conversion. */
  lemma TwoDots()
    ensures Evaluate("1.2.3") == Err(MalformedNumber("1.2.3"))
  {
    var s := "1.2.3";
    TwoDotsRejected();
    NumberConvertsRun(s, 0, 5);
    assert s[0..5] == s;
    assert Factor(s, 0) == Err(MalformedNumber(s));
    assert Term(s, 0) == Err(MalformedNumber(s));
    assert Expr(s, 0) == Err(MalformedNumber(s));
    StripWithoutWhitespace(s);
  }

  lemma TwoDotsRejected()
    ensures DecimalValue("1.2.3") == None
  {
    var s := "1.2.3";
    assert DotIndex(s) == 1 by {
      assert s[1..] == ".2.3";
    }
    assert s[2..] == "2.3" && !IsDigit(s[2..][1]);
  }
}
