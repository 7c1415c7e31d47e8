/** Characters that make up a number, and the decimal-to-number conversion
    that the number rule hands its digit run to. */
module Numerals {

  datatype Option<T> = None | Some(value: T)

  /** A decimal digit. Only the ASCII digits are modelled. */
  predicate IsDigit(c: char) {
    '0' <= c <= '9'
  }

  /** A character the number rule consumes: a digit or a literal dot. */
  predicate IsNumberChar(c: char) {
    IsDigit(c) || c == '.'
  }

  predicate AllDigits(t: string) {
    forall i :: 0 <= i < |t| ==> IsDigit(t[i])
  }

  predicate AllNumberChars(t: string) {
    forall i :: 0 <= i < |t| ==> IsNumberChar(t[i])
  }

  function DigitValue(c: char): (d: nat)
    requires IsDigit(c)
    ensures d < 10
  {
    c as int - '0' as int
  }

  /** The integer that a run of digits denotes, most significant digit first. */
  function DigitsValue(d: string): nat
    requires AllDigits(d)
  {
    if d == [] then 0 else DigitsValue(d[..|d| - 1]) * 10 + DigitValue(d[|d| - 1])
  }

  function Pow10(k: nat): (r: nat)
    ensures r > 0
  {
    if k == 0 then 1 else 10 * Pow10(k - 1)
  }

  /** Index of the first dot in `t`, or `|t|` when there is none. */
  function DotIndex(t: string): (k: nat)
    ensures k <= |t|
    ensures k < |t| ==> t[k] == '.'
    ensures forall i :: 0 <= i < k ==> t[i] != '.'
  {
    if t == [] then 0 else if t[0] == '.' then 0 else 1 + DotIndex(t[1..])
  }

  /** A digit run the conversion accepts: digits, then optionally one dot
      followed by digits, with at least one digit overall ("7", "7.", ".5",
      "7.25"; not ".", nor "1.2.3"). */
  predicate WellFormedNumeral(t: string) {
    var k := DotIndex(t);
    && AllDigits(t[..k])
    && (k < |t| ==> AllDigits(t[k + 1..]))
    && |t| > (if k < |t| then 1 else 0)
  }

  /** The digits after the dot (empty when there is no dot). */
  function Fraction(t: string): string {
    var k := DotIndex(t);
    if k < |t| then t[k + 1..] else []
  }

  /** All digits of `t` with the dot taken out. */
  function DigitsWithoutDot(t: string): string {
    t[..DotIndex(t)] + Fraction(t)
  }

  /** The decimal-to-number conversion applied to a digit run: the exact
      decimal value of a well-formed run, and `None` (the conversion's
      failure) otherwise. */
  function DecimalValue(t: string): Option<real> {
    if !WellFormedNumeral(t) then None
    else
      var k := DotIndex(t);
      var whole := DigitsValue(t[..k]) as real;
      if k == |t| then Some(whole)
      else Some(whole + DigitsValue(t[k + 1..]) as real / Pow10(|t| - k - 1) as real)
  }

  /** A non-empty run without a dot converts to the integer its digits
      spell. */
  lemma IntegerNumeral(t: string)
    requires |t| > 0 && AllDigits(t)
    ensures WellFormedNumeral(t)
    ensures DecimalValue(t) == Some(DigitsValue(t) as real)
  {
    assert forall i :: 0 <= i < |t| ==> t[i] != '.';
    assert t[..|t|] == t;
  }

  lemma {:induction false} DigitsValueAppend(a: string, b: string)
    requires AllDigits(a) && AllDigits(b)
    ensures AllDigits(a + b)
    ensures DigitsValue(a + b) == DigitsValue(a) * Pow10(|b|) + DigitsValue(b)
    decreases |b|
  {
    AllDigitsAppend(a, b);
    if b == [] {
      assert a + b == a;
    } else {
      var b' := b[..|b| - 1];
      assert AllDigits(b');
      DigitsValueAppend(a, b');
      LastDigitAppend(a, b);
      var x, y, d, q := DigitsValue(a), DigitsValue(b'), DigitValue(b[|b| - 1]), Pow10(|b'|);
      assert DigitsValue(b) == y * 10 + d;
      assert Pow10(|b|) == q * 10;
      MulRearrange(x, y, d, q);
    }
  }

  lemma AllDigitsAppend(a: string, b: string)
    requires AllDigits(a) && AllDigits(b)
    ensures AllDigits(a + b)
  {
    forall i | 0 <= i < |a + b| ensures IsDigit((a + b)[i]) {
      if i < |a| { assert (a + b)[i] == a[i]; } else { assert (a + b)[i] == b[i - |a|]; }
    }
  }

  /** Appending to a non-empty `b` ends in the last digit of `b`. */
  lemma LastDigitAppend(a: string, b: string)
    requires b != [] && AllDigits(a + b) && AllDigits(a + b[..|b| - 1])
    ensures IsDigit(b[|b| - 1])
    ensures DigitsValue(a + b) == DigitsValue(a + b[..|b| - 1]) * 10 + DigitValue(b[|b| - 1])
  {
    var c := a + b;
    assert c[..|c| - 1] == a + b[..|b| - 1];
    assert c[|c| - 1] == b[|b| - 1];
  }

  lemma MulRearrange(x: nat, y: nat, d: nat, q: nat)
    ensures (x * q + y) * 10 + d == x * (q * 10) + (y * 10 + d)
  {
  }

  lemma NoDotIsAllDigits(t: string)
    requires AllNumberChars(t)
    requires '.' !in multiset(t)
    ensures AllDigits(t)
  {
    forall i | 0 <= i < |t| ensures IsDigit(t[i]) {
      assert t[i] in multiset(t);
    }
  }

  lemma AllDigitsHasNoDot(t: string)
    requires AllDigits(t)
    ensures multiset(t)['.'] == 0
  {
    assert forall i :: 0 <= i < |t| ==> t[i] != '.' by {
      forall i | 0 <= i < |t| ensures t[i] != '.' {
        assert IsDigit(t[i]);
      }
    }
    assert '.' !in t;
  }

  /** The conversion accepts a digit run exactly when it holds at most one dot
      and at least one digit: a characterisation by counting that does not
      depend on where the dot is. */
  lemma DecimalValueAcceptsIff(t: string)
    requires AllNumberChars(t)
    ensures DecimalValue(t).Some? <==> multiset(t)['.'] <= 1 && multiset(t)['.'] < |t|
  {
    var k := DotIndex(t);
    var pre := t[..k];
    assert AllNumberChars(pre) && '.' !in multiset(pre) by {
      assert forall i :: 0 <= i < |pre| ==> pre[i] == t[i];
    }
    NoDotIsAllDigits(pre);
    AllDigitsHasNoDot(pre);
    assert DecimalValue(t).Some? <==> WellFormedNumeral(t);
    if k == |t| {
      assert pre == t;
    } else {
      AcceptsAfterDot(t, k);
    }
  }

  /** The case of a run with a dot at `k`: the part after it must be all
      digits, that is, hold no further dot. */
  lemma AcceptsAfterDot(t: string, k: nat)
    requires AllNumberChars(t)
    requires k == DotIndex(t) < |t|
    requires AllDigits(t[..k]) && multiset(t[..k])['.'] == 0
    ensures WellFormedNumeral(t) <==> multiset(t)['.'] <= 1 && multiset(t)['.'] < |t|
  {
    var pre, post := t[..k], t[k + 1..];
    MultisetAround(t, k);
    assert multiset(t)['.'] == 1 + multiset(post)['.'];
    assert AllNumberChars(post) by {
      assert forall i :: 0 <= i < |post| ==> post[i] == t[k + 1 + i];
    }
    if multiset(post)['.'] == 0 {
      NoDotIsAllDigits(post);
    }
    if AllDigits(post) {
      AllDigitsHasNoDot(post);
    }
  }

  /** The characters of `t`: those before position `k`, the one at `k`,
      and those after. */
  lemma MultisetAround(t: string, k: nat)
    requires k < |t|
    ensures multiset(t) == multiset(t[..k]) + multiset{t[k]} + multiset(t[k + 1..])
  {
    assert t == t[..k] + t[k..];
    assert t[k..] == [t[k]] + t[k + 1..];
  }

  /** The value of a well-formed run is the integer spelled by all of its
      digits, scaled down by ten to the number of digits after the dot. */
  lemma DecimalValueScaled(t: string)
    requires WellFormedNumeral(t)
    ensures AllDigits(DigitsWithoutDot(t))
    ensures DecimalValue(t)
         == Some(DigitsValue(DigitsWithoutDot(t)) as real / Pow10(|Fraction(t)|) as real)
  {
    var k := DotIndex(t);
    DigitsValueAppend(t[..k], Fraction(t));
    if k == |t| {
      ScaledWithoutDot(t);
    } else {
      ScaledWithDot(t, k);
    }
  }

  lemma ScaledWithoutDot(t: string)
    requires WellFormedNumeral(t) && DotIndex(t) == |t|
    ensures DecimalValue(t)
         == Some(DigitsValue(DigitsWithoutDot(t)) as real / Pow10(|Fraction(t)|) as real)
  {
    assert t[..|t|] == t;
    calc {
      Some(DigitsValue(DigitsWithoutDot(t)) as real / Pow10(|Fraction(t)|) as real);
    == { assert DigitsWithoutDot(t) == t && |Fraction(t)| == 0; }
      Some(DigitsValue(t) as real / Pow10(0) as real);
    ==
      Some(DigitsValue(t) as real);
    == { IntegerNumeral(t); }
      DecimalValue(t);
    }
  }

  lemma ScaledWithDot(t: string, k: nat)
    requires WellFormedNumeral(t) && k == DotIndex(t) < |t|
    requires AllDigits(DigitsWithoutDot(t))
    requires DigitsValue(DigitsWithoutDot(t))
          == DigitsValue(t[..k]) * Pow10(|Fraction(t)|) + DigitsValue(Fraction(t))
    ensures DecimalValue(t)
         == Some(DigitsValue(DigitsWithoutDot(t)) as real / Pow10(|Fraction(t)|) as real)
  {
    ScaleSplit(DigitsValue(t[..k]), DigitsValue(Fraction(t)), Pow10(|Fraction(t)|));
  }

  lemma ScaleSplit(w: nat, n: nat, p: nat)
    requires p > 0
    ensures (w * p + n) as real / p as real == w as real + n as real / p as real
  {
    assert (w * p + n) as real == w as real * p as real + n as real;
  }
}
