/** The sales rule's number parsing: the decimal subset of Python's `float()`
    and the three outcomes the rule distinguishes. */
module Sales {
  import opened Strings

  /** What the sales rule can learn about a raw value. */
  datatype SalesClass = Unparseable | Negative | NonNegative

  /** An optional leading sign: whether it is `-`, and what follows it. */
  function StripSign(s: string): (r: (bool, string))
    ensures r.0 <==> |s| > 0 && s[0] == '-'
    ensures r.1 == if |s| > 0 && (s[0] == '-' || s[0] == '+') then s[1..] else s
  {
    if |s| > 0 && s[0] == '-' then (true, s[1..])
    else if |s| > 0 && s[0] == '+' then (false, s[1..])
    else (false, s)
  }

  function Pow10(n: nat): (p: nat)
    ensures p > 0
  {
    if n == 0 then 1 else 10 * Pow10(n - 1)
  }

  /** The unsigned part of a literal split at its first `.`: the whole digits and the fraction digits. */
  function SplitAtDot(body: string): (r: (string, string))
  {
    var dot := IndexOf(body, '.');
    (body[..dot], if dot < |body| then body[dot + 1..] else "")
  }

  /** The value of a decimal literal `[+-]? digits ('.' digits?)?` or `[+-]? '.' digits`,
      or None when `s` is not one. */
  function ParseDecimal(s: string): Option<real>
  {
    var (negative, body) := StripSign(s);
    var (whole, fraction) := SplitAtDot(body);
    if AllDigits(whole) && AllDigits(fraction) && |whole| + |fraction| > 0 then
      var magnitude := DigitsValue(whole) as real + DigitsValue(fraction) as real / Pow10(|fraction|) as real;
      Some(if negative then -magnitude else magnitude)
    else
      None
  }

  /** The sales rule's test: `float(value)` raising, being `< 0`, or neither. */
  function ClassifySales(s: string): SalesClass
  {
    match ParseDecimal(s)
    case None => Unparseable
    case Some(v) => if v < 0.0 then Negative else NonNegative
  }

  /** The grammar of accepted literals, stated without the parser: after an optional sign,
      either a non-empty digit string, or digits, a `.`, digits, with at least one digit. */
  predicate DecimalLiteral(s: string) {
    var body := StripSign(s).1;
    (body != [] && AllDigits(body))
    || exists d :: 0 <= d < |body| && body[d] == '.' && |body| > 1 && AllDigits(body[..d]) && AllDigits(body[d + 1..])
  }

  predicate HasNonzeroDigit(s: string) {
    exists k :: 0 <= k < |s| && '1' <= s[k] <= '9'
  }

  lemma DigitsHaveNoDot(t: string)
    requires AllDigits(t)
    ensures '.' !in t
  {
  }

  /** Every decimal literal parses. */
  lemma LiteralParses(s: string)
    requires DecimalLiteral(s)
    ensures ParseDecimal(s).Some?
  {
    var body := StripSign(s).1;
    if body != [] && AllDigits(body) {
      DigitsHaveNoDot(body);
      assert body[..|body|] == body;
      assert SplitAtDot(body) == (body, "");
    } else {
      var d :| 0 <= d < |body| && body[d] == '.' && |body| > 1 && AllDigits(body[..d]) && AllDigits(body[d + 1..]);
      DigitsHaveNoDot(body[..d]);
      IndexOfUnique(body, '.', d);
      assert SplitAtDot(body) == (body[..d], body[d + 1..]);
    }
  }

  /** Everything that parses is a decimal literal. */
  lemma ParsedIsLiteral(s: string)
    requires ParseDecimal(s).Some?
    ensures DecimalLiteral(s)
  {
    var body := StripSign(s).1;
    var dot := IndexOf(body, '.');
    if dot == |body| {
      assert body[..dot] == body;
    } else {
      assert body[dot] == '.';
    }
  }

  /** A value fails to parse exactly when it is not a decimal literal. */
  lemma UnparseableIff(s: string)
    ensures ClassifySales(s) == Unparseable <==> !DecimalLiteral(s)
  {
    if DecimalLiteral(s) {
      LiteralParses(s);
    }
    if ParseDecimal(s).Some? {
      ParsedIsLiteral(s);
    }
  }

  lemma NonzeroDigitConcat(a: string, b: string)
    ensures HasNonzeroDigit(a + b) <==> HasNonzeroDigit(a) || HasNonzeroDigit(b)
  {
    if HasNonzeroDigit(a + b) {
      var k :| 0 <= k < |a + b| && '1' <= (a + b)[k] <= '9';
      if k >= |a| {
        assert b[k - |a|] == (a + b)[k];
      }
    }
    if HasNonzeroDigit(a) {
      var k :| 0 <= k < |a| && '1' <= a[k] <= '9';
      assert (a + b)[k] == a[k];
    }
    if HasNonzeroDigit(b) {
      var k :| 0 <= k < |b| && '1' <= b[k] <= '9';
      assert (a + b)[|a| + k] == b[k];
    }
  }

  /** A digit string with no non-zero digit denotes zero. */
  lemma DigitsValueZero(t: string)
    requires AllDigits(t)
    ensures DigitsValue(t) > 0 <==> HasNonzeroDigit(t)
  {
    DigitsValuePositive(t);
    if DigitsValue(t) > 0 {
      var k :| 0 <= k < |t| && t[k] != '0';
      assert IsDigit(t[k]);
    }
  }

  /** The unsigned part of a literal is its whole digits, maybe a dot, and its fraction digits. */
  lemma BodyPieces(body: string)
    ensures HasNonzeroDigit(body) <==> HasNonzeroDigit(SplitAtDot(body).0) || HasNonzeroDigit(SplitAtDot(body).1)
  {
    var dot := IndexOf(body, '.');
    var whole := body[..dot];
    if dot < |body| {
      var fraction := body[dot + 1..];
      assert body == (whole + ".") + fraction;
      NonzeroDigitConcat(whole + ".", fraction);
      NonzeroDigitConcat(whole, ".");
    } else {
      assert body == whole;
    }
  }

  /** A sign character is not a non-zero digit. */
  lemma SignPieces(s: string)
    ensures HasNonzeroDigit(s) <==> HasNonzeroDigit(StripSign(s).1)
  {
    if |s| > 0 && (s[0] == '-' || s[0] == '+') {
      assert s == [s[0]] + s[1..];
      NonzeroDigitConcat([s[0]], s[1..]);
    }
  }

  /** A magnitude `w + f / p` is never negative, and positive when either part is. */
  lemma MagnitudeSign(w: nat, f: nat, p: nat)
    requires p > 0
    ensures w as real + f as real / p as real >= 0.0
    ensures w as real + f as real / p as real > 0.0 <==> w > 0 || f > 0
  {
    assert f as real / p as real >= 0.0;
    assert f > 0 ==> f as real / p as real > 0.0;
    assert f == 0 ==> f as real / p as real == 0.0;
  }

  /** A parsed value is below zero exactly when it carries `-` and a non-zero digit. */
  lemma NegativeValueIff(s: string)
    requires ParseDecimal(s).Some?
    ensures ParseDecimal(s).value < 0.0 <==> s[0] == '-' && HasNonzeroDigit(s)
  {
    var body := StripSign(s).1;
    var whole := SplitAtDot(body).0;
    var fraction := SplitAtDot(body).1;
    SignPieces(s);
    BodyPieces(body);
    DigitsValueZero(whole);
    DigitsValueZero(fraction);
    MagnitudeSign(DigitsValue(whole), DigitsValue(fraction), Pow10(|fraction|));
  }

  /** A value is negative exactly when it is a decimal literal written with a leading `-`
      and at least one non-zero digit; so "-0" and "-0.00" are not negative. */
  lemma NegativeIff(s: string)
    ensures ClassifySales(s) == Negative <==> DecimalLiteral(s) && s[0] == '-' && HasNonzeroDigit(s)
  {
    UnparseableIff(s);
    if ParseDecimal(s).Some? {
      NegativeValueIff(s);
    }
  }

  /** A literal that parses and is not negative is what the rule accepts. */
  lemma NonNegativeIff(s: string)
    ensures ClassifySales(s) == NonNegative <==> DecimalLiteral(s) && !(s[0] == '-' && HasNonzeroDigit(s))
  {
    UnparseableIff(s);
    NegativeIff(s);
  }

  /** A plain digit string parses to the number it denotes. */
  lemma ParseDigits(s: string)
    requires s != [] && AllDigits(s)
    ensures ParseDecimal(s) == Some(DigitsValue(s) as real)
  {
    DigitsHaveNoDot(s);
    assert s[..|s|] == s;
    assert SplitAtDot(s) == (s, "");
    assert StripSign(s) == (false, s);
  }

  /** Python writes a non-negative int so that `float()` reads the same number back. */
  lemma ParseNatToString(n: nat)
    ensures ParseDecimal(NatToString(n)) == Some(n as real)
    ensures ClassifySales(NatToString(n)) == NonNegative
  {
    NatToStringRoundTrip(n);
    ParseDigits(NatToString(n));
  }

  /** Prefixing `-` to a positive integer literal gives a negative value. */
  lemma ParseNegatedNat(n: nat)
    requires n > 0
    ensures ParseDecimal("-" + NatToString(n)) == Some(-(n as real))
    ensures ClassifySales("-" + NatToString(n)) == Negative
  {
    var s := NatToString(n);
    ParseNatToString(n);
    assert StripSign("-" + s) == (true, s);
    assert StripSign(s).1 == s;
  }

  /** Values the sales rule reports as "Invalid sales". */
  lemma LettersUnparseable()
    ensures ClassifySales("abc") == Unparseable
  {
    assert SplitAtDot("abc").0 == "abc";
    assert !IsDigit("abc"[0]);
  }

  lemma DotUnparseable()
    ensures ClassifySales(".") == Unparseable
  {
    assert IndexOf(".", '.') == 0;
    assert "."[..0] == "" && "."[1..] == "";
    assert SplitAtDot(".") == ("", "");
  }

  lemma SignUnparseable()
    ensures ClassifySales("-") == Unparseable
  {
    assert StripSign("-").1 == "";
    assert SplitAtDot("") == ("", "");
  }

  lemma TwoDotsUnparseable()
    ensures ClassifySales("1.2.3") == Unparseable
  {
    assert IndexOf("1.2.3", '.') == 1;
    assert SplitAtDot("1.2.3").1 == "2.3";
    assert !IsDigit("2.3"[1]);
  }

  lemma OopsUnparseable()
    ensures ClassifySales("oops") == Unparseable
  {
    assert SplitAtDot("oops").0 == "oops";
    assert !IsDigit("oops"[0]);
  }

  lemma UnparseableExamples()
    ensures ClassifySales("abc") == Unparseable
    ensures ClassifySales("") == Unparseable
    ensures ClassifySales(".") == Unparseable
    ensures ClassifySales("-") == Unparseable
    ensures ClassifySales("1.2.3") == Unparseable
    ensures ClassifySales("oops") == Unparseable
  {
    LettersUnparseable();
    EmptyIsUnparseable();
    DotUnparseable();
    SignUnparseable();
    TwoDotsUnparseable();
    OopsUnparseable();
  }


  /** A literal with a decimal point at `d`, digits on both sides and an optional sign. */
  lemma PointLiteral(s: string, sign: string, d: nat)
    requires sign == "" || sign == "-" || sign == "+"
    requires |sign| <= |s| && s[..|sign|] == sign
    requires var body := s[|sign|..]; |body| > 1 && d < |body| && body[d] == '.'
    requires var body := s[|sign|..]; AllDigits(body[..d]) && AllDigits(body[d + 1..])
    requires sign == "" ==> |s| > 0 && s[0] != '-' && s[0] != '+'
    ensures DecimalLiteral(s)
  {
    var body := s[|sign|..];
    assert StripSign(s).1 == body;
  }

  lemma NegativeDecimalExample()
    ensures ClassifySales("-5.0") == Negative
  {
    PointLiteral("-5.0", "-", 1);
    NegativeIff("-5.0");
    assert "-5.0"[1] == '5';
  }

  lemma NegativeZeroExample()
    ensures ClassifySales("-0") == NonNegative
  {
    NegativeIff("-0");
    assert DecimalLiteral("-0") by { assert StripSign("-0").1 == "0"; }
    assert !HasNonzeroDigit("-0");
  }

  lemma NegativeZeroDecimalExample()
    ensures ClassifySales("-0.00") == NonNegative
  {
    PointLiteral("-0.00", "-", 1);
    NegativeIff("-0.00");
    assert !HasNonzeroDigit("-0.00");
  }

  lemma FractionExample()
    ensures ClassifySales("120.50") == NonNegative
  {
    PointLiteral("120.50", "", 3);
    NonNegativeIff("120.50");
  }

  lemma LeadingPointExample()
    ensures ClassifySales(".5") == NonNegative
  {
    PointLiteral(".5", "", 0);
    NonNegativeIff(".5");
  }

  lemma TrailingPointExample()
    ensures ClassifySales("5.") == NonNegative
  {
    PointLiteral("5.", "", 1);
    NonNegativeIff("5.");
  }

  /** The default a missing sales field is read as passes. */
  lemma ZeroIsNonNegative()
    ensures ClassifySales("0") == NonNegative
  {
    ParseNatToString(0);
    assert NatToString(0) == "0";
  }

  /** An empty sales field does not parse. */
  lemma EmptyIsUnparseable()
    ensures ClassifySales("") == Unparseable
  {
    assert SplitAtDot("") == ("", "");
  }

  lemma IntegerExamples()
    ensures ClassifySales("-5") == Negative
    ensures ClassifySales("0") == NonNegative
    ensures ClassifySales("100") == NonNegative
  {
    assert "-5" == "-" + NatToString(5);
    ParseNegatedNat(5);
    ParseNatToString(0);
    assert NatToString(0) == "0";
    ParseNatToString(100);
    assert NatToString(100) == "100";
  }

  lemma PlusSignExample()
    ensures ClassifySales("+7") == NonNegative
  {
    NonNegativeIff("+7");
    assert DecimalLiteral("+7") by { assert StripSign("+7").1 == "7"; }
  }

  /** Values the sales rule reports as "Negative sales", negative zeros that it does not,
      and values it accepts. */
  lemma ParsedExamples()
    ensures ClassifySales("-5.0") == Negative
    ensures ClassifySales("-5") == Negative
    ensures ClassifySales("-0") == NonNegative
    ensures ClassifySales("-0.00") == NonNegative
    ensures ClassifySales("0") == NonNegative
    ensures ClassifySales("100") == NonNegative
    ensures ClassifySales("+7") == NonNegative
    ensures ClassifySales("120.50") == NonNegative
    ensures ClassifySales(".5") == NonNegative
    ensures ClassifySales("5.") == NonNegative
  {
    NegativeDecimalExample();
    IntegerExamples();
    NegativeZeroExample();
    NegativeZeroDecimalExample();
    PlusSignExample();
    FractionExample();
    LeadingPointExample();
    TrailingPointExample();
  }
}
