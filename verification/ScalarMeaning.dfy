/** Which scalars are accepted, against the number grammar of RFC 8259 and the three tokens of Go's
    floats that are no numbers. */
module ScalarMeaning {
  import opened Values

  predicate AllDigits(s: string) {
    forall i :: 0 <= i < |s| ==> '0' <= s[i] <= '9'
  }

  /** int: 0, or digits that do not start with 0 (RFC 8259, section 6). */
  predicate IntegerPart(s: string) {
    AllDigits(s) && s != "" && (s[0] == '0' ==> s == "0")
  }

  predicate FractionPart(s: string) {
    s != "" ==> s[0] == '.' && s != "." && AllDigits(s[1..])
  }

  ghost predicate ExponentPart(s: string) {
    s != "" ==> exists e, sign, digits ::
      s == e + (sign + digits) && e in {"e", "E"} && sign in {"", "+", "-"} && digits != "" && AllDigits(digits)
  }

  ghost predicate FractionAndExponent(s: string) {
    exists fraction, exponent :: s == fraction + exponent && FractionPart(fraction) && ExponentPart(exponent)
  }

  ghost predicate Unsigned(s: string) {
    exists whole, rest :: s == whole + rest && IntegerPart(whole) && FractionAndExponent(rest)
  }

  /** number = [ minus ] int [ frac ] [ exp ] */
  ghost predicate JsonNumber(s: string) {
    exists sign, unsigned :: s == sign + unsigned && sign in {"", "-"} && Unsigned(unsigned)
  }

  lemma {:induction false} DigitsOf(digits: string, rest: string)
    requires AllDigits(digits) && (rest == "" || !Digit(rest[0]))
    ensures Digits(digits + rest) == |digits|
  {
    if digits == "" {
      assert digits + rest == rest;
    } else {
      DigitsOf(digits[1..], rest);
      assert (digits + rest)[1..] == digits[1..] + rest;
    }
  }

  lemma OnlyDigits(s: string)
    ensures Digits(s) == |s| <==> AllDigits(s)
  {
    if AllDigits(s) {
      DigitsOf(s, "");
      assert s + "" == s;
    }
  }

  lemma ExponentSplits(s: string) returns (e: string, sign: string, digits: string)
    requires Exponent(s) && s != ""
    ensures s == e + (sign + digits) && e in {"e", "E"} && sign in {"", "+", "-"} && digits != "" && AllDigits(digits)
  {
    var n := if |s| > 1 && (s[1] == '+' || s[1] == '-') then 2 else 1;
    OnlyDigits(s[n..]);
    e, sign, digits := [s[0]], if n == 1 then "" else [s[1]], s[n..];
  }

  lemma ExponentJoins(e: char, sign: string, digits: string)
    requires e in {'e', 'E'} && sign in {"", "+", "-"} && digits != "" && AllDigits(digits)
    ensures Exponent([e] + (sign + digits))
  {
    var s := [e] + (sign + digits);
    OnlyDigits(digits);
    assert s[1..] == sign + digits;
    if sign == "" {
      assert s[1] == digits[0];
    } else {
      assert s[1] == sign[0] && s[2..] == digits;
    }
  }

  lemma ExponentExact(s: string)
    ensures Exponent(s) <==> ExponentPart(s)
  {
    if s != "" {
      if Exponent(s) {
        var e, sign, digits := ExponentSplits(s);
      }
      forall e, sign, digits
        | s == e + (sign + digits) && e in {"e", "E"} && sign in {"", "+", "-"} && digits != "" && AllDigits(digits)
        ensures Exponent(s)
      {
        ExponentJoins(e[0], sign, digits);
        assert e == [e[0]];
      }
    }
  }

  lemma ExponentStart(s: string)
    requires ExponentPart(s)
    ensures s == "" || s[0] == 'e' || s[0] == 'E'
  {
  }

  lemma FractionJoins(fraction: string, exponent: string)
    requires FractionPart(fraction) && ExponentPart(exponent)
    ensures Fraction(fraction + exponent)
  {
    ExponentExact(exponent);
    ExponentStart(exponent);
    if fraction == "" {
      assert fraction + exponent == exponent;
    } else {
      PointJoins(fraction[1..], exponent);
      assert fraction == "." + fraction[1..];
    }
  }

  lemma PointJoins(digits: string, exponent: string)
    requires AllDigits(digits) && digits != "" && Exponent(exponent)
    requires exponent == "" || exponent[0] == 'e' || exponent[0] == 'E'
    ensures Fraction("." + digits + exponent)
  {
    var s := "." + digits + exponent;
    DigitsOf(digits, exponent);
    assert s[1..] == digits + exponent;
    assert s[1 + |digits|..] == exponent;
  }

  lemma FractionSplits(s: string) returns (fraction: string, exponent: string)
    requires Fraction(s)
    ensures s == fraction + exponent && FractionPart(fraction) && ExponentPart(exponent)
  {
    var n := if |s| > 0 && s[0] == '.' then 1 + Digits(s[1..]) else 0;
    ExponentExact(s[n..]);
    fraction, exponent := s[..n], s[n..];
  }

  lemma FractionExact(s: string)
    ensures Fraction(s) <==> FractionAndExponent(s)
  {
    if Fraction(s) {
      var fraction, exponent := FractionSplits(s);
    } else if FractionAndExponent(s) {
      var fraction, exponent :| s == fraction + exponent && FractionPart(fraction) && ExponentPart(exponent);
      FractionJoins(fraction, exponent);
    }
  }

  lemma FractionStart(s: string)
    requires FractionAndExponent(s)
    ensures s == "" || !Digit(s[0])
  {
    var fraction, exponent :| s == fraction + exponent && FractionPart(fraction) && ExponentPart(exponent);
    ExponentStart(exponent);
  }

  lemma UnsignedJoins(whole: string, rest: string)
    requires IntegerPart(whole) && FractionAndExponent(rest)
    ensures Values.Unsigned(whole + rest)
  {
    FractionStart(rest);
    FractionExact(rest);
    DigitsOf(whole, rest);
    assert (whole + rest)[|whole|..] == rest;
  }

  lemma UnsignedSplits(s: string) returns (whole: string, rest: string)
    requires Values.Unsigned(s)
    ensures s == whole + rest && IntegerPart(whole) && FractionAndExponent(rest)
  {
    var n := Digits(s);
    FractionExact(s[n..]);
    whole, rest := s[..n], s[n..];
  }

  lemma UnsignedExact(s: string)
    ensures Values.Unsigned(s) <==> Unsigned(s)
  {
    if Values.Unsigned(s) {
      var whole, rest := UnsignedSplits(s);
    } else if Unsigned(s) {
      var whole, rest :| s == whole + rest && IntegerPart(whole) && FractionAndExponent(rest);
      UnsignedJoins(whole, rest);
    }
  }

  lemma UnsignedStart(s: string)
    requires Unsigned(s)
    ensures s != "" && Digit(s[0])
  {
    var whole, rest :| s == whole + rest && IntegerPart(whole) && FractionAndExponent(rest);
  }

  lemma SignedSplits(s: string)
    requires s != ""
    ensures var n := if s[0] == '-' then 1 else 0; JsonNumber(s) <==> Unsigned(s[n..])
  {
    var n := if s[0] == '-' then 1 else 0;
    assert s == s[..n] + s[n..];
    assert s[..n] == if n == 0 then "" else "-";
    forall sign, unsigned | s == sign + unsigned && sign in {"", "-"} && Unsigned(unsigned) ensures unsigned == s[n..] {
      UnsignedStart(unsigned);
    }
  }

  /** A json.Number is accepted when it is a JSON number or empty. */
  lemma NumberExact(s: string)
    ensures ValidJsonNumber(s) <==> s == "" || JsonNumber(s)
  {
    if s != "" {
      SignedSplits(s);
      UnsignedExact(s[if s[0] == '-' then 1 else 0..]);
    }
  }

  /** What may stand in a context, a result or a proof. */
  ghost predicate SoundScalar(tid: string, s: Scalar) {
    && (s.FloatS? ==> s.token !in {"NaN", "+Inf", "-Inf"})
    && (s.StrS? && tid == "encoding/json.Number" ==> s.s == "" || JsonNumber(s.s))
  }

  /** Every float but NaN and the infinities, every json.Number that is a number, everything else. */
  lemma GoodScalarExact(tid: string, s: Scalar)
    ensures GoodScalar(tid, s) <==> SoundScalar(tid, s)
  {
    if s.StrS? {
      NumberExact(s.s);
    }
  }
}
