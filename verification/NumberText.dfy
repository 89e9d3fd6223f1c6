/** JSON number literals, the decimal numbers they denote, and the binary64 numbers these round to. */
module NumberText {
  import opened ByteText

  // ---- Literals (section 6 of RFC 8259) ----

  datatype Exponent = Exponent(marker: char, sign: Bytes, digits: Bytes)

  datatype Literal = Literal(negative: bool, whole: Bytes, fraction: Option<Bytes>, exponent: Option<Exponent>)

  predicate IsDigit(c: char) { '0' <= c <= '9' }

  predicate AllDigits(s: Bytes) { forall i :: 0 <= i < |s| ==> IsDigit(s[i]) }

  predicate WellformedLiteral(l: Literal) {
    && l.whole != "" && AllDigits(l.whole) && (l.whole[0] == '0' ==> |l.whole| == 1)
    && (l.fraction.Some? ==> l.fraction.value != "" && AllDigits(l.fraction.value))
    && (l.exponent.Some? ==>
          var e := l.exponent.value;
          e.marker in "eE" && e.sign in ["", "+", "-"] && e.digits != "" && AllDigits(e.digits))
  }

  function Mantissa(l: Literal): Bytes {
    (if l.negative then "-" else "") + l.whole + (if l.fraction.Some? then "." + l.fraction.value else "")
  }

  function Render(l: Literal): Bytes {
    Mantissa(l) + match l.exponent
    case None => ""
    case Some(e) => [e.marker] + e.sign + e.digits
  }

  // ---- Values ----

  function Digits(s: Bytes): nat {
    if s == "" || !IsDigit(s[|s| - 1]) then 0
    else 10 * Digits(s[..|s| - 1]) + (s[|s| - 1] as int - '0' as int)
  }

  /** base ^ e, for a negative exponent too. */
  function Power(base: real, e: int): real
    requires base > 0.0
    ensures Power(base, e) > 0.0
    decreases if e < 0 then -e else e
  {
    if e == 0 then 1.0 else if e > 0 then base * Power(base, e - 1) else Power(base, e + 1) / base
  }

  function Scale(l: Literal): int {
    var e := match l.exponent
      case None => 0
      case Some(e) => if e.sign == "-" then -(Digits(e.digits) as int) else Digits(e.digits);
    e - if l.fraction.Some? then |l.fraction.value| else 0
  }

  function AllDigitsOf(l: Literal): Bytes {
    l.whole + if l.fraction.Some? then l.fraction.value else ""
  }

  function Significand(l: Literal): int {
    var digits: int := Digits(AllDigitsOf(l));
    if l.negative then -digits else digits
  }

  function Value(l: Literal): real {
    Significand(l) as real * Power(10.0, Scale(l))
  }

  /** -12.5e+1 is -125, and 12e-1 is 1.2. */
  lemma {:induction false} ValueSamples()
    ensures Value(Literal(true, "12", Some("5"), Some(Exponent('e', "+", "1")))) == -125.0
    ensures Value(Literal(false, "12", None, Some(Exponent('E', "-", "1")))) == 1.2
  {
    DigitsOfTwo('1', '2');
    assert Digits("12" + "5") == 125 by { assert ("12" + "5")[..2] == "12"; }
    assert Digits("1") == 1 by { assert "1"[..0] == ""; }
    assert Power(10.0, 0) == 1.0 && Power(10.0, -1) == Power(10.0, 0) / 10.0;
  }

  lemma DigitsOfTwo(a: char, b: char)
    requires IsDigit(a) && IsDigit(b)
    ensures Digits([a, b]) == 10 * (a as int - '0' as int) + (b as int - '0' as int)
  {
    var one, two: Bytes := [a], [a, b];
    assert one[..0] == "" && Digits(one) == a as int - '0' as int;
    assert two[..1] == one;
  }

  // ---- Is the literal zero? ----

  /** Whether the text before any exponent has no digit but zero. */
  function ZeroText(raw: Bytes): bool {
    if raw == "" || raw[0] in "eE" then true
    else if '1' <= raw[0] <= '9' then false
    else ZeroText(raw[1..])
  }

  method IsZeroJSONNumber(raw: Bytes) returns (zero: bool)
    ensures zero == ZeroText(raw)
  {
    for i := 0 to |raw|
      invariant ZeroText(raw) == ZeroText(raw[i..])
    {
      assert raw[i..][0] == raw[i] && raw[i..][1..] == raw[i + 1..];
      if raw[i] == 'e' || raw[i] == 'E' { return true; }
      if '1' <= raw[i] <= '9' { return false; }
    }
    zero := true;
  }

  predicate NoneNonzero(s: Bytes) { forall i :: 0 <= i < |s| ==> !('1' <= s[i] <= '9') }

  lemma {:induction false} ZeroTextOfMantissa(mantissa: Bytes, rest: Bytes)
    requires forall i :: 0 <= i < |mantissa| ==> mantissa[i] !in "eE"
    requires rest == "" || rest[0] in "eE"
    ensures ZeroText(mantissa + rest) == NoneNonzero(mantissa)
  {
    if mantissa == "" {
      assert mantissa + rest == rest;
    } else {
      ZeroTextOfMantissa(mantissa[1..], rest);
      assert (mantissa + rest)[1..] == mantissa[1..] + rest;
      if NoneNonzero(mantissa[1..]) && !('1' <= mantissa[0] <= '9') {
        assert forall i :: 0 < i < |mantissa| ==> mantissa[i] == mantissa[1..][i - 1];
      }
    }
  }

  lemma {:induction false} DigitsZeroIff(s: Bytes)
    requires AllDigits(s)
    ensures Digits(s) == 0 <==> NoneNonzero(s)
  {
    if s != "" {
      var init := s[..|s| - 1];
      DigitsZeroIff(init);
      assert forall i :: 0 <= i < |init| ==> s[i] == init[i];
      assert s[|s| - 1] == '0' <==> !('1' <= s[|s| - 1] <= '9');
    }
  }

  /** The text test finds zero exactly when the literal denotes it, whatever its sign, fraction or exponent. */
  lemma {:induction false} ZeroTextIff(l: Literal)
    requires WellformedLiteral(l)
    ensures ZeroText(Render(l)) <==> Value(l) == 0.0
  {
    hide Mantissa, Digits, Power, Scale, NoneNonzero, ZeroText;
    var m := Mantissa(l);
    forall i | 0 <= i < |m| ensures m[i] !in "eE" { MantissaBytes(l, i); }
    var rest := Render(l)[|m|..];
    assert Render(l) == m + rest;
    ZeroTextOfMantissa(m, rest);
    AllDigitsAppend(l);
    DigitsZeroIff(AllDigitsOf(l));
    MantissaNonzero(l);
    ProductZero(Significand(l) as real, Power(10.0, Scale(l)));
  }

  lemma AllDigitsAppend(l: Literal)
    requires WellformedLiteral(l)
    ensures AllDigits(AllDigitsOf(l))
  {
  }

  lemma ProductZero(a: real, b: real)
    requires b > 0.0
    ensures a * b == 0.0 <==> a == 0.0
  {
  }

  lemma MantissaBytes(l: Literal, i: nat)
    requires WellformedLiteral(l) && i < |Mantissa(l)|
    ensures Mantissa(l)[i] in "-." || IsDigit(Mantissa(l)[i])
  {
  }

  lemma {:induction false} MantissaNonzero(l: Literal)
    requires WellformedLiteral(l)
    ensures NoneNonzero(Mantissa(l)) <==> NoneNonzero(AllDigitsOf(l))
  {
    var sign := if l.negative then "-" else "";
    var point := if l.fraction.Some? then "." else "";
    var fraction := if l.fraction.Some? then l.fraction.value else "";
    assert Mantissa(l) == sign + l.whole + (point + fraction);
    NoneNonzeroAppend(sign + l.whole, point + fraction);
    NoneNonzeroAppend(sign, l.whole);
    NoneNonzeroAppend(point, fraction);
    NoneNonzeroAppend(l.whole, fraction);
  }

  lemma {:induction false} NoneNonzeroAppend(a: Bytes, b: Bytes)
    ensures NoneNonzero(a + b) <==> NoneNonzero(a) && NoneNonzero(b)
  {
    var s := a + b;
    if NoneNonzero(s) {
      assert forall i :: 0 <= i < |a| ==> a[i] == s[i];
      assert forall i :: 0 <= i < |b| ==> b[i] == s[|a| + i];
    }
  }
}
