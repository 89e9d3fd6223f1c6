/** Binary64 numbers, what rounding a decimal to one means, and which of them are safe JSON numbers. */
module Binary64 {
  import opened ByteText
  import opened NumberText

  const MAX_SAFE: int := 0x1F_FFFF_FFFF_FFFF

  datatype Float = NaN | Infinite(negative: bool) | Finite(value: real)

  // ---- Representable numbers ----

  ghost predicate Scaled(m: int, e: int, r: real) {
    -0x20_0000_0000_0000 < m < 0x20_0000_0000_0000 && -1074 <= e <= 971 && r == m as real * Power(2.0, e)
  }

  ghost predicate Representable(r: real) { exists m: int, e: int :: Scaled(m, e, r) }

  function Abs(r: real): real { if r < 0.0 then -r else r }

  predicate IsInteger(r: real) { r == r.Floor as real }

  /** `y` is a binary64 number, and none is closer to `x`. */
  ghost predicate Nearest(x: real, y: real) {
    Representable(y) && forall z :: Representable(z) ==> Abs(x - y) <= Abs(x - z)
  }

  /** A number whose significand at its own exponent is even; subnormal numbers share the least exponent. */
  ghost predicate EvenAt(m: int, e: int, r: real) {
    Scaled(m, e, r) && (m <= -0x10_0000_0000_0000 || 0x10_0000_0000_0000 <= m || e == -1074) && m % 2 == 0
  }

  ghost predicate HasEvenSignificand(r: real) { exists m: int, e: int :: EvenAt(m, e, r) }

  /** Another binary64 number is just as near to `x`. */
  ghost predicate Tied(x: real, y: real) {
    exists z: real :: Representable(z) && z != y && Abs(x - z) == Abs(x - y)
  }

  /** What IEEE 754 rounds to: the nearest number, and of two nearest the one with an even significand. */
  ghost predicate NearestEven(x: real, y: real) {
    Nearest(x, y) && (Tied(x, y) ==> HasEvenSignificand(y))
  }

  lemma {:induction false} PowerOfTwoIsInteger(e: nat) returns (p: int)
    ensures Power(2.0, e) == p as real
  {
    if e == 0 {
      p := 1;
    } else {
      var q := PowerOfTwoIsInteger(e - 1);
      p := 2 * q;
    }
  }

  lemma {:induction false} PowerOfTwoShrinks(e: int)
    requires e < 0
    ensures Power(2.0, e) <= 0.5
    decreases -e
  {
    if e < -1 { PowerOfTwoShrinks(e + 1); }
  }

  lemma SmallIntegersRepresentable(n: int)
    requires -0x20_0000_0000_0000 <= n <= 0x20_0000_0000_0000
    ensures Representable(n as real)
  {
    if n == 0x20_0000_0000_0000 {
      assert Power(2.0, 1) == 2.0 * Power(2.0, 0);
      assert Scaled(0x10_0000_0000_0000, 1, n as real);
    } else if n == -0x20_0000_0000_0000 {
      assert Power(2.0, 1) == 2.0 * Power(2.0, 0);
      assert Scaled(-0x10_0000_0000_0000, 1, n as real);
    } else {
      assert Power(2.0, 0) == 1.0;
      assert Scaled(n, 0, n as real);
    }
  }

  lemma ScaleBound(m: real, p: real, bound: real)
    requires -bound < m < bound && 0.0 < p <= 0.5
    ensures -0.5 * bound <= m * p <= 0.5 * bound
  {
    if m >= 0.0 { assert m * p <= m * 0.5; } else { assert -m * p <= -m * 0.5; }
  }

  lemma IntegerProduct(m: int, p: int)
    ensures IsInteger(m as real * p as real)
  {
    assert m as real * p as real == (m * p) as real;
  }

  lemma {:induction false} ScaledLarge(m: int, e: int, r: real)
    requires Scaled(m, e, r) && Abs(r) > 0x10_0000_0000_0000 as real
    ensures IsInteger(r)
  {
    hide Power;
    if e < 0 {
      PowerOfTwoShrinks(e);
      ScaleBound(m as real, Power(2.0, e), 0x20_0000_0000_0000 as real);
    } else {
      var p := PowerOfTwoIsInteger(e);
      assert r == m as real * p as real;
      IntegerProduct(m, p);
    }
  }

  /** Past half of 2^53 every binary64 number is an integer. */
  lemma {:induction false} LargeAreIntegers(r: real)
    requires Representable(r) && Abs(r) > 0x10_0000_0000_0000 as real
    ensures IsInteger(r)
  {
    hide Scaled;
    var m, e :| Scaled(m, e, r);
    ScaledLarge(m, e, r);
  }

  // ---- Safety of a rounded number ----

  /** A finite number that is not an integer beyond 2^53 - 1. */
  predicate SafeFloat(f: Float) {
    f.Finite? && !(IsInteger(f.value) && Abs(f.value) > MAX_SAFE as real)
  }

  /** The number halfway between the largest safe integer and the next. */
  const MIDDLE: real := MAX_SAFE as real + 0.5

  lemma {:induction false} NearestBelowMiddle(x: real, y: real)
    requires Nearest(x, y) && Abs(x) < MIDDLE
    ensures Abs(y) <= MAX_SAFE as real
  {
    hide Scaled, Power;
    SmallIntegersRepresentable(MAX_SAFE);
    SmallIntegersRepresentable(-MAX_SAFE);
    assert Abs(x - y) <= Abs(x - MAX_SAFE as real);
    assert Abs(x - y) <= Abs(x - (-MAX_SAFE) as real);
    if Abs(y) > MAX_SAFE as real {
      LargeAreIntegers(y);
    }
  }

  lemma {:induction false} NearestAboveMiddle(x: real, y: real)
    requires Nearest(x, y) && Abs(x) > MIDDLE
    ensures Abs(y) > MAX_SAFE as real && IsInteger(y)
  {
    hide Scaled, Power;
    SmallIntegersRepresentable(MAX_SAFE + 1);
    SmallIntegersRepresentable(-MAX_SAFE - 1);
    assert Abs(x - y) <= Abs(x - (MAX_SAFE + 1) as real);
    assert Abs(x - y) <= Abs(x - (-MAX_SAFE - 1) as real);
    LargeAreIntegers(y);
  }

  /** The largest safe integer has an odd significand. */
  lemma {:induction false} MaxSafeIsOdd(m: int, e: int, r: real)
    requires Abs(r) == MAX_SAFE as real
    ensures !EvenAt(m, e, r)
  {
    hide Power;
    if EvenAt(m, e, r) {
      if e < 0 {
        PowerOfTwoShrinks(e);
        ScaleBound(m as real, Power(2.0, e), 0x20_0000_0000_0000 as real);
      } else {
        var p := PowerOfTwoIsInteger(e);
        ProductOfEven(m, p, if r < 0.0 then -MAX_SAFE else MAX_SAFE);
      }
    }
  }

  lemma ProductOfEven(m: int, p: int, n: int)
    requires m % 2 == 0 && n as real == m as real * p as real
    ensures n % 2 == 0
  {
    assert n as real == (m * p) as real;
    assert m * p == 2 * (m / 2 * p);
  }

  /** The middle itself is a tie, which goes to 2^53. */
  lemma {:induction false} NearestEvenAtMiddle(x: real, y: real)
    requires NearestEven(x, y) && Abs(x) == MIDDLE
    ensures Abs(y) > MAX_SAFE as real && IsInteger(y)
  {
    hide Scaled, Power, EvenAt;
    var up: int := if x < 0.0 then -MAX_SAFE - 1 else MAX_SAFE + 1;
    SmallIntegersRepresentable(up);
    assert Abs(x - y) <= Abs(x - up as real);
    LargeAreIntegers(y);
    if Abs(y) <= MAX_SAFE as real {
      assert up as real != y && Abs(x - up as real) == Abs(x - y);
      var m, e :| EvenAt(m, e, y);
      MaxSafeIsOdd(m, e, y);
    }
  }

  // ---- Underflow ----

  /** The smallest positive binary64 number. */
  const TINIEST: real := Power(2.0, -1074)

  lemma TiniestRepresentable()
    ensures Representable(0.0) && Representable(TINIEST) && Representable(-TINIEST) && 0.0 < TINIEST <= 0.5
  {
    hide Power;
    PowerOfTwoShrinks(-1074);
    assert Scaled(0, -1074, 0.0) && Scaled(1, -1074, TINIEST) && Scaled(-1, -1074, -TINIEST);
  }

  lemma {:induction false} PowersAscend(d: int, e: int)
    requires d <= e
    ensures Power(2.0, d) <= Power(2.0, e)
    decreases e - d
  {
    if d < e {
      PowersAscend(d, e - 1);
      PowerDoubles(e - 1);
    }
  }

  lemma PowerDoubles(e: int)
    ensures Power(2.0, e + 1) == 2.0 * Power(2.0, e)
  {
  }

  lemma ScaledAtLeast(m: int, p: real)
    requires m != 0 && p > 0.0
    ensures Abs(m as real * p) >= p
    ensures m >= 2 || m <= -2 ==> Abs(m as real * p) > p
  {
    if m > 0 {
      assert m as real * p == p + (m - 1) as real * p;
    } else {
      assert -m as real * p == p + (-m - 1) as real * p;
    }
  }

  lemma {:induction false} NothingSmaller(r: real)
    requires Representable(r) && r != 0.0
    ensures Abs(r) >= TINIEST
  {
    hide Power;
    var m, e :| Scaled(m, e, r);
    PowersAscend(-1074, e);
    ScaledAtLeast(m, Power(2.0, e));
  }

  lemma {:induction false} TiniestIsOdd(m: int, e: int, r: real)
    requires Abs(r) == TINIEST
    ensures !EvenAt(m, e, r)
  {
    hide Power;
    if EvenAt(m, e, r) {
      PowersAscend(-1074, e);
      ScaledAtLeast(m, Power(2.0, e));
    }
  }

  lemma {:induction false} RoundsBelowTiniest(x: real, y: real)
    requires NearestEven(x, y) && Abs(x) <= TINIEST / 2.0
    ensures Abs(y) < TINIEST
  {
    hide Scaled, Power, EvenAt, Representable;
    TiniestRepresentable();
    assert Abs(x - y) <= Abs(x - 0.0);
    if Abs(y) >= TINIEST {
      assert Abs(y) == TINIEST && Abs(x - 0.0) == Abs(x - y);
      assert Tied(x, y);
      var m, e :| EvenAt(m, e, y);
      TiniestIsOdd(m, e, y);
    }
  }

  /** A number rounds to zero exactly when it is no further from zero than half the smallest positive one. */
  lemma {:induction false} UnderflowsIff(x: real, y: real)
    requires NearestEven(x, y)
    ensures y == 0.0 <==> Abs(x) <= TINIEST / 2.0
  {
    hide Scaled, Power, EvenAt, Representable;
    TiniestRepresentable();
    assert Abs(x - y) <= Abs(x - 0.0) && Abs(x - y) <= Abs(x - TINIEST) && Abs(x - y) <= Abs(x - (-TINIEST));
    if Abs(x) <= TINIEST / 2.0 {
      RoundsBelowTiniest(x, y);
      if y != 0.0 { NothingSmaller(y); }
    }
  }

  // ---- The library's two answers about a literal ----

  datatype ParsedFloat = Parsed(float: Float) | OutOfRange(float: Float) | BadSyntax

  /** The JSON and number libraries, as far as the validator asks them anything. */
  datatype Host = Host(jsonValid: Bytes -> bool, parseFloat: Bytes -> ParsedFloat)

  /** Magnitudes the range error starts at are beyond every safe integer. */
  ghost predicate RoundsTo(x: real, parsed: ParsedFloat) {
    match parsed
    case Parsed(f) => f.Finite? && NearestEven(x, f.value)
    case OutOfRange(f) => f.Infinite? && Abs(x) > MIDDLE + 1.0
    case BadSyntax => false
  }

  /** Literals are valid JSON and parse to the nearest binary64 number, ties to even, or overflow. */
  ghost predicate Conforms(host: Host) {
    forall l :: WellformedLiteral(l) ==>
      host.jsonValid(Render(l)) && RoundsTo(Value(l), host.parseFloat(Render(l)))
  }

  predicate StartsNumber(raw: Bytes) { raw != "" && (raw[0] == '-' || IsDigit(raw[0])) }

  function FloatOf(parsed: ParsedFloat): Float
    requires !parsed.BadSyntax?
  {
    parsed.float
  }

  predicate SafeNumber(host: Host, raw: Bytes) {
    && StartsNumber(raw) && host.jsonValid(raw)
    && var parsed := host.parseFloat(raw);
       && !parsed.BadSyntax?
       && FloatOf(parsed).Finite?
       && !(FloatOf(parsed).value == 0.0 && !ZeroText(raw))
       && SafeFloat(FloatOf(parsed))
  }

  lemma RenderedStarts(l: Literal)
    requires WellformedLiteral(l)
    ensures StartsNumber(Render(l))
  {
    hide Digits, Power;
    assert Render(l) != "";
    if l.negative { assert Render(l)[0] == '-'; } else { assert Render(l)[0] == l.whole[0]; }
  }

  /**
   A literal is accepted exactly when its value is zero, or neither underflows to zero nor reaches the middle
   between 2^53 - 1 and 2^53.
   */
  lemma {:induction false} SafeLiteralIff(host: Host, l: Literal)
    requires Conforms(host) && WellformedLiteral(l)
    ensures SafeNumber(host, Render(l)) <==> Value(l) == 0.0 || TINIEST / 2.0 < Abs(Value(l)) < MIDDLE
  {
    hide Value, Render, Nearest, Tied, ZeroText, WellformedLiteral, StartsNumber, Power;
    RenderedStarts(l);
    ZeroTextIff(l);
    TiniestRepresentable();
    var x, parsed := Value(l), host.parseFloat(Render(l));
    assert RoundsTo(x, parsed);
    if parsed.Parsed? {
      var y := parsed.float.value;
      UnderflowsIff(x, y);
      if Abs(x) < MIDDLE { NearestBelowMiddle(x, y); }
      else if Abs(x) == MIDDLE { NearestEvenAtMiddle(x, y); }
      else { NearestAboveMiddle(x, y); }
    }
  }

  /** A literal that denotes an integer is accepted exactly when the integer is in the safe range. */
  lemma {:induction false} IntegerLiteralIff(host: Host, l: Literal, n: int)
    requires Conforms(host) && WellformedLiteral(l) && Value(l) == n as real
    ensures SafeNumber(host, Render(l)) <==> -MAX_SAFE <= n <= MAX_SAFE
  {
    hide Value, Render, ZeroText, WellformedLiteral, StartsNumber, SafeNumber, Conforms, Power;
    TiniestRepresentable();
    SafeLiteralIff(host, l);
  }

  // ---- Any text at all ----

  predicate AllBlank(s: Bytes) { forall i :: 0 <= i < |s| ==> s[i] in " \t\n\r" }

  /** A literal, and after it nothing or blanks, which the number library does not take. */
  ghost predicate LiteralThenBlanks(host: Host, raw: Bytes) {
    exists l, blanks ::
      WellformedLiteral(l) && raw == Render(l) + blanks && AllBlank(blanks)
      && (blanks != "" ==> host.parseFloat(raw) == BadSyntax)
  }

  /** Valid JSON that starts like a number is a literal, with blanks allowed after it. */
  ghost predicate OnlyLiteralsValid(host: Host) {
    forall raw :: StartsNumber(raw) && host.jsonValid(raw) ==> LiteralThenBlanks(host, raw)
  }

  /**
   A text is accepted exactly when it is a literal, without anything around it, whose value is zero or lies
   strictly between half the smallest positive binary64 number and 2^53 - 1/2.
   */
  lemma {:induction false} AcceptedTextIff(host: Host, raw: Bytes)
    requires Conforms(host) && OnlyLiteralsValid(host)
    ensures SafeNumber(host, raw) <==>
            exists l :: WellformedLiteral(l) && raw == Render(l)
              && (Value(l) == 0.0 || Power(2.0, -1074) / 2.0 < Abs(Value(l)) < 9007199254740991.5)
  {
    hide Value, Render, WellformedLiteral, Power, Conforms, ZeroText;
    if SafeNumber(host, raw) {
      assert LiteralThenBlanks(host, raw);
      var l, blanks :| WellformedLiteral(l) && raw == Render(l) + blanks && AllBlank(blanks)
        && (blanks != "" ==> host.parseFloat(raw) == BadSyntax);
      assert raw == Render(l);
      SafeLiteralIff(host, l);
    }
    forall l | WellformedLiteral(l) && raw == Render(l)
      && (Value(l) == 0.0 || Power(2.0, -1074) / 2.0 < Abs(Value(l)) < 9007199254740991.5)
      ensures SafeNumber(host, raw)
    {
      SafeLiteralIff(host, l);
    }
  }

  /** A literal and the number it rounds to are safe together, but for a literal that underflows. */
  lemma {:induction false} RoundedAgrees(host: Host, l: Literal, y: real)
    requires Conforms(host) && WellformedLiteral(l) && NearestEven(Value(l), y)
    ensures SafeNumber(host, Render(l)) <==> SafeFloat(Finite(y)) && (y == 0.0 ==> Value(l) == 0.0)
  {
    hide Value, Render, Nearest, Tied, WellformedLiteral, SafeNumber, Power, Conforms;
    SafeLiteralIff(host, l);
    TiniestRepresentable();
    var x := Value(l);
    UnderflowsIff(x, y);
    if Abs(x) < MIDDLE { NearestBelowMiddle(x, y); }
    else if Abs(x) == MIDDLE { NearestEvenAtMiddle(x, y); }
    else { NearestAboveMiddle(x, y); }
  }
}
