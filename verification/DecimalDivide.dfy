// Decimal division (_pydecimal.py: __truediv__).
module DecimalDivide {
  import opened Powers
  import opened Numerals
  import opened Rounding
  import opened Scale
  import opened DecimalFix
  import opened DecimalContext

  function Xor(a: Sign, b: Sign): Sign { if a == b then 0 else 1 }

  // The exact quotient of the magnitudes of two finite nonzero numbers.
  ghost function Ratio(a: Decimal, b: Decimal): (x: real)
    requires a.Finite? && b.Finite? && a.coeff > 0 && b.coeff > 0
    ensures x > 0.0
  {
    MagnitudePositive(a);
    MagnitudePositive(b);
    PositiveQuotient(Magnitude(a), Magnitude(b));
    Magnitude(a) / Magnitude(b)
  }

  lemma MagnitudePositive(d: Decimal)
    requires d.Finite? && d.coeff > 0
    ensures Magnitude(d) > 0.0
  {
    ProductSign(d.coeff as real, Ten(d.exp));
  }

  lemma PositiveQuotient(a: real, b: real)
    requires a > 0.0 && b > 0.0
    ensures a / b > 0.0
  {
  }

  // An exact quotient is written as close to the ideal exponent as its digits allow.
  ghost predicate NearIdeal(p: Params, q: Decimal, ideal: int)
    requires q.Finite?
  {
    || q.exp == ideal
    || (q.exp < ideal && q.coeff % 10 != 0)
    || (q.exp > ideal && NumDigits(q.coeff) > p.prec)
  }

  // What division must return, with the signals it must raise.
  ghost predicate DividesCorrectly(p: Params, a: Decimal, b: Decimal, o: Outcome)
    requires p.Valid()
  {
    if a.NaN? || b.NaN? then o == Outcome(NaN, {})
    else
      var sign := Xor(a.sign, b.sign);
      if a.Infinity? then o == if b.Infinity? then Outcome(NaN, {InvalidOperation}) else Outcome(Infinity(sign), {})
      else if b.Infinity? then o == Outcome(Finite(sign, 0, p.Etiny()), {Clamped})
      else if b.coeff == 0 then
        o == if a.coeff == 0 then Outcome(NaN, {InvalidOperation}) else Outcome(Infinity(sign), {DivisionByZero})
      else if a.coeff == 0 then o == FixSpec(p, Finite(sign, 0, a.exp - b.exp))
      else
        && RoundsCorrectly(p, sign, Ratio(a, b), o)
        && (Representable(p, Ratio(a, b)) ==> ExactlyFrom(p, sign, a, b, o))
  }

  // The outcome is the fixed form of an exact quotient near the ideal exponent.
  ghost predicate ExactlyFrom(p: Params, sign: Sign, a: Decimal, b: Decimal, o: Outcome)
    requires p.Valid() && a.Finite? && b.Finite? && a.coeff > 0 && b.coeff > 0
  {
    exists q: Decimal :: q.Finite? && q.sign == sign && Magnitude(q) == Ratio(a, b)
      && NearIdeal(p, q, a.exp - b.exp) && o == FixSpec(p, q)
  }

  // ----- what the specification means -----

  // The quotient of two nonzero finite numbers is their real quotient, rounded once.
  lemma DividesSigned(p: Params, a: Decimal, b: Decimal, o: Outcome)
    requires p.Valid() && a.Finite? && b.Finite? && a.coeff > 0 && b.coeff > 0
    requires DividesCorrectly(p, a, b, o)
    ensures Number(b) != 0.0
    ensures var x := Number(a) / Number(b);
      && (x > 0.0 ==> RoundsCorrectly(p, 0, x, o))
      && (x < 0.0 ==> RoundsCorrectly(p, 1, -x, o))
      && x != 0.0
  {
    MagnitudePositive(a);
    MagnitudePositive(b);
    SignedQuotient(Magnitude(a), Magnitude(b));
    hide RoundsCorrectly, Representable, ExactlyFrom, Magnitude;
  }

  lemma SignedQuotient(a: real, b: real)
    requires a > 0.0 && b > 0.0
    ensures a / b > 0.0 && (-a) / (-b) == a / b && (-a) / b == -(a / b) && a / (-b) == -(a / b)
  {
    PositiveQuotient(a, b);
  }

  // Whatever the operands, a result that is not NaN is negative exactly when one of them
  // is and the other is not.
  lemma DividesSigns(p: Params, a: Decimal, b: Decimal, o: Outcome)
    requires p.Valid() && DividesCorrectly(p, a, b, o) && !o.result.NaN?
    ensures !a.NaN? && !b.NaN? && (o.result.sign == 1 <==> (a.sign == 1) != (b.sign == 1))
  {
    hide Ten, Magnitude, Ratio, Representable, ExactlyFrom, RoundedCoeff, Pow10, NumDigits;
  }

  // ----- the integer quotient -----

  // The scaled integers whose quotient is taken.
  function Numerator(a: Decimal, shift: int): (n: nat)
    requires a.Finite?
  {
    MulMonotonic(0, a.coeff, 0, Pow10(if shift >= 0 then shift else 0));
    if shift >= 0 then a.coeff * Pow10(shift) else a.coeff
  }

  function Denominator(b: Decimal, shift: int): (n: nat)
    requires b.Finite? && b.coeff > 0
    ensures n > 0
  {
    MulOrder(0, b.coeff, Pow10(if shift < 0 then -shift else 0));
    if shift >= 0 then b.coeff else b.coeff * Pow10(-shift)
  }

  function Shift(a: Decimal, b: Decimal, prec: nat): int
    requires a.Finite? && b.Finite?
  {
    NumDigits(b.coeff) - NumDigits(a.coeff) + prec + 1
  }

  // The quotient has at least prec + 1 digits.
  lemma QuotientDigits(a: Decimal, b: Decimal, prec: nat)
    requires a.Finite? && b.Finite? && a.coeff > 0 && b.coeff > 0
    ensures var s := Shift(a, b, prec);
      var t := Numerator(a, s) / Denominator(b, s);
      t > 0 && NumDigits(t) > prec
  {
    var s := Shift(a, b, prec);
    var A, B := Numerator(a, s), Denominator(b, s);
    if s >= 0 { PaddedDigits(a.coeff, s); } else { PaddedDigits(b.coeff, -s); }
    assert NumDigits(A) == NumDigits(B) + prec + 1 && A > 0;
    hide Numerator, Denominator, Shift;
    NumDigitsBounds(A);
    NumDigitsBounds(B);
    LongQuotient(A, B, prec);
  }

  lemma LongQuotient(A: nat, B: nat, prec: nat)
    requires A > 0 && B > 0 && NumDigits(A) == NumDigits(B) + prec + 1
    ensures A / B > 0 && NumDigits(A / B) > prec
  {
    NumDigitsBounds(A);
    NumDigitsBounds(B);
    var P, D := Pow10(prec), Pow10(NumDigits(B));
    PowAdd(10, prec, NumDigits(B));
    ProductBelow(P, B, D);
    DivBounds(A, B, P);
    hide Pow10, NumDigits;
    NumDigitsAtLeast(A / B, prec);
  }

  lemma ProductBelow(P: int, B: int, D: int)
    requires P > 0 && B < D
    ensures P * B <= P * D
  {
  }

  // The exact quotient is the quotient of the scaled integers, at exponent f.
  lemma ScaledRatio(a: Decimal, b: Decimal, shift: int)
    requires a.Finite? && b.Finite? && a.coeff > 0 && b.coeff > 0
    ensures Ratio(a, b) * Denominator(b, shift) as real
         == Numerator(a, shift) as real * Ten(a.exp - b.exp - shift)
  {
    hide *;
    var i: int := if shift >= 0 then a.exp - shift else a.exp;
    var j: int := if shift >= 0 then b.exp else b.exp + shift;
    NumeratorScale(a, shift);
    DenominatorScale(b, shift);
    TenAdd(i - j, j);
    RatioIs(a, b);
    CrossMultiply(Ratio(a, b), Magnitude(a), Magnitude(b), Numerator(a, shift) as real, Denominator(b, shift) as real,
      Ten(i), Ten(j), Ten(i - j));
  }

  lemma NumeratorScale(a: Decimal, shift: int)
    requires a.Finite?
    ensures Magnitude(a) == Numerator(a, shift) as real * Ten(if shift >= 0 then a.exp - shift else a.exp)
  {
    hide Ten, Pow10;
    if shift >= 0 {
      RescaleProduct(a.coeff, a.exp, a.exp - shift);
    }
  }

  lemma DenominatorScale(b: Decimal, shift: int)
    requires b.Finite? && b.coeff > 0
    ensures Magnitude(b) == Denominator(b, shift) as real * Ten(if shift >= 0 then b.exp else b.exp + shift)
  {
    hide Ten, Pow10;
    if shift < 0 {
      RescaleProduct(b.coeff, b.exp, b.exp + shift);
    }
  }

  lemma RatioIs(a: Decimal, b: Decimal)
    requires a.Finite? && b.Finite? && a.coeff > 0 && b.coeff > 0
    ensures Magnitude(b) > 0.0 && Ratio(a, b) * Magnitude(b) == Magnitude(a)
  {
    MagnitudePositive(b);
  }

  lemma CrossMultiply(x: real, ma: real, mb: real, A: real, B: real, ti: real, tj: real, tf: real)
    requires tj > 0.0 && ti == tf * tj && ma == A * ti && mb == B * tj && x * mb == ma
    ensures x * B == A * tf
  {
    assert x * (B * tj) == (x * B) * tj by { RealAssoc(x, B, tj); }
    assert A * (tf * tj) == (A * tf) * tj by { RealAssoc(A, tf, tj); }
    RealCancel(x * B, A * tf, tj);
  }

  // Where the exact quotient lies with respect to the truncated one.
  lemma RatioPosition(a: Decimal, b: Decimal, shift: int)
    requires a.Finite? && b.Finite? && a.coeff > 0 && b.coeff > 0
    ensures var A, B := Numerator(a, shift), Denominator(b, shift);
      var t, f := A / B, a.exp - b.exp - shift;
      && t >= 0
      && (A % B == 0 ==> Ratio(a, b) == t as real * Ten(f))
      && (A % B != 0 ==> t as real * Ten(f) < Ratio(a, b) < (t + 1) as real * Ten(f))
  {
    var A, B := Numerator(a, shift), Denominator(b, shift);
    var f := a.exp - b.exp - shift;
    ScaledRatio(a, b, shift);
    hide *;
    DivMod(A, B);
    DivMonotonic(0, A, B);
    PositionOf(Ratio(a, b), A, B, A / B, A % B, Ten(f));
  }

  lemma PositionOf(x: real, A: nat, B: nat, t: nat, r: nat, u: real)
    requires B > 0 && u > 0.0 && A == t * B + r && r < B && x * B as real == A as real * u
    ensures r == 0 ==> x == t as real * u
    ensures r != 0 ==> t as real * u < x < (t + 1) as real * u
  {
    var Ar, Br, low, high := A as real, B as real, t as real, (t + 1) as real;
    DistributeOne(t, B);
    assert low * Br == (t * B) as real && high * Br == ((t + 1) * B) as real;
    SideOf(x, low, Br, Ar, u);
    SideOf(x, high, Br, Ar, u);
  }

  // x is A/B units; which side of T units it lies on.
  lemma SideOf(x: real, T: real, B: real, A: real, u: real)
    requires B > 0.0 && u > 0.0 && x * B == A * u
    ensures T * B < A ==> T * u < x
    ensures T * B == A ==> T * u == x
    ensures A < T * B ==> x < T * u
  {
    RealAssoc(T, u, B);
    RealAssoc(T, B, u);
    RealOrder(T * B, A, u);
    RealOrder(A, T * B, u);
    RealOrder(T * u, x, B);
    RealOrder(x, T * u, B);
  }

  // ----- __truediv__ -----

  // Dropping trailing zeros towards the ideal exponent.
  method Strip(sign: Sign, coeff: nat, exp: int, ideal: int) returns (q: Decimal)
    requires coeff > 0
    ensures q.Finite? && q.sign == sign && q.coeff > 0
    ensures Magnitude(q) == Magnitude(Finite(sign, coeff, exp))
    ensures exp >= ideal ==> q == Finite(sign, coeff, exp)
    ensures exp < ideal ==> q.exp == ideal || (q.exp < ideal && q.coeff % 10 != 0)
  {
    var c, e: int := coeff, exp;
    while e < ideal && c % 10 == 0
      invariant c > 0
      invariant Magnitude(Finite(sign, c, e)) == Magnitude(Finite(sign, coeff, exp))
      invariant exp >= ideal ==> c == coeff && e == exp
      invariant exp < ideal ==> e <= ideal
      decreases c
    {
      StripOne(sign, c, e);
      c := c / 10;
      e := e + 1;
    }
    q := Finite(sign, c, e);
  }

  lemma StripOne(sign: Sign, c: nat, e: int)
    requires c % 10 == 0
    ensures Magnitude(Finite(sign, c / 10, e + 1)) == Magnitude(Finite(sign, c, e))
  {
    TenSucc(e);
    var k := c / 10;
    assert c as real == 10.0 * k as real;
    RealAssoc(k as real, 10.0, Ten(e));
  }

  method Divide(self: Decimal, other: Decimal, context: Context) returns (ans: Decimal, ghost signals: set<Signal>)
    requires context.Valid()
    modifies context.flags
    ensures context.flags.raised == old(context.flags.raised) + signals
    ensures DividesCorrectly(context.Settings(), self, other, Outcome(ans, signals))
  {
    var p := context.Settings();
    if self.NaN? || other.NaN? {
      return NaN, {};
    }
    var sign := Xor(self.sign, other.sign);
    if self.Infinity? && other.Infinity? {
      var handled := context.RaiseError(Raised(InvalidOperation), 0);
      return handled.value, {InvalidOperation};
    }
    if self.Infinity? {
      return Infinity(sign), {};
    }
    if other.Infinity? {
      var _ := context.RaiseError(Raised(Clamped), 0);
      return Finite(sign, 0, p.Etiny()), {Clamped};
    }
    if other.coeff == 0 {
      if self.coeff == 0 {
        var handled := context.RaiseError(DivisionUndefined, 0);
        return handled.value, {InvalidOperation};
      }
      var handled := context.RaiseError(Raised(DivisionByZero), sign);
      return handled.value, {DivisionByZero};
    }
    var quotient: Decimal;
    if self.coeff == 0 {
      quotient := Finite(sign, 0, self.exp - other.exp);
    } else {
      quotient := Quotient(self, other, sign, p);
    }
    ans := Fix(quotient, context);
    signals := FixSpec(p, quotient).signals;
  }

  // The number handed to _fix for two finite nonzero operands.
  method Quotient(self: Decimal, other: Decimal, sign: Sign, p: Params) returns (q: Decimal)
    requires p.Valid() && self.Finite? && other.Finite? && self.coeff > 0 && other.coeff > 0
    ensures RoundsCorrectly(p, sign, Ratio(self, other), FixSpec(p, q))
    ensures Representable(p, Ratio(self, other)) ==> ExactlyFrom(p, sign, self, other, FixSpec(p, q))
  {
    hide *;
    ValueOfNumeral(self.coeff);
    ValueOfNumeral(other.coeff);
    var shift := |Numeral(other.coeff)| - |Numeral(self.coeff)| + p.prec + 1;
    ShiftIs(self, other, p.prec);
    var exp := self.exp - other.exp - shift;
    var numerator, denominator := Numerator(self, shift), Denominator(other, shift);
    QuotientDigits(self, other, p.prec);
    var coeff, remainder := numerator / denominator, numerator % denominator;
    if remainder != 0 {
      InexactQuotientFixed(p, self, other, sign);
      q := Finite(sign, if coeff % 5 == 0 then coeff + 1 else coeff, exp);
    } else {
      RatioPosition(self, other, shift);
      q := Strip(sign, coeff, exp, self.exp - other.exp);
      ExactQuotientFixed(p, self, other, sign, coeff, exp, q);
    }
  }

  lemma ShiftIs(a: Decimal, b: Decimal, prec: nat)
    requires a.Finite? && b.Finite?
    ensures Shift(a, b, prec) == NumDigits(b.coeff) - NumDigits(a.coeff) + prec + 1
  {
  }

  lemma InexactQuotientFixed(p: Params, a: Decimal, b: Decimal, sign: Sign)
    requires p.Valid() && a.Finite? && b.Finite? && a.coeff > 0 && b.coeff > 0
    requires var s := Shift(a, b, p.prec); Numerator(a, s) % Denominator(b, s) != 0
    ensures var s := Shift(a, b, p.prec);
      var t := Numerator(a, s) / Denominator(b, s);
      && t > 0 && !Representable(p, Ratio(a, b))
      && RoundsCorrectly(p, sign, Ratio(a, b),
           FixSpec(p, Finite(sign, if t % 5 == 0 then t + 1 else t, a.exp - b.exp - s)))
  {
    hide *;
    var s := Shift(a, b, p.prec);
    RatioPosition(a, b, s);
    QuotientDigits(a, b, p.prec);
    var t := Numerator(a, s) / Denominator(b, s);
    StickyFix(p, sign, Ratio(a, b), t, a.exp - b.exp - s);
    BumpIs(t);
  }

  lemma ExactQuotientFixed(p: Params, a: Decimal, b: Decimal, sign: Sign, coeff: nat, exp: int, q: Decimal)
    requires p.Valid() && a.Finite? && b.Finite? && a.coeff > 0 && b.coeff > 0
    requires coeff > 0 && NumDigits(coeff) > p.prec && Ratio(a, b) == coeff as real * Ten(exp)
    requires q.Finite? && q.sign == sign && q.coeff > 0 && Magnitude(q) == Magnitude(Finite(sign, coeff, exp))
    requires exp >= a.exp - b.exp ==> q == Finite(sign, coeff, exp)
    requires exp < a.exp - b.exp ==> q.exp == a.exp - b.exp || (q.exp < a.exp - b.exp && q.coeff % 10 != 0)
    ensures RoundsCorrectly(p, sign, Ratio(a, b), FixSpec(p, q))
    ensures ExactlyFrom(p, sign, a, b, FixSpec(p, q))
  {
    hide FixSpec, RoundsCorrectly, Ten, NumDigits, Ratio;
    FixRounds(p, q);
    assert Magnitude(q) == Ratio(a, b);
    assert NearIdeal(p, q, a.exp - b.exp);
  }
}
