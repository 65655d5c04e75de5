// Decimal numbers, contexts, and _fix (_pydecimal.py): fitting a finite number to
// the precision and exponent range of a context, with the signals that raises.
module DecimalFix {
  import opened Powers
  import opened Numerals
  import opened Rounding
  import opened Scale

  datatype Decimal = Finite(sign: Sign, coeff: nat, exp: int) | Infinity(sign: Sign) | NaN {
    // bool(self): everything except a finite zero
    predicate Nonzero() { Finite? ==> coeff != 0 }
  }

  // The absolute value of a finite number.
  ghost function Magnitude(d: Decimal): real
    requires d.Finite?
  {
    d.coeff as real * Ten(d.exp)
  }

  // The signed real number a finite decimal stands for.
  ghost function Number(d: Decimal): real
    requires d.Finite?
  {
    if d.sign == 1 then -Magnitude(d) else Magnitude(d)
  }

  datatype Signal = Clamped | DivisionByZero | Inexact | Overflow | Rounded | Underflow | InvalidOperation | Subnormal

  datatype Outcome = Outcome(result: Decimal, signals: set<Signal>)

  // The settings of a context that arithmetic depends on.
  datatype Params = Params(prec: nat, rounding: Mode, emin: int, emax: int, clamp: int) {
    predicate Valid() { prec >= 1 && emin <= 0 <= emax && 0 <= clamp <= 1 }

    function Etiny(): int { emin - prec + 1 }

    function Etop(): int { emax - prec + 1 }

    // The exponent at which a number with adjusted exponent k is rounded.
    function Quantum(k: int): int {
      if k - prec + 1 < Etiny() then Etiny() else k - prec + 1
    }
  }

  function AdjustedExp(d: Decimal): int
    requires d.Finite?
  {
    d.exp + NumDigits(d.coeff) - 1
  }

  // ----- what correct rounding into a context means -----

  // The untrapped result of Overflow: infinity, or the largest finite number in
  // the modes that round towards it.
  function OverflowResult(p: Params, sign: Sign): Decimal {
    match p.rounding
    case HalfUp | HalfEven | HalfDown | Up => Infinity(sign)
    case Ceiling => if sign == 0 then Infinity(sign) else Finite(sign, Pow10(p.prec) - 1, p.Etop())
    case Floor => if sign == 1 then Infinity(sign) else Finite(sign, Pow10(p.prec) - 1, p.Etop())
    case Down | ZeroFiveUp => Finite(sign, Pow10(p.prec) - 1, p.Etop())
  }

  // A rounded coefficient that has reached 10**prec moves up one exponent.
  predicate Spills(p: Params, c: nat, e: int) { c == Pow10(p.prec) && e + 1 > p.Etop() }

  function Settle(p: Params, sign: Sign, c: nat, e: int): Decimal
    requires p.Valid()
  {
    if Spills(p, c, e) then OverflowResult(p, sign)
    else if c == Pow10(p.prec) then Finite(sign, Pow10(p.prec - 1), e + 1)
    else Finite(sign, c, e)
  }

  ghost function RoundedCoeff(p: Params, sign: Sign, x: real): nat
    requires x > 0.0
  {
    assert x / Ten(p.Quantum(Adjusted(x))) >= 0.0;
    RoundReal(p.rounding, sign, x / Ten(p.Quantum(Adjusted(x))))
  }

  // The exact positive number x, with the given sign, rounded once into the context.
  ghost function CorrectlyRounded(p: Params, sign: Sign, x: real): Decimal
    requires p.Valid() && x > 0.0
  {
    if Adjusted(x) > p.emax then OverflowResult(p, sign)
    else Settle(p, sign, RoundedCoeff(p, sign, x), p.Quantum(Adjusted(x)))
  }

  // The signals of an inexact rounding of x.
  ghost function InexactSignals(p: Params, sign: Sign, x: real): set<Signal>
    requires p.Valid() && x > 0.0
  {
    {Rounded}
    + {Inexact}
    + (if Adjusted(x) < p.emin then {Subnormal} else {})
    + (if Adjusted(x) < p.emin then {Underflow} else {})
    + (if Adjusted(x) > p.emax || Spills(p, RoundedCoeff(p, sign, x), p.Quantum(Adjusted(x))) then {Overflow} else {})
    + (if CorrectlyRounded(p, sign, x).Nonzero() then {} else {Clamped})
  }

  // x is a multiple of its quantum and not too large.
  ghost predicate Representable(p: Params, x: real)
    requires x > 0.0
  {
    Adjusted(x) <= p.emax && TailOfReal(x / Ten(p.Quantum(Adjusted(x)))) == Zero
  }

  // The signals of a representable number d fixed to r: digits were dropped, the number
  // is below the smallest normal one, the coefficient was padded.
  ghost function ExactSignals(p: Params, d: Decimal, r: Decimal): set<Signal>
    requires d.Finite? && r.Finite?
  {
    (if r.exp > d.exp then {Rounded} else {})
    + (if Magnitude(d) < Ten(p.emin) then {Subnormal} else {})
    + (if r.exp < d.exp then {Clamped} else {})
  }

  // The outcome is the exact number x rounded once: x itself when representable,
  // and otherwise the correctly rounded number with exactly the inexact signals.
  ghost predicate RoundsCorrectly(p: Params, sign: Sign, x: real, outcome: Outcome)
    requires p.Valid() && x > 0.0
  {
    if Representable(p, x) then
      outcome.result.Finite? && outcome.result.sign == sign && Magnitude(outcome.result) == x
      && outcome.signals !! {Inexact, Overflow, Underflow}
    else outcome == Outcome(CorrectlyRounded(p, sign, x), InexactSignals(p, sign, x))
  }

  // The numbers a context can hold.
  predicate Fits(p: Params, d: Decimal) {
    d.Finite? ==>
      && NumDigits(d.coeff) <= p.prec && p.Etiny() <= d.exp
      && (d.coeff != 0 ==> AdjustedExp(d) <= p.emax)
      && (d.coeff == 0 ==> d.exp <= p.emax)
      && (p.clamp == 1 ==> d.exp <= p.Etop())
  }

  // ----- _fix on values -----

  function FixZero(p: Params, d: Decimal): Outcome
    requires d.Finite? && p.Valid()
  {
    var top := if p.clamp == 1 then p.Etop() else p.emax;
    var low := if d.exp < p.Etiny() then p.Etiny() else d.exp;
    var exp := if low > top then top else low;
    if exp != d.exp then Outcome(Finite(d.sign, 0, exp), {Clamped}) else Outcome(d, {})
  }

  // Rounding d to exponent e.
  function FixRound(p: Params, d: Decimal, e: int): Outcome
    requires d.Finite? && p.Valid() && d.exp < e
  {
    var m := Pow10(e - d.exp);
    var c := RoundSticky(p.rounding, d.sign, d.coeff, m, false);
    var changed, subnormal := d.coeff % m != 0, AdjustedExp(d) < p.emin;
    var result := Settle(p, d.sign, c, e);
    Outcome(result,
      {Rounded}
      + (if changed then {Inexact} else {})
      + (if subnormal then {Subnormal} else {})
      + (if changed && subnormal then {Underflow} else {})
      + (if Spills(p, c, e) then {Overflow} else {})
      + (if result.Nonzero() then {} else {Clamped}))
  }

  function FixSpec(p: Params, d: Decimal): Outcome
    requires p.Valid()
  {
    if !d.Finite? then Outcome(d, {})
    else if d.coeff == 0 then FixZero(p, d)
    else
      var k := AdjustedExp(d);
      var e := p.Quantum(k);
      if k > p.emax then Outcome(OverflowResult(p, d.sign), {Overflow, Inexact, Rounded})
      else if d.exp < e then FixRound(p, d, e)
      else
        var subnormal := if k < p.emin then {Subnormal} else {};
        if p.clamp == 1 && d.exp > p.Etop() then
          Outcome(Finite(d.sign, d.coeff * Pow10(d.exp - p.Etop()), p.Etop()), subnormal + {Clamped})
        else Outcome(d, subnormal)
  }

  // ----- correctness of _fix -----

  lemma AdjustedOfDecimal(d: Decimal)
    requires d.Finite? && d.coeff > 0
    ensures Magnitude(d) > 0.0 && Adjusted(Magnitude(d)) == AdjustedExp(d)
  {
    var t, u := d.coeff as real, Ten(d.exp);
    assert (d.coeff + 1) as real * u == t * u + u;
    AdjustedOfTruncation(Magnitude(d), d.coeff, d.exp);
  }

  lemma TenMultiple(j: nat)
    requires j > 0
    ensures Pow10(j) % 10 == 0 && Pow10(j) % 2 == 0
  {
    assert Pow10(j) == 10 * Pow10(j - 1);
  }

  // Rounding y * 10**f, with integer part t of y, at a larger exponent e.
  lemma RoundAtQuantum(mode: Mode, sign: Sign, x: real, y: real, t: nat, f: int, e: int)
    requires f < e && x == y * Ten(f) && t as real <= y < t as real + 1.0
    ensures x / Ten(e) >= 0.0
    ensures RoundReal(mode, sign, x / Ten(e)) == RoundSticky(mode, sign, t, Pow10(e - f), y != t as real)
    ensures TailOfReal(x / Ten(e)) == Zero <==> t % Pow10(e - f) == 0 && y == t as real
  {
    hide Ten, Pow10, RoundReal, RoundSticky, TailOfReal;
    RescaleQuotient(x, y, f, e);
    TenMultiple(e - f);
    RoundTruncated(mode, sign, y, t, Pow10(e - f));
  }

  // _fix rounds every finite nonzero number correctly, and a number it keeps raises
  // exactly the signals of what happened to its digits.
  lemma FixRounds(p: Params, d: Decimal)
    requires p.Valid() && d.Finite? && d.coeff > 0
    ensures Magnitude(d) > 0.0
    ensures RoundsCorrectly(p, d.sign, Magnitude(d), FixSpec(p, d))
    ensures var o := FixSpec(p, d);
      Representable(p, Magnitude(d)) ==> o.result.Finite? && o.signals == ExactSignals(p, d, o.result)
  {
    AdjustedOfDecimal(d);
    if Representable(p, Magnitude(d)) {
      FixExactly(p, d);
    }
    hide Ten, TailOfReal, RoundReal, RoundSticky, NumDigits, Pow10, FixRound, RoundsCorrectly, Magnitude, AdjustedExp;
    var k := AdjustedExp(d);
    var e := p.Quantum(k);
    if k > p.emax {
      OverflowRounds(p, d);
    } else if d.exp < e {
      FixRoundRounds(p, d, e);
    } else {
      UnchangedIsRepresentable(p, d);
    }
  }

  lemma BelowDecade(x: real, k: int)
    requires x > 0.0
    ensures x < Ten(k) <==> Adjusted(x) < k
  {
    var j := Adjusted(x);
    if j + 1 < k {
      TenMonotonic(j + 1, k);
    } else if k < j {
      TenMonotonic(k, j);
    }
  }

  lemma FixExactly(p: Params, d: Decimal)
    requires p.Valid() && d.Finite? && d.coeff > 0 && Magnitude(d) > 0.0
    requires Adjusted(Magnitude(d)) == AdjustedExp(d) && Representable(p, Magnitude(d))
    ensures var o := FixSpec(p, d);
      o.result.Finite? && o.signals == ExactSignals(p, d, o.result)
  {
    hide Ten, TailOfReal, RoundReal, RoundSticky, NumDigits, Pow10, Magnitude, AdjustedExp;
    BelowDecade(Magnitude(d), p.emin);
    var e := p.Quantum(AdjustedExp(d));
    if d.exp < e {
      RoundAtQuantum(p.rounding, d.sign, Magnitude(d), MagnitudeUnits(d), d.coeff, d.exp, e);
      ExactQuotient(p, d, e);
    }
  }

  lemma OverflowRounds(p: Params, d: Decimal)
    requires p.Valid() && d.Finite? && d.coeff > 0 && Magnitude(d) > 0.0
    requires Adjusted(Magnitude(d)) == AdjustedExp(d) > p.emax
    ensures RoundsCorrectly(p, d.sign, Magnitude(d), FixSpec(p, d))
  {
    hide Ten, Magnitude, NumDigits, AdjustedExp, TailOfReal, RoundReal;
    assert Pow10(p.prec) == 10 * Pow10(p.prec - 1);
  }

  lemma FixRoundRounds(p: Params, d: Decimal, e: int)
    requires p.Valid() && d.Finite? && d.coeff > 0 && Magnitude(d) > 0.0
    requires Adjusted(Magnitude(d)) == AdjustedExp(d) <= p.emax && e == p.Quantum(AdjustedExp(d)) && d.exp < e
    ensures RoundsCorrectly(p, d.sign, Magnitude(d), FixRound(p, d, e))
  {
    hide *;
    RoundAtQuantum(p.rounding, d.sign, Magnitude(d), MagnitudeUnits(d), d.coeff, d.exp, e);
    if d.coeff % Pow10(e - d.exp) != 0 {
      FixRoundInexact(p, d, e);
    } else {
      ExactQuotient(p, d, e);
      FixRoundExact(p, d, e);
    }
  }

  // The coefficient, as the real number of units of the exponent.
  ghost function MagnitudeUnits(d: Decimal): (y: real)
    requires d.Finite?
    ensures y == d.coeff as real && Magnitude(d) == y * Ten(d.exp)
  {
    d.coeff as real
  }

  lemma FixRoundInexact(p: Params, d: Decimal, e: int)
    requires p.Valid() && d.Finite? && d.coeff > 0 && Magnitude(d) > 0.0 && Magnitude(d) / Ten(e) >= 0.0
    requires Adjusted(Magnitude(d)) == AdjustedExp(d) <= p.emax && e == p.Quantum(AdjustedExp(d)) && d.exp < e
    requires RoundReal(p.rounding, d.sign, Magnitude(d) / Ten(e))
          == RoundSticky(p.rounding, d.sign, d.coeff, Pow10(e - d.exp), false)
    requires TailOfReal(Magnitude(d) / Ten(e)) != Zero && d.coeff % Pow10(e - d.exp) != 0
    ensures RoundsCorrectly(p, d.sign, Magnitude(d), FixRound(p, d, e))
  {
    hide Ten, Pow10, RoundReal, RoundSticky, TailOfReal, AdjustedExp, NumDigits, Magnitude, Params.Quantum;
    hide Settle, Spills;
    assert RoundedCoeff(p, d.sign, Magnitude(d)) == RoundSticky(p.rounding, d.sign, d.coeff, Pow10(e - d.exp), false);
  }

  lemma FixRoundExact(p: Params, d: Decimal, e: int)
    requires p.Valid() && d.Finite? && d.coeff > 0 && Magnitude(d) > 0.0
    requires Adjusted(Magnitude(d)) == AdjustedExp(d) <= p.emax && e == p.Quantum(AdjustedExp(d)) && d.exp < e
    requires TailOfReal(Magnitude(d) / Ten(e)) == Zero && d.coeff % Pow10(e - d.exp) == 0
    requires var c := RoundSticky(p.rounding, d.sign, d.coeff, Pow10(e - d.exp), false);
      0 < c < Pow10(p.prec) && Magnitude(Finite(d.sign, c, e)) == Magnitude(d)
    ensures RoundsCorrectly(p, d.sign, Magnitude(d), FixRound(p, d, e))
  {
    hide Ten, Pow10, RoundSticky, TailOfReal, AdjustedExp, NumDigits, Magnitude, Params.Quantum;
  }

  // Dropping only zeros keeps the number, and leaves at most prec digits.
  lemma ExactQuotient(p: Params, d: Decimal, e: int)
    requires p.Valid() && d.Finite? && d.coeff > 0 && AdjustedExp(d) <= p.emax
    requires e == p.Quantum(AdjustedExp(d)) && d.exp < e
    requires d.coeff % Pow10(e - d.exp) == 0
    ensures var c := RoundSticky(p.rounding, d.sign, d.coeff, Pow10(e - d.exp), false);
      && 0 < c < Pow10(p.prec)
      && Magnitude(Finite(d.sign, c, e)) == Magnitude(d)
  {
    hide Pow10, Ten;
    var m := Pow10(e - d.exp);
    QuotientBelow(p, d, e);
    ExactDivision(d.coeff, m);
    MergeScale(d.coeff / m, e - d.exp, d.exp, d.coeff);
  }

  lemma ExactDivision(t: nat, m: int)
    requires t > 0 && m > 0 && t % m == 0
    ensures t / m > 0 && (t / m) * m == t
  {
    DivMod(t, m);
    DivBounds(t, m, 1);
  }

  lemma MergeScale(c: nat, j: nat, f: int, t: nat)
    requires c * Pow10(j) == t
    ensures c as real * Ten(f + j) == t as real * Ten(f)
  {
    hide Ten, Pow10;
    TenAddNat(f, j);
    MultiplyBoth(c as real, Ten(f), Pow10(j) as real);
    assert (c * Pow10(j)) as real == c as real * Pow10(j) as real;
  }

  lemma QuotientBelow(p: Params, d: Decimal, e: int)
    requires p.Valid() && d.Finite? && d.coeff > 0 && d.exp < e && AdjustedExp(d) - p.prec + 1 <= e
    ensures 0 <= d.coeff / Pow10(e - d.exp) < Pow10(p.prec)
    ensures d.coeff < Pow10(p.prec) * Pow10(e - d.exp)
  {
    var m := Pow10(e - d.exp);
    NumDigitsBounds(d.coeff);
    PowMonotonic(10, NumDigits(d.coeff), p.prec + (e - d.exp));
    PowAdd(10, p.prec, e - d.exp);
    DivBounds(d.coeff, m, Pow10(p.prec));
    DivMonotonic(0, d.coeff, m);
  }

  lemma UnchangedIsRepresentable(p: Params, d: Decimal)
    requires p.Valid() && d.Finite? && d.coeff > 0 && Magnitude(d) > 0.0
    requires Adjusted(Magnitude(d)) == AdjustedExp(d) <= p.emax && d.exp >= p.Quantum(AdjustedExp(d))
    ensures RoundsCorrectly(p, d.sign, Magnitude(d), FixSpec(p, d))
  {
    hide Ten, Pow10, NumDigits, TailOfReal, RoundReal, RoundedCoeff, InexactSignals, CorrectlyRounded;
    MultipleTail(d, p.Quantum(AdjustedExp(d)));
    assert Representable(p, Magnitude(d));
    var o := FixSpec(p, d);
    assert o.signals <= {Subnormal, Clamped};
    if p.clamp == 1 && d.exp > p.Etop() {
      RescaleProduct(d.coeff, d.exp, p.Etop());
      assert o.result == Finite(d.sign, d.coeff * Pow10(d.exp - p.Etop()), p.Etop());
    } else {
      assert o.result == d;
    }
  }

  // A number whose exponent is not below e is a whole multiple of 10**e.
  lemma MultipleTail(d: Decimal, e: int)
    requires d.Finite? && d.exp >= e
    ensures TailOfReal(Magnitude(d) / Ten(e)) == Zero
  {
    hide Ten, Pow10;
    RescaleProduct(d.coeff, d.exp, e);
    var n := d.coeff * Pow10(d.exp - e);
    QuotientIs(Magnitude(d), Ten(e), n as real);
    assert (n as real).Floor == n;
  }

  // The result always fits the context.
  lemma FixFits(p: Params, d: Decimal)
    requires p.Valid()
    ensures Fits(p, FixSpec(p, d).result)
  {
    OverflowFits(p, 0);
    OverflowFits(p, 1);
    if d.Finite? && d.coeff > 0 && AdjustedExp(d) <= p.emax {
      var e := p.Quantum(AdjustedExp(d));
      if d.exp < e {
        FixRoundFits(p, d, e);
      } else if p.clamp == 1 && d.exp > p.Etop() {
        PaddedDigits(d.coeff, d.exp - p.Etop());
      }
    } else {
      assert NumDigits(0) == 1;
    }
  }

  lemma OverflowFits(p: Params, sign: Sign)
    requires p.Valid()
    ensures Fits(p, OverflowResult(p, sign))
  {
    assert Pow10(p.prec) == 10 * Pow10(p.prec - 1);
    NumDigitsUnique(Pow10(p.prec) - 1, p.prec);
  }

  // ----- the range of a context, and overflow -----

  // Etiny is the last digit of the smallest normal number, 10**Emin, written to the
  // full precision, and Etop that of the largest one; a number is rounded at the last
  // digit of its full precision, but not below Etiny.
  lemma RangeEnds(p: Params, k: int)
    requires p.Valid()
    ensures AdjustedExp(Finite(0, Pow10(p.prec - 1), p.Etiny())) == p.emin
    ensures AdjustedExp(Finite(0, Pow10(p.prec) - 1, p.Etop())) == p.emax
    ensures AdjustedExp(Finite(0, Pow10(p.prec - 1), p.Quantum(k))) == if k < p.emin then p.emin else k
  {
    assert Pow10(p.prec) == 10 * Pow10(p.prec - 1);
    NumDigitsUnique(Pow10(p.prec) - 1, p.prec);
    NumDigitsUnique(Pow10(p.prec - 1), p.prec);
  }

  // Overflow is the rounding of the mode itself, from above the largest coefficient:
  // to infinity when that goes away from zero, and else to the largest number that fits.
  lemma OverflowIsRounding(p: Params, sign: Sign)
    requires p.Valid()
    ensures var r := OverflowResult(p, sign);
      && !r.NaN? && r.sign == sign && Fits(p, r)
      && (r.Infinity? <==> Away(p.rounding, sign, Pow10(p.prec) - 1, AboveHalf))
      && (r.Finite? ==> r.coeff > 0 && forall d: Decimal :: d.Finite? && Fits(p, d) ==> Magnitude(d) <= Magnitude(r))
  {
    OverflowFits(p, sign);
    LastDigitNine(p.prec);
    var r := OverflowResult(p, sign);
    if r.Finite? {
      forall d: Decimal | d.Finite? && Fits(p, d) ensures Magnitude(d) <= Magnitude(r) {
        LargestFits(p, d, sign);
      }
    }
  }

  lemma LastDigitNine(prec: nat)
    requires prec > 0
    ensures Pow10(prec) - 1 > 0 && (Pow10(prec) - 1) % 5 == 4
  {
    assert Pow10(prec) == 10 * Pow10(prec - 1);
    TenTail(Pow10(prec - 1));
  }

  lemma TenTail(P: int)
    requires P > 0
    ensures (10 * P - 1) % 5 == 4
  {
  }

  lemma LargestFits(p: Params, d: Decimal, sign: Sign)
    requires p.Valid() && d.Finite? && Fits(p, d)
    ensures Magnitude(d) <= Magnitude(Finite(sign, Pow10(p.prec) - 1, p.Etop()))
  {
    hide *;
    var top, P := p.Etop(), Pow10(p.prec);
    MagnitudeIs(d.sign, d.coeff, d.exp);
    MagnitudeIs(sign, P - 1, top);
    if d.coeff > 0 && d.exp >= top {
      PaddedFits(p, d);
      SmallerProduct(d.coeff * Pow10(d.exp - top), P - 1, Ten(top), Ten(top));
    } else {
      ShortFits(p, d);
      SmallerProduct(d.coeff, P - 1, Ten(if d.coeff == 0 then top else d.exp), Ten(top));
    }
  }

  lemma MagnitudeIs(sign: Sign, c: nat, e: int)
    ensures Ten(e) > 0.0 && Magnitude(Finite(sign, c, e)) == c as real * Ten(e)
    ensures c == 0 ==> Magnitude(Finite(sign, c, e)) == 0.0
  {
  }

  // A number that fits, written at the largest exponent or below it.
  lemma PaddedFits(p: Params, d: Decimal)
    requires p.Valid() && d.Finite? && Fits(p, d) && d.coeff > 0 && d.exp >= p.Etop()
    ensures 0 <= d.coeff * Pow10(d.exp - p.Etop()) <= Pow10(p.prec) - 1
    ensures Magnitude(d) == (d.coeff * Pow10(d.exp - p.Etop())) as real * Ten(p.Etop())
  {
    hide *;
    var j := d.exp - p.Etop();
    DigitsToTop(p, d);
    PaddedDigits(d.coeff, j);
    NumDigitsBounds(d.coeff * Pow10(j));
    Pow10Monotonic(NumDigits(d.coeff) + j, p.prec);
    RescaleProduct(d.coeff, d.exp, p.Etop());
    MagnitudeIs(d.sign, d.coeff, d.exp);
  }

  lemma DigitsToTop(p: Params, d: Decimal)
    requires d.Finite? && Fits(p, d) && d.coeff > 0
    ensures NumDigits(d.coeff) + (d.exp - p.Etop()) <= p.prec
  {
    hide NumDigits;
  }

  lemma Pow10Monotonic(m: nat, n: nat)
    requires m <= n
    ensures Pow10(m) <= Pow10(n)
  {
    PowMonotonic(10, m, n);
  }

  lemma ShortFits(p: Params, d: Decimal)
    requires p.Valid() && d.Finite? && Fits(p, d) && (d.coeff == 0 || d.exp < p.Etop())
    ensures d.coeff <= Pow10(p.prec) - 1
    ensures d.coeff > 0 ==> Ten(d.exp) <= Ten(p.Etop())
  {
    NumDigitsBounds(d.coeff);
    PowMonotonic(10, NumDigits(d.coeff), p.prec);
    if d.coeff > 0 {
      TenMonotonic(d.exp, p.Etop());
    }
  }

  lemma SmallerProduct(a: int, b: int, u: real, v: real)
    requires 0 <= a <= b && 0.0 < u <= v
    ensures a as real * u <= b as real * v
  {
    assert b as real * (v - u) >= 0.0;
    assert (b - a) as real * u >= 0.0;
  }

  // What every signal but Inexact and Overflow says about a finite nonzero number and
  // its result (FixInexact is about Inexact, OverflowIsRounding about Overflow).
  lemma FixSignals(p: Params, d: Decimal)
    requires p.Valid() && d.Finite? && d.coeff > 0
    ensures SignalsFollow(p, d, FixSpec(p, d))
  {
    AdjustedOfDecimal(d);
    BelowDecade(Magnitude(d), p.emin);
    var e := p.Quantum(AdjustedExp(d));
    if AdjustedExp(d) <= p.emax && d.exp < e {
      FixRoundSignals(p, d, e);
    } else {
      hide Ten, NumDigits, FixRound, Magnitude, AdjustedExp, Adjusted, Pow;
    }
  }

  ghost predicate SignalsFollow(p: Params, d: Decimal, o: Outcome)
    requires p.Valid() && d.Finite?
  {
    && (Subnormal in o.signals <==> Magnitude(d) < Ten(p.emin))
    && (Underflow in o.signals <==> Subnormal in o.signals && Inexact in o.signals)
    && if Overflow in o.signals then
         o.result == OverflowResult(p, d.sign) && {Rounded, Inexact} <= o.signals && Clamped !in o.signals
       else
         && o.result.Finite?
         && (Rounded in o.signals <==> o.result.exp > d.exp)
         && (Clamped in o.signals <==> o.result.coeff == 0 || o.result.exp < d.exp)
  }

  lemma FixRoundSignals(p: Params, d: Decimal, e: int)
    requires p.Valid() && d.Finite? && d.coeff > 0 && d.exp < e && AdjustedExp(d) - p.prec + 1 <= e
    requires AdjustedExp(d) < p.emin <==> Magnitude(d) < Ten(p.emin)
    ensures SignalsFollow(p, d, FixRound(p, d, e))
  {
    hide Ten, NumDigits, RoundSticky, Magnitude, AdjustedExp, Pow;
    SpillIsInexact(p, d, e);
    LastDigitNine(p.prec);
  }

  // Rounding up to 10**prec loses something.
  lemma SpillIsInexact(p: Params, d: Decimal, e: int)
    requires p.Valid() && d.Finite? && d.coeff > 0 && d.exp < e && AdjustedExp(d) - p.prec + 1 <= e
    ensures RoundSticky(p.rounding, d.sign, d.coeff, Pow10(e - d.exp), false) == Pow10(p.prec) ==>
      d.coeff % Pow10(e - d.exp) != 0
  {
    QuotientBelow(p, d, e);
  }

  lemma PaddedDigits(c: nat, j: nat)
    requires c > 0
    ensures c * Pow10(j) > 0 && NumDigits(c * Pow10(j)) == NumDigits(c) + j
  {
    NumDigitsBounds(c);
    var n, P := NumDigits(c), Pow10(j);
    PowAdd(10, n, j);
    PowAdd(10, n - 1, j);
    MulOrder(c, Pow10(n), P);
    MulOrder(Pow10(n - 1), c, P);
    MulOrder(0, c, P);
    NumDigitsUnique(c * P, n + j);
  }

  lemma FixRoundFits(p: Params, d: Decimal, e: int)
    requires p.Valid() && d.Finite? && d.coeff > 0 && AdjustedExp(d) <= p.emax
    requires e == p.Quantum(AdjustedExp(d)) && d.exp < e
    ensures Fits(p, FixRound(p, d, e).result)
  {
    OverflowFits(p, d.sign);
    QuotientBelow(p, d, e);
    var c := RoundSticky(p.rounding, d.sign, d.coeff, Pow10(e - d.exp), false);
    assert Pow10(p.prec) == 10 * Pow10(p.prec - 1);
    if c == Pow10(p.prec) {
      NumDigitsUnique(Pow10(p.prec - 1), p.prec);
    } else {
      DigitsBelow(c, p.prec);
    }
  }

  lemma DigitsBelow(c: nat, k: nat)
    requires k > 0 && c < Pow10(k)
    ensures NumDigits(c) <= k
  {
    NumDigitsBounds(c);
    if NumDigits(c) > k {
      PowMonotonic(10, k, NumDigits(c) - 1);
    }
  }

  // Numbers that fit are left alone.
  lemma FixOfFitting(p: Params, d: Decimal)
    requires p.Valid() && Fits(p, d)
    ensures FixSpec(p, d).result == d && FixSpec(p, d).signals <= {Subnormal}
  {
  }

  // Fixing twice is fixing once, and the second time raises nothing but Subnormal.
  lemma FixIdempotent(p: Params, d: Decimal)
    requires p.Valid()
    ensures var again := FixSpec(p, FixSpec(p, d).result);
      again.result == FixSpec(p, d).result && again.signals <= {Subnormal}
  {
    FixFits(p, d);
    FixOfFitting(p, FixSpec(p, d).result);
  }

  // Same number, whatever the exponent it is written with.
  ghost predicate SameNumber(a: Decimal, b: Decimal) {
    match a
    case Finite(s, _, _) => b.Finite? && s == b.sign && Magnitude(a) == Magnitude(b)
    case Infinity(_) => a == b
    case NaN => a == b
  }

  // Inexact is raised exactly when the number changes.
  lemma FixInexact(p: Params, d: Decimal)
    requires p.Valid()
    ensures Inexact in FixSpec(p, d).signals <==> !SameNumber(d, FixSpec(p, d).result)
  {
    if d.Finite? && d.coeff > 0 {
      FixRounds(p, d);
      AdjustedOfDecimal(d);
      if !Representable(p, Magnitude(d)) {
        InexactChanges(p, d);
      }
    } else if d.Finite? {
      assert forall e :: Magnitude(Finite(d.sign, 0, e)) == 0.0;
    }
  }

  // A number that fits is representable, so an unrepresentable one has changed.
  lemma InexactChanges(p: Params, d: Decimal)
    requires p.Valid() && d.Finite? && d.coeff > 0 && Magnitude(d) > 0.0
    requires !Representable(p, Magnitude(d))
    ensures !SameNumber(d, FixSpec(p, d).result)
  {
    FixFits(p, d);
    var r := FixSpec(p, d).result;
    hide FixSpec, Ten, TailOfReal, NumDigits;
    if SameNumber(d, r) {
      assert r.coeff > 0 by { assert Magnitude(Finite(r.sign, 0, r.exp)) == 0.0; }
      FittingIsRepresentable(p, r);
    }
  }

  lemma FittingIsRepresentable(p: Params, r: Decimal)
    requires p.Valid() && r.Finite? && r.coeff > 0 && Fits(p, r)
    ensures Magnitude(r) > 0.0 && Representable(p, Magnitude(r))
  {
    hide Ten, TailOfReal, NumDigits;
    AdjustedOfDecimal(r);
    MultipleTail(r, p.Quantum(AdjustedExp(r)));
  }

  // ----- the exponent of a result -----

  // A number the context can hold at all is held at the exponent nearest to its own:
  // no representation of it that fits is closer.
  lemma FixNearestExponent(p: Params, d: Decimal, other: Decimal)
    requires p.Valid() && d.Finite? && Fits(p, other) && SameNumber(d, other)
    ensures var r := FixSpec(p, d).result;
      SameNumber(d, r) && Gap(d.exp, r.exp) <= Gap(d.exp, other.exp)
  {
    hide FixSpec, Magnitude;
    ZeroOnly(d, other);
    if d.coeff == 0 {
      FixZeros(p, d);
    } else {
      SameNumberStays(p, d, other);
      NearestNonzero(p, d, other);
    }
  }

  lemma SameNumberStays(p: Params, d: Decimal, other: Decimal)
    requires p.Valid() && d.Finite? && d.coeff > 0 && other.Finite? && other.coeff > 0
    requires Fits(p, other) && SameNumber(d, other)
    ensures AdjustedExp(d) == AdjustedExp(other)
    ensures SameNumber(d, FixSpec(p, d).result) && Inexact !in FixSpec(p, d).signals
  {
    hide Fits, FixSpec, Magnitude, Ten, TailOfReal, NumDigits, AdjustedExp, Representable;
    AdjustedOfDecimal(d);
    AdjustedOfDecimal(other);
    FittingIsRepresentable(p, other);
    FixRounds(p, d);
  }

  function Gap(a: int, b: int): int { if a < b then b - a else a - b }

  lemma ZeroOnly(a: Decimal, b: Decimal)
    requires a.Finite? && b.Finite? && Magnitude(a) == Magnitude(b)
    ensures a.coeff == 0 <==> b.coeff == 0
  {
    ProductSign(a.coeff as real, Ten(a.exp));
    ProductSign(b.coeff as real, Ten(b.exp));
  }

  lemma NearestNonzero(p: Params, d: Decimal, other: Decimal)
    requires p.Valid() && d.Finite? && d.coeff > 0 && other.Finite? && other.coeff > 0 && Fits(p, other)
    requires AdjustedExp(d) == AdjustedExp(other) && FixSpec(p, d).result.Finite?
    requires Inexact !in FixSpec(p, d).signals
    ensures Gap(d.exp, FixSpec(p, d).result.exp) <= Gap(d.exp, other.exp)
  {
    var e := p.Quantum(AdjustedExp(d));
    if d.exp < e {
      SpillIsInexact(p, d, e);
    }
  }

  // A zero keeps its sign, and moves only when its exponent does not fit.
  lemma FixZeros(p: Params, d: Decimal)
    requires p.Valid() && d.Finite? && d.coeff == 0
    ensures var o := FixSpec(p, d);
      && SameNumber(d, o.result) && o.signals == (if Fits(p, d) then {} else {Clamped})
      && forall e: int :: Fits(p, Finite(d.sign, 0, e)) ==> Gap(d.exp, o.result.exp) <= Gap(d.exp, e)
  {
    assert NumDigits(0) == 1;
    assert forall e :: Magnitude(Finite(d.sign, 0, e)) == 0.0;
  }

  // ----- the sticky digit -----

  lemma BumpDigits(t: nat)
    requires t > 0
    ensures NumDigits(Bump(t)) == NumDigits(t)
  {
    NumDigitsBounds(t);
    var n := NumDigits(t);
    assert Pow10(n) == 10 * Pow10(n - 1);
    NumDigitsUnique(Bump(t), n);
  }

  // The trick shared by addition, division and square root: when x lies strictly
  // between t and t + 1 units of 10**f, and t has more than prec digits, fixing
  // Bump(t) units rounds x itself correctly, with the right signals.
  lemma StickyFix(p: Params, sign: Sign, x: real, t: nat, f: int)
    requires p.Valid() && t > 0 && NumDigits(t) > p.prec
    requires t as real * Ten(f) < x < (t + 1) as real * Ten(f)
    ensures x > 0.0 && !Representable(p, x)
    ensures RoundsCorrectly(p, sign, x, FixSpec(p, Finite(sign, Bump(t), f)))
  {
    AdjustedOfTruncation(x, t, f);
    BumpDigits(t);
    var d := Finite(sign, Bump(t), f);
    var k := AdjustedExp(d);
    var e := p.Quantum(k);
    StickyRound(p, sign, x, t, f, e);
  }

  lemma StickyRound(p: Params, sign: Sign, x: real, t: nat, f: int, e: int)
    requires t > 0 && f < e && t as real * Ten(f) < x < (t + 1) as real * Ten(f)
    ensures x / Ten(e) >= 0.0
    ensures TailOfReal(x / Ten(e)) != Zero && Bump(t) % Pow10(e - f) != 0
    ensures RoundReal(p.rounding, sign, x / Ten(e)) == RoundSticky(p.rounding, sign, Bump(t), Pow10(e - f), false)
  {
    hide *;
    TruncationFraction(x, t, f);
    RoundAtQuantum(p.rounding, sign, x, x / Ten(f), t, f, e);
    TenMultiple(e - f);
    BumpRounds(p.rounding, sign, t, Pow10(e - f));
  }

  lemma TruncationFraction(x: real, t: nat, f: int)
    requires t as real * Ten(f) < x < (t + 1) as real * Ten(f)
    ensures t as real < x / Ten(f) < t as real + 1.0
    ensures x == (x / Ten(f)) * Ten(f)
  {
    hide Ten;
    FractionBetween(x, t as real, Ten(f));
  }

  lemma FractionBetween(x: real, t: real, u: real)
    requires u > 0.0 && t * u < x < (t + 1.0) * u
    ensures t < x / u < t + 1.0
    ensures x == (x / u) * u
  {
    var next := t + 1.0;
    assert x < next * u;
    QuotientBetween(x, t, next, u);
  }

  lemma QuotientBetween(x: real, t: real, next: real, u: real)
    requires u > 0.0 && t * u < x < next * u
    ensures t < x / u < next
    ensures x == (x / u) * u
  {
    var y := x / u;
    assert y * u == x;
    assert (y - t) * u == x - t * u;
    assert (next - y) * u == next * u - x;
    ProductSign(y - t, u);
    ProductSign(next - y, u);
  }

  lemma ProductSign(a: real, b: real)
    requires b > 0.0
    ensures a > 0.0 <==> a * b > 0.0
    ensures a < 0.0 <==> a * b < 0.0
  {
  }
}
