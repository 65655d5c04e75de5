// What the square root of a decimal must be, stated by squares of rational numbers
// alone, and how it follows from a truncated root.
module RootSquares {
  import opened Powers
  import opened Numerals
  import opened Rounding
  import opened Scale
  import opened DecimalFix

  // sqrt always rounds half to even, whatever the context says.
  function RootParams(p: Params): Params { p.(rounding := HalfEven) }

  // n units of 10**f is the root truncated to that place, by squares alone.
  ghost predicate TruncatedRoot(d: Decimal, n: nat, f: int)
    requires d.Finite?
  {
    (n * n) as real * Ten(2 * f) <= Magnitude(d) < ((n + 1) * (n + 1)) as real * Ten(2 * f)
  }

  ghost predicate ExactSquare(d: Decimal, n: nat, f: int)
    requires d.Finite?
  {
    (n * n) as real * Ten(2 * f) == Magnitude(d)
  }

  // k units of u
  ghost function Units(k: int, u: real): real { k as real * u }

  // The square of k units of 10**e.
  ghost function Squared(k: int, e: int): real { Units(k * k, Ten(2 * e)) }

  // r is the root of d rounded to its own last place, to an even coefficient in a tie.
  ghost predicate NearestRoot(d: Decimal, r: Decimal)
    requires d.Finite? && r.Finite?
  {
    var m := 4.0 * Magnitude(d);
    && (r.coeff > 0 ==> Squared(2 * r.coeff - 1, r.exp) <= m)
    && m <= Squared(2 * r.coeff + 1, r.exp)
    && (m == Squared(2 * r.coeff - 1, r.exp) || m == Squared(2 * r.coeff + 1, r.exp) ==> r.coeff % 2 == 0)
  }

  // r is written to the full precision, or to the smallest exponent there is.
  predicate FullPrecision(p: Params, r: Decimal)
    requires r.Finite?
  {
    && NumDigits(r.coeff) <= p.prec && p.Etiny() <= r.exp
    && (NumDigits(r.coeff) == p.prec || r.exp == p.Etiny())
  }

  // The outcome of the square root of a positive number: the root itself, or the root
  // rounded to full precision, or infinity when that is above every number that fits.
  ghost predicate RootBySquares(p: Params, d: Decimal, o: Outcome)
    requires d.Finite? && p.Valid()
  {
    match o.result
    case NaN => false
    case Infinity(sign) =>
      sign == 0 && {Inexact, Overflow} <= o.signals
      && Squared(2 * Pow10(p.prec) - 1, p.Etop()) <= 4.0 * Magnitude(d)
    case Finite(sign, coeff, exp) =>
      && sign == 0
      && (Inexact !in o.signals ==> Squared(coeff, exp) == Magnitude(d))
      && (Inexact in o.signals ==> NearestRoot(d, o.result) && FullPrecision(p, o.result))
  }

  lemma UnitsOrder(a: int, b: int, u: real)
    requires u > 0.0
    ensures a < b <==> Units(a, u) < Units(b, u)
    ensures a == b <==> Units(a, u) == Units(b, u)
  {
    RealOrder(a as real, b as real, u);
  }

  lemma Quadruple(n: int, w: real)
    ensures Units(4 * n, w) == 4.0 * Units(n, w)
  {
  }

  lemma Tenfold(k: int, u: real)
    ensures Units(k, 10.0 * u) == Units(10 * k, u)
  {
    RealAssoc(k as real, 10.0, u);
    assert (10 * k) as real == k as real * 10.0;
  }

  // ----- rounding half to even, in half units -----

  // c units of u are x rounded half to even.
  ghost predicate NearHalves(x: real, c: nat, u: real) {
    && Units(2 * c - 1, u) <= 2.0 * x <= Units(2 * c + 1, u)
    && (2.0 * x == Units(2 * c - 1, u) || 2.0 * x == Units(2 * c + 1, u) ==> c % 2 == 0)
  }

  lemma HalfEvenNear(y: real, n: nat)
    requires y >= 0.0 && n == RoundReal(HalfEven, 0, y)
    ensures (2 * n - 1) as real <= 2.0 * y <= (2 * n + 1) as real
    ensures 2.0 * y == (2 * n - 1) as real || 2.0 * y == (2 * n + 1) as real ==> n % 2 == 0
  {
  }

  lemma InHalves(x: real, y: real, k: int, u: real)
    requires u > 0.0 && y * u == x
    ensures k as real < 2.0 * y <==> Units(k, u) < 2.0 * x
    ensures k as real == 2.0 * y <==> Units(k, u) == 2.0 * x
  {
    var twice := 2.0 * y;
    assert twice * u == 2.0 * x;
    RealOrder(k as real, twice, u);
  }

  lemma NearInUnits(x: real, n: nat, u: real)
    requires x > 0.0 && u > 0.0 && x / u >= 0.0 && n == RoundReal(HalfEven, 0, x / u)
    ensures NearHalves(x, n, u)
  {
    var y := x / u;
    RealQuotient(x, u);
    HalfEvenNear(y, n);
    hide RoundReal, Units;
    InHalves(x, y, 2 * n - 1, u);
    InHalves(x, y, 2 * n + 1, u);
  }

  // A coefficient that reaches the next power of ten moves up one place.
  lemma NearAfterCarry(x: real, n: nat, c: nat, u: real)
    requires n == 10 * c && c > 0 && u > 0.0 && NearHalves(x, n, u)
    ensures NearHalves(x, c, 10.0 * u)
  {
    hide Units;
    Tenfold(2 * c - 1, u);
    Tenfold(2 * c + 1, u);
    UnitsOrder(10 * (2 * c - 1), 2 * n - 1, u);
    UnitsOrder(2 * n + 1, 10 * (2 * c + 1), u);
  }

  // Only one coefficient at a given exponent is the nearest root.
  lemma NearestRootUnique(d: Decimal, a: nat, b: nat, e: int)
    requires d.Finite? && NearestRoot(d, Finite(0, a, e)) && NearestRoot(d, Finite(0, b, e))
    ensures a == b
  {
    hide Units, Ten, Magnitude;
    if a < b {
      HalvesApart(a, b, e);
    } else if b < a {
      HalvesApart(b, a, e);
    }
  }

  lemma HalvesApart(a: nat, b: nat, e: int)
    requires a < b
    ensures Squared(2 * a + 1, e) < Squared(2 * b - 1, e) || (b == a + 1 && 2 * a + 1 == 2 * b - 1)
  {
    TenGrows(2 * e, 2 * e);
    SquareOfOrder(2 * a + 1, 2 * b - 1);
    UnitsOrder((2 * a + 1) * (2 * a + 1), (2 * b - 1) * (2 * b - 1), Ten(2 * e));
  }

  // ----- correct rounding, in half units -----

  lemma TenUnits(f: int, k: nat)
    ensures Ten(f + k) == Units(Pow10(k), Ten(f))
  {
    hide Pow10;
    TenAddNat(f, k);
  }

  lemma TenGrows(a: int, b: int)
    ensures 0.0 < Ten(a) && (a <= b ==> Ten(a) <= Ten(b))
  {
    if a < b {
      TenMonotonic(a, b);
    }
  }

  lemma TwiceUnits(n: int, u: real)
    ensures Units(2 * n, u) == 2.0 * Units(n, u)
  {
  }

  // The rounded coefficient has at most prec digits, or is 10**prec; and it has prec
  // digits when the quantum is not the smallest exponent.
  lemma CoefficientRange(p: Params, x: real, n: nat)
    requires p.Valid() && x > 0.0 && NearHalves(x, n, Ten(p.Quantum(Adjusted(x))))
    ensures n <= Pow10(p.prec)
    ensures p.Quantum(Adjusted(x)) > p.Etiny() ==> Pow10(p.prec - 1) <= n
  {
    var k := Adjusted(x);
    var q := p.Quantum(k);
    assert Ten(k) <= x < Ten(k + 1);
    hide Ten, Pow10, Units;
    TenGrows(q, q);
    TenGrows(k + 1, q + p.prec);
    TenUnits(q, p.prec);
    TwiceUnits(Pow10(p.prec), Ten(q));
    UnitsOrder(2 * n - 1, 2 * Pow10(p.prec), Ten(q));
    if q > p.Etiny() {
      TenUnits(q, p.prec - 1);
      TwiceUnits(Pow10(p.prec - 1), Ten(q));
      UnitsOrder(2 * Pow10(p.prec - 1), 2 * n + 1, Ten(q));
    }
  }

  // Where the exact number is at least 10**(emax + 1), or was rounded up to that.
  lemma OverflowHalves(p: Params, x: real)
    requires p.Valid() && x > 0.0 && (Adjusted(x) > p.emax || Spilled(p, x))
    ensures Units(2 * Pow10(p.prec) - 1, Ten(p.Etop())) <= 2.0 * x
  {
    var k, top := Adjusted(x), p.Etop();
    assert Ten(k) <= x;
    hide Ten, Pow10, Units;
    TenGrows(top, top);
    if k > p.emax {
      TenGrows(top + p.prec, k);
      TenUnits(top, p.prec);
      TwiceUnits(Pow10(p.prec), Ten(top));
      UnitsOrder(2 * Pow10(p.prec) - 1, 2 * Pow10(p.prec), Ten(top));
    } else {
      TenGrows(top, p.Quantum(k));
      UnitsMonotonic(2 * Pow10(p.prec) - 1, Ten(top), Ten(p.Quantum(k)));
    }
  }

  ghost predicate Spilled(p: Params, x: real)
    requires x > 0.0
  {
    p.Quantum(Adjusted(x)) + 1 > p.Etop() && NearHalves(x, Pow10(p.prec), Ten(p.Quantum(Adjusted(x))))
  }

  lemma UnitsMonotonic(k: int, u: real, v: real)
    requires k > 0 && u <= v
    ensures Units(k, u) <= Units(k, v)
  {
    assert k as real * (v - u) >= 0.0;
  }

  // The outcome of a correct half-even rounding of a number that does not fit.
  ghost predicate HalvesOutcome(p: Params, x: real, o: Outcome)
    requires p.Valid() && x > 0.0
  {
    Inexact in o.signals &&
    match o.result
    case NaN => false
    case Infinity(sign) =>
      sign == 0 && Overflow in o.signals && Units(2 * Pow10(p.prec) - 1, Ten(p.Etop())) <= 2.0 * x
    case Finite(sign, c, e) =>
      sign == 0 && NearHalves(x, c, Ten(e)) && FullPrecision(p, o.result) && p.Quantum(Adjusted(x)) <= e
  }

  lemma RoundsToHalves(p: Params, x: real, o: Outcome)
    requires p.Valid() && p.rounding == HalfEven && x > 0.0
    requires !Representable(p, x) && RoundsCorrectly(p, 0, x, o)
    ensures HalvesOutcome(p, x, o)
  {
    var q := p.Quantum(Adjusted(x));
    InexactOutcome(p, x, o);
    hide Ten, Pow10, Units, RoundReal, RoundedCoeff, NearHalves, Representable, RoundsCorrectly, NumDigits, Settle;
    TenGrows(q, q);
    var n := RoundedCoeff(p, 0, x);
    NearInUnits(x, n, Ten(q));
    if Adjusted(x) > p.emax || Spills(p, n, q) {
      OverflowHalves(p, x);
    } else {
      CoefficientRange(p, x, n);
      SettledHalves(p, x, n, q);
    }
  }

  // What correct rounding says about a number that does not fit.
  lemma InexactOutcome(p: Params, x: real, o: Outcome)
    requires p.Valid() && p.rounding == HalfEven && x > 0.0
    requires !Representable(p, x) && RoundsCorrectly(p, 0, x, o)
    ensures var q := p.Quantum(Adjusted(x));
      var n := RoundedCoeff(p, 0, x);
      && x / Ten(q) >= 0.0 && n == RoundReal(HalfEven, 0, x / Ten(q))
      && Inexact in o.signals
      && if Adjusted(x) > p.emax || Spills(p, n, q) then o.result == Infinity(0) && Overflow in o.signals
         else o.result == Settle(p, 0, n, q)
  {
    hide Ten, Pow10, RoundReal, Representable;
  }

  lemma SettledHalves(p: Params, x: real, n: nat, q: int)
    requires p.Valid() && x > 0.0 && NearHalves(x, n, Ten(q)) && !Spills(p, n, q)
    requires n <= Pow10(p.prec) && p.Etiny() <= q && (q > p.Etiny() ==> Pow10(p.prec - 1) <= n)
    ensures var r := Settle(p, 0, n, q);
      r.Finite? && r.sign == 0 && NearHalves(x, r.coeff, Ten(r.exp)) && FullPrecision(p, r) && q <= r.exp
  {
    if n == Pow10(p.prec) {
      assert n == 10 * Pow10(p.prec - 1);
      TenSucc(q);
      TenGrows(q, q);
      hide Ten, Pow10, NearHalves, Units;
      NumDigitsUnique(Pow10(p.prec - 1), p.prec);
      NearAfterCarry(x, n, Pow10(p.prec - 1), Ten(q));
    } else {
      hide Ten, NearHalves, Units;
      DigitsBelow(n, p.prec);
      if q > p.Etiny() {
        NumDigitsUnique(n, p.prec);
      }
    }
  }

  // ----- the order of halves is the order of their squares -----

  // a is to b as c is to d: less, equal or greater.
  ghost predicate SameSide(a: real, b: real, c: real, d: real) {
    (a < b <==> c < d) && (a == b <==> c == d)
  }

  // x stands for the root: the root itself when it ends at 10**f, and else half a unit
  // above the truncated one.
  lemma SquaresAgree(d: Decimal, t: nat, f: int, x: real, k: nat, e: int)
    requires d.Finite? && e > f && TruncatedRoot(d, t, f)
    requires 2.0 * x == Units(if ExactSquare(d, t, f) then 2 * t else 2 * t + 1, Ten(f))
    ensures SameSide(Units(k, Ten(e)), 2.0 * x, Squared(k, e), 4.0 * Magnitude(d))
  {
    hide *;
    var K := k * Pow10(e - f);
    HalfUnits(k, e, f);
    TruncatedIs(d, t, f);
    if ExactSquare(d, t, f) {
      ExactSides(K, t, Ten(f), Ten(2 * f), Magnitude(d));
    } else {
      BetweenSides(K, t, Ten(f), Ten(2 * f), Magnitude(d));
    }
  }

  // k half units of 10**e are an even number of half units of a smaller place.
  lemma HalfUnits(k: nat, e: int, f: int)
    requires e > f
    ensures var K := k * Pow10(e - f);
      && K >= 0 && K % 2 == 0 && Units(k, Ten(e)) == Units(K, Ten(f))
      && Squared(k, e) == Units(K * K, Ten(2 * f))
  {
    hide Ten, Pow10;
    TenMultiple(e - f);
    EvenProduct(k, Pow10(e - f));
    RescaleProduct(k, e, f);
    RescaleProduct(k * k, 2 * e, 2 * f);
    SquareOfScaled(k, e - f);
  }

  lemma TruncatedIs(d: Decimal, t: nat, f: int)
    requires d.Finite? && TruncatedRoot(d, t, f)
    ensures Ten(f) > 0.0 && Ten(2 * f) > 0.0
    ensures Units(t * t, Ten(2 * f)) <= Magnitude(d) < Units((t + 1) * (t + 1), Ten(2 * f))
    ensures ExactSquare(d, t, f) <==> Units(t * t, Ten(2 * f)) == Magnitude(d)
  {
    TenGrows(f, 2 * f);
    TenGrows(2 * f, f);
    hide Ten, Magnitude;
  }

  lemma SquareOfScaled(k: nat, j: nat)
    ensures (k * k) * Pow10(2 * j) == (k * Pow10(j)) * (k * Pow10(j))
  {
    PowAdd(10, j, j);
    var P := Pow10(j);
    MulAssoc(k * k, P, P);
    MulAssoc(k, k, P);
    MulAssoc(k, P, k * P);
    assert (k * k) * P == k * (k * P) && P * (k * P) == (k * P) * P;
  }

  lemma EvenProduct(k: nat, P: nat)
    requires P % 2 == 0
    ensures k * P >= 0 && (k * P) % 2 == 0
  {
    MulAssoc(k, P / 2, 2);
    assert P == P / 2 * 2;
    DivAddMultiple(0, k * (P / 2), 2);
  }

  lemma ExactSides(K: int, t: nat, u: real, w: real, M: real)
    requires K >= 0 && u > 0.0 && w > 0.0 && M == Units(t * t, w)
    ensures SameSide(Units(K, u), Units(2 * t, u), Units(K * K, w), 4.0 * M)
  {
    hide Units;
    UnitsOrder(K, 2 * t, u);
    SquareSide(K, t, w);
  }

  // Comparing an integer with 2t by their squares.
  lemma SquareSide(K: int, t: nat, w: real)
    requires K >= 0 && w > 0.0
    ensures K < 2 * t <==> Units(K * K, w) < 4.0 * Units(t * t, w)
    ensures K == 2 * t <==> Units(K * K, w) == 4.0 * Units(t * t, w)
  {
    hide Units;
    SquareOfOrder(K, 2 * t);
    FourSquares(t);
    Quadruple(t * t, w);
    UnitsOrder(K * K, 4 * (t * t), w);
  }

  // K is even, so it is not 2t + 1.
  lemma BetweenSides(K: int, t: nat, u: real, w: real, M: real)
    requires K >= 0 && K % 2 == 0 && u > 0.0 && w > 0.0
    requires Units(t * t, w) < M < Units((t + 1) * (t + 1), w)
    ensures SameSide(Units(K, u), Units(2 * t + 1, u), Units(K * K, w), 4.0 * M)
  {
    hide Units;
    UnitsOrder(K, 2 * t + 1, u);
    SquareSide(K, t, w);
    SquareSide(K, t + 1, w);
  }

  lemma FourSquares(t: nat)
    ensures (2 * t) * (2 * t) == 4 * (t * t)
  {
  }

  lemma SquareOfOrder(a: int, b: int)
    requires a >= 0 && b >= 0
    ensures a < b <==> a * a < b * b
    ensures a == b <==> a * a == b * b
  {
    if a < b {
      MulMonotonic(a, b - 1, a, b - 1);
      assert (b - 1) * (b - 1) == b * b - 2 * b + 1;
    } else if b < a {
      MulMonotonic(b, a - 1, b, a - 1);
      assert (a - 1) * (a - 1) == a * a - 2 * a + 1;
    }
  }

  // ----- from the truncated root to the rounded one -----

  // The number handed to the last rounding is the truncated root t units of 10**f when
  // that is exact, and t bumped when it is not.
  ghost predicate BeforeFix(p: Params, d: Decimal, root: Decimal, t: nat, f: int)
    requires d.Finite?
  {
    && NumDigits(t) == p.prec + 1 && TruncatedRoot(d, t, f)
    && root.Finite? && root.sign == 0
    && (ExactSquare(d, t, f) ==> Magnitude(root) == Units(t, Ten(f)))
    && (!ExactSquare(d, t, f) ==> root == Finite(0, Bump(t), f))
  }

  lemma BeforeFixParts(p: Params, d: Decimal, root: Decimal, t: nat, f: int)
    requires p.Valid() && d.Finite? && BeforeFix(p, d, root, t, f)
    ensures NumDigits(t) == p.prec + 1 && TruncatedRoot(d, t, f) && RootParams(p).Valid()
    ensures root.Finite? && root.sign == 0
    ensures ExactSquare(d, t, f) ==> Magnitude(root) == Units(t, Ten(f))
    ensures !ExactSquare(d, t, f) ==> root == Finite(0, Bump(t), f)
  {
  }

  // A real number that rounds as the root does.
  lemma StandIn(p: Params, d: Decimal, root: Decimal, t: nat, f: int) returns (x: real)
    requires p.Valid() && d.Finite? && BeforeFix(p, d, root, t, f)
    ensures x > 0.0 && RoundsCorrectly(RootParams(p), 0, x, FixSpec(RootParams(p), root))
    ensures 2.0 * x == Units(if ExactSquare(d, t, f) then 2 * t else 2 * t + 1, Ten(f))
    ensures ExactSquare(d, t, f) ==> x == Units(t, Ten(f))
    ensures !ExactSquare(d, t, f) ==> !Representable(RootParams(p), x)
    ensures f < p.Quantum(Adjusted(x))
  {
    x := HalfUnit(if ExactSquare(d, t, f) then 2 * t else 2 * t + 1, Ten(f));
    hide *;
    BeforeFixParts(p, d, root, t, f);
    if ExactSquare(d, t, f) {
      ExactStandIn(p, root, t, f, x);
    } else {
      InexactStandIn(p, root, t, f, x);
    }
  }

  lemma ExactStandIn(p: Params, root: Decimal, t: nat, f: int, x: real)
    requires p.Valid() && NumDigits(t) == p.prec + 1 && 2.0 * x == Units(2 * t, Ten(f))
    requires root.Finite? && root.sign == 0 && Magnitude(root) == Units(t, Ten(f))
    ensures x > 0.0 && x == Units(t, Ten(f)) && f < p.Quantum(Adjusted(x))
    ensures RoundsCorrectly(RootParams(p), 0, x, FixSpec(RootParams(p), root))
  {
    LongPositive(p, t);
    hide FixSpec, RoundsCorrectly, Ten, NumDigits, Magnitude, Units;
    TenGrows(f, f);
    UnitSteps(t, Ten(f), x, 2 * t);
    AdjustedOfTruncation(x, t, f);
    PositiveRoot(root, x);
    FixRounds(RootParams(p), root);
  }

  lemma InexactStandIn(p: Params, root: Decimal, t: nat, f: int, x: real)
    requires p.Valid() && NumDigits(t) == p.prec + 1 && 2.0 * x == Units(2 * t + 1, Ten(f))
    requires root == Finite(0, Bump(t), f)
    ensures x > 0.0 && f < p.Quantum(Adjusted(x)) && !Representable(RootParams(p), x)
    ensures RoundsCorrectly(RootParams(p), 0, x, FixSpec(RootParams(p), root))
  {
    hide *;
    RootParamsFacts(p);
    LongPositive(p, t);
    TenGrows(f, f);
    UnitSteps(t, Ten(f), x, 2 * t + 1);
    AdjustedOfTruncation(x, t, f);
    QuantumAbove(p, f);
    StickyFix(RootParams(p), 0, x, t, f);
  }

  lemma RootParamsFacts(p: Params)
    requires p.Valid()
    ensures RootParams(p).Valid() && RootParams(p).prec == p.prec >= 1
  {
  }

  lemma QuantumAbove(p: Params, f: int)
    requires p.prec >= 1
    ensures f < p.Quantum(p.prec + 1 - 1 + f)
  {
  }

  // Half of n units.
  ghost function HalfUnit(n: int, u: real): (x: real)
    ensures 2.0 * x == Units(n, u)
  {
    Units(n, u) / 2.0
  }

  lemma LongPositive(p: Params, t: nat)
    requires p.prec >= 1 && NumDigits(t) == p.prec + 1
    ensures t > 0 && Pow10(p.prec) <= t
  {
    NumDigitsBounds(t);
  }

  lemma UnitSteps(t: nat, u: real, x: real, n: int)
    requires t > 0 && u > 0.0 && 2.0 * x == Units(n, u)
    ensures n == 2 * t ==> x == Units(t, u) && t as real * u <= x < (t + 1) as real * u
    ensures n == 2 * t + 1 ==> t as real * u < x < (t + 1) as real * u
  {
    TwiceUnits(t, u);
    TwiceUnits(t + 1, u);
    UnitsOrder(2 * t, n, u);
    UnitsOrder(n, 2 * (t + 1), u);
  }

  lemma PositiveRoot(root: Decimal, x: real)
    requires root.Finite? && Magnitude(root) == x > 0.0
    ensures root.coeff > 0
  {
  }

  lemma SquareUnits(c: nat, e: int)
    ensures Squared(c, e) == Units(c, Ten(e)) * Units(c, Ten(e))
  {
    TenAdd(e, e);
    hide Ten;
    var a, u := c as real, Ten(e);
    assert (c * c) as real == a * a;
    RealAssoc(a, u, a * u);
    RealAssoc(u, a, u);
    RealAssoc(a, u, u);
    RealAssoc(a, a, u * u);
    assert u * (a * u) == a * (u * u);
  }

  // A root that fits is kept, and it is exact.
  lemma KeptRoot(p: Params, d: Decimal, t: nat, f: int, x: real, o: Outcome)
    requires p.Valid() && d.Finite? && x == Units(t, Ten(f)) && x > 0.0 && ExactSquare(d, t, f)
    requires Representable(RootParams(p), x) && RoundsCorrectly(RootParams(p), 0, x, o)
    ensures RootBySquares(p, d, o)
  {
    hide Representable, Ten;
    SquareUnits(t, f);
    SquareUnits(o.result.coeff, o.result.exp);
    assert Units(o.result.coeff, Ten(o.result.exp)) == Magnitude(o.result);
  }

  lemma RootHalves(p: Params, x: real, o: Outcome)
    requires p.Valid() && x > 0.0 && !Representable(RootParams(p), x) && RoundsCorrectly(RootParams(p), 0, x, o)
    ensures HalvesOutcome(RootParams(p), x, o)
  {
    hide Representable, RoundsCorrectly, HalvesOutcome;
    RoundsToHalves(RootParams(p), x, o);
  }

  lemma RoundedRoot(p: Params, d: Decimal, t: nat, f: int, x: real, o: Outcome)
    requires p.Valid() && d.Finite? && x > 0.0 && NumDigits(t) == p.prec + 1 && TruncatedRoot(d, t, f)
    requires 2.0 * x == Units(if ExactSquare(d, t, f) then 2 * t else 2 * t + 1, Ten(f))
    requires f < p.Quantum(Adjusted(x)) && HalvesOutcome(RootParams(p), x, o)
    ensures RootBySquares(p, d, o)
  {
    var top := 2 * Pow10(p.prec) - 1;
    hide Units, Squared, Ten, TruncatedRoot, ExactSquare, NumDigits, Pow10, Magnitude;
    if o.result.Finite? {
      var c, e := o.result.coeff, o.result.exp;
      if c > 0 {
        SquaresAgree(d, t, f, x, 2 * c - 1, e);
      }
      SquaresAgree(d, t, f, x, 2 * c + 1, e);
    } else if f < p.Etop() {
      SquaresAgree(d, t, f, x, top, p.Etop());
    } else {
      LargeRoot(p, d, t, f);
    }
  }

  lemma LargeRoot(p: Params, d: Decimal, t: nat, f: int)
    requires p.Valid() && d.Finite? && NumDigits(t) == p.prec + 1 && TruncatedRoot(d, t, f) && p.Etop() <= f
    ensures Squared(2 * Pow10(p.prec) - 1, p.Etop()) <= 4.0 * Magnitude(d)
  {
    LongPositive(p, t);
    TruncatedIs(d, t, f);
    hide TruncatedRoot, NumDigits, Ten, Magnitude, Units, Pow10;
    var P, top := Pow10(p.prec), 2 * p.Etop();
    TenGrows(top, 2 * f);
    SquareOfOrder(2 * P - 1, 2 * P);
    SquareOfOrder(P, t);
    FourSquares(P);
    UnitsOrder((2 * P - 1) * (2 * P - 1), 4 * (P * P), Ten(top));
    Quadruple(P * P, Ten(top));
    UnitsOrder(P * P, t * t, Ten(top));
    UnitsMonotonic(t * t, Ten(top), Ten(2 * f));
  }

  // Fixing it gives the root by squares.
  lemma FixedRoot(p: Params, d: Decimal, root: Decimal, t: nat, f: int)
    requires p.Valid() && d.Finite? && BeforeFix(p, d, root, t, f)
    ensures RootBySquares(p, d, FixSpec(RootParams(p), root))
  {
    hide *;
    BeforeFixParts(p, d, root, t, f);
    var o := FixSpec(RootParams(p), root);
    var x := StandIn(p, d, root, t, f);
    if Representable(RootParams(p), x) {
      KeptRoot(p, d, t, f, x, o);
    } else {
      RootHalves(p, x, o);
      RoundedRoot(p, d, t, f, x, o);
    }
  }
}
