// Rounding an exact non-negative real number to an integer, in the eight rounding
// modes of the General Decimal Arithmetic specification, and the two integer forms
// the decimal code uses instead: rounding a truncated number with a sticky bit,
// and bumping the last digit so that the sticky bit can be forgotten.
module Rounding {
  import opened Powers
  import opened Numerals

  datatype Mode = Down | HalfUp | HalfEven | Ceiling | Floor | Up | HalfDown | ZeroFiveUp

  type Sign = s: int | 0 <= s <= 1

  // Where a number lies between two consecutive integers.
  datatype Tail = Zero | BelowHalf | Half | AboveHalf

  // Whether a magnitude with integer part q and the given tail is rounded away from zero.
  predicate Away(mode: Mode, sign: Sign, q: nat, tail: Tail) {
    tail != Zero &&
    match mode
    case Down => false
    case Up => true
    case HalfUp => tail != BelowHalf
    case HalfDown => tail == AboveHalf
    case HalfEven => tail == AboveHalf || (tail == Half && q % 2 == 1)
    case Ceiling => sign == 0
    case Floor => sign == 1
    case ZeroFiveUp => q % 5 == 0
  }

  // ----- on exact real numbers -----

  ghost function TailOfReal(y: real): Tail {
    var f := y - y.Floor as real;
    if f == 0.0 then Zero else if f < 0.5 then BelowHalf else if f == 0.5 then Half else AboveHalf
  }

  ghost function RoundReal(mode: Mode, sign: Sign, y: real): (n: nat)
    requires y >= 0.0
  {
    y.Floor + (if Away(mode, sign, y.Floor, TailOfReal(y)) then 1 else 0)
  }

  // What each mode promises about the signed number it returns.
  lemma RoundRealMeaning(sign: Sign, y: real)
    requires y >= 0.0
    ensures RoundReal(Down, sign, y) as real <= y < RoundReal(Down, sign, y) as real + 1.0
    ensures RoundReal(Up, sign, y) as real - 1.0 < y <= RoundReal(Up, sign, y) as real
    ensures forall mode | mode == HalfUp || mode == HalfDown || mode == HalfEven ::
      -0.5 <= RoundReal(mode, sign, y) as real - y <= 0.5
    ensures y - y.Floor as real == 0.5 ==>
      RoundReal(HalfUp, sign, y) == y.Floor + 1 && RoundReal(HalfDown, sign, y) == y.Floor
      && RoundReal(HalfEven, sign, y) % 2 == 0
    ensures var s := if sign == 0 then 1.0 else -1.0;
      && s * RoundReal(Ceiling, sign, y) as real - 1.0 < s * y <= s * RoundReal(Ceiling, sign, y) as real
      && s * RoundReal(Floor, sign, y) as real <= s * y < s * RoundReal(Floor, sign, y) as real + 1.0
    ensures RoundReal(ZeroFiveUp, sign, y) == if TailOfReal(y) != Zero && y.Floor % 5 == 0 then y.Floor + 1 else y.Floor
  {
  }

  // ----- on truncated numbers with a sticky bit -----

  // The tail of r/m when a further positive fraction below 1/m may follow.
  function TailAt(r: nat, m: nat, sticky: bool): Tail {
    if r == 0 && !sticky then Zero
    else if 2 * r < m then BelowHalf
    else if 2 * r == m && !sticky then Half
    else AboveHalf
  }

  function RoundSticky(mode: Mode, sign: Sign, t: nat, m: nat, sticky: bool): (n: nat)
    requires m > 0
  {
    DivMonotonic(0, t, m);
    DivMod(t, m);
    t / m + (if Away(mode, sign, t / m, TailAt(t % m, m, sticky)) then 1 else 0)
  }

  // Rounding a real y to a multiple of an even m needs only its integer part and
  // whether y is an integer.
  lemma RoundTruncated(mode: Mode, sign: Sign, y: real, t: nat, m: nat)
    requires m > 0 && m % 2 == 0
    requires t as real <= y < t as real + 1.0
    ensures y / m as real >= 0.0
    ensures RoundReal(mode, sign, y / m as real) == RoundSticky(mode, sign, t, m, y != t as real)
    ensures TailOfReal(y / m as real) == Zero <==> t % m == 0 && y == t as real
  {
    hide Away;
    var z, q, r := y / m as real, t / m, t % m;
    DivMod(t, m);
    DivMonotonic(0, t, m);
    var d := y - t as real;
    ScaleFraction(y, z, m, q, r, d);
    assert z.Floor == q;
  }

  lemma ScaleFraction(y: real, z: real, m: nat, q: nat, r: nat, d: real)
    requires m > 0 && r < m && 0.0 <= d < 1.0
    requires z == y / m as real && y == (q * m + r) as real + d
    ensures z == q as real + (r as real + d) / m as real
    ensures 0.0 <= (r as real + d) / m as real < 1.0
    ensures (r as real + d) / m as real < 0.5 <==> 2.0 * (r as real + d) < m as real
    ensures (r as real + d) / m as real == 0.5 <==> 2.0 * (r as real + d) == m as real
    ensures (r as real + d) / m as real == 0.0 <==> r as real + d == 0.0
  {
    var M, f, Q := m as real, r as real + d, q as real;
    BelowWhole(r, m, d);
    assert (q * m) as real == Q * M;
    RealQuotient(y, M);
    RealQuotient(f, M);
    RealDistribute(Q, f / M, M);
    RealCancel(z, Q + f / M, M);
    FractionOrder(f, f / M, M);
  }

  lemma BelowWhole(r: nat, m: nat, d: real)
    requires r < m && 0.0 <= d < 1.0
    ensures 0.0 <= r as real + d < m as real
  {
    assert (r + 1) as real <= m as real;
  }

  lemma RealQuotient(a: real, m: real)
    requires m > 0.0
    ensures (a / m) * m == a
  {
  }

  lemma RealDistribute(a: real, b: real, m: real)
    ensures (a + b) * m == a * m + b * m
  {
  }

  lemma FractionOrder(f: real, g: real, M: real)
    requires M > 0.0 && g * M == f && 0.0 <= f < M
    ensures 0.0 <= g < 1.0
    ensures g < 0.5 <==> 2.0 * f < M
    ensures g == 0.5 <==> 2.0 * f == M
    ensures g == 0.0 <==> f == 0.0
  {
    HalfOrder(f, g, M);
    var one, zero := 1.0, 0.0;
    RealOrder(g, one, M);
    RealOrder(g, zero, M);
  }

  lemma HalfOrder(f: real, g: real, M: real)
    requires M > 0.0 && g * M == f
    ensures g < 0.5 <==> 2.0 * f < M
    ensures g == 0.5 <==> 2.0 * f == M
  {
    var d := g - 0.5;
    assert d * M == f - 0.5 * M;
    if d < 0.0 {
      assert d * M < 0.0;
    } else if d > 0.0 {
      assert d * M > 0.0;
    }
  }

  lemma RealCancel(a: real, b: real, m: real)
    requires m > 0.0 && a * m == b * m
    ensures a == b
  {
    RealOrder(a, b, m);
    RealOrder(b, a, m);
  }

  lemma RealOrder(a: real, b: real, m: real)
    requires m > 0.0
    ensures a < b <==> a * m < b * m
    ensures a == b <==> a * m == b * m
  {
    if a < b {
      assert (b - a) * m > 0.0;
    } else if b < a {
      assert (a - b) * m > 0.0;
    }
  }

  // The integer form is the rounding of a quotient of integers.
  lemma RoundStickyNear(t: nat, m: nat)
    requires m > 0
    ensures var n := RoundSticky(HalfEven, 0, t, m, false);
      0 - m <= 2 * (t - n * m) <= m && (2 * (t - n * m) == m || 2 * (t - n * m) == 0 - m ==> n % 2 == 0)
  {
    DivMod(t, m);
    DistributeOne(t / m, m);
  }

  // ----- bumping the last digit -----

  // An inexact truncation that ends in 0 or 5 is moved off that digit.
  function Bump(t: nat): nat {
    if t % 5 == 0 then t + 1 else t
  }

  lemma BumpIs(t: nat)
    ensures Bump(t) == if t % 5 == 0 then t + 1 else t
  {
  }

  // For a multiple m of 10, Bump(t) lies strictly between the same multiples of m
  // and on the same side of their midpoint as any number in (t, t + 1).
  lemma BumpRounds(mode: Mode, sign: Sign, t: nat, m: nat)
    requires m > 0 && m % 10 == 0
    ensures Bump(t) / m == t / m && Bump(t) % m != 0
    ensures RoundSticky(mode, sign, Bump(t), m, false) == RoundSticky(mode, sign, t, m, true)
  {
    var q, r := t / m, t % m;
    DivMod(t, m);
    DivMonotonic(0, t, m);
    BumpFrom(mode, sign, t, m, q, r);
  }

  // What ZeroFiveUp is for: rounding with it first and then to a multiple of m, in any
  // mode, is rounding once.
  lemma ZeroFiveUpThenRound(mode: Mode, sign: Sign, y: real, m: nat)
    requires y >= 0.0 && m > 0 && m % 10 == 0
    ensures y / m as real >= 0.0
    ensures RoundSticky(mode, sign, RoundReal(ZeroFiveUp, sign, y), m, false) == RoundReal(mode, sign, y / m as real)
  {
    var t := y.Floor;
    FloorIsWhole(y, t);
    hide RoundSticky;
    RoundTruncated(mode, sign, y, t, m);
    BumpRounds(mode, sign, t, m);
  }

  lemma FloorIsWhole(y: real, t: nat)
    requires t == y.Floor
    ensures TailOfReal(y) == Zero <==> y == t as real
    ensures RoundReal(ZeroFiveUp, 0, y) == if y == t as real then t else Bump(t)
    ensures RoundReal(ZeroFiveUp, 1, y) == RoundReal(ZeroFiveUp, 0, y)
  {
  }

  lemma BumpFrom(mode: Mode, sign: Sign, t: nat, m: nat, q: nat, r: nat)
    requires m > 0 && m % 10 == 0 && t == q * m + r && r < m
    ensures Bump(t) / m == q && t / m == q && Bump(t) % m != 0
    ensures RoundSticky(mode, sign, Bump(t), m, false) == RoundSticky(mode, sign, t, m, true)
  {
    hide *;
    MultipleOfFive(q, m, r, t);
    BumpTail(r, m);
    RoundStickyIs(mode, sign, t, m, true, q, r);
    RoundStickyIs(mode, sign, Bump(t), m, false, q, Bump(r));
  }

  lemma RoundStickyIs(mode: Mode, sign: Sign, t: nat, m: nat, sticky: bool, q: nat, r: nat)
    requires m > 0 && t == q * m + r && r < m
    ensures t / m == q && t % m == r
    ensures RoundSticky(mode, sign, t, m, sticky) == q + (if Away(mode, sign, q, TailAt(r, m, sticky)) then 1 else 0)
  {
    DivModUnique(t, m, q, r);
  }

  lemma BumpTail(r: nat, m: nat)
    requires m % 10 == 0 && r < m
    ensures 0 < Bump(r) < m
    ensures TailAt(Bump(r), m, false) == TailAt(r, m, true)
  {
  }

  lemma MultipleOfFive(q: nat, m: nat, r: nat, t: nat)
    requires m % 10 == 0 && t == q * m + r
    ensures t % 5 == r % 5
    ensures Bump(t) == q * m + Bump(r)
  {
    assert m == 10 * (m / 10);
    assert q * (10 * (m / 10)) == 5 * (2 * (q * (m / 10)));
  }

  // Rounding depends only on the ratio.
  lemma RoundScaled(mode: Mode, sign: Sign, t: nat, m: nat, k: nat)
    requires m > 0 && k > 0
    ensures m * k > 0 && t * k >= 0
    ensures RoundSticky(mode, sign, t * k, m * k, false) == RoundSticky(mode, sign, t, m, false)
    ensures (t * k) % (m * k) == 0 <==> t % m == 0
  {
    DivScale(t, m, k);
    DivMod(t, m);
    var r := t % m;
    MulOrder(2 * r, m, k);
    MulOrder(m, 2 * r, k);
    assert (2 * r) * k == 2 * (r * k);
    MulOrder(0, r, k);
  }

  // ----- the rounding functions on numerals -----

  // re.compile('0*$').match(s, prec)
  predicate AllZeros(s: string, prec: nat) {
    forall i :: prec <= i < |s| ==> s[i] == '0'
  }

  // re.compile('50*$').match(s, prec)
  predicate ExactHalf(s: string, prec: nat) {
    prec < |s| && s[prec] == '5' && AllZeros(s, prec + 1)
  }

  function RoundDown(s: string, prec: nat): int { if AllZeros(s, prec) then 0 else -1 }

  function RoundUp(s: string, prec: nat): int { -RoundDown(s, prec) }

  function RoundHalfUp(s: string, prec: nat): int
    requires prec < |s|
  {
    if s[prec] in "56789" then 1 else if AllZeros(s, prec) then 0 else -1
  }

  function RoundHalfDown(s: string, prec: nat): int
    requires prec < |s|
  {
    if ExactHalf(s, prec) then -1 else RoundHalfUp(s, prec)
  }

  function RoundHalfEven(s: string, prec: nat): int
    requires prec < |s|
  {
    if ExactHalf(s, prec) && (prec == 0 || s[prec - 1] in "02468") then -1 else RoundHalfUp(s, prec)
  }

  function RoundCeiling(sign: Sign, s: string, prec: nat): int {
    if sign == 1 then RoundDown(s, prec) else -RoundDown(s, prec)
  }

  function RoundFloor(sign: Sign, s: string, prec: nat): int {
    if sign == 0 then RoundDown(s, prec) else -RoundDown(s, prec)
  }

  function Round05Up(s: string, prec: nat): int
    requires prec < |s|
  {
    if prec != 0 && s[prec - 1] !in "05" then RoundDown(s, prec) else -RoundDown(s, prec)
  }

  // _pick_rounding_function
  function RoundingMethod(mode: Mode, sign: Sign, s: string, prec: nat): int
    requires prec < |s|
  {
    match mode
    case Down => RoundDown(s, prec)
    case Up => RoundUp(s, prec)
    case HalfUp => RoundHalfUp(s, prec)
    case HalfDown => RoundHalfDown(s, prec)
    case HalfEven => RoundHalfEven(s, prec)
    case Ceiling => RoundCeiling(sign, s, prec)
    case Floor => RoundFloor(sign, s, prec)
    case ZeroFiveUp => Round05Up(s, prec)
  }

  // The digit tests decide exactly as the arithmetic definition does: 1 means
  // away from zero, 0 that nothing is lost, -1 that digits are dropped.
  lemma RoundingMethodMeaning(mode: Mode, sign: Sign, s: string, prec: nat)
    requires AllDigits(s) && prec < |s|
    ensures var q, r, m := Value(s[..prec]), Value(s[prec..]), Pow10(|s| - prec);
      var changed := RoundingMethod(mode, sign, s, prec);
      && (changed > 0 <==> Away(mode, sign, q, TailAt(r, m, false)))
      && (changed == 0 <==> r == 0)
      && -1 <= changed <= 1
  {
    hide Pow, Value;
    TailDigits(s, prec);
    HeadDigit(s, prec);
  }

  lemma TailDigits(s: string, prec: nat)
    requires AllDigits(s) && prec < |s|
    ensures var r, m := Value(s[prec..]), Pow10(|s| - prec);
      && (AllZeros(s, prec) <==> r == 0)
      && (ExactHalf(s, prec) <==> 2 * r == m)
      && (s[prec] in "56789" <==> 2 * r >= m)
      && r < m
  {
    var tail, rest := s[prec..], s[prec + 1..];
    var P := Pow10(|rest|);
    assert tail == [s[prec]] + rest;
    assert [s[prec]][..0] == [];
    assert Value([s[prec]]) == DigitValue(s[prec]);
    ValueConcat([s[prec]], rest);
    ValueBound(rest);
    ValueOfZeros(tail);
    ValueOfZeros(rest);
    assert forall i :: 0 <= i < |tail| ==> tail[i] == s[prec + i];
    assert forall i :: 0 <= i < |rest| ==> rest[i] == s[prec + 1 + i];
    assert AllZeros(s, prec) <==> forall i :: 0 <= i < |tail| ==> tail[i] == '0' by {
      if forall i :: 0 <= i < |tail| ==> tail[i] == '0' {
        assert forall i :: prec <= i < |s| ==> s[i] == tail[i - prec];
      }
    }
    assert AllZeros(s, prec + 1) <==> forall i :: 0 <= i < |rest| ==> rest[i] == '0' by {
      if forall i :: 0 <= i < |rest| ==> rest[i] == '0' {
        assert forall i :: prec + 1 <= i < |s| ==> s[i] == rest[i - prec - 1];
      }
    }
    assert Pow10(|s| - prec) == 10 * P;
    LeadingTimes(DigitValue(s[prec]), P, Value(rest));
    DigitTests(s[prec]);
  }

  lemma LeadingTimes(d: nat, P: nat, v: nat)
    requires d < 10 && v < P
    ensures 2 * (d * P + v) >= 10 * P <==> d >= 5
    ensures 2 * (d * P + v) == 10 * P <==> d == 5 && v == 0
    ensures d * P + v < 10 * P
  {
    if d >= 5 {
      MulMonotonic(5, d, P, P);
    } else {
      MulMonotonic(d, 4, P, P);
    }
    if d >= 6 {
      MulMonotonic(6, d, P, P);
    }
    MulMonotonic(d, 9, P, P);
  }

  lemma HeadDigit(s: string, prec: nat)
    requires AllDigits(s) && prec < |s|
    ensures var q := Value(s[..prec]);
      && (prec == 0 ==> q == 0)
      && (prec > 0 ==> (s[prec - 1] in "02468" <==> q % 2 == 0) && (s[prec - 1] in "05" <==> q % 5 == 0))
  {
    if prec > 0 {
      hide Pow;
      var head := s[..prec];
      assert head[..|head| - 1] == s[..prec - 1];
      LastDigit(Value(s[..prec - 1]), DigitValue(s[prec - 1]));
      DigitTests(s[prec - 1]);
    }
  }

  lemma LastDigit(high: nat, d: nat)
    ensures (high * 10 + d) % 2 == d % 2 && (high * 10 + d) % 5 == d % 5
  {
    DivAddMultiple(d, 5 * high, 2);
    DivAddMultiple(d, 2 * high, 5);
  }

  lemma DigitTests(c: char)
    requires IsDigit(c)
    ensures c in "02468" <==> DigitValue(c) % 2 == 0
    ensures c in "05" <==> DigitValue(c) % 5 == 0
    ensures c in "56789" <==> DigitValue(c) >= 5
  {
  }
}
