// Decimal addition (_pydecimal.py: __add__ and _normalize).
module DecimalAdd {
  import opened Powers
  import opened Numerals
  import opened Rounding
  import opened Scale
  import opened DecimalFix
  import opened DecimalContext

  // ----- the specification: the exact sum, fixed once -----

  function Signed(sign: Sign, n: int): int { if sign == 1 then -n else n }

  function Min(a: int, b: int): int { if a < b then a else b }

  function Max(a: int, b: int): int { if a < b then b else a }

  // The exact sum of two finite numbers at the smaller exponent.  A zero sum of
  // operands with different signs is negative only when rounding to the floor.
  function ExactSum(mode: Mode, a: Decimal, b: Decimal): Decimal
    requires a.Finite? && b.Finite?
  {
    var exp := Min(a.exp, b.exp);
    var s := Signed(a.sign, a.coeff * Pow10(a.exp - exp)) + Signed(b.sign, b.coeff * Pow10(b.exp - exp));
    if s > 0 then Finite(0, s, exp)
    else if s < 0 then Finite(1, -s, exp)
    else Finite(if a.sign == b.sign then a.sign else if mode == Floor then 1 else 0, 0, exp)
  }

  function AddSpec(p: Params, a: Decimal, b: Decimal): Outcome
    requires p.Valid()
  {
    if a.NaN? || b.NaN? then Outcome(NaN, {})
    else if a.Infinity? then
      if b.Infinity? && a.sign != b.sign then Outcome(NaN, {InvalidOperation}) else Outcome(a, {})
    else if b.Infinity? then Outcome(b, {})
    else FixSpec(p, ExactSum(p.rounding, a, b))
  }

  // ----- what the specification means -----

  lemma ExactSumIsSum(mode: Mode, a: Decimal, b: Decimal)
    requires a.Finite? && b.Finite?
    ensures Number(ExactSum(mode, a, b)) == Number(a) + Number(b)
  {
    hide *;
    var exp := Min(a.exp, b.exp);
    MinBounds(a.exp, b.exp);
    NumberAt(a, exp);
    NumberAt(b, exp);
    var x, y := Signed(a.sign, a.coeff * Pow10(a.exp - exp)), Signed(b.sign, b.coeff * Pow10(b.exp - exp));
    SumNumber(mode, a, b, x + y, exp);
    SignedSum(x, y, Ten(exp));
  }

  lemma MinBounds(a: int, b: int)
    ensures Min(a, b) <= a && Min(a, b) <= b
  {
  }

  // A number written at a smaller exponent.
  lemma NumberAt(d: Decimal, exp: int)
    requires d.Finite? && exp <= d.exp
    ensures d.coeff * Pow10(d.exp - exp) >= 0
    ensures Number(d) == Signed(d.sign, d.coeff * Pow10(d.exp - exp)) as real * Ten(exp)
  {
    RescaleProduct(d.coeff, d.exp, exp);
    hide Ten, Pow10;
    NegatedProduct(d.coeff * Pow10(d.exp - exp), Ten(exp));
  }

  lemma NegatedProduct(n: int, u: real)
    ensures (-n) as real * u == -(n as real * u)
  {
  }

  lemma SumNumber(mode: Mode, a: Decimal, b: Decimal, s: int, exp: int)
    requires a.Finite? && b.Finite? && exp == Min(a.exp, b.exp)
    requires s == Signed(a.sign, a.coeff * Pow10(a.exp - exp)) + Signed(b.sign, b.coeff * Pow10(b.exp - exp))
    ensures Number(ExactSum(mode, a, b)) == s as real * Ten(exp)
  {
    hide Ten, Pow10;
    NegatedProduct(s, Ten(exp));
  }

  lemma SignedSum(x: int, y: int, u: real)
    ensures (x + y) as real * u == x as real * u + y as real * u
  {
  }

  // The sum of two finite numbers is rounded once, with the sign of the exact sum; an
  // exact zero keeps the common sign, and is otherwise negative only under Floor.
  lemma AddRoundsCorrectly(p: Params, a: Decimal, b: Decimal)
    requires p.Valid() && a.Finite? && b.Finite?
    ensures var x := Number(a) + Number(b);
      && (x > 0.0 ==> RoundsCorrectly(p, 0, x, AddSpec(p, a, b)))
      && (x < 0.0 ==> RoundsCorrectly(p, 1, -x, AddSpec(p, a, b)))
      && (x == 0.0 ==>
            var sign := if a.sign == b.sign then a.sign else if p.rounding == Floor then 1 else 0;
            AddSpec(p, a, b) == FixSpec(p, Finite(sign, 0, Min(a.exp, b.exp))))
  {
    ExactSumIsSum(p.rounding, a, b);
    var s := ExactSum(p.rounding, a, b);
    ProductSign(s.coeff as real, Ten(s.exp));
    hide RoundsCorrectly, FixSpec, Ten;
    if s.coeff > 0 {
      FixRounds(p, s);
    }
  }

  // Infinities: the sum of two of the same sign, or of one and a number, is infinite with
  // that sign; two of different signs have no sum.
  lemma AddInfinities(p: Params, a: Decimal, b: Decimal)
    requires p.Valid() && (!a.Finite? || !b.Finite?)
    ensures var o := AddSpec(p, a, b);
      && (a.NaN? || b.NaN? ==> o.result.NaN? && o.signals == {})
      && (a == Infinity(0) && b == Infinity(1) ==> o == Outcome(NaN, {InvalidOperation}))
      && (a == Infinity(1) && b == Infinity(0) ==> o == Outcome(NaN, {InvalidOperation}))
      && (forall s: Sign :: {a, b} == {Infinity(s)} ==> o == Outcome(Infinity(s), {}))
      && (a.Infinity? && b.Finite? ==> o == Outcome(a, {}))
      && (a.Finite? && b.Infinity? ==> o == Outcome(b, {}))
  {
    forall s: Sign | {a, b} == {Infinity(s)} ensures AddSpec(p, a, b) == Outcome(Infinity(s), {}) {
      assert a in {a, b} && b in {a, b};
    }
  }

  // ----- _WorkRep and _normalize -----

  datatype Rep = Rep(sign: Sign, int_: nat, exp: int)

  class WorkRep {
    var sign: Sign
    var int_: nat
    var exp: int

    constructor (d: Decimal)
      requires d.Finite?
      ensures Value() == Rep(d.sign, d.coeff, d.exp)
    {
      sign, int_, exp := d.sign, d.coeff, d.exp;
    }

    function Value(): Rep
      reads this
    {
      Rep(sign, int_, exp)
    }
  }

  // The exponent below which the smaller operand cannot influence the rounding.
  function Threshold(high: Rep, prec: nat): int {
    high.exp + Min(-1, NumDigits(high.int_) - prec - 2)
  }

  // The operand with the smaller exponent, replaced by 10**threshold when below it.
  function Replaced(high: Rep, low: Rep, prec: nat): Rep {
    if NumDigits(low.int_) + low.exp - 1 < Threshold(high, prec) then Rep(low.sign, 1, Threshold(high, prec)) else low
  }

  // The other operand, brought to that exponent.
  function Aligned(high: Rep, exp: int): Rep
    requires exp <= high.exp
  {
    Rep(high.sign, high.int_ * Pow10(high.exp - exp), exp)
  }

  method Normalize(op1: WorkRep, op2: WorkRep, prec: nat)
    requires op1 != op2
    modifies op1, op2
    ensures op1.exp == op2.exp
    ensures var a, b := old(op1.Value()), old(op2.Value());
      if a.exp < b.exp then
        op1.Value() == Replaced(b, a, prec) && op1.exp <= b.exp && op2.Value() == Aligned(b, op1.exp)
      else
        op2.Value() == Replaced(a, b, prec) && op2.exp <= a.exp && op1.Value() == Aligned(a, op2.exp)
  {
    hide NumDigits, Numeral, Numerals.Value, Pow10;
    var tmp, other := op1, op2;
    if op1.exp < op2.exp {
      tmp, other := op2, op1;
    }
    ValueOfNumeral(tmp.int_);
    ValueOfNumeral(other.int_);
    var tmpLen, otherLen := |Numeral(tmp.int_)|, |Numeral(other.int_)|;
    var exp := tmp.exp + Min(-1, tmpLen - prec - 2);
    if otherLen + other.exp - 1 < exp {
      other.int_ := 1;
      other.exp := exp;
    }
    assert tmp.int_ * Pow10(tmp.exp - other.exp) >= 0;
    tmp.int_ := tmp.int_ * Pow10(tmp.exp - other.exp);
    tmp.exp := other.exp;
  }

  // ----- the shortcut is harmless -----

  // Integers between t and t + 1 units of 10**f, read at the smaller exponent m.
  lemma BetweenUnits(s: nat, m: int, t: nat, f: int)
    requires m <= f && t * Pow10(f - m) < s < (t + 1) * Pow10(f - m)
    ensures t as real * Ten(f) < Magnitude(Finite(0, s, m)) < (t + 1) as real * Ten(f)
  {
    hide Ten, Pow10;
    var K, u := Pow10(f - m), Ten(m);
    RescaleProduct(t, f, m);
    RescaleProduct(t + 1, f, m);
    RealOrder((t * K) as real, s as real, u);
    RealOrder(s as real, ((t + 1) * K) as real, u);
  }

  // Two outcomes that both round the same unrepresentable number are equal.
  lemma FixOfBetween(p: Params, sign: Sign, s: nat, m: int, t: nat, f: int)
    requires p.Valid() && t > 0 && NumDigits(t) > p.prec && m <= f
    requires t * Pow10(f - m) < s < (t + 1) * Pow10(f - m)
    ensures FixSpec(p, Finite(sign, s, m)) == FixSpec(p, Finite(sign, Bump(t), f))
  {
    assert s > 0 by { assert t * Pow10(f - m) >= 0; }
    hide *;
    BetweenUnits(s, m, t, f);
    MagnitudeUnsigned(sign, s, m);
    var d := Finite(sign, s, m);
    StickyFix(p, sign, Magnitude(d), t, f);
    FixRounds(p, d);
    SameRounding(p, sign, Magnitude(d), FixSpec(p, d), FixSpec(p, Finite(sign, Bump(t), f)));
  }

  lemma MagnitudeUnsigned(sign: Sign, s: nat, m: int)
    ensures Magnitude(Finite(sign, s, m)) == Magnitude(Finite(0, s, m))
  {
  }

  lemma SameRounding(p: Params, sign: Sign, x: real, a: Outcome, b: Outcome)
    requires p.Valid() && x > 0.0 && !Representable(p, x)
    requires RoundsCorrectly(p, sign, x, a) && RoundsCorrectly(p, sign, x, b)
    ensures a == b
  {
  }

  // The larger operand at the threshold exponent: a multiple of ten with room to spare.
  lemma AlignedHigh(high: Rep, prec: nat)
    requires high.int_ > 0 && prec > 0
    ensures Threshold(high, prec) < high.exp
    ensures var T := high.int_ * Pow10(high.exp - Threshold(high, prec));
      T > 10 && T % 10 == 0 && NumDigits(T) > prec && NumDigits(T - 1) > prec
  {
    var j := high.exp - Threshold(high, prec);
    PaddedDigits(high.int_, j);
    hide Pow10, NumDigits;
    TenMultiple(j);
    MultipleOfTen(high.int_, Pow10(j));
    RoomToSpare(high.int_ * Pow10(j), prec);
  }

  lemma MultipleOfTen(h: nat, P: nat)
    requires P % 10 == 0
    ensures h * P >= 0 && (h * P) % 10 == 0
  {
    assert P == 10 * (P / 10);
    MulAssoc(h, P / 10, 10);
    DivAddMultiple(0, h * (P / 10), 10);
  }

  lemma RoomToSpare(T: nat, prec: nat)
    requires prec > 0 && NumDigits(T) >= prec + 2
    ensures T > 10 && NumDigits(T) > prec && NumDigits(T - 1) > prec
  {
    NumDigitsBounds(T);
    PowMonotonic(10, prec + 1, NumDigits(T) - 1);
    assert Pow10(prec + 1) == 10 * Pow10(prec);
    assert Pow10(prec) == 10 * Pow10(prec - 1);
    NumDigitsAtLeast(T - 1, prec);
  }

  // A replaced operand is smaller than one unit of the threshold exponent.
  lemma LowBelowUnit(high: Rep, low: Rep, prec: nat)
    requires high.int_ > 0 && low.int_ > 0
    requires NumDigits(low.int_) + low.exp - 1 < Threshold(high, prec)
    ensures low.exp <= Threshold(high, prec) && 0 < low.int_ < Pow10(Threshold(high, prec) - low.exp)
  {
    NumDigitsBounds(low.int_);
    PowMonotonic(10, NumDigits(low.int_), Threshold(high, prec) - low.exp);
  }

  // Replacing the smaller operand changes neither the fixed sum nor its signals.
  lemma ReplacementHarmless(p: Params, sign: Sign, high: Rep, low: Rep, subtract: bool)
    requires p.Valid() && high.int_ > 0 && low.int_ > 0 && low.exp <= high.exp
    requires NumDigits(low.int_) + low.exp - 1 < Threshold(high, p.prec)
    ensures Threshold(high, p.prec) <= high.exp
    ensures var f := Threshold(high, p.prec);
      var H, T := high.int_ * Pow10(high.exp - low.exp), high.int_ * Pow10(high.exp - f);
      && H > low.int_ && T > 1
      && FixSpec(p, Finite(sign, if subtract then H - low.int_ else H + low.int_, low.exp))
         == FixSpec(p, Finite(sign, if subtract then T - 1 else T + 1, f))
  {
    assert p.prec > 0;
    hide *;
    AlignedHigh(high, p.prec);
    LowBelowUnit(high, low, p.prec);
    var f := Threshold(high, p.prec);
    var K := Pow10(f - low.exp);
    var H, T := high.int_ * Pow10(high.exp - low.exp), high.int_ * Pow10(high.exp - f);
    AlignInSteps(high, low.exp, f);
    WithinUnit(T, K, low.int_);
    BumpOfMultiple(T);
    if subtract {
      FixOfBetween(p, sign, H - low.int_, low.exp, T - 1, f);
    } else {
      FixOfBetween(p, sign, H + low.int_, low.exp, T, f);
    }
  }

  lemma AlignInSteps(high: Rep, low: int, f: int)
    requires low <= f <= high.exp
    ensures high.int_ * Pow10(high.exp - low) == (high.int_ * Pow10(high.exp - f)) * Pow10(f - low)
  {
    PowAdd(10, high.exp - f, f - low);
    MulAssoc(high.int_, Pow10(high.exp - f), Pow10(f - low));
  }

  lemma WithinUnit(T: nat, K: nat, l: nat)
    requires T > 1 && 0 < l < K
    ensures T * K > l && (T - 1) * K < T * K - l < T * K < T * K + l < (T + 1) * K
  {
    DistributeOne(T, K);
    DistributeOne(T - 1, K);
    MulOrder(0, T - 1, K);
  }

  lemma BumpOfMultiple(T: nat)
    requires T > 0 && T % 10 == 0
    ensures Bump(T) == T + 1 && Bump(T - 1) == T - 1
  {
  }

  // A number padded with more than prec zeros is fixed alike however many there are.
  lemma PaddingHarmless(p: Params, sign: Sign, c: nat, exp: int, i: nat, j: nat)
    requires p.Valid() && p.prec < i <= j
    ensures c * Pow10(i) >= 0 && c * Pow10(j) >= 0
    ensures c > 0 ==>
      FixSpec(p, Finite(sign, c * Pow10(i), exp - i)) == FixSpec(p, Finite(sign, c * Pow10(j), exp - j))
  {
    if c > 0 {
      PaddedDigits(c, i);
      PaddedDigits(c, j);
      var a, b := Finite(sign, c * Pow10(i), exp - i), Finite(sign, c * Pow10(j), exp - j);
      assert AdjustedExp(a) == AdjustedExp(b);
      var e := p.Quantum(AdjustedExp(a));
      var m, k := Pow10(e - a.exp), Pow10(j - i);
      PowAdd(10, e - a.exp, j - i);
      PowAdd(10, i, j - i);
      assert b.coeff == a.coeff * k by { MulAssoc(c, Pow10(i), k); }
      RoundScaled(p.rounding, sign, a.coeff, m, k);
      assert Pow10(e - b.exp) == m * k;
      hide RoundSticky, Pow10, NumDigits;
      assert FixRound(p, a, e) == FixRound(p, b, e);
    }
  }

  // ----- __add__ -----

  method Add(self: Decimal, other: Decimal, context: Context) returns (ans: Decimal)
    requires context.Valid()
    modifies context.flags
    ensures ans == AddSpec(context.Settings(), self, other).result
    ensures context.flags.raised == old(context.flags.raised) + AddSpec(context.Settings(), self, other).signals
  {
    if self.NaN? || other.NaN? {
      return NaN;
    }
    if self.Infinity? {
      if self.sign != other.sign && other.Infinity? {
        var handled := context.RaiseError(Raised(InvalidOperation), 0);
        return handled.value;
      }
      return self;
    }
    if other.Infinity? {
      return other;
    }
    ans := AddFinite(self, other, context);
  }

  method AddFinite(self: Decimal, other: Decimal, context: Context) returns (ans: Decimal)
    requires context.Valid() && self.Finite? && other.Finite?
    modifies context.flags
    ensures var sum := FixSpec(context.Settings(), ExactSum(context.rounding, self, other));
      ans == sum.result && context.flags.raised == old(context.flags.raised) + sum.signals
  {
    hide FixSpec, ExactSum, Rescale, Replaced, Aligned, Combined, Threshold;
    var exp := Min(self.exp, other.exp);
    var negativeZero := if context.rounding == Floor && self.sign != other.sign then 1 else 0;
    ghost var p := context.Settings();
    if self.coeff == 0 && other.coeff == 0 {
      var sign: Sign := Min(self.sign, other.sign);
      if negativeZero == 1 {
        sign := 1;
      }
      SumOfZeros(p.rounding, self, other);
      ans := Fix(Finite(sign, 0, exp), context);
    } else if self.coeff == 0 {
      AddZero(p, self, other);
      exp := Max(exp, other.exp - context.prec - 1);
      ans := Fix(Rescale(other, exp, context.rounding), context);
    } else if other.coeff == 0 {
      AddZero(p, other, self);
      SumCommutes(p.rounding, self, other);
      exp := Max(exp, self.exp - context.prec - 1);
      ans := Fix(Rescale(self, exp, context.rounding), context);
    } else {
      var op1 := new WorkRep(self);
      var op2 := new WorkRep(other);
      Normalize(op1, op2, context.prec);
      SumOfNormalized(p, self, other, op1.Value(), op2.Value());
      var sum := Combine(op1, op2, negativeZero, exp);
      ans := Fix(sum, context);
    }
  }

  lemma SumOfZeros(mode: Mode, a: Decimal, b: Decimal)
    requires a.Finite? && b.Finite? && a.coeff == 0 && b.coeff == 0
    ensures ExactSum(mode, a, b)
         == Finite(if mode == Floor && a.sign != b.sign then 1 else Min(a.sign, b.sign), 0, Min(a.exp, b.exp))
  {
    var exp := Min(a.exp, b.exp);
    assert 0 * Pow10(a.exp - exp) == 0 && 0 * Pow10(b.exp - exp) == 0;
  }

  // What __add__ does with the normalized operands, before the final _fix.
  function Combined(a: Rep, b: Rep, negativeZero: Sign, exp: int): Decimal {
    if a.sign != b.sign then
      if a.int_ == b.int_ then Finite(negativeZero, 0, exp)
      else if a.int_ < b.int_ then Finite(b.sign, b.int_ - a.int_, a.exp)
      else Finite(a.sign, a.int_ - b.int_, a.exp)
    else Finite(a.sign, a.int_ + b.int_, a.exp)
  }

  method Combine(op1: WorkRep, op2: WorkRep, negativeZero: Sign, exp: int) returns (sum: Decimal)
    requires op1 != op2 && op1.exp == op2.exp
    modifies op1, op2
    ensures sum == Combined(old(op1.Value()), old(op2.Value()), negativeZero, exp)
  {
    var big, small := op1, op2;
    var sign: Sign;
    if big.sign != small.sign {
      if big.int_ == small.int_ {
        return Finite(negativeZero, 0, exp);
      }
      if big.int_ < small.int_ {
        big, small := small, big;
      }
      if big.sign == 1 {
        sign := 1;
        big.sign, small.sign := small.sign, big.sign;
      } else {
        sign := 0;
      }
    } else if big.sign == 1 {
      sign := 1;
      big.sign, small.sign := 0, 0;
    } else {
      sign := 0;
    }
    var int_ := if small.sign == 0 then big.int_ + small.int_ else big.int_ - small.int_;
    sum := Finite(sign, int_, big.exp);
  }

  lemma SumCommutes(mode: Mode, a: Decimal, b: Decimal)
    requires a.Finite? && b.Finite?
    ensures ExactSum(mode, a, b) == ExactSum(mode, b, a)
  {
  }

  // Adding zero: padding the other operand by at most prec + 1 places is enough.
  lemma AddZero(p: Params, zero: Decimal, d: Decimal)
    requires p.Valid() && zero.Finite? && d.Finite? && zero.coeff == 0 && d.coeff > 0
    ensures FixSpec(p, Rescale(d, Max(Min(zero.exp, d.exp), d.exp - p.prec - 1), p.rounding))
         == FixSpec(p, ExactSum(p.rounding, zero, d))
  {
    hide FixSpec, ExactSum, Rescale, Pow10;
    var low := Min(zero.exp, d.exp);
    var exp := Max(low, d.exp - p.prec - 1);
    RescaleRounds(d, exp, p.rounding);
    SumWithZero(p.rounding, zero, d);
    if exp != low {
      PaddingHarmless(p, d.sign, d.coeff, d.exp, p.prec + 1, d.exp - low);
    }
  }

  lemma SumWithZero(mode: Mode, zero: Decimal, d: Decimal)
    requires zero.Finite? && d.Finite? && zero.coeff == 0 && d.coeff > 0
    ensures var low := Min(zero.exp, d.exp);
      ExactSum(mode, zero, d) == Finite(d.sign, d.coeff * Pow10(d.exp - low), low)
  {
    var low := Min(zero.exp, d.exp);
    assert 0 * Pow10(zero.exp - low) == 0;
    MulOrder(0, d.coeff, Pow10(d.exp - low));
  }

  ghost predicate IsNormalized(a: Rep, b: Rep, op1: Rep, op2: Rep, prec: nat) {
    if a.exp < b.exp then
      op1 == Replaced(b, a, prec) && op1.exp <= b.exp && op2 == Aligned(b, op1.exp)
    else
      op2 == Replaced(a, b, prec) && op2.exp <= a.exp && op1 == Aligned(a, op2.exp)
  }

  // The combined normalized operands are fixed to the same result as the exact sum.
  lemma SumOfNormalized(p: Params, x: Decimal, y: Decimal, op1: Rep, op2: Rep)
    requires p.Valid() && x.Finite? && y.Finite? && x.coeff > 0 && y.coeff > 0
    requires IsNormalized(Rep(x.sign, x.coeff, x.exp), Rep(y.sign, y.coeff, y.exp), op1, op2, p.prec)
    ensures var negativeZero := if p.rounding == Floor && x.sign != y.sign then 1 else 0;
      FixSpec(p, Combined(op1, op2, negativeZero, Min(x.exp, y.exp))) == FixSpec(p, ExactSum(p.rounding, x, y))
  {
    var a, b := Rep(x.sign, x.coeff, x.exp), Rep(y.sign, y.coeff, y.exp);
    if a.exp < b.exp {
      SumOfAligned(p, y, x, b, a, op2, op1);
      SumCommutes(p.rounding, x, y);
      CombinedCommutes(op1, op2, if p.rounding == Floor && x.sign != y.sign then 1 else 0, Min(x.exp, y.exp));
    } else {
      SumOfAligned(p, x, y, a, b, op1, op2);
    }
  }

  lemma CombinedCommutes(a: Rep, b: Rep, negativeZero: Sign, exp: int)
    requires a.exp == b.exp
    ensures Combined(a, b, negativeZero, exp) == Combined(b, a, negativeZero, exp)
  {
  }

  lemma SumOfAligned(p: Params, x: Decimal, y: Decimal, high: Rep, low: Rep, op1: Rep, op2: Rep)
    requires p.Valid() && x.Finite? && y.Finite? && x.coeff > 0 && y.coeff > 0 && y.exp <= x.exp
    requires high == Rep(x.sign, x.coeff, x.exp) && low == Rep(y.sign, y.coeff, y.exp)
    requires op2 == Replaced(high, low, p.prec) && op2.exp <= high.exp && op1 == Aligned(high, op2.exp)
    ensures var negativeZero := if p.rounding == Floor && x.sign != y.sign then 1 else 0;
      FixSpec(p, Combined(op1, op2, negativeZero, Min(x.exp, y.exp))) == FixSpec(p, ExactSum(p.rounding, x, y))
  {
    hide FixSpec, NumDigits;
    MulOrder(0, x.coeff, Pow10(x.exp - y.exp));
    assert Pow10(y.exp - y.exp) == 1;
    if op2 != low {
      ReplacementHarmless(p, x.sign, high, low, x.sign != y.sign);
    }
  }
}
