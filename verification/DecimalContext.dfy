// Contexts as objects, and _fix and _rescale as the code performs them: on the
// digit string of the coefficient, raising flags on the context as it goes.
module DecimalContext {
  import opened Powers
  import opened Numerals
  import opened Rounding
  import opened DecimalFix

  // What _raise_error can be given: a signal, or the condition for 0/0, which is
  // reported as InvalidOperation.
  datatype Condition = Raised(signal: Signal) | DivisionUndefined

  function SignalOf(c: Condition): Signal {
    if c.Raised? then c.signal else InvalidOperation
  }

  datatype Handled = Nothing | Result(value: Decimal)

  // The handle methods of the conditions.
  function Handle(c: Condition, p: Params, sign: Sign): Handled {
    match c
    case Raised(Overflow) => Result(OverflowResult(p, sign))
    case Raised(DivisionByZero) => Result(Infinity(sign))
    case Raised(InvalidOperation) => Result(NaN)
    case DivisionUndefined => Result(NaN)
    case _ => Nothing
  }

  // The flags dictionary, which copies of a context share.
  class SignalDict {
    var raised: set<Signal>

    constructor ()
      ensures raised == {}
    {
      raised := {};
    }
  }

  class Context {
    var prec: nat
    var rounding: Mode
    var emin: int
    var emax: int
    var clamp: int
    const flags: SignalDict

    constructor (p: Params, flags: SignalDict)
      ensures Settings() == p && this.flags == flags
    {
      prec, rounding, emin, emax, clamp := p.prec, p.rounding, p.emin, p.emax, p.clamp;
      this.flags := flags;
    }

    function Settings(): Params
      reads this
    {
      Params(prec, rounding, emin, emax, clamp)
    }

    ghost predicate Valid()
      reads this
    {
      Settings().Valid()
    }

    // A copy with its own settings and the same flags object.
    method ShallowCopy() returns (copy: Context)
      ensures fresh(copy) && copy.Settings() == Settings() && copy.flags == flags
    {
      copy := new Context(Settings(), flags);
    }

    method SetRounding(mode: Mode) returns (previous: Mode)
      modifies this
      ensures previous == old(rounding)
      ensures Settings() == old(Settings()).(rounding := mode)
    {
      previous := rounding;
      rounding := mode;
    }

    // _raise_error with no trap enabled
    method RaiseError(condition: Condition, sign: Sign) returns (ans: Handled)
      modifies flags
      ensures flags.raised == old(flags.raised) + {SignalOf(condition)}
      ensures ans == Handle(condition, Settings(), sign)
    {
      flags.raised := flags.raised + {SignalOf(condition)};
      ans := Handle(condition, Settings(), sign);
    }
  }

  // _dec_from_triple: a finite number from its sign, digit string and exponent.
  function DecFromTriple(sign: Sign, digits: string, exp: int): Decimal
    requires AllDigits(digits)
  {
    Finite(sign, Value(digits), exp)
  }

  // The digits kept and the rounding decision, for a number cut above its quantum.
  // A number below a tenth of the quantum is first replaced by that tenth.
  lemma CutDigits(mode: Mode, d: Decimal, e: int)
    requires d.Finite? && d.coeff > 0 && d.exp < e
    ensures var n := NumDigits(d.coeff) + d.exp - e;
      var s := if n < 0 then Numeral(1) else Numeral(d.coeff);
      var digits := if n < 0 then 0 else n;
      var m := Pow10(e - d.exp);
      && digits < |s|
      && Value(s[..digits]) == d.coeff / m
      && (RoundingMethod(mode, d.sign, s, digits) > 0
          <==> Away(mode, d.sign, d.coeff / m, TailAt(d.coeff % m, m, false)))
      && (RoundingMethod(mode, d.sign, s, digits) == 0 <==> d.coeff % m == 0)
  {
    hide Value, Pow, NumDigits, RoundingMethod, Away, TailAt;
    var n := NumDigits(d.coeff) + d.exp - e;
    if n < 0 {
      CutBelow(mode, d, e);
    } else {
      NumeralCut(d.coeff, n);
      RoundingMethodMeaning(mode, d.sign, Numeral(d.coeff), n);
    }
  }

  lemma CutBelow(mode: Mode, d: Decimal, e: int)
    requires d.Finite? && d.coeff > 0 && NumDigits(d.coeff) + d.exp < e
    ensures Numeral(1) == "1" && Value("1"[..0]) == 0
    ensures var m := Pow10(e - d.exp);
      && d.coeff / m == 0
      && (RoundingMethod(mode, d.sign, "1", 0) > 0 <==> Away(mode, d.sign, 0, TailAt(d.coeff % m, m, false)))
      && RoundingMethod(mode, d.sign, "1", 0) != 0 && d.coeff % m != 0
  {
    var m := Pow10(e - d.exp);
    NumDigitsBounds(d.coeff);
    PowMonotonic(10, NumDigits(d.coeff), e - d.exp - 1);
    assert m == 10 * Pow10(e - d.exp - 1);
    DivModUnique(d.coeff, m, 0, d.coeff);
    assert "1"[..0] == "";
    assert "1"[0..] == "1";
    RoundingMethodMeaning(mode, d.sign, "1", 0);
    assert Value("1") == 1 && Pow10(1) == 10 * Pow10(0) == 10;
  }

  // Adding one to the kept digits needs an extra place exactly when the sum is 10**prec.
  lemma CarryDigits(c: nat, prec: nat)
    requires prec > 0 && c <= Pow10(prec)
    ensures |Numeral(c)| > prec <==> c == Pow10(prec)
    ensures c == Pow10(prec) ==> Value(Numeral(c)[..|Numeral(c)| - 1]) == Pow10(prec - 1)
    ensures Value(Numeral(c)) == c
  {
    ValueOfNumeral(c);
    if c == Pow10(prec) {
      PowPositive(10, prec);
      assert Pow10(prec + 1) == 10 * Pow10(prec);
      NumDigitsUnique(c, prec + 1);
      NumeralCut(c, prec);
      assert Pow10(1) == 10 * Pow10(0) == 10;
      assert c == Pow10(prec - 1) * 10;
    } else {
      DigitsBelow(c, prec);
    }
  }

  // What the digit string says about rounding d at e: the kept digits, and 1 more
  // when the rounding function returns 1, are the rounded coefficient.
  lemma KeptDigits(p: Params, d: Decimal, e: int)
    requires p.Valid() && d.Finite? && d.coeff > 0 && d.exp < e && AdjustedExp(d) - p.prec + 1 <= e
    ensures |Numeral(d.coeff)| == NumDigits(d.coeff)
    ensures var n := NumDigits(d.coeff) + d.exp - e;
      var s := if n < 0 then Numeral(1) else Numeral(d.coeff);
      var digits := if n < 0 then 0 else n;
      var m := Pow10(e - d.exp);
      && digits < |s|
      && var coeff, changed := if digits == 0 then "0" else s[..digits], RoundingMethod(p.rounding, d.sign, s, digits);
      && Value(coeff) < Pow10(p.prec)
      && RoundSticky(p.rounding, d.sign, d.coeff, m, false) == Value(coeff) + (if changed > 0 then 1 else 0)
      && (changed != 0 <==> d.coeff % m != 0)
  {
    ValueOfNumeral(d.coeff);
    CutDigits(p.rounding, d, e);
    QuotientBelow(p, d, e);
    assert Value("0") == 0 && Value("") == 0;
    hide Value, Pow10, Pow, RoundingMethod, NumDigits, Numeral;
    var n := NumDigits(d.coeff) + d.exp - e;
    var s := if n < 0 then Numeral(1) else Numeral(d.coeff);
    var digits := if n < 0 then 0 else n;
    assert digits == 0 ==> s[..digits] == "";
  }

  method Fix(self: Decimal, context: Context) returns (ans: Decimal)
    requires context.Valid()
    modifies context.flags
    ensures ans == FixSpec(context.Settings(), self).result
    ensures context.flags.raised == old(context.flags.raised) + FixSpec(context.Settings(), self).signals
  {
    hide FixRound, NumDigits, Numeral, Pow10;
    if !self.Finite? {
      return self;
    }
    var p := context.Settings();
    var etiny, etop := p.Etiny(), p.Etop();
    if self.coeff == 0 {
      var expMax := if context.clamp == 1 then etop else context.emax;
      var low := if self.exp < etiny then etiny else self.exp;
      var newExp := if low > expMax then expMax else low;
      if newExp != self.exp {
        var _ := context.RaiseError(Raised(Clamped), self.sign);
        return Finite(self.sign, 0, newExp);
      }
      return self;
    }
    ValueOfNumeral(self.coeff);
    var digitString := Numeral(self.coeff);
    var expMin := |digitString| + self.exp - context.prec;
    if expMin > etop {
      var handled := context.RaiseError(Raised(Overflow), self.sign);
      var _ := context.RaiseError(Raised(Inexact), self.sign);
      var _ := context.RaiseError(Raised(Rounded), self.sign);
      return handled.value;
    }
    var subnormal := expMin < etiny;
    if subnormal {
      expMin := etiny;
    }
    if self.exp < expMin {
      ans := RoundAndSignal(self, context, expMin, subnormal);
      return;
    }
    if subnormal {
      var _ := context.RaiseError(Raised(Subnormal), self.sign);
    }
    if context.clamp == 1 && self.exp > etop {
      var _ := context.RaiseError(Raised(Clamped), self.sign);
      var padding := Zeros(self.exp - etop);
      ValueConcat(digitString, padding);
      ValueOfZeros(padding);
      return DecFromTriple(self.sign, digitString + padding, etop);
    }
    return self;
  }

  // The branch of _fix that rounds.
  method RoundAndSignal(self: Decimal, context: Context, quantum: int, subnormal: bool) returns (ans: Decimal)
    requires context.Valid() && self.Finite? && self.coeff > 0 && self.exp < quantum
    requires quantum == context.Settings().Quantum(AdjustedExp(self)) && AdjustedExp(self) <= context.emax
    requires subnormal <==> AdjustedExp(self) < context.emin
    modifies context.flags
    ensures ans == FixRound(context.Settings(), self, quantum).result
    ensures context.flags.raised == old(context.flags.raised) + FixRound(context.Settings(), self, quantum).signals
  {
    var p := context.Settings();
    hide RoundSticky, Pow10, Value, NumDigits, AdjustedExp, Params.Quantum, Settle, Spills, OverflowResult;
    var coeff, expMin, changed := RoundDigits(self, p, quantum);
    if expMin > p.Etop() {
      var handled := context.RaiseError(Raised(Overflow), self.sign);
      ans := handled.value;
    } else {
      ans := DecFromTriple(self.sign, coeff, expMin);
    }
    SignalRounding(context, ans, changed != 0, subnormal);
  }

  // The signals after rounding, in the order of precedence of the specification.
  method SignalRounding(context: Context, ans: Decimal, changed: bool, subnormal: bool)
    modifies context.flags
    ensures context.flags.raised == old(context.flags.raised) + {Rounded}
      + (if changed then {Inexact} else {})
      + (if subnormal then {Subnormal} else {})
      + (if changed && subnormal then {Underflow} else {})
      + (if ans.Nonzero() then {} else {Clamped})
  {
    if changed && subnormal {
      var _ := context.RaiseError(Raised(Underflow), 0);
    }
    if subnormal {
      var _ := context.RaiseError(Raised(Subnormal), 0);
    }
    if changed {
      var _ := context.RaiseError(Raised(Inexact), 0);
    }
    var _ := context.RaiseError(Raised(Rounded), 0);
    if !ans.Nonzero() {
      var _ := context.RaiseError(Raised(Clamped), 0);
    }
  }

  // The kept digits, rounded up when the rounding function says so.
  method RoundDigits(self: Decimal, p: Params, quantum: int) returns (coeff: string, expMin: int, changed: int)
    requires p.Valid() && self.Finite? && self.coeff > 0 && self.exp < quantum
    requires quantum == p.Quantum(AdjustedExp(self)) && AdjustedExp(self) <= p.emax
    ensures AllDigits(coeff)
    ensures changed != 0 <==> self.coeff % Pow10(quantum - self.exp) != 0
    ensures var c := RoundSticky(p.rounding, self.sign, self.coeff, Pow10(quantum - self.exp), false);
      && (expMin > p.Etop() <==> Spills(p, c, quantum))
      && Settle(p, self.sign, c, quantum)
         == if expMin > p.Etop() then OverflowResult(p, self.sign) else DecFromTriple(self.sign, coeff, expMin)
  {
    hide Value, Pow10, Pow, RoundSticky, RoundingMethod, OverflowResult, NumDigits, Numeral, Settle, Spills;
    ValueOfNumeral(self.coeff);
    KeptDigits(p, self, quantum);
    expMin := quantum;
    var number := Numeral(self.coeff);
    var digits := |number| + self.exp - expMin;
    if digits < 0 {
      number := Numeral(1);
      digits := 0;
    }
    changed := RoundingMethod(p.rounding, self.sign, number, digits);
    coeff := if digits == 0 then "0" else number[..digits];
    if changed > 0 {
      var up := Value(coeff) + 1;
      CarrySettles(p, self.sign, up, quantum);
      coeff := Numeral(up);
      if |coeff| > p.prec {
        coeff := coeff[..|coeff| - 1];
        expMin := expMin + 1;
      }
    } else {
      PlainSettles(p, self.sign, Value(coeff), quantum);
    }
  }

  lemma PlainSettles(p: Params, sign: Sign, c: nat, e: int)
    requires p.Valid() && c < Pow10(p.prec)
    ensures !Spills(p, c, e) && Settle(p, sign, c, e) == Finite(sign, c, e)
  {
  }

  lemma CarrySettles(p: Params, sign: Sign, c: nat, e: int)
    requires p.Valid() && c <= Pow10(p.prec)
    ensures var s := Numeral(c);
      if |s| > p.prec then
        && (Spills(p, c, e) <==> e + 1 > p.Etop())
        && Settle(p, sign, c, e)
           == if e + 1 > p.Etop() then OverflowResult(p, sign) else DecFromTriple(sign, s[..|s| - 1], e + 1)
      else !Spills(p, c, e) && Settle(p, sign, c, e) == DecFromTriple(sign, s, e)
  {
    CarryDigits(c, p.prec);
  }

  // _rescale: the exponent becomes exp, padding with zeros or rounding; quiet.
  function Rescale(self: Decimal, exp: int, rounding: Mode): Decimal {
    if !self.Finite? then self
    else if self.coeff == 0 then Finite(self.sign, 0, exp)
    else if self.exp >= exp then
      DecFromTriple(self.sign, Numeral(self.coeff) + Zeros(self.exp - exp), exp)
    else
      CutDigits(rounding, self, exp);
      ValueOfNumeral(self.coeff);
      var n := |Numeral(self.coeff)| + self.exp - exp;
      var s := if n < 0 then Numeral(1) else Numeral(self.coeff);
      var digits := if n < 0 then 0 else n;
      var coeff := if digits == 0 then "0" else s[..digits];
      if RoundingMethod(rounding, self.sign, s, digits) == 1 then
        DecFromTriple(self.sign, Numeral(Value(coeff) + 1), exp)
      else DecFromTriple(self.sign, coeff, exp)
  }

  // Padding keeps the number; otherwise the result is the number rounded to that exponent.
  lemma RescaleRounds(self: Decimal, exp: int, rounding: Mode)
    requires self.Finite?
    ensures Rescale(self, exp, rounding) ==
      if self.exp >= exp then Finite(self.sign, self.coeff * Pow10(self.exp - exp), exp)
      else Finite(self.sign, RoundSticky(rounding, self.sign, self.coeff, Pow10(exp - self.exp), false), exp)
  {
    if self.coeff == 0 {
      if self.exp < exp {
        DivModUnique(0, Pow10(exp - self.exp), 0, 0);
      }
    } else if self.exp >= exp {
      ValueOfNumeral(self.coeff);
      var padding := Zeros(self.exp - exp);
      ValueConcat(Numeral(self.coeff), padding);
      ValueOfZeros(padding);
    } else {
      RescaleCut(self, exp, rounding);
    }
  }

  lemma RescaleCut(self: Decimal, exp: int, rounding: Mode)
    requires self.Finite? && self.coeff > 0 && self.exp < exp
    ensures Rescale(self, exp, rounding)
         == Finite(self.sign, RoundSticky(rounding, self.sign, self.coeff, Pow10(exp - self.exp), false), exp)
  {
    hide RoundingMethod, Away, TailAt, Pow, NumDigits, Numeral;
    CutDigits(rounding, self, exp);
    ValueOfNumeral(self.coeff);
    var n := |Numeral(self.coeff)| + self.exp - exp;
    var s := if n < 0 then Numeral(1) else Numeral(self.coeff);
    var digits := if n < 0 then 0 else n;
    assert digits == 0 ==> s[..digits] == "";
    assert Value("0") == 0 && Value("") == 0;
    ValueOfNumeral(self.coeff / Pow10(exp - self.exp) + 1);
    RoundingMethodMeaning(rounding, self.sign, s, digits);
  }
}
