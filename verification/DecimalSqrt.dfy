// Decimal square root (_pydecimal.py: sqrt).
module DecimalSqrt {
  import opened Powers
  import opened Numerals
  import opened Rounding
  import opened Scale
  import opened DecimalFix
  import opened DecimalContext
  import opened IntegerRoots
  import opened RootSquares

  // x is the positive square root of the number.
  ghost predicate IsRoot(x: real, d: Decimal)
    requires d.Finite?
  {
    x > 0.0 && x * x == Magnitude(d)
  }

  // The outcome for a positive number: its exact root rounded once, half to even;
  // a representable root is the fixed form of the root at the ideal exponent.
  ghost predicate RootsCorrectly(p: Params, d: Decimal, x: real, o: Outcome)
    requires p.Valid() && d.Finite? && x > 0.0
  {
    && RoundsCorrectly(RootParams(p), 0, x, o)
    && (Representable(RootParams(p), x) ==>
          exists n: nat :: Magnitude(Finite(0, n, d.exp / 2)) == x
                           && o == FixSpec(RootParams(p), Finite(0, n, d.exp / 2)))
  }

  // ----- scaling the argument -----

  // The argument as c * 100**e, with e half the exponent rounded down.
  function Radicand(d: Decimal): nat
    requires d.Finite?
  {
    if d.exp % 2 == 1 then d.coeff * 10 else d.coeff
  }

  lemma RadicandMagnitude(d: Decimal)
    requires d.Finite?
    ensures Magnitude(d) == Radicand(d) as real * Ten(2 * (d.exp / 2))
  {
    if d.exp % 2 == 1 {
      TenSucc(2 * (d.exp / 2));
      assert d.exp == 2 * (d.exp / 2) + 1;
      RealAssoc(d.coeff as real, 10.0, Ten(2 * (d.exp / 2)));
      assert (d.coeff * 10) as real == d.coeff as real * 10.0;
    }
  }

  lemma Hundreds(k: nat)
    ensures Pow(100, k) == Pow10(k) * Pow10(k) == Pow10(2 * k) && Pow(100, k) > 0
  {
    PowDistributes(10, 10, k);
    PowAdd(10, k, k);
    assert 10 * 10 == 100;
  }

  // The scaled radicand: exactly prec base-100 digits.
  function Scaled(c: nat, shift: int): (s: nat)
  {
    Hundreds(if shift >= 0 then shift else -shift);
    MulMonotonic(0, c, 0, Pow(100, if shift >= 0 then shift else 0));
    DivMonotonic(0, c, Pow(100, if shift < 0 then -shift else 0));
    if shift >= 0 then c * Pow(100, shift) else c / Pow(100, -shift)
  }

  // Whether scaling lost nothing.
  predicate ScaledExactly(c: nat, shift: int) {
    Hundreds(if shift < 0 then -shift else 0);
    shift >= 0 || c % Pow(100, -shift) == 0
  }

  lemma ScaledSize(c: nat, prec: nat)
    requires c > 0 && prec > 0
    ensures var l := (NumDigits(c) + 1) / 2;
      var s := Scaled(c, prec - l);
      Pow(100, prec - 1) <= s < Pow(100, prec)
  {
    var n, l := NumDigits(c), (NumDigits(c) + 1) / 2;
    NumDigitsBounds(c);
    Hundreds(l);
    Hundreds(l - 1);
    PowMonotonic(10, n, 2 * l);
    PowMonotonic(10, 2 * (l - 1), n - 1);
    ScaledBounds(c, l, prec);
  }

  lemma ScaledBounds(c: nat, l: nat, prec: nat)
    requires l > 0 && prec > 0 && Pow(100, l - 1) <= c < Pow(100, l)
    ensures Pow(100, prec - 1) <= Scaled(c, prec - l) < Pow(100, prec)
  {
    var shift := prec - l;
    Hundreds(if shift >= 0 then shift else -shift);
    hide Pow;
    if shift >= 0 {
      PowAdd(100, l, shift);
      PowAdd(100, l - 1, shift);
      MulOrder(c, Pow(100, l), Pow(100, shift));
      MulOrder(Pow(100, l - 1), c, Pow(100, shift));
    } else {
      PowAdd(100, prec, -shift);
      PowAdd(100, prec - 1, -shift);
      DivBounds(c, Pow(100, -shift), Pow(100, prec));
      DivBounds(c, Pow(100, -shift), Pow(100, prec - 1));
    }
  }

  // ----- the root of the scaled number -----

  lemma SquareOrder(a: real, b: real)
    requires a >= 0.0 && b >= 0.0
    ensures a < b <==> a * a < b * b
    ensures a == b <==> a * a == b * b
  {
    assert (b - a) * (a + b) == b * b - a * a;
    if a + b > 0.0 {
      ProductSign(b - a, a + b);
    }
  }

  // A root at scale e squares to the argument at scale 2e.
  lemma ScaledSquare(x: real, y: real, m: real, e: int)
    requires x == y * Ten(e) && x * x == m
    ensures m == (y * y) * Ten(2 * e)
  {
    TenAdd(e, e);
    var u := Ten(e);
    assert (y * u) * (y * u) == (y * y) * (u * u) by { RegroupReal(y, u); }
  }

  lemma RegroupReal(y: real, u: real)
    ensures (y * u) * (y * u) == (y * y) * (u * u)
  {
    RealAssoc(y, u, y * u);
    RealAssoc(u, y, u);
    RealAssoc(y, u, u);
    RealAssoc(y, y, u * u);
    assert u * (y * u) == y * (u * u);
  }

  // The square of the root, in units of the scaled number, lies in its unit interval.
  lemma SquarePosition(c: nat, shift: int, w: real, e: int)
    requires w * Ten(2 * (e - shift)) == c as real * Ten(2 * e)
    ensures Scaled(c, shift) as real <= w < (Scaled(c, shift) + 1) as real
    ensures w == Scaled(c, shift) as real <==> ScaledExactly(c, shift)
  {
    if shift >= 0 {
      ScaledUpPosition(c, shift, w, e);
    } else {
      ScaledDownPosition(c, -shift, w, e);
    }
  }

  lemma ScaledUpPosition(c: nat, k: nat, w: real, e: int)
    requires w * Ten(2 * (e - k)) == c as real * Ten(2 * e)
    ensures w == Scaled(c, k) as real && ScaledExactly(c, k)
  {
    Hundreds(k);
    ScaleUp(c, w, 2 * e, 2 * (e - k), 2 * k);
  }

  lemma ScaleUp(c: nat, w: real, a: int, b: int, k: nat)
    requires a - b == k && w * Ten(b) == c as real * Ten(a)
    ensures c * Pow10(k) >= 0 && w == (c * Pow10(k)) as real
  {
    hide Ten, Pow10;
    RescaleProduct(c, a, b);
    RealCancel(w, (c * Pow10(k)) as real, Ten(b));
  }

  lemma ScaledDownPosition(c: nat, k: nat, w: real, e: int)
    requires k > 0 && w * Ten(2 * (e + k)) == c as real * Ten(2 * e)
    ensures var s := Scaled(c, -(k as int)); s as real <= w < (s + 1) as real
    ensures w == Scaled(c, -(k as int)) as real <==> ScaledExactly(c, -(k as int))
  {
    Hundreds(k);
    var H := Pow(100, k);
    assert Scaled(c, -(k as int)) == c / H && (ScaledExactly(c, -(k as int)) <==> c % H == 0);
    assert 2 * (e + k) == 2 * e + 2 * k;
    hide *;
    TenAddNat(2 * e, 2 * k);
    UnscaledPosition(c, H, w, Ten(2 * e));
  }

  lemma UnscaledPosition(c: nat, H: nat, w: real, u: real)
    requires H > 0 && u > 0.0 && w * (u * H as real) == c as real * u
    ensures (c / H) as real <= w < (c / H + 1) as real
    ensures w == (c / H) as real <==> c % H == 0
  {
    DivMod(c, H);
    var q, r, h := c / H, c % H, H as real;
    assert w * (u * h) == (w * h) * u by { RealAssoc(w, h, u); RealAssoc(h, u, w); RealAssoc(w, u, h); }
    RealCancel(w * h, c as real, u);
    assert c as real == q as real * h + r as real;
    var next := q as real + 1.0;
    RealOrder(q as real, w, h);
    RealOrder(w, next, h);
  }

  // Where the real root lies with respect to the integer root n of the scaled number.
  lemma RootPosition(d: Decimal, x: real, shift: int, n: nat)
    requires d.Finite? && IsRoot(x, d)
    requires n * n <= Scaled(Radicand(d), shift) < (n + 1) * (n + 1)
    ensures var f := d.exp / 2 - shift;
      if ScaledExactly(Radicand(d), shift) && n * n == Scaled(Radicand(d), shift) then x == n as real * Ten(f)
      else n as real * Ten(f) < x < (n + 1) as real * Ten(f)
  {
    hide *;
    var f := d.exp / 2 - shift;
    IsRootPositive(x, d);
    var y := x / Ten(f);
    DivideUnit(x, Ten(f));
    RootSquare(d, x, y, f);
    SquarePosition(Radicand(d), shift, y * y, d.exp / 2);
    RootUnits(y, n, Scaled(Radicand(d), shift));
    UnitsOrder(x, y, n, Ten(f));
  }

  lemma IsRootPositive(x: real, d: Decimal)
    requires d.Finite? && IsRoot(x, d)
    ensures x > 0.0
  {
  }

  // In units of 10**f, the root squares to the radicand.
  lemma RootSquare(d: Decimal, x: real, y: real, f: int)
    requires d.Finite? && IsRoot(x, d) && x == y * Ten(f)
    ensures (y * y) * Ten(2 * f) == Radicand(d) as real * Ten(2 * (d.exp / 2))
  {
    hide Ten, Radicand;
    RadicandMagnitude(d);
    ScaledSquare(x, y, Magnitude(d), f);
  }

  lemma RootUnits(y: real, n: nat, S: nat)
    requires y > 0.0 && S as real <= y * y < (S + 1) as real && n * n <= S < (n + 1) * (n + 1)
    ensures n as real <= y < (n + 1) as real
    ensures y == n as real <==> y * y == S as real && n * n == S
  {
    var lo, hi := n * n, (n + 1) * (n + 1);
    SquareOfNat(n, y, lo);
    SquareOfNat(n + 1, y, hi);
  }

  lemma SquareOfNat(n: nat, y: real, s: nat)
    requires y > 0.0 && s == n * n
    ensures n as real < y <==> (s as real) < y * y
    ensures n as real == y <==> (s as real) == y * y
  {
    var r := n as real;
    assert s as real == r * r;
    SquareOrder(r, y);
  }

  lemma UnitsOrder(x: real, y: real, n: nat, u: real)
    requires u > 0.0 && x == y * u && n as real <= y < (n + 1) as real
    ensures y == n as real ==> x == n as real * u
    ensures y != n as real ==> n as real * u < x < (n + 1) as real * u
  {
    RealOrder(n as real, y, u);
    RealOrder(y, (n + 1) as real, u);
  }

  lemma DivideUnit(x: real, u: real)
    requires u > 0.0
    ensures (x / u) * u == x
    ensures x > 0.0 ==> x / u > 0.0
  {
  }

  // ----- the exact case -----

  // If n squared is a multiple of 100**s, then n is a multiple of 10**s.
  lemma {:induction false} RootOfMultiple(n: nat, c: nat, s: nat)
    requires n * n == c * Pow(100, s)
    ensures n % Pow10(s) == 0
    decreases s
  {
    if s > 0 {
      var h := c * Pow(100, s - 1);
      assert n * n == 100 * h by { assert Pow(100, s) == 100 * Pow(100, s - 1); Commute(c, 100, Pow(100, s - 1)); }
      RootOfHundred(n, h);
      var m := n / 10;
      RootOfMultiple(m, c, s - 1);
      var P := Pow10(s - 1);
      DivMod(m, P);
      assert Pow10(s) == 10 * P;
      assert n == (m / P) * (10 * P) by { Commute(m / P, 10, P); }
      DivModUnique(n, 10 * P, m / P, 0);
    } else {
      assert Pow10(0) == 1;
    }
  }

  lemma Commute(a: int, b: int, c: int)
    ensures a * (b * c) == b * (a * c)
  {
    MulAssoc(a, b, c);
    MulAssoc(b, a, c);
  }

  lemma RootOfHundred(n: nat, h: int)
    requires n * n == 100 * h
    ensures n % 10 == 0 && (n / 10) * (n / 10) == h
  {
    var m, d := n / 10, n % 10;
    assert n == 10 * m + d;
    assert n * n == 10 * (10 * (m * m) + 2 * (m * d)) + d * d;
    assert (d * d) % 10 == 0 by {
      DivAddMultiple(d * d, 10 * (m * m) + 2 * (m * d) - 10 * h, 10);
    }
    LastDigitOfSquare(d);
  }

  lemma LastDigitOfSquare(d: nat)
    requires d < 10 && (d * d) % 10 == 0
    ensures d == 0
  {
    assert d == 0 || d == 1 || d == 2 || d == 3 || d == 4 || d == 5 || d == 6 || d == 7 || d == 8 || d == 9;
  }

  // Rescaling an exact root to the ideal exponent.
  function Unscale(n: nat, shift: int): (m: nat)
  {
    DivMonotonic(0, n, Pow10(if shift >= 0 then shift else 0));
    MulMonotonic(0, n, 0, Pow10(if shift >= 0 then 0 else -shift));
    if shift >= 0 then n / Pow10(shift) else n * Pow10(-shift)
  }

  lemma UnscaleKeeps(d: Decimal, shift: int, n: nat)
    requires d.Finite?
    requires ScaledExactly(Radicand(d), shift) && n * n == Scaled(Radicand(d), shift)
    ensures Magnitude(Finite(0, Unscale(n, shift), d.exp / 2)) == n as real * Ten(d.exp / 2 - shift)
  {
    var e := d.exp / 2;
    if shift >= 0 {
      RootOfMultiple(n, Radicand(d), shift);
      UnscaleDown(n, shift, e);
    } else {
      UnscaleUp(n, -shift, e);
    }
  }

  lemma UnscaleDown(n: nat, k: nat, e: int)
    requires n % Pow10(k) == 0
    ensures Magnitude(Finite(0, Unscale(n, k), e)) == n as real * Ten(e - k)
  {
    ExactDivision(n, k);
    hide Ten, Pow10;
    RescaleProduct(Unscale(n, k), e, e - k);
  }

  lemma ExactDivision(n: nat, k: nat)
    requires n % Pow10(k) == 0
    ensures Unscale(n, k) * Pow10(k) == n
  {
    DivMod(n, Pow10(k));
  }

  lemma UnscaleUp(n: nat, k: nat, e: int)
    requires k > 0
    ensures Magnitude(Finite(0, Unscale(n, -(k as int)), e)) == n as real * Ten(e + k)
  {
    hide Ten, Pow10;
    RescaleProduct(n, e + k, e);
  }

  // ----- sqrt -----

  method Sqrt(self: Decimal, context: Context) returns (ans: Decimal, ghost signals: set<Signal>)
    requires context.Valid()
    modifies context.flags
    ensures context.flags.raised == old(context.flags.raised) + signals
    ensures var o := Outcome(ans, signals);
      match self
      case NaN => o == Outcome(NaN, {})
      case Infinity(sign) => o == if sign == 0 then Outcome(self, {}) else Outcome(NaN, {InvalidOperation})
      case Finite(sign, coeff, exp) =>
        if coeff == 0 then o == FixSpec(context.Settings(), Finite(sign, 0, exp / 2))
        else if sign == 1 then o == Outcome(NaN, {InvalidOperation})
        else
          && RootBySquares(context.Settings(), self, o)
          && forall x: real :: IsRoot(x, self) ==> RootsCorrectly(context.Settings(), self, x, o)
  {
    if self.NaN? {
      return NaN, {};
    }
    if self == Infinity(0) {
      return self, {};
    }
    if self.Finite? && self.coeff == 0 {
      signals := FixSpec(context.Settings(), Finite(self.sign, 0, self.exp / 2)).signals;
      ans := Fix(Finite(self.sign, 0, self.exp / 2), context);
      return;
    }
    if self.sign == 1 {
      var handled := context.RaiseError(Raised(InvalidOperation), 0);
      return handled.value, {InvalidOperation};
    }
    var p := context.Settings();
    var root, t, f := RootBeforeFix(self, p);
    FixedRoot(p, self, root, t, f);
    var local := context.ShallowCopy();
    var rounding := local.SetRounding(HalfEven);
    ans := Fix(root, local);
    signals := FixSpec(RootParams(p), root).signals;
    var _ := local.SetRounding(rounding);
  }

  // The number handed to _fix for a positive argument: the root truncated to
  // prec + 1 digits, at the ideal exponent when exact and bumped when not.
  method RootBeforeFix(self: Decimal, p: Params) returns (root: Decimal, ghost t: nat, ghost f: int)
    requires p.Valid() && self.Finite? && self.coeff > 0
    ensures BeforeFix(p, self, root, t, f)
    ensures ExactSquare(self, t, f) ==> root.exp == self.exp / 2
    ensures forall x: real :: IsRoot(x, self) ==> RootsCorrectly(p, self, x, FixSpec(RootParams(p), root))
  {
    hide *;
    var prec := p.prec + 1;
    var e := self.exp / 2;
    var c := Radicand(self);
    ValueOfNumeral(self.coeff);
    var len := |Numeral(self.coeff)|;
    var l := if self.exp % 2 == 1 then len / 2 + 1 else (len + 1) / 2;
    RadicandDigits(self);
    var shift := prec - l;
    var scaled, exact := Scaled(c, shift), ScaledExactly(c, shift);
    e := e - shift;
    ScaledSize(c, prec);
    StartAbove(scaled, prec);
    var n := FloorSqrt(scaled, Pow10(prec));
    RootDigits(scaled, p.prec, n);
    TruncationPosition(self, shift, n);
    t, f := n, e;
    BumpIs(n);
    exact := exact && n * n == scaled;
    if exact {
      UnscaleKeeps(self, shift, n);
      ExactRootFixed(p, self, shift, n);
      n := Unscale(n, shift);
      e := e + shift;
    } else {
      InexactRootFixed(p, self, shift, n);
      if n % 5 == 0 {
        n := n + 1;
      }
    }
    root := Finite(0, n, e);
    ReadyToFix(p, self, root, t, f);
  }

  lemma ReadyToFix(p: Params, d: Decimal, root: Decimal, t: nat, f: int)
    requires d.Finite? && NumDigits(t) == p.prec + 1 && TruncatedRoot(d, t, f) && root.Finite? && root.sign == 0
    requires ExactSquare(d, t, f) ==> Magnitude(root) == t as real * Ten(f)
    requires !ExactSquare(d, t, f) ==> root == Finite(0, Bump(t), f)
    ensures BeforeFix(p, d, root, t, f)
  {
  }

  lemma RadicandDigits(d: Decimal)
    requires d.Finite? && d.coeff > 0
    ensures Radicand(d) > 0
    ensures (NumDigits(Radicand(d)) + 1) / 2
         == if d.exp % 2 == 1 then NumDigits(d.coeff) / 2 + 1 else (NumDigits(d.coeff) + 1) / 2
  {
    if d.exp % 2 == 1 {
      PaddedDigits(d.coeff, 1);
      assert Pow10(1) == 10 * Pow10(0) == 10;
    }
  }

  lemma StartAbove(scaled: nat, prec: nat)
    requires prec > 0 && Pow(100, prec - 1) <= scaled < Pow(100, prec)
    ensures scaled > 0 && scaled < (Pow10(prec) + 1) * (Pow10(prec) + 1)
  {
    Hundreds(prec);
    Hundreds(prec - 1);
    MulMonotonic(Pow10(prec), Pow10(prec) + 1, Pow10(prec), Pow10(prec) + 1);
  }

  lemma TruncationPosition(d: Decimal, shift: int, n: nat)
    requires d.Finite?
    requires n * n <= Scaled(Radicand(d), shift) < (n + 1) * (n + 1)
    ensures var f := d.exp / 2 - shift;
      && TruncatedRoot(d, n, f)
      && (ExactSquare(d, n, f) <==> ScaledExactly(Radicand(d), shift) && n * n == Scaled(Radicand(d), shift))
  {
    hide *;
    var f := d.exp / 2 - shift;
    RadicandMagnitude(d);
    var w := Magnitude(d) / Ten(2 * f);
    DivideUnit(Magnitude(d), Ten(2 * f));
    SquarePosition(Radicand(d), shift, w, d.exp / 2);
    SquaresOrder(d, w, n, Scaled(Radicand(d), shift), f);
  }

  lemma SquaresOrder(d: Decimal, w: real, n: nat, s: nat, f: int)
    requires d.Finite? && w * Ten(2 * f) == Magnitude(d)
    requires s as real <= w < (s + 1) as real && n * n <= s < (n + 1) * (n + 1)
    ensures TruncatedRoot(d, n, f)
    ensures ExactSquare(d, n, f) <==> w == s as real && n * n == s
  {
    hide Ten, Magnitude;
    UnitsBetween(Magnitude(d), w, n * n, (n + 1) * (n + 1), s, Ten(2 * f));
  }

  lemma UnitsBetween(m: real, w: real, lo: int, hi: int, s: int, u: real)
    requires u > 0.0 && w * u == m && s as real <= w < (s + 1) as real && lo <= s < hi
    ensures lo as real * u <= m < hi as real * u
    ensures lo as real * u == m <==> w == s as real && lo == s
  {
    RealOrder(lo as real, w, u);
    RealOrder(w, hi as real, u);
  }

  lemma RootDigits(scaled: nat, k: nat, n: nat)
    requires Pow(100, k) <= scaled < Pow(100, k + 1) && n * n <= scaled < (n + 1) * (n + 1)
    ensures n > 0 && NumDigits(n) == k + 1
  {
    Hundreds(k + 1);
    if n >= Pow10(k + 1) {
      MulMonotonic(Pow10(k + 1), n, Pow10(k + 1), n);
    }
    Hundreds(k);
    var P := Pow10(k);
    if n + 1 <= P {
      MulMonotonic(n + 1, P, n + 1, P);
    }
    assert P <= n < Pow10(k + 1);
    NumDigitsUnique(n, k + 1);
  }

  lemma ExactRootFixed(p: Params, d: Decimal, shift: int, n: nat)
    requires p.Valid() && d.Finite? && d.coeff > 0 && n > 0
    requires ScaledExactly(Radicand(d), shift) && n * n == Scaled(Radicand(d), shift)
    ensures forall x: real :: IsRoot(x, d) ==>
      RootsCorrectly(p, d, x, FixSpec(RootParams(p), Finite(0, Unscale(n, shift), d.exp / 2)))
  {
    forall x: real | IsRoot(x, d)
      ensures RootsCorrectly(p, d, x, FixSpec(RootParams(p), Finite(0, Unscale(n, shift), d.exp / 2)))
    {
      assert n * n < (n + 1) * (n + 1) by { MulMonotonic(n, n + 1, n, n); MulOrder(n, n + 1, n + 1); }
      RootPosition(d, x, shift, n);
      UnscaleKeeps(d, shift, n);
      RootFixed(p, d, x, Unscale(n, shift));
    }
  }

  lemma RootFixed(p: Params, d: Decimal, x: real, m: nat)
    requires p.Valid() && d.Finite? && x > 0.0 && Magnitude(Finite(0, m, d.exp / 2)) == x
    ensures RootsCorrectly(p, d, x, FixSpec(RootParams(p), Finite(0, m, d.exp / 2)))
  {
    var q := Finite(0, m, d.exp / 2);
    assert m > 0 by {
      assert Magnitude(Finite(0, 0, d.exp / 2)) == 0.0;
    }
    hide FixSpec, RoundsCorrectly, Magnitude, Ten, Representable;
    FixRounds(RootParams(p), q);
  }

  lemma InexactRootFixed(p: Params, d: Decimal, shift: int, n: nat)
    requires p.Valid() && d.Finite? && d.coeff > 0 && n > 0 && NumDigits(n) > p.prec
    requires n * n <= Scaled(Radicand(d), shift) < (n + 1) * (n + 1)
    requires !(ScaledExactly(Radicand(d), shift) && n * n == Scaled(Radicand(d), shift))
    ensures forall x: real :: IsRoot(x, d) ==>
      RootsCorrectly(p, d, x, FixSpec(RootParams(p), Finite(0, if n % 5 == 0 then n + 1 else n, d.exp / 2 - shift)))
  {
    hide FixSpec, RoundsCorrectly, Magnitude, Ten, Representable, NumDigits, Scaled, ScaledExactly, Radicand;
    forall x: real | IsRoot(x, d)
      ensures RootsCorrectly(p, d, x,
                FixSpec(RootParams(p), Finite(0, if n % 5 == 0 then n + 1 else n, d.exp / 2 - shift)))
    {
      RootPosition(d, x, shift, n);
      StickyFix(RootParams(p), 0, x, n, d.exp / 2 - shift);
      assert Bump(n) == if n % 5 == 0 then n + 1 else n;
    }
  }
}
