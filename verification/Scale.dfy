// Powers of ten with any integer exponent, as real numbers, and the decade a
// positive real number lies in.
module Scale {
  import opened Powers
  import opened Numerals
  import opened Rounding

  ghost function Ten(e: int): (r: real)
    ensures r > 0.0
  {
    if e >= 0 then Pow10(e) as real else 1.0 / Pow10(-e) as real
  }

  lemma TenSucc(e: int)
    ensures Ten(e + 1) == 10.0 * Ten(e)
  {
    if e >= 0 {
      assert Pow10(e + 1) == 10 * Pow10(e);
    } else if e == -1 {
      assert Pow10(1) == 10 * Pow10(0) == 10;
      assert Pow10(0) == 1;
    } else {
      assert Pow10(-e) == 10 * Pow10(-e - 1);
      var p := Pow10(-e - 1) as real;
      assert Pow10(-e) as real == 10.0 * p;
      assert 1.0 / (10.0 * p) * (10.0 * p) == 1.0;
      assert (10.0 * (1.0 / (10.0 * p))) * p == 1.0;
      assert (1.0 / p) * p == 1.0;
      RealCancel(10.0 * (1.0 / (10.0 * p)), 1.0 / p, p);
    }
  }

  lemma {:induction false} TenAddNat(a: int, k: nat)
    ensures Ten(a + k) == Ten(a) * Pow10(k) as real
    decreases k
  {
    if k == 0 {
      assert Pow10(0) == 1;
    } else {
      assert Pow10(k) == 10 * Pow10(k - 1);
      hide Ten, Pow10;
      TenAddNat(a, k - 1);
      TenSucc(a + k - 1);
      TenTimes(Ten(a), Pow10(k - 1));
    }
  }

  lemma TenTimes(u: real, P: int)
    ensures u * (10 * P) as real == 10.0 * (u * P as real)
  {
    assert (10 * P) as real == 10.0 * P as real;
    RealAssoc(u, 10.0, P as real);
    RealAssoc(10.0, u, P as real);
  }

  lemma TenAdd(a: int, b: int)
    ensures Ten(a + b) == Ten(a) * Ten(b)
  {
    TenOfNat(b);
    hide Ten, Pow10;
    if b >= 0 {
      TenAddNat(a, b);
    } else {
      TenAddNat(a + b, -b);
      TenInverse(b);
      CancelInverse(Ten(a), Ten(b), Ten(a + b), Pow10(-b) as real);
    }
  }

  lemma TenOfNat(b: int)
    ensures b >= 0 ==> Ten(b) == Pow10(b) as real
  {
  }

  lemma TenInverse(b: int)
    requires b < 0
    ensures Ten(b) * Pow10(-b) as real == 1.0
  {
  }

  lemma CancelInverse(a: real, b: real, s: real, p: real)
    requires a == s * p && b * p == 1.0
    ensures s == a * b
  {
    assert (s * p) * b == s * (b * p) by { RealAssoc(s, p, b); }
  }

  lemma RealAssoc(x: real, y: real, z: real)
    ensures (x * y) * z == x * (y * z)
    ensures y * z == z * y
  {
  }

  lemma TenMonotonic(a: int, b: int)
    requires a < b
    ensures 10.0 * Ten(a) <= Ten(b)
  {
    TenAddNat(a, b - a);
    PowMonotonic(10, 1, b - a);
    assert Pow10(1) == 10 * Pow10(0) == 10;
    var ten: real := 10.0;
    RealScale(ten, Pow10(b - a) as real, Ten(a));
  }

  // 10**k <= x < 10**(k+1)
  ghost predicate InDecade(x: real, k: int) {
    Ten(k) <= x < Ten(k + 1)
  }

  lemma DecadeUnique(x: real, j: int, k: int)
    requires InDecade(x, j) && InDecade(x, k)
    ensures j == k
  {
    if j < k {
      if j + 1 < k { TenMonotonic(j + 1, k); }
    } else if k < j {
      if k + 1 < j { TenMonotonic(k + 1, j); }
    }
  }

  lemma DecadeExists(x: real)
    requires x > 0.0
    ensures exists k :: InDecade(x, k)
  {
    if x >= 1.0 {
      var n := x.Floor;
      NumDigitsBounds(n);
      var d := NumDigits(n);
      assert (n + 1) as real <= Pow10(d) as real;
      assert InDecade(x, d - 1);
    } else {
      var g := (1.0 / x).Floor + 1;
      assert 1.0 / x > 0.0;
      NumDigitsBounds(g);
      var d: int := NumDigits(g);
      var k := -d;
      InverseBelow(x, Pow10(-k) as real);
      assert Ten(k) == 1.0 / Pow10(-k) as real;
      ClimbDecades(x, k);
    }
  }

  lemma InverseBelow(x: real, p: real)
    requires x > 0.0 && p > 0.0 && 1.0 / x < p
    ensures 1.0 / p <= x
  {
    assert (1.0 / x) * x == 1.0 && (1.0 / p) * p == 1.0;
    RealOrder(1.0 / x, p, x);
    RealOrder(x, 1.0 / p, p);
  }

  lemma {:induction false} ClimbDecades(x: real, k: int)
    requires Ten(k) <= x < 1.0
    ensures exists j :: InDecade(x, j)
    decreases -k
  {
    assert Pow10(0) == 1;
    if k > 0 {
      TenMonotonic(0, k);
    }
    if x < Ten(k + 1) {
      assert InDecade(x, k);
    } else {
      ClimbDecades(x, k + 1);
    }
  }

  // The exponent of the most significant digit of x.
  ghost function Adjusted(x: real): (k: int)
    requires x > 0.0
    ensures InDecade(x, k)
  {
    DecadeExists(x);
    var k :| InDecade(x, k);
    k
  }

  // A number truncated to t * 10**f has the adjusted exponent of that truncation.
  lemma AdjustedOfTruncation(x: real, t: nat, f: int)
    requires t > 0 && t as real * Ten(f) <= x < (t + 1) as real * Ten(f)
    ensures x > 0.0 && Adjusted(x) == NumDigits(t) - 1 + f
  {
    hide *;
    TruncationDecade(x, t, f);
    TenIsPositive(x, NumDigits(t) - 1 + f);
    DecadeUnique(x, Adjusted(x), NumDigits(t) - 1 + f);
  }

  lemma TruncationDecade(x: real, t: nat, f: int)
    requires t > 0 && t as real * Ten(f) <= x < (t + 1) as real * Ten(f)
    ensures InDecade(x, NumDigits(t) - 1 + f)
  {
    var d := NumDigits(t);
    NumDigitsBounds(t);
    hide Ten, NumDigits, Pow10, Pow;
    TenAddNat(f, d - 1);
    TenAddNat(f, d);
    RealScale(Pow10(d - 1) as real, t as real, Ten(f));
    RealScale((t + 1) as real, Pow10(d) as real, Ten(f));
    assert d - 1 + f == f + (d - 1) && d - 1 + f + 1 == f + d;
  }

  lemma TenIsPositive(x: real, k: int)
    requires InDecade(x, k)
    ensures x > 0.0
  {
  }

  lemma RealScale(a: real, b: real, m: real)
    requires a <= b && m > 0.0
    ensures m * a <= m * b
  {
    assert m * (b - a) >= 0.0;
  }

  // x / 10**e, for x = y * 10**f with f <= e, is y divided by an integer power of ten.
  lemma RescaleQuotient(x: real, y: real, f: int, e: int)
    requires f <= e && x == y * Ten(f)
    ensures x / Ten(e) == y / Pow10(e - f) as real
  {
    hide Ten, Pow10;
    TenAddNat(f, e - f);
    DivideBoth(x, y, Ten(f), Pow10(e - f) as real);
  }

  lemma DivideBoth(x: real, y: real, p: real, q: real)
    requires p > 0.0 && q > 0.0 && x == y * p
    ensures p * q > 0.0 && x / (p * q) == y / q
  {
    var z := y / q;
    assert z * q == y;
    assert z * (p * q) == x by { RealAssoc(z, q, p); }
    QuotientIs(x, p * q, z);
  }

  lemma QuotientIs(x: real, m: real, z: real)
    requires m > 0.0 && z * m == x
    ensures x / m == z
  {
  }

  // x / 10**e, for x = t * 10**f with f >= e, is the integer t * 10**(f-e).
  lemma RescaleProduct(t: nat, f: int, e: int)
    requires f >= e
    ensures t * Pow10(f - e) >= 0
    ensures (t as real * Ten(f)) / Ten(e) == (t * Pow10(f - e)) as real
    ensures t as real * Ten(f) == (t * Pow10(f - e)) as real * Ten(e)
  {
    hide Ten, Pow10;
    TenAddNat(e, f - e);
    MultiplyBoth(t as real, Ten(e), Pow10(f - e) as real);
    assert (t * Pow10(f - e)) as real == t as real * Pow10(f - e) as real;
  }

  lemma MultiplyBoth(t: real, p: real, q: real)
    requires p > 0.0 && q > 0.0
    ensures (t * (p * q)) / p == t * q
    ensures t * (p * q) == (t * q) * p
  {
    assert t * (p * q) == (t * q) * p by { RealAssoc(t, q, p); }
    QuotientIs(t * (p * q), p, t * q);
  }
}
