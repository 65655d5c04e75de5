// Decimal numerals: what int() and str() mean on strings of digits.
module Numerals {
  import opened Powers

  predicate IsDigit(c: char) { '0' <= c <= '9' }

  predicate AllDigits(s: string) { forall i :: 0 <= i < |s| ==> IsDigit(s[i]) }

  function DigitValue(c: char): (d: nat)
    requires IsDigit(c)
    ensures d < 10
  {
    c as int - '0' as int
  }

  function DigitChar(d: nat): (c: char)
    requires d < 10
    ensures IsDigit(c) && DigitValue(c) == d
  {
    ('0' as int + d) as char
  }

  // The ten digits count up from '0'.
  lemma DigitsCount(c: char)
    requires IsDigit(c)
    ensures c == '0' <==> DigitValue(c) == 0
    ensures c != '9' ==> IsDigit(c + 1 as char) && DigitValue(c + 1 as char) == DigitValue(c) + 1
    ensures DigitValue('9') == 9
  {
  }

  // int(s): the positional value of a string of digits.
  function Value(s: string): (n: nat)
    requires AllDigits(s)
  {
    if |s| == 0 then 0 else Value(s[..|s| - 1]) * 10 + DigitValue(s[|s| - 1])
  }

  // str(n)
  function Numeral(n: nat): (s: string)
    ensures AllDigits(s) && |s| > 0
  {
    if n < 10 then [DigitChar(n)] else Numeral(n / 10) + [DigitChar(n % 10)]
  }

  // len(str(n))
  function NumDigits(n: nat): (k: nat)
    ensures k > 0
  {
    if n < 10 then 1 else 1 + NumDigits(n / 10)
  }

  function Pow10(k: nat): (p: int)
    ensures p > 0
  {
    PowPositive(10, k);
    Pow(10, k)
  }

  function Zeros(k: nat): (s: string)
    ensures |s| == k && AllDigits(s)
  {
    seq(k, _ => '0')
  }

  lemma {:induction false} ValueOfNumeral(n: nat)
    ensures Value(Numeral(n)) == n
    ensures |Numeral(n)| == NumDigits(n)
    ensures |Numeral(n)| > 1 ==> Numeral(n)[0] != '0'
    decreases n
  {
    if n < 10 {
      assert [DigitChar(n)][..0] == [];
    } else {
      ValueOfNumeral(n / 10);
      var s := Numeral(n);
      assert s[..|s| - 1] == Numeral(n / 10);
      if n / 10 < 10 {
        assert Numeral(n / 10) == [DigitChar(n / 10)];
        assert s[0] == DigitChar(n / 10);
      }
    }
  }

  lemma {:induction false} NumDigitsBounds(n: nat)
    ensures n < Pow10(NumDigits(n))
    ensures n > 0 ==> Pow10(NumDigits(n) - 1) <= n
    decreases n
  {
    if n < 10 {
      assert Pow10(1) == 10 * Pow10(0) == 10;
    } else {
      NumDigitsBounds(n / 10);
      var k := NumDigits(n / 10);
      assert Pow10(k + 1) == 10 * Pow10(k) && Pow10(k) == 10 * Pow10(k - 1);
    }
  }

  // The number of digits is the only k with 10**(k-1) <= n < 10**k.
  lemma NumDigitsUnique(n: nat, k: nat)
    requires k > 0 && n < Pow10(k) && (k > 1 ==> Pow10(k - 1) <= n)
    ensures NumDigits(n) == k
  {
    NumDigitsBounds(n);
    var d := NumDigits(n);
    if d < k {
      PowMonotonic(10, d, k - 1);
    } else if k < d {
      assert n > 0 by { assert d > 1; }
      PowMonotonic(10, k, d - 1);
    }
  }

  lemma NumDigitsAtLeast(n: int, k: nat)
    requires n >= Pow10(k)
    ensures n > 0 && NumDigits(n) > k
  {
    NumDigitsBounds(n);
    if NumDigits(n) <= k {
      PowMonotonic(10, NumDigits(n), k);
    }
  }

  lemma {:induction false} NumDigitsMonotonic(a: nat, b: nat)
    requires a <= b
    ensures NumDigits(a) <= NumDigits(b)
  {
    if a >= 10 {
      NumDigitsMonotonic(a / 10, b / 10);
    }
  }

  lemma {:induction false} ValueBound(s: string)
    requires AllDigits(s)
    ensures Value(s) < Pow10(|s|)
    decreases |s|
  {
    if |s| > 0 {
      ValueBound(s[..|s| - 1]);
      assert Pow10(|s|) == 10 * Pow10(|s| - 1);
    }
  }

  lemma {:induction false} ValueConcat(a: string, b: string)
    requires AllDigits(a) && AllDigits(b)
    ensures AllDigits(a + b)
    ensures Value(a + b) == Value(a) * Pow10(|b|) + Value(b)
    decreases |b|
  {
    if |b| == 0 {
      assert a + b == a;
    } else {
      var b' := b[..|b| - 1];
      assert (a + b)[..|a + b| - 1] == a + b';
      ValueConcat(a, b');
      assert Pow10(|b|) == 10 * Pow10(|b'|);
      AppendDigit(Value(a), Pow10(|b'|), Value(b'), DigitValue(b[|b| - 1]));
    }
  }

  lemma AppendDigit(high: int, P: int, low: int, d: int)
    ensures (high * P + low) * 10 + d == high * (10 * P) + (low * 10 + d)
  {
  }

  lemma {:induction false} ValueOfZeros(s: string)
    requires AllDigits(s)
    ensures Value(s) == 0 <==> forall i :: 0 <= i < |s| ==> s[i] == '0'
    decreases |s|
  {
    if |s| > 0 {
      var t := s[..|s| - 1];
      ValueOfZeros(t);
      assert forall i :: 0 <= i < |t| ==> t[i] == s[i];
      assert DigitValue(s[|s| - 1]) == 0 <==> s[|s| - 1] == '0';
    }
  }

  lemma {:induction false} LeadingDigit(s: string)
    requires AllDigits(s) && |s| > 0
    ensures s[0] != '0' ==> Value(s) >= Pow10(|s| - 1)
    decreases |s|
  {
    if |s| == 1 {
      assert s[..0] == [];
    } else {
      LeadingDigit(s[..|s| - 1]);
      assert Pow10(|s| - 1) == 10 * Pow10(|s| - 2);
    }
  }

  // A digit string without superfluous zeros is the numeral of its value.
  lemma {:induction false} NumeralOfValue(s: string)
    requires AllDigits(s) && |s| > 0
    ensures (|s| == 1 || s[0] != '0') <==> Numeral(Value(s)) == s
    decreases |s|
  {
    ValueOfNumeral(Value(s));
    if |s| == 1 {
      assert s[..0] == [];
      assert s == [DigitChar(DigitValue(s[0]))];
    } else if s[0] != '0' {
      var t := s[..|s| - 1];
      NumeralOfValue(t);
      LeadingDigit(t);
      PowPositive(10, |t| - 1);
      assert Value(s) >= 10;
      assert s == t + [s[|s| - 1]];
    }
  }

  // Cutting the numeral of n at any place gives quotient and remainder by a power of ten.
  lemma NumeralCut(n: nat, k: nat)
    requires k <= NumDigits(n)
    ensures |Numeral(n)| == NumDigits(n)
    ensures Value(Numeral(n)[..k]) == n / Pow10(NumDigits(n) - k)
    ensures Value(Numeral(n)[k..]) == n % Pow10(NumDigits(n) - k)
  {
    ValueOfNumeral(n);
    var s := Numeral(n);
    assert s == s[..k] + s[k..];
    ValueConcat(s[..k], s[k..]);
    ValueBound(s[k..]);
    DivModUnique(n, Pow10(|s| - k), Value(s[..k]), Value(s[k..]));
  }
}
