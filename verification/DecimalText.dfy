// Divide-and-conquer conversion between integers and decimal text (_pylong.py):
// _str_to_int_inner and the fallback algorithm of int_to_decimal_string.
module DecimalText {
  import opened Powers
  import opened Bits
  import opened Numerals
  import opened PowerCache

  // ----- text to integer -----

  datatype IntResult = IntValue(value: int) | InvalidLiteral

  // The table holds the power of 5 for every width the recursion on w looks up.
  ghost predicate HasPowers(table: map<int, int>, w: int, limit: nat, base: int) {
    Consumer(w, limit, false) <= table.Keys && PowersOf(table, base)
  }

  lemma DigitsOfSlice(s: string, a: nat, b: nat)
    requires AllDigits(s) && a <= b <= |s|
    ensures AllDigits(s[a..b])
  {
  }

  // The recursive function inner of _str_to_int_inner, on s[a:b].
  function ParseRange(s: string, a: nat, b: nat, w5pow: map<int, int>, limit: nat): (v: int)
    requires limit > 0 && AllDigits(s) && a <= b <= |s|
    requires HasPowers(w5pow, b - a, limit, 5)
    ensures v == Value(s[a..b])
    decreases b - a
  {
    hide *;
    DigitsOfSlice(s, a, b);
    if b - a <= limit then Value(s[a..b])
    else
      var mid := (a + b + 1) / 2;
      DigitsOfSlice(s, a, mid);
      DigitsOfSlice(s, mid, b);
      HalfPower(w5pow, b - a, limit, 5);
      assert b - mid == (b - a) / 2 && mid - a == (b - a) - (b - a) / 2;
      ParseStep(s, a, mid, b);
      ParseRange(s, mid, b, w5pow, limit)
      + Shl(ParseRange(s, a, mid, w5pow, limit) * w5pow[b - mid], b - mid)
  }

  // A table for width w serves both halves and holds the power for the lower one.
  lemma HalfPower(table: map<int, int>, w: int, limit: nat, base: int)
    requires limit > 0 && w > limit && HasPowers(table, w, limit, base)
    ensures w / 2 in table && table[w / 2] == Pow(base, w / 2)
    ensures HasPowers(table, w / 2, limit, base) && HasPowers(table, w - w / 2, limit, base)
  {
    assert Which(w, false) in Consumer(w, limit, false);
  }

  lemma ParseStep(s: string, a: nat, mid: nat, b: nat)
    requires AllDigits(s) && a <= mid <= b <= |s|
    ensures Value(s[a..b]) == Value(s[mid..b]) + Shl(Value(s[a..mid]) * Pow(5, b - mid), b - mid)
  {
    assert s[a..b] == s[a..mid] + s[mid..b];
    ValueConcat(s[a..mid], s[mid..b]);
    PowDistributes(5, 2, b - mid);
    MulAssoc(Value(s[a..mid]), Pow(5, b - mid), Pow(2, b - mid));
  }

  method StrToIntInner(s: string, limit: nat) returns (result: IntResult)
    requires limit > 0 && AllDigits(s)
    ensures result == if |s| == 0 then InvalidLiteral else IntValue(Value(s))
  {
    var w5pow, _ := ComputePowers(|s|, 5, limit, false);
    assert s[0..|s|] == s;
    if |s| == 0 {
      result := InvalidLiteral;
    } else {
      result := IntValue(ParseRange(s, 0, |s|, w5pow, limit));
    }
  }

  // ----- integer to text -----

  // str.zfill on an unsigned numeral
  function Zfill(s: string, width: nat): string {
    if |s| >= width then s else Zeros(width - |s|) + s
  }

  // str.lstrip('0')
  function StripZeros(s: string): string {
    if |s| > 0 && s[0] == '0' then StripZeros(s[1..]) else s
  }

  // The recursive function inner of int_to_decimal_string.
  function Format(n: nat, w: int, pow10: map<int, int>, limit: nat): (s: string)
    requires limit > 0 && HasPowers(pow10, w, limit, 10)
    ensures AllDigits(s) && |s| > 0
    decreases w
  {
    if w <= limit then Numeral(n)
    else
      HalfPower(pow10, w, limit, 10);
      PowPositive(10, w / 2);
      DivMonotonic(0, n, pow10[w / 2]);
      var hi, lo := n / pow10[w / 2], n % pow10[w / 2];
      Format(hi, w - w / 2, pow10, limit) + Zfill(Format(lo, w / 2, pow10, limit), w / 2)
  }

  // Format writes the value of n, in at most w digits when n has no more.
  lemma {:induction false} FormatValue(n: nat, w: int, pow10: map<int, int>, limit: nat)
    requires limit > 0 && HasPowers(pow10, w, limit, 10)
    ensures Value(Format(n, w, pow10, limit)) == n
    ensures w > 0 && n < Pow10(w) ==> |Format(n, w, pow10, limit)| <= w
    decreases w
  {
    hide Consumer, Pow, Value, Zfill, HasPowers;
    if w <= limit {
      ValueOfNumeral(n);
      NumeralWidth(n, w);
    } else {
      HalfPower(pow10, w, limit, 10);
      var w2 := w / 2;
      var P := Pow10(w2);
      CutInRange(n, w2, w);
      FormatValue(n / P, w - w2, pow10, limit);
      FormatValue(n % P, w2, pow10, limit);
      FormatJoin(n, w2, Format(n / P, w - w2, pow10, limit), Format(n % P, w2, pow10, limit));
    }
  }

  lemma CutInRange(n: nat, w2: nat, w: nat)
    requires w2 <= w
    ensures 0 <= n / Pow10(w2) && 0 <= n % Pow10(w2) < Pow10(w2)
    ensures n < Pow10(w) ==> n / Pow10(w2) < Pow10(w - w2)
  {
    DivMonotonic(0, n, Pow10(w2));
    DivMod(n, Pow10(w2));
    PowAdd(10, w2, w - w2);
    DivBounds(n, Pow10(w2), Pow10(w - w2));
  }

  lemma FormatJoin(n: nat, w2: nat, high: string, low: string)
    requires AllDigits(high) && AllDigits(low)
    requires Value(high) == n / Pow10(w2) && Value(low) == n % Pow10(w2)
    ensures AllDigits(Zfill(low, w2))
    ensures |low| <= w2 ==> Value(high + Zfill(low, w2)) == n && |Zfill(low, w2)| == w2
  {
    ZfillValue(low, w2);
    ValueConcat(high, Zfill(low, w2));
    DivMod(n, Pow10(w2));
  }

  lemma NumeralWidth(n: nat, w: int)
    ensures w > 0 && n < Pow10(w) ==> |Numeral(n)| <= w
  {
    ValueOfNumeral(n);
    if w > 0 && n < Pow10(w) {
      NumDigitsBounds(n);
      if NumDigits(n) > w {
        PowMonotonic(10, w, NumDigits(n) - 1);
      }
    }
  }

  lemma ZfillValue(s: string, width: nat)
    requires AllDigits(s)
    ensures AllDigits(Zfill(s, width)) && Value(Zfill(s, width)) == Value(s)
    ensures |Zfill(s, width)| >= width
    ensures |s| <= width ==> |Zfill(s, width)| == width
  {
    if |s| < width {
      ValueConcat(Zeros(width - |s|), s);
      ValueOfZeros(Zeros(width - |s|));
    }
  }

  lemma {:induction false} StripValue(s: string)
    requires AllDigits(s)
    ensures AllDigits(StripZeros(s)) && Value(StripZeros(s)) == Value(s)
    ensures |StripZeros(s)| > 0 ==> StripZeros(s)[0] != '0'
    decreases |s|
  {
    if |s| > 0 && s[0] == '0' {
      StripValue(s[1..]);
      assert s == [s[0]] + s[1..];
      ValueConcat([s[0]], s[1..]);
      ValueOfZeros([s[0]]);
    }
  }

  // 5**k << k for every planned exponent.
  method TensFromFives(fives: map<int, int>) returns (pow10: map<int, int>)
    requires PowersOf(fives, 5)
    ensures pow10.Keys == fives.Keys && PowersOf(pow10, 10)
  {
    pow10 := fives;
    var todo := fives.Keys;
    while todo != {}
      invariant todo <= fives.Keys == pow10.Keys
      invariant forall k: int :: k in pow10 ==> k >= 0 && pow10[k] == Pow(if k in todo then 5 else 10, k)
      decreases todo
    {
      var k: int :| k in todo;
      PowDistributes(5, 2, k);
      pow10 := pow10[k := Shl(pow10[k], k)];
      todo := todo - {k};
    }
  }

  function DecimalString(n: int): string {
    if n < 0 then "-" + Numeral(-n) else Numeral(n)
  }

  // The fallback algorithm, from any estimate w of the number of digits.  The
  // result is the canonical numeral except for n == 0 with an estimate above the
  // limit, where it is a string of several zeros; the source never makes such an
  // estimate, since the bit length of 0 gives w == 1.
  method IntToDecimalString(n: int, w: int, limit: nat) returns (s: string)
    requires limit > 0
    ensures s == DecimalString(n) <==> n != 0 || w <= limit
    ensures n == 0 ==> |s| > 0 && forall i :: 0 <= i < |s| ==> s[i] == '0'
  {
    var fives, _ := ComputePowers(w, 5, limit, false);
    var pow10 := TensFromFives(fives);
    var m := n;
    var sign := "";
    if m < 0 {
      m := -m;
      sign := "-";
    }
    var digits := Format(m, w, pow10, limit);
    FormatValue(m, w, pow10, limit);
    FormatOfZero(w, pow10, limit);
    ValueOfZeros(digits);
    NumeralOfValue(digits);
    if digits[0] == '0' && m != 0 {
      StripValue(digits);
      digits := StripZeros(digits);
      assert |digits| > 0 by {
        assert Value("") == 0;
      }
      NumeralOfValue(digits);
    }
    s := sign + digits;
    assert n == 0 ==> s == digits;
  }

  lemma FormatOfZero(w: int, pow10: map<int, int>, limit: nat)
    requires limit > 0 && HasPowers(pow10, w, limit, 10)
    ensures |Format(0, w, pow10, limit)| == 1 <==> w <= limit
  {
    if w > limit {
      HalfPower(pow10, w, limit, 10);
      PowPositive(10, w / 2);
      DivModUnique(0, pow10[w / 2], 0, 0);
      ZfillValue(Format(0, w / 2, pow10, limit), w / 2);
    }
  }

  // ----- both ways -----

  // The digits at the front.
  function DigitRun(s: string): (k: nat)
    ensures k <= |s| && AllDigits(s[..k])
    ensures k < |s| ==> !IsDigit(s[k])
  {
    if |s| == 0 || !IsDigit(s[0]) then 0
    else
      var k := DigitRun(s[1..]);
      assert s[..k + 1] == [s[0]] + s[1..][..k];
      k + 1
  }

  predicate SignOrDigit(c: char) { c == '+' || c == '-' || IsDigit(c) }

  // How many characters the optional sign takes.
  function SignLength(s: string): (k: nat)
    ensures k <= |s|
  {
    if |s| > 0 && (s[0] == '+' || s[0] == '-') then 1 else 0
  }

  function WithSign(negative: bool, n: nat): int {
    var m: int := n;
    if negative then -m else m
  }

  // str_to_int on texts without spaces and underscores: a sign, then the longest run of
  // digits; what follows is ignored.
  method StrToInt(s: string, limit: nat) returns (result: IntResult)
    requires limit > 0 && forall c :: c in s ==> SignOrDigit(c)
    ensures var body := s[SignLength(s)..];
      result == if DigitRun(body) == 0 then InvalidLiteral
                else IntValue(WithSign(s[0] == '-', Value(body[..DigitRun(body)])))
    ensures |s| > 1 && s[0] == '+' && AllDigits(s[1..]) ==> result == IntValue(Value(s[1..]))
    ensures |s| > 1 && s[0] == '-' && AllDigits(s[1..]) ==> result == IntValue(WithSign(true, Value(s[1..])))
  {
    hide Value;
    if |s| > 1 && (s[0] == '+' || s[0] == '-') && AllDigits(s[1..]) {
      assert s[1..][..|s| - 1] == s[1..];
    }
    var body := s[SignLength(s)..];
    if DigitRun(body) == 0 {
      return InvalidLiteral;
    }
    result := StrToIntInner(body[..DigitRun(body)], limit);
    if s[0] == '-' {
      var v: int := -result.value;
      result := IntValue(v);
    }
  }

  // The texts that str writes for an integer.
  predicate Canonical(s: string) {
    var digits := if |s| > 0 && s[0] == '-' then s[1..] else s;
    && AllDigits(digits) && |digits| > 0
    && (|digits| == 1 || digits[0] != '0')
    && (s != digits ==> digits != "0")
  }

  lemma PlainDigits(s: string)
    requires AllDigits(s) && |s| > 0
    ensures forall c :: c in s ==> SignOrDigit(c)
    ensures SignLength(s) == 0 && s[0] != '-' && s[0..] == s && DigitRun(s) == |s| && s[..|s|] == s
  {
    assert IsDigit(s[0]);
  }

  lemma MinusDigits(s: string, digits: string)
    requires AllDigits(digits) && |digits| > 0 && s == "-" + digits
    ensures forall c :: c in s ==> SignOrDigit(c)
    ensures SignLength(s) == 1 && s[1..] == digits && DigitRun(digits) == |digits| && digits[..|digits|] == digits
  {
  }

  // Reading back what was written gives the integer, for every estimate.
  method WriteThenRead(n: int, w: int, writeLimit: nat, readLimit: nat) returns (result: IntResult)
    requires writeLimit > 0 && readLimit > 0
    ensures result == IntValue(n)
  {
    hide Value, Numeral, DigitRun;
    var s := IntToDecimalString(n, w, writeLimit);
    if n < 0 {
      ValueOfNumeral(-n);
      MinusDigits(s, Numeral(-n));
    } else {
      ValueOfNumeral(n);
      if n == 0 {
        ValueOfZeros(s);
      }
      PlainDigits(s);
    }
    result := StrToInt(s, readLimit);
  }

  // Writing what was read from a canonical text gives the text, but for "0" with an
  // estimate above the limit.
  method ReadThenWrite(text: string, w: int, writeLimit: nat, readLimit: nat) returns (s: string)
    requires writeLimit > 0 && readLimit > 0 && Canonical(text)
    ensures s == text <==> text != "0" || w <= writeLimit
  {
    CanonicalValue(text);
    hide Value, Numeral, DigitRun, Canonical;
    var result := StrToInt(text, readLimit);
    s := IntToDecimalString(result.value, w, writeLimit);
  }

  lemma CanonicalValue(text: string)
    requires Canonical(text)
    ensures forall c :: c in text ==> SignOrDigit(c)
    ensures var body := text[SignLength(text)..];
      && |text| > 0 && DigitRun(body) == |body| > 0 && body[..|body|] == body
      && text[0] != '+' && DecimalString(WithSign(text[0] == '-', Value(body))) == text
      && (Value(body) == 0 <==> text == "0")
  {
    hide DigitRun;
    var body := text[SignLength(text)..];
    if text[0] == '-' {
      MinusDigits(text, body);
    } else {
      PlainDigits(text);
    }
    NumeralOfValue(body);
    ValueOfNumeral(Value(body));
    if |body| > 1 {
      LeadingDigit(body);
    } else {
      assert body[..0] == [];
    }
  }
}
