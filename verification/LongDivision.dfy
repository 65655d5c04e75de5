// Division of big integers (_pylong.py): the recursive algorithm of Burnikel and
// Ziegler for a 2n-bit by an n-bit number, driven by schoolbook division in base
// 2**n, with the digit split and join that surround it.
module LongDivision {
  import opened Powers
  import opened Bits

  // ----- positional notation: the specification of the digit lists -----

  // The value of a little-endian digit list.
  function Eval(digits: seq<int>, base: int): int {
    if |digits| == 0 then 0 else digits[0] + base * Eval(digits[1..], base)
  }

  // The k low digits of x in the given base, least significant first.
  function DigitsOf(x: nat, k: nat, base: int): (s: seq<int>)
    requires base > 0
    ensures |s| == k
    decreases k
  {
    if k == 0 then []
    else
      DivMonotonic(0, x, base);
      [x % base] + DigitsOf(x / base, k - 1, base)
  }

  lemma {:induction false} EvalOfDigits(x: nat, k: nat, base: int)
    requires base > 0 && x < Pow(base, k)
    ensures Eval(DigitsOf(x, k, base), base) == x
    decreases k
  {
    if k > 0 {
      DivMod(x, base);
      DivMonotonic(0, x, base);
      ghost var rest := DigitsOf(x / base, k - 1, base);
      QuotientInRange(x, base, Pow(base, k - 1));
      EvalOfDigits(x / base, k - 1, base);
      EvalCons(x % base, rest, base);
    }
  }

  lemma EvalCons(d: int, rest: seq<int>, base: int)
    ensures Eval([d] + rest, base) == d + base * Eval(rest, base)
  {
    assert ([d] + rest)[1..] == rest;
  }

  lemma {:induction false} DigitsInRange(x: nat, k: nat, base: int)
    requires base > 0
    ensures forall i :: 0 <= i < k ==> 0 <= DigitsOf(x, k, base)[i] < base
    decreases k
  {
    if k > 0 {
      DivMod(x, base);
      DivMonotonic(0, x, base);
      DigitsInRange(x / base, k - 1, base);
    }
  }

  // The low i digits come from x % base**i and the others from x / base**i.
  lemma {:induction false} DigitsSplit(x: nat, i: nat, j: nat, base: int)
    requires base > 0
    ensures Pow(base, i) > 0 && x / Pow(base, i) >= 0
    ensures DigitsOf(x, i + j, base)
         == DigitsOf(x % Pow(base, i), i, base) + DigitsOf(x / Pow(base, i), j, base)
    decreases i
  {
    PowPositive(base, i);
    DivMonotonic(0, x, Pow(base, i));
    if i == 0 {
      assert Pow(base, 0) == 1;
    } else {
      var B := Pow(base, i - 1);
      PowPositive(base, i - 1);
      DivMonotonic(0, x, base);
      DigitsSplit(x / base, i - 1, j, base);
      LowDigit(x, base, B);
      assert Pow(base, i) == base * B;
      var lo := x % Pow(base, i);
      assert DigitsOf(lo, i, base) == [x % base] + DigitsOf((x / base) % B, i - 1, base);
    }
  }

  // Cutting off the lowest digit before or after cutting x in two.
  lemma LowDigit(x: nat, base: int, B: int)
    requires base > 0 && B > 0
    ensures base * B > 0 && x / (base * B) == (x / base) / B
    ensures (x % (base * B)) % base == x % base && (x % (base * B)) / base == (x / base) % B
  {
    DivDiv(x, base, B);
    DivAddMultiple(x % base, (x / base) % B, base);
    DivModUnique(x % base, base, 0, x % base);
  }

  lemma {:induction false} EvalConcat(a: seq<int>, b: seq<int>, base: int)
    ensures Eval(a + b, base) == Eval(a, base) + Pow(base, |a|) * Eval(b, base)
    decreases |a|
  {
    if |a| == 0 {
      assert a + b == b;
    } else {
      assert (a + b)[1..] == a[1..] + b;
      EvalConcat(a[1..], b, base);
      EvalStep(a, base);
      EvalStep(a + b, base);
      assert Pow(base, |a|) == base * Pow(base, |a| - 1);
      hide Eval, Pow;
      HornerConcat(base, Pow(base, |a| - 1), Eval(a[1..], base), Eval(b, base));
    }
  }

  lemma EvalStep(s: seq<int>, base: int)
    requires |s| > 0
    ensures Eval(s, base) == s[0] + base * Eval(s[1..], base)
  {
  }

  lemma HornerConcat(base: int, P: int, a: int, b: int)
    ensures base * (a + P * b) == base * a + (base * P) * b
  {
    MulAssoc(base, P, b);
  }

  // Powers of the base 2**n are powers of two.
  lemma {:induction false} PowOfShift(n: nat, k: nat)
    ensures k * n >= 0 && Pow(Pow2(n), k) == Pow2(k * n)
    decreases k
  {
    if k > 0 {
      PowOfShift(n, k - 1);
      assert k * n == n + (k - 1) * n;
      PowAdd(2, n, (k - 1) * n);
    } else {
      assert 0 * n == 0;
    }
  }

  // ----- _int2digits -----

  // Fills digits[lo..hi] with the base-2**n digits of x.
  method SplitInto(x: nat, lo: nat, hi: nat, n: nat, digits: array<int>)
    requires n > 0 && lo < hi <= digits.Length
    requires x < Pow(Pow2(n), hi - lo)
    modifies digits
    ensures digits[lo..hi] == DigitsOf(x, hi - lo, Pow2(n))
    ensures digits[..lo] == old(digits[..lo]) && digits[hi..] == old(digits[hi..])
    decreases hi - lo
  {
    hide *;
    if lo + 1 == hi {
      digits[lo] := x;
      OneDigit(x, hi - lo, n);
      assert digits[lo..hi] == [x];
      return;
    }
    var mid := (lo + hi) / 2;
    SplitStep(x, mid - lo, hi - mid, n);
    var shift := (mid - lo) * n;
    var upper := Shr(x, shift);
    var lower := BitXor(x, Shl(upper, shift));
    SplitInto(lower, lo, mid, n, digits);
    ghost var low := digits[lo..mid];
    ghost var after := digits[..];
    SplitInto(upper, mid, hi, n, digits);
    assert digits[lo..mid] == low by {
      assert digits[..mid] == after[..mid];
      assert digits[lo..mid] == digits[..mid][lo..] && low == after[..mid][lo..];
    }
    assert digits[..lo] == digits[..mid][..lo] == after[..mid][..lo] == after[..lo];
    assert digits[hi..] == after[hi..];
    assert after[hi..] == after[mid..][hi - mid..];
    assert digits[lo..hi] == digits[lo..mid] + digits[mid..hi];
  }

  lemma OneDigit(x: nat, k: nat, n: nat)
    requires k == 1 && x < Pow(Pow2(n), k)
    ensures DigitsOf(x, k, Pow2(n)) == [x]
  {
    assert Pow(Pow2(n), k) == Pow2(n) * Pow(Pow2(n), 0);
    DivModUnique(x, Pow2(n), 0, x);
    assert DigitsOf(x, k, Pow2(n)) == [x] + DigitsOf(0, 0, Pow2(n));
  }

  // Cutting x after i digits: the shift and the xor give the two halves.
  lemma SplitStep(x: nat, i: nat, j: nat, n: nat)
    requires x < Pow(Pow2(n), i + j)
    ensures i * n >= 0
    ensures var upper := Shr(x, i * n);
      && 0 <= upper < Pow(Pow2(n), j)
      && Shl(upper, i * n) >= 0
      && var lower := BitXor(x, Shl(upper, i * n));
      && lower < Pow(Pow2(n), i)
      && DigitsOf(x, i + j, Pow2(n)) == DigitsOf(lower, i, Pow2(n)) + DigitsOf(upper, j, Pow2(n))
  {
    PowOfShift(n, i);
    PowAdd(Pow2(n), i, j);
    QuotientInRange(x, Pow2(i * n), Pow(Pow2(n), j));
    assert Shr(x, i * n) >= 0 && Shl(Shr(x, i * n), i * n) >= 0;
    DigitsSplit(x, i, j, Pow2(n));
    XorClearsHigh(x, i * n);
  }

  lemma QuotientInRange(x: nat, P: int, Q: int)
    requires P > 0 && x < P * Q
    ensures 0 <= x / P < Q && 0 <= x % P < P && (x / P) * P >= 0
  {
    DivMod(x, P);
    DivBounds(x, P, 0);
    DivBounds(x, P, Q);
  }

  // What _int2digits computes: ceil(bit_length / n) digits.
  function SplitDigits(a: nat, n: nat): seq<int>
    requires n > 0
  {
    DivMonotonic(0, BitLength(a) + n - 1, n);
    DigitsOf(a, (BitLength(a) + n - 1) / n, Pow2(n))
  }

  // It is the base-2**n representation of a, and its top digit is not zero.
  lemma SplitDigitsCanonical(a: nat, n: nat)
    requires n > 0
    ensures Eval(SplitDigits(a, n), Pow2(n)) == a
    ensures forall i :: 0 <= i < |SplitDigits(a, n)| ==> 0 <= SplitDigits(a, n)[i] < Pow2(n)
    ensures |SplitDigits(a, n)| > 0 ==> SplitDigits(a, n)[|SplitDigits(a, n)| - 1] != 0
    ensures a == 0 <==> |SplitDigits(a, n)| == 0
  {
    DivMonotonic(0, BitLength(a) + n - 1, n);
    var len := (BitLength(a) + n - 1) / n;
    DigitCount(a, n, len);
    EvalOfDigits(a, len, Pow2(n));
    DigitsInRange(a, len, Pow2(n));
    if a != 0 {
      TopDigit(a, len, Pow2(n));
    }
  }

  method Int2Digits(a: nat, n: nat) returns (digits: array<int>)
    requires n > 0
    ensures fresh(digits)
    ensures digits[..] == SplitDigits(a, n)
  {
    DivMonotonic(0, BitLength(a) + n - 1, n);
    var len := (BitLength(a) + n - 1) / n;
    digits := new int[len](_ => 0);
    DigitCount(a, n, len);
    if a != 0 {
      SplitInto(a, 0, digits.Length, n, digits);
      assert digits[..] == digits[0..digits.Length];
    }
  }

  lemma DigitCount(a: nat, n: nat, len: nat)
    requires n > 0 && len == (BitLength(a) + n - 1) / n
    ensures a < Pow(Pow2(n), len)
    ensures a == 0 ==> len == 0
    ensures a > 0 ==> len > 0 && Pow(Pow2(n), len - 1) <= a
  {
    var bits := BitLength(a);
    CeilingBounds(bits, n, len);
    PowOfShift(n, len);
    BitLengthFits(a, len * n);
    if a > 0 {
      BitLengthBounds(a);
      PowOfShift(n, len - 1);
      PowMonotonic(2, (len - 1) * n, bits - 1);
    }
  }

  lemma CeilingBounds(bits: nat, n: nat, len: int)
    requires n > 0 && len == (bits + n - 1) / n
    ensures bits <= len * n
    ensures bits == 0 ==> len == 0
    ensures bits > 0 ==> len > 0 && (len - 1) * n < bits
  {
    DivMod(bits + n - 1, n);
    assert (len - 1) * n == len * n - n;
    if bits == 0 {
      DivModUnique(n - 1, n, 0, n - 1);
    } else {
      DivBounds(bits + n - 1, n, 1);
    }
  }

  lemma TopDigit(x: nat, len: nat, base: int)
    requires base > 0 && len > 0 && Pow(base, len - 1) <= x < Pow(base, len)
    ensures DigitsOf(x, len, base)[len - 1] == x / Pow(base, len - 1) > 0
  {
    DigitsSplit(x, len - 1, 1, base);
    var B := Pow(base, len - 1);
    PowPositive(base, len - 1);
    DivBounds(x, B, 1);
    DivBounds(x, B, base);
    assert Pow(base, len) == base * B;
    DivModUnique(x / B, base, 0, x / B);
    assert DigitsOf(x / B, 1, base) == [x / B] + DigitsOf(0, 0, base);
  }

  // ----- _digits2int -----

  function Join(digits: seq<int>, lo: nat, hi: nat, n: nat): (v: int)
    requires lo < hi <= |digits|
    ensures v == Eval(digits[lo..hi], Pow2(n))
    decreases hi - lo
  {
    if lo + 1 == hi then
      assert digits[lo..hi] == [digits[lo]] && [digits[lo]][1..] == [];
      digits[lo]
    else
      var mid := (lo + hi) / 2;
      PowOfShift(n, mid - lo);
      JoinParts(digits, lo, mid, hi, n);
      Shl(Join(digits, mid, hi, n), (mid - lo) * n) + Join(digits, lo, mid, n)
  }

  lemma JoinParts(digits: seq<int>, lo: nat, mid: nat, hi: nat, n: nat)
    requires lo <= mid <= hi <= |digits|
    ensures (mid - lo) * n >= 0
    ensures Eval(digits[lo..hi], Pow2(n))
         == Shl(Eval(digits[mid..hi], Pow2(n)), (mid - lo) * n) + Eval(digits[lo..mid], Pow2(n))
  {
    PowOfShift(n, mid - lo);
    assert digits[lo..hi] == digits[lo..mid] + digits[mid..hi];
    EvalConcat(digits[lo..mid], digits[mid..hi], Pow2(n));
  }

  function Digits2Int(digits: seq<int>, n: nat): (v: int)
    ensures v == Eval(digits, Pow2(n))
  {
    assert digits[0..|digits|] == digits;
    if |digits| > 0 then Join(digits, 0, |digits|, n) else 0
  }

  // A list of digits below 2**n with a nonzero top digit is exactly what
  // Int2Digits makes of its value: the two conversions undo each other.
  lemma {:induction false} DigitsAreUnique(s: seq<int>, t: seq<int>, base: int)
    requires base > 1
    requires forall i :: 0 <= i < |s| ==> 0 <= s[i] < base
    requires forall i :: 0 <= i < |t| ==> 0 <= t[i] < base
    requires |s| > 0 ==> s[|s| - 1] != 0
    requires |t| > 0 ==> t[|t| - 1] != 0
    requires Eval(s, base) == Eval(t, base)
    ensures s == t
    decreases |s|
  {
    EvalSign(s, base);
    EvalSign(t, base);
    if |s| > 0 && |t| > 0 {
      DivModUnique(Eval(s, base), base, Eval(s[1..], base), s[0]);
      DivModUnique(Eval(t, base), base, Eval(t[1..], base), t[0]);
      DigitsAreUnique(s[1..], t[1..], base);
      assert s == [s[0]] + s[1..] && t == [t[0]] + t[1..];
    }
  }

  lemma {:induction false} EvalSign(s: seq<int>, base: int)
    requires base > 1
    requires forall i :: 0 <= i < |s| ==> 0 <= s[i] < base
    ensures Eval(s, base) >= 0
    ensures |s| > 0 && s[|s| - 1] != 0 ==> Eval(s, base) > 0
    decreases |s|
  {
    if |s| > 0 {
      EvalSign(s[1..], base);
      assert base * Eval(s[1..], base) >= Eval(s[1..], base);
    }
  }

  // Joining a digit list and splitting the result gives the list back.
  lemma SplitUndoesJoin(digits: seq<int>, n: nat)
    requires n > 0
    requires forall i :: 0 <= i < |digits| ==> 0 <= digits[i] < Pow2(n)
    requires |digits| > 0 ==> digits[|digits| - 1] != 0
    ensures Digits2Int(digits, n) >= 0
    ensures SplitDigits(Digits2Int(digits, n), n) == digits
  {
    PowStrict(2, 0, n);
    EvalSign(digits, Pow2(n));
    var a := Digits2Int(digits, n);
    SplitDigitsCanonical(a, n);
    DigitsAreUnique(SplitDigits(a, n), digits, Pow2(n));
  }

  // ----- _div2n1n and _div3n2n -----

  // The methods below use these notions by name only; the lemmas unfold them.

  ghost predicate Splits(a: int, b: int, q: int, r: int) { a == b * q + r }

  ghost predicate IsDivision(a: int, b: int, q: int, r: int) { a == b * q + r && 0 <= r < b }

  // b has exactly n bits.
  ghost predicate HasBits(b: nat, n: nat) { n > 0 && Pow2(n - 1) <= b < Pow2(n) }

  // The quotient of a by b fits in n bits.
  ghost predicate Fits(a: nat, b: nat, n: nat) { a < Pow2(n) * b }

  // The number with high part hi and n-bit low part lo.
  ghost function Compose(hi: nat, lo: nat, n: nat): nat { hi * Pow2(n) + lo }

  // limit stands for _DIV_LIMIT: up to that many quotient bits the built-in
  // division is used.
  method Div2n1n(limit: nat, a: nat, b: nat, n: nat) returns (q: nat, r: nat)
    requires HasBits(b, n) && Fits(a, b, n)
    ensures IsDivision(a, b, q, r) && q < Pow2(n)
    decreases 2 * n, 0, 0
  {
    hide *;
    BitsPositive(b, n);
    if BitLength(a) - n <= limit {
      SmallDivision(a, b, n);
      return a / b, a % b;
    }
    TwoBits(a, b, n);
    if n % 2 == 1 {
      PadScales(a, b, n);
      q, r := Div2n1nEven(limit, Shl(a, 1), Shl(b, 1), n + 1);
      PadUndone(a, b, q, r);
      r := Shr(r, 1);
    } else {
      q, r := Div2n1nEven(limit, a, b, n);
    }
    QuotientFits(a, b, q, r, n);
  }

  // The body of _div2n1n once n is even.
  method Div2n1nEven(limit: nat, a: nat, b: nat, n: nat) returns (q: nat, r: nat)
    requires n % 2 == 0 && HasBits(b, n) && Fits(a, b, n)
    ensures IsDivision(a, b, q, r)
    decreases if n == 2 then 3 else 2 * n - 3, 0
  {
    hide *;
    BitsPositive(b, n);
    var half := n / 2;
    SplitDividend(a, b, half);
    var mask := Shl(1, half) - 1;
    var b1, b2 := Shr(b, half), BitAnd(b, mask);
    var hi, mid, low := Shr(a, n), BitAnd(Shr(a, half), mask), BitAnd(a, mask);
    var q1, r1, _ := Div3n2n(limit, hi, mid, b, b1, b2, half);
    RemainderBelow(Compose(hi, mid, half), b, q1, r1);
    var q2, r2, _ := Div3n2n(limit, r1, low, b, b1, b2, half);
    CombineQuotients(b, half, hi, mid, low, q1, r1, q2, r2);
    q, r := BitOr(Shl(q1, half), q2), r2;
  }

  method Div3n2n(limit: nat, a12: nat, a3: nat, b: nat, b1: nat, b2: nat, n: nat)
    returns (q: nat, r: nat, ghost corrections: nat)
    requires HasBits(b1, n) && b2 < Pow2(n) && b == Compose(b1, b2, n)
    requires a12 < b && a3 < Pow2(n)
    ensures IsDivision(Compose(a12, a3, n), b, q, r) && q < Pow2(n)
    ensures corrections <= 2
    decreases 2 * n, 1
  {
    hide *;
    BitsPositive(b1, n);
    var qh, rh: nat;
    HighPart(a12, b, b1, b2, n);
    if Shr(a12, n) == b1 {
      qh, rh := Shl(1, n) - 1, a12 - Shl(b1, n) + b1;
    } else {
      qh, rh := Div2n1n(limit, a12, b1, n);
      RemainderBelow(a12, b1, qh, rh);
    }
    EstimateError(a12, a3, b, b1, b2, n, qh, rh);
    q, r, corrections := Correct(Compose(a12, a3, n), b, qh, BitOr(Shl(rh, n), a3) - qh * b2);
  }

  // The correction loop of _div3n2n: the estimate is at most two too large.
  method Correct(ghost a: nat, b: nat, qh: nat, rest: int) returns (q: nat, r: nat, ghost corrections: nat)
    requires Splits(a, b, qh, rest) && rest < b && rest + 2 * b > 0
    ensures IsDivision(a, b, q, r) && q <= qh
    ensures corrections <= 2
  {
    var q', r': int := qh, rest;
    corrections := 0;
    while r' < 0
      invariant corrections <= 2 && q' == qh - corrections
      invariant a == b * q' + r' && r' < b
      invariant corrections == 0 ==> r' + 2 * b > 0
      invariant corrections == 1 ==> r' + b > 0
      invariant corrections == 2 ==> r' >= 0
      decreases -r'
    {
      assert b * (q' - 1) == b * q' - b;
      q' := q' - 1;
      r' := r' + b;
      corrections := corrections + 1;
    }
    QuotientSign(a, b, q', r');
    q, r := q', r';
  }

  lemma BitsPositive(b: nat, n: nat)
    requires HasBits(b, n)
    ensures n > 0 && b > 0
  {
  }

  lemma RemainderBelow(a: int, b: int, q: int, r: int)
    requires IsDivision(a, b, q, r)
    ensures 0 <= r < b && Splits(a, b, q, r)
  {
  }

  lemma QuotientSign(a: nat, b: nat, q: int, r: int)
    requires a == b * q + r && r < b
    ensures b > 0 ==> q >= 0
  {
    if b > 0 {
      DistributeOne(q, b);
      MulOrder(0, q + 1, b);
    }
  }

  lemma SmallDivision(a: nat, b: nat, n: nat)
    requires b > 0 && Fits(a, b, n)
    ensures IsDivision(a, b, a / b, a % b) && 0 <= a / b < Pow2(n) && 0 <= a % b
  {
    DivMod(a, b);
    DivBounds(a, b, 0);
    DivBounds(a, b, Pow2(n));
  }

  // The divisor of a recursive call has at least two bits.
  lemma TwoBits(a: nat, b: nat, n: nat)
    requires HasBits(b, n) && Fits(a, b, n) && BitLength(a) > n
    ensures n >= 2
  {
    if n == 1 {
      assert Pow2(1) == 2 * Pow2(0) == 2;
      BitLengthFits(a, 1);
    }
  }

  lemma PadScales(a: nat, b: nat, n: nat)
    requires HasBits(b, n) && Fits(a, b, n)
    ensures Shl(a, 1) >= 0 && Shl(b, 1) >= 0
    ensures HasBits(Shl(b, 1), n + 1) && Fits(Shl(a, 1), Shl(b, 1), n + 1)
  {
    assert Pow2(1) == 2 * Pow2(0) == 2;
    assert Pow2(n) == 2 * Pow2(n - 1);
    assert Pow2(n + 1) == 2 * Pow2(n);
    assert Pow2(n + 1) * (2 * b) == 4 * (Pow2(n) * b);
  }

  lemma PadUndone(a: nat, b: nat, q: int, r: nat)
    requires Shl(a, 1) >= 0 && Shl(b, 1) >= 0 && IsDivision(Shl(a, 1), Shl(b, 1), q, r)
    ensures Shr(r, 1) >= 0 && IsDivision(a, b, q, Shr(r, 1))
  {
    assert Pow2(1) == 2 * Pow2(0) == 2;
    assert (2 * b) * q == 2 * (b * q);
  }

  lemma QuotientFits(a: nat, b: nat, q: int, r: nat, n: nat)
    requires b > 0 && IsDivision(a, b, q, r) && Fits(a, b, n)
    ensures q < Pow2(n)
  {
    MulOrder(q, Pow2(n), b);
  }

  // Shifting and masking cut a into three fields and b into two.
  lemma SplitDividend(a: nat, b: nat, half: nat)
    requires HasBits(b, 2 * half) && Fits(a, b, 2 * half)
    ensures Shl(1, half) - 1 >= 0 && Shr(b, half) >= 0 && Shr(a, half) >= 0
    ensures 0 <= Shr(a, 2 * half) < b
    ensures var mask := Shl(1, half) - 1;
      && BitAnd(a, mask) < Pow2(half) && BitAnd(Shr(a, half), mask) < Pow2(half) && BitAnd(b, mask) < Pow2(half)
      && a == Compose(Compose(Shr(a, 2 * half), BitAnd(Shr(a, half), mask), half), BitAnd(a, mask), half)
      && b == Compose(Shr(b, half), BitAnd(b, mask), half)
    ensures HasBits(Shr(b, half), half)
  {
    PowAdd(2, half, half);
    PowAdd(2, half - 1, half);
    SplitThreeWays(a, b, Pow2(half));
    DivMod(b, Pow2(half));
    DivBounds(b, Pow2(half), Pow2(half));
    DivBounds(b, Pow2(half), Pow2(half - 1));
    assert Shl(1, half) == Pow2(half);
    MaskIsRemainder(b, half);
    MaskIsRemainder(Shr(a, half), half);
    MaskIsRemainder(a, half);
  }

  lemma SplitThreeWays(a: nat, b: nat, P: int)
    requires P > 0 && P * P > 0 && a < (P * P) * b
    ensures 0 <= a / (P * P) < b && a / P >= 0
    ensures 0 <= a % P < P && 0 <= (a / P) % P < P
    ensures a == ((a / (P * P)) * P + (a / P) % P) * P + a % P
  {
    DivDiv(a, P, P);
    DivMod(a, P);
    DivMod(a / P, P);
    DivBounds(a, P * P, 0);
    DivBounds(a, P, 0);
    DivBounds(a, P * P, b);
  }

  lemma CombineQuotients(b: nat, n: nat, hi: nat, mid: nat, lo: nat, q1: nat, r1: nat, q2: nat, r2: nat)
    requires IsDivision(Compose(hi, mid, n), b, q1, r1)
    requires IsDivision(Compose(r1, lo, n), b, q2, r2)
    requires q2 < Pow2(n)
    ensures Shl(q1, n) >= 0
    ensures IsDivision(Compose(Compose(hi, mid, n), lo, n), b, BitOr(Shl(q1, n), q2), r2)
  {
    hide *;
    ShiftedNat(q1, n);
    OrIsSum(q1, n, q2);
    ComposeParts(Compose(Compose(hi, mid, n), lo, n), Compose(hi, mid, n), lo, n);
    ComposeParts(Compose(r1, lo, n), r1, lo, n);
    DivisionParts(Compose(hi, mid, n), b, q1, r1);
    DivisionParts(Compose(r1, lo, n), b, q2, r2);
    CombineIdentity(b, Pow2(n), Compose(hi, mid, n), lo, q1, r1, q2, r2);
    DivisionParts(Compose(Compose(hi, mid, n), lo, n), b, q1 * Pow2(n) + q2, r2);
  }

  lemma DivisionParts(a: int, b: int, q: int, r: int)
    ensures IsDivision(a, b, q, r) <==> a == b * q + r && 0 <= r < b
  {
  }

  lemma CombineIdentity(b: int, P: int, high: int, lo: int, q1: int, r1: int, q2: int, r2: int)
    requires high == b * q1 + r1 && r1 * P + lo == b * q2 + r2
    ensures high * P + lo == b * (q1 * P + q2) + r2
  {
    assert (b * q1 + r1) * P == b * (q1 * P) + r1 * P by { MulAssoc(b, q1, P); }
  }

  lemma HighPart(a12: nat, b: nat, b1: nat, b2: nat, n: nat)
    requires b == Compose(b1, b2, n) && b2 < Pow2(n) && a12 < b
    ensures Shr(a12, n) != b1 ==> Fits(a12, b1, n)
    ensures Shr(a12, n) == b1 ==>
      Shl(1, n) - 1 == Pow2(n) - 1 && a12 - Shl(b1, n) + b1 >= 0
      && Splits(a12, b1, Shl(1, n) - 1, a12 - Shl(b1, n) + b1)
  {
    var P := Pow2(n);
    DivBounds(a12, P, b1 + 1);
    DivBounds(a12, P, b1);
    DistributeOne(b1, P);
    assert b1 * (P - 1) == b1 * P - b1;
  }

  // The estimated quotient is never too small and exceeds the true one by at most 2.
  lemma EstimateError(a12: nat, a3: nat, b: nat, b1: nat, b2: nat, n: nat, q: nat, r: nat)
    requires HasBits(b1, n) && b2 < Pow2(n)
    requires b == Compose(b1, b2, n) && a12 < b && a3 < Pow2(n)
    requires Splits(a12, b1, q, r) && q < Pow2(n)
    requires r < b1 || q == Pow2(n) - 1
    ensures Shl(r, n) >= 0
    ensures var rest := BitOr(Shl(r, n), a3) - q * b2;
      Splits(Compose(a12, a3, n), b, q, rest) && rest < b && rest + 2 * b > 0
  {
    hide *;
    EstimateSplits(a12, a3, b, b1, b2, n, q, r);
    EstimateNotTooBig(a3, b, b1, b2, n, q, r);
    if r < b1 {
      EstimateNotTooSmall(a3, b, b1, b2, n, q, r);
    } else {
      EstimateSaturated(a12, a3, b, n, q, BitOr(Shl(r, n), a3) - q * b2);
    }
  }

  lemma EstimateSplits(a12: nat, a3: nat, b: nat, b1: nat, b2: nat, n: nat, q: nat, r: nat)
    requires b == Compose(b1, b2, n) && a3 < Pow2(n) && Splits(a12, b1, q, r)
    ensures Shl(r, n) >= 0
    ensures Splits(Compose(a12, a3, n), b, q, BitOr(Shl(r, n), a3) - q * b2)
  {
    OrIsSum(r, n, a3);
    EstimateIdentity(a12, a3, b, b1, b2, Pow2(n), q, r);
  }

  lemma EstimateIdentity(a12: nat, a3: nat, b: nat, b1: nat, b2: nat, P: int, q: nat, r: nat)
    requires b == b1 * P + b2 && a12 == b1 * q + r
    ensures a12 * P + a3 == b * q + (r * P + a3 - q * b2)
  {
    assert (b1 * q) * P == (b1 * P) * q by { MulAssoc(b1, q, P); MulAssoc(b1, P, q); }
  }

  lemma EstimateNotTooBig(a3: nat, b: nat, b1: nat, b2: nat, n: nat, q: nat, r: nat)
    requires HasBits(b1, n) && b2 < Pow2(n) && a3 < Pow2(n) && b == Compose(b1, b2, n) && q < Pow2(n)
    ensures Shl(r, n) >= 0
    ensures BitOr(Shl(r, n), a3) - q * b2 + 2 * b > 0
  {
    OrIsSum(r, n, a3);
    assert Pow2(n) == 2 * Pow2(n - 1);
    EstimateLow(b, b1, b2, Pow2(n - 1), Pow2(n), q, r * Pow2(n) + a3);
  }

  lemma EstimateLow(b: nat, b1: nat, b2: nat, H: int, P: int, q: nat, x: nat)
    requires 0 < H <= b1 && P == 2 * H && b == b1 * P + b2 && b2 < P && q < P
    ensures x - q * b2 + 2 * b > 0
  {
    MulMonotonic(H, b1, P, P);
    assert P * P == 2 * (H * P);
    MulMonotonic(q, P - 1, b2, P);
    assert (P - 1) * P == P * P - P;
  }

  lemma EstimateNotTooSmall(a3: nat, b: nat, b1: nat, b2: nat, n: nat, q: nat, r: nat)
    requires a3 < Pow2(n) && b == Compose(b1, b2, n) && r < b1
    ensures Shl(r, n) >= 0
    ensures BitOr(Shl(r, n), a3) - q * b2 < b
  {
    ShiftedNat(r, n);
    hide *;
    OrIsSum(r, n, a3);
    ComposeParts(b, b1, b2, n);
    EstimateHigh(b1, b2, Pow2(n), q, r, a3);
  }

  lemma ShiftedNat(a: nat, k: nat)
    ensures Shl(a, k) >= 0
  {
  }

  lemma ComposeParts(b: nat, b1: nat, b2: nat, n: nat)
    requires b == Compose(b1, b2, n)
    ensures b == b1 * Pow2(n) + b2
  {
  }

  lemma EstimateHigh(b1: nat, b2: nat, P: nat, q: nat, r: nat, a3: nat)
    requires a3 < P && r < b1
    ensures r * P + a3 >= 0 && r * P + a3 - q * b2 < b1 * P + b2
  {
    assert q * b2 >= 0;
    MulMonotonic(r + 1, b1, P, P);
    DistributeOne(r, P);
  }

  lemma EstimateSaturated(a12: nat, a3: nat, b: nat, n: nat, q: nat, rest: int)
    requires a12 < b && a3 < Pow2(n) && q == Pow2(n) - 1 && Splits(Compose(a12, a3, n), b, q, rest)
    ensures rest < b
  {
    var P := Pow2(n);
    MulOrder(a12 + 1, b, P);
    DistributeOne(a12, P);
    assert b * (P - 1) == b * P - b;
  }

  // ----- _divmod_pos and int_divmod -----

  function Reverse(s: seq<int>): seq<int> {
    if |s| == 0 then [] else Reverse(s[1..]) + [s[0]]
  }

  lemma {:induction false} ReverseAppend(s: seq<int>, x: int)
    ensures Reverse(s + [x]) == [x] + Reverse(s)
    decreases |s|
  {
    if |s| > 0 {
      assert (s + [x])[1..] == s[1..] + [x];
      ReverseAppend(s[1..], x);
    } else {
      assert s + [x] == [x];
      assert [x][1..] == [];
    }
  }

  // The digits from k up, divided by b, give the quotient digits found so far.
  ghost predicate Divided(digits: seq<int>, k: nat, b: nat, n: nat, qDigits: seq<int>, rem: nat)
    requires k <= |digits|
  {
    rem < b && Eval(digits[k..], Pow2(n)) == b * Eval(Reverse(qDigits), Pow2(n)) + rem
  }

  method DivmodPos(limit: nat, a: nat, b: nat) returns (q: int, r: int)
    requires b > 0
    ensures IsDivision(a, b, q, r)
  {
    hide *;
    var n := BitLength(b);
    HasItsBits(b);
    var list := Int2Digits(a, n);
    SplitDigitsCanonical(a, n);
    var digits := list[..];
    var rem: nat := 0;
    var qDigits: seq<int> := [];
    var k := |digits|;
    DividedStart(digits, b, n);
    while k > 0
      invariant 0 <= k <= |digits|
      invariant Divided(digits, k, b, n, qDigits, rem)
    {
      k := k - 1;
      NextDividend(digits, k, b, n, qDigits, rem);
      var qDigit, rem' := Div2n1n(limit, Shl(rem, n) + digits[k], b, n);
      DividedStep(digits, k, b, n, qDigits, rem, qDigit, rem');
      qDigits := qDigits + [qDigit];
      rem := rem';
    }
    q := Digits2Int(Reverse(qDigits), n);
    r := rem;
    DividedEnd(digits, a, b, n, qDigits, rem);
  }

  lemma HasItsBits(b: nat)
    requires b > 0
    ensures HasBits(b, BitLength(b)) && BitLength(b) > 0
  {
    BitLengthBounds(b);
  }

  lemma DividedStart(digits: seq<int>, b: nat, n: nat)
    requires b > 0
    ensures Divided(digits, |digits|, b, n, [], 0)
  {
    assert b * Eval(Reverse([]), Pow2(n)) == 0;
  }

  lemma DividedEnd(digits: seq<int>, a: nat, b: nat, n: nat, qDigits: seq<int>, rem: nat)
    requires Eval(digits, Pow2(n)) == a && Divided(digits, 0, b, n, qDigits, rem)
    ensures IsDivision(a, b, Eval(Reverse(qDigits), Pow2(n)), rem)
  {
    assert digits[0..] == digits;
  }

  lemma NextDividend(digits: seq<int>, k: nat, b: nat, n: nat, qDigits: seq<int>, rem: nat)
    requires k < |digits| && 0 <= digits[k] < Pow2(n)
    requires Divided(digits, k + 1, b, n, qDigits, rem)
    ensures Shl(rem, n) + digits[k] >= 0 && Fits(Shl(rem, n) + digits[k], b, n)
  {
    MulOrder(rem + 1, b, Pow2(n));
    DistributeOne(rem, Pow2(n));
  }

  lemma DividedStep(digits: seq<int>, k: nat, b: nat, n: nat, qDigits: seq<int>, rem: nat, qd: nat, rem': nat)
    requires k < |digits| && Divided(digits, k + 1, b, n, qDigits, rem)
    requires IsDivision(Shl(rem, n) + digits[k], b, qd, rem')
    ensures Divided(digits, k, b, n, qDigits + [qd], rem')
  {
    var B, Q := Pow2(n), Eval(Reverse(qDigits), Pow2(n));
    ReverseAppend(qDigits, qd);
    EvalCons(qd, Reverse(qDigits), B);
    assert digits[k..] == [digits[k]] + digits[k + 1..];
    EvalCons(digits[k], digits[k + 1..], B);
    SchoolbookStep(b, B, digits[k], Eval(digits[k + 1..], B), Q, rem, qd, rem');
  }

  lemma SchoolbookStep(b: int, B: int, d: int, high: int, Q: int, r: int, qd: int, r': int)
    requires high == b * Q + r && r * B + d == b * qd + r'
    ensures d + B * high == b * (qd + B * Q) + r'
  {
    assert B * (b * Q + r) == b * (B * Q) + r * B by { MulAssoc(B, b, Q); MulAssoc(b, B, Q); }
    assert b * (qd + B * Q) == b * qd + b * (B * Q);
  }

  datatype DivResult = Quotient(q: int, r: int) | ZeroDivision

  // ~a
  function Invert(a: int): int { -a - 1 }

  // Python's floor division: the remainder has the sign of the divisor.
  ghost predicate IsFloorDivision(a: int, b: int, q: int, r: int) {
    a == b * q + r && (if b > 0 then 0 <= r < b else b < r <= 0)
  }

  lemma FloorDivisionUnique(a: int, b: int, q: int, r: int, q': int, r': int)
    requires b != 0 && IsFloorDivision(a, b, q, r) && IsFloorDivision(a, b, q', r')
    ensures q == q' && r == r'
  {
    if b > 0 {
      DivModUnique(a, b, q, r);
      DivModUnique(a, b, q', r');
    } else {
      assert -a == q * -b + -r && -a == q' * -b + -r';
      DivModUnique(-a, -b, q, -r);
      DivModUnique(-a, -b, q', -r');
    }
  }

  method IntDivmod(limit: nat, a: int, b: int) returns (result: DivResult)
    ensures b == 0 <==> result == ZeroDivision
    ensures b != 0 ==> IsFloorDivision(a, b, result.q, result.r)
    decreases b < 0, a < 0
  {
    if b == 0 {
      return ZeroDivision;
    } else if b < 0 {
      var inner := IntDivmod(limit, -a, -b);
      assert -a == -b * inner.q + inner.r;
      result := Quotient(inner.q, -inner.r);
      assert b * inner.q == -(-b * inner.q);
    } else if a < 0 {
      var inner := IntDivmod(limit, Invert(a), b);
      result := Quotient(Invert(inner.q), b + Invert(inner.r));
      assert b * (-inner.q - 1) == -(b * inner.q) - b;
    } else {
      var q, r := DivmodPos(limit, a, b);
      result := Quotient(q, r);
    }
  }
}
