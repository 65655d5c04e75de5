// The Newton iterations on integers in _pydecimal.py: the floor of a square root,
// the exact n-th root in _power_exact, the nearest square root, and the nearest
// quotient.
module IntegerRoots {
  import opened Powers
  import opened Bits
  import opened Rounding

  // ----- the loop in sqrt: floor of the square root, from above -----

  // The iterate is the floor of the root or above it.
  ghost predicate NotBelow(c: nat, n: int) {
    n > 0 && c < (n + 1) * (n + 1)
  }

  method FloorSqrt(c: nat, start: nat) returns (n: nat)
    requires c > 0 && c < (start + 1) * (start + 1)
    ensures n * n <= c < (n + 1) * (n + 1)
  {
    n := start;
    assert NotBelow(c, n);
    hide NotBelow;
    while true
      invariant NotBelow(c, n)
      decreases n
    {
      AbovePositive(c, n);
      var q := c / n;
      if n <= q {
        SquareReached(c, n, q);
        break;
      }
      NewtonStaysAbove(c, n, q);
      n := (n + q) / 2;
    }
  }

  lemma AbovePositive(c: nat, n: int)
    requires NotBelow(c, n)
    ensures n > 0
  {
  }

  lemma SquareReached(c: nat, n: int, q: int)
    requires NotBelow(c, n) && n > 0 && q == c / n && n <= q
    ensures n * n <= c < (n + 1) * (n + 1)
  {
    DivBounds(c, n, n);
  }

  lemma NewtonStaysAbove(c: nat, n: nat, q: int)
    requires c > 0 && n > 0 && q == c / n && q < n
    ensures 0 < (n + q) / 2 < n && NotBelow(c, (n + q) / 2)
  {
    DivMod(c, n);
    DivMonotonic(0, c, n);
    DivMod(c, 1);
    var m := (n + q) / 2;
    MeanSquare(n, q + 1, m + 1);
    DistributeOne(q, n);
  }

  lemma MeanSquare(x: nat, y: nat, z: nat)
    requires x + y <= 2 * z
    ensures y * x <= z * z
  {
    ArithmeticGeometric(x, y);
    MulMonotonic(x + y, 2 * z, x + y, 2 * z);
    assert (2 * z) * (2 * z) == 4 * (z * z);
  }

  lemma ArithmeticGeometric(x: int, y: int)
    ensures 4 * (x * y) <= (x + y) * (x + y)
  {
    assert (x + y) * (x + y) - 4 * (x * y) == (x - y) * (x - y);
  }

  // ----- _sqrt_nearest -----

  datatype SqrtResult = Nearest(root: nat) | ValueError

  // a is the integer nearest to the square root of n: (a - 1/2)**2 < n < (a + 1/2)**2.
  ghost predicate IsNearestSqrt(n: nat, a: nat) {
    a * a - a < n <= a * a + a
  }

  lemma NearestSqrtUnique(n: nat, a: nat, b: nat)
    requires IsNearestSqrt(n, a) && IsNearestSqrt(n, b)
    ensures a == b
  {
    if a < b {
      RootsApart(a, b);
    } else if b < a {
      RootsApart(b, a);
    }
  }

  lemma RootsApart(a: nat, b: nat)
    requires a < b
    ensures a * a + a <= b * b - b
  {
    MulMonotonic(a, b - 1, a + 1, b);
    assert (b - 1) * b == b * b - b && a * (a + 1) == a * a + a;
  }

  // a - (-n // a) >> 1: the mean of a and ceil(n / a), rounded down.
  function Mean(n: nat, a: nat): int
    requires a > 0
  {
    (a - (-(n as int)) / a) / 2
  }

  method SqrtNearest(n: int, a0: int) returns (result: SqrtResult)
    ensures n <= 0 || a0 <= 0 <==> result == ValueError
    ensures n > 0 && a0 > 0 ==> IsNearestSqrt(n, result.root)
  {
    if n <= 0 || a0 <= 0 {
      return ValueError;
    }
    var a, b: int := a0, 0;
    ghost var first := true;
    while a != b
      invariant a > 0
      invariant first ==> b == 0
      invariant !first ==> b > 0 && a == Mean(n, b) && n <= a * a + a
      decreases first, if first then 0 else if a == b then 0 else a
    {
      MeanAbove(n, a);
      if !first {
        MeanDecreases(n, a);
      }
      b, a := a, Mean(n, a);
      first := false;
    }
    MeanFixpoint(n, a);
    result := Nearest(a);
  }

  lemma CeilingOf(n: nat, a: nat)
    requires n > 0 && a > 0
    ensures var c := -((-(n as int)) / a);
      c > 0 && (c - 1) * a < n <= c * a && Mean(n, a) == (a + c) / 2
  {
    var m: int := -(n as int);
    var q := m / a;
    DivMod(m, a);
    var c := -q;
    assert (c - 1) * a == -(q * a) - a && c * a == -(q * a);
    MulOrder(0, c, a);
  }

  // After one step the iterate is never too small.
  lemma MeanAbove(n: nat, a: nat)
    requires n > 0 && a > 0
    ensures var m := Mean(n, a); m > 0 && n <= m * m + m
  {
    CeilingOf(n, a);
    hide Mean;
    var c := -((-(n as int)) / a);
    MeanProduct(a, c, Mean(n, a));
    assert c * a == a * c;
  }

  lemma MeanProduct(a: int, c: int, m: int)
    requires a > 0 && c > 0 && m == (a + c) / 2
    ensures m > 0 && a * c <= m * m + m
  {
    ArithmeticGeometric(a, c);
    MulMonotonic(a + c, 2 * m + 1, a + c, 2 * m + 1);
    assert (2 * m + 1) * (2 * m + 1) == 4 * (m * m + m) + 1;
  }

  // From an iterate that is not too small the next one is not larger.
  lemma MeanDecreases(n: nat, a: nat)
    requires n > 0 && a > 0 && n <= a * a + a
    ensures Mean(n, a) <= a
  {
    CeilingOf(n, a);
    var c := -((-(n as int)) / a);
    assert (a + 1) * a == a * a + a;
    MulOrder(c - 1, a + 1, a);
  }

  lemma MeanFixpoint(n: nat, a: nat)
    requires n > 0 && a > 0 && a == Mean(n, a)
    ensures IsNearestSqrt(n, a)
  {
    CeilingOf(n, a);
    var c := -((-(n as int)) / a);
    assert a <= c <= a + 1;
    MulOrder(a - 1, c, a);
    MulOrder(c, a + 1, a);
    MulOrder(a - 1, c - 1, a);
    assert (a - 1) * a == a * a - a && (a + 1) * a == a * a + a;
  }

  // ----- _div_nearest -----

  function DivNearest(a: int, b: int): int
    requires b > 0
  {
    var q, r := a / b, a % b;
    q + (if 2 * r + q % 2 > b then 1 else 0)
  }

  // The quotient rounded half to even.
  lemma DivNearestRounds(a: nat, b: int)
    requires b > 0
    ensures DivNearest(a, b) == RoundSticky(HalfEven, 0, a, b, false)
    ensures var q := DivNearest(a, b);
      -b <= 2 * (a - q * b) <= b && (2 * (a - q * b) == b || 2 * (a - q * b) == -b ==> q % 2 == 0)
  {
    DivMod(a, b);
    DivMonotonic(0, a, b);
  }

  // ----- the n-th root in _power_exact -----

  ghost predicate IsFloorRoot(x: nat, n: nat, a: nat) {
    Pow(a, n) <= x < Pow(a + 1, n)
  }

  ghost predicate IsPerfectPower(x: nat, n: nat) {
    exists k: nat :: Pow(k, n) == x
  }

  // The tangent to k**n at a lies below it: weighted AM-GM, in integers.
  lemma {:induction false} Tangent(k: nat, a: nat, n: nat)
    requires n > 0
    ensures Pow(k, n) >= Pow(a, n - 1) * (n * k - (n - 1) * a)
    decreases n
  {
    if n == 1 {
      assert Pow(k, 1) == k * Pow(k, 0) == k;
      assert Pow(a, 0) == 1;
    } else {
      Tangent(k, a, n - 1);
      PowBaseMonotonic(0, a, n - 2);
      TangentStep(k, a, n, Pow(a, n - 2), Pow(k, n - 1));
    }
  }

  lemma TangentStep(k: nat, a: nat, n: nat, P: int, K: int)
    requires n > 1 && P >= 0
    requires K >= P * ((n - 1) * k - (n - 2) * a)
    ensures k * K >= (a * P) * (n * k - (n - 1) * a)
  {
    var u := (n - 1) * k - (n - 2) * a;
    var v := n * k - (n - 1) * a;
    TangentOrder(k, a, n);
    ScaleOrder(k, P * u, K);
    Regroup(k, P, u);
    Regroup(a, P, v);
    ScaleOrder(P, a * v, k * u);
  }

  lemma ScaleOrder(m: int, x: int, y: int)
    requires m >= 0 && x <= y
    ensures m * x <= m * y
  {
  }

  lemma Regroup(x: int, P: int, y: int)
    ensures x * (P * y) == P * (x * y) && (x * P) * y == P * (x * y)
  {
    MulAssoc(x, P, y);
    MulAssoc(P, x, y);
  }

  lemma TangentOrder(k: nat, a: nat, n: nat)
    requires n > 1
    ensures a * (n * k - (n - 1) * a) <= k * ((n - 1) * k - (n - 2) * a)
  {
    TangentIdentity(k, a, n);
    ScaleOrder(n - 1, 0, (k - a) * (k - a));
  }

  lemma TangentIdentity(k: int, a: int, n: int)
    ensures k * ((n - 1) * k - (n - 2) * a) - a * (n * k - (n - 1) * a) == (n - 1) * ((k - a) * (k - a))
  {
  }

  // One step never goes below any k with k**n <= x.
  lemma RootStepAbove(x: nat, n: nat, a: nat, k: nat)
    requires n > 1 && a > 0 && Pow(k, n) <= x
    ensures Pow(a, n - 1) > 0
    ensures k <= (a * (n - 1) + x / Pow(a, n - 1)) / n
  {
    PowPositive(a, n - 1);
    Tangent(k, a, n);
    hide Pow;
    var P := Pow(a, n - 1);
    var q := x / P;
    TangentBelow(x, P, n * k - (n - 1) * a);
    DivBounds(a * (n - 1) + q, n, k);
  }

  lemma TangentBelow(x: int, P: int, t: int)
    requires P > 0 && P * t <= x
    ensures t <= x / P
  {
    DivBounds(x, P, t);
  }

  // The initial estimate 2**ceil(bits/n) is above the root.
  lemma RootStart(x: nat, n: nat)
    requires x > 0 && n > 0
    ensures var e := -((-(BitLength(x) as int)) / n);
      e >= 0 && x < Pow(Pow2(e), n)
  {
    BitLengthBounds(x);
    CeilingOf(BitLength(x), n);
    var e := -((-(BitLength(x) as int)) / n);
    PowOfPow(e, n);
    PowMonotonic(2, BitLength(x), e * n);
  }

  lemma {:induction false} PowOfPow(e: nat, n: nat)
    ensures e * n >= 0 && Pow(Pow2(e), n) == Pow2(e * n)
    decreases n
  {
    if n > 0 {
      PowOfPow(e, n - 1);
      PowAdd(2, e, e * (n - 1));
      assert e * n == e + e * (n - 1);
    }
  }

  datatype RootResult = NotExact | ExactRoot(xc: nat, xe: int)

  // The root loop: the floor of the n-th root.
  method FloorRoot(x: nat, n: nat) returns (a: nat, q: nat, r: nat)
    requires n > 1 && x > 1
    ensures IsFloorRoot(x, n, a) && a > 0
    ensures Pow(a, n - 1) > 0 && q == x / Pow(a, n - 1) && r == x % Pow(a, n - 1)
  {
    RootStart(x, n);
    a := Shl(1, -((-(BitLength(x) as int)) / n));
    BelowStart(x, n, a);
    while true
      invariant a > 0
      invariant forall k: nat :: Pow(k, n) <= x ==> k <= a
      decreases a
    {
      PowPositive(a, n - 1);
      DivMonotonic(0, x, Pow(a, n - 1));
      DivMod(x, Pow(a, n - 1));
      q, r := x / Pow(a, n - 1), x % Pow(a, n - 1);
      if a <= q {
        RootReached(x, n, a, q);
        break;
      }
      RootStepDown(x, n, a, q);
      a := (a * (n - 1) + q) / n;
    }
  }

  lemma BelowStart(x: nat, n: nat, a: nat)
    requires n > 0 && x < Pow(a, n)
    ensures forall k: nat :: Pow(k, n) <= x ==> k <= a
  {
    forall k: nat | Pow(k, n) <= x ensures k <= a {
      if k > a {
        PowBaseMonotonic(a, k, n);
      }
    }
  }

  lemma RootReached(x: nat, n: nat, a: nat, q: nat)
    requires n > 1 && a > 0 && Pow(a, n - 1) > 0 && q == x / Pow(a, n - 1) && a <= q
    requires forall k: nat :: Pow(k, n) <= x ==> k <= a
    ensures IsFloorRoot(x, n, a)
  {
    DivBounds(x, Pow(a, n - 1), a);
    assert !(a + 1 <= a);
  }

  lemma RootStepDown(x: nat, n: nat, a: nat, q: nat)
    requires n > 1 && x > 1 && a > 0 && Pow(a, n - 1) > 0 && q == x / Pow(a, n - 1) && q < a
    requires forall k: nat :: Pow(k, n) <= x ==> k <= a
    ensures var next := (a * (n - 1) + q) / n;
      0 < next < a && forall k: nat :: Pow(k, n) <= x ==> k <= next
  {
    var next := (a * (n - 1) + q) / n;
    forall k: nat | Pow(k, n) <= x ensures k <= next {
      RootStepAbove(x, n, a, k);
    }
    OnePower(n);
    assert Pow(1, n) <= x;
    DivBounds(a * (n - 1) + q, n, a);
    assert a * n == a * (n - 1) + a;
  }

  lemma {:induction false} OnePower(n: nat)
    ensures Pow(1, n) == 1
    decreases n
  {
    if n > 0 {
      OnePower(n - 1);
    }
  }

  // The root is exact precisely when the last division was.
  lemma ExactWhenDivides(x: nat, n: nat, a: nat)
    requires n > 1 && a > 0 && IsFloorRoot(x, n, a)
    ensures Pow(a, n - 1) > 0
    ensures a == x / Pow(a, n - 1) && x % Pow(a, n - 1) == 0 <==> Pow(a, n) == x
    ensures Pow(a, n) == x <==> IsPerfectPower(x, n)
  {
    PowPositive(a, n - 1);
    DivMod(x, Pow(a, n - 1));
    if Pow(a, n) == x {
      DivModUnique(x, Pow(a, n - 1), a, 0);
    }
    if IsPerfectPower(x, n) {
      var k: nat :| Pow(k, n) == x;
      if k < a {
        PowBaseStrict(k, a, n);
      } else if k > a {
        PowBaseMonotonic(a + 1, k, n);
      }
    }
  }

  // The n-th root of xc * 10**xe, when xc is an exact n-th power and n divides xe.
  method NthRoot(xc: nat, xe: int, n: nat) returns (result: RootResult)
    requires n > 1 && xc > 1
    ensures result.ExactRoot? <==> IsPerfectPower(xc, n) && xe % n == 0
    ensures result.ExactRoot? ==> Pow(result.xc, n) == xc && result.xe * n == xe
  {
    if BitLength(xc) <= n {
      SmallIsNoPower(xc, n);
      return NotExact;
    }
    DivMod(xe, n);
    var xe', rem := xe / n, xe % n;
    if rem != 0 {
      return NotExact;
    }
    var a, q, r := FloorRoot(xc, n);
    ExactWhenDivides(xc, n, a);
    if !(a == q && r == 0) {
      return NotExact;
    }
    result := ExactRoot(a, xe');
  }

  // If 1 < x < 2**n then x is not an n-th power.
  lemma SmallIsNoPower(x: nat, n: nat)
    requires n > 1 && x > 1 && BitLength(x) <= n
    ensures !IsPerfectPower(x, n)
  {
    BitLengthFits(x, n);
    if IsPerfectPower(x, n) {
      var k: nat :| Pow(k, n) == x;
      OnePower(n);
      assert Pow(0, n) == 0 * Pow(0, n - 1) == 0;
      assert k >= 2;
      PowBaseMonotonic(2, k, n);
    }
  }
}
