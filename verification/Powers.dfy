// Integer powers, and the facts about powers, products and quotients that the
// big-integer and decimal algorithms rely on.
module Powers {

  function Pow(b: int, e: nat): int
    decreases e
  {
    if e == 0 then 1 else b * Pow(b, e - 1)
  }

  lemma {:induction false} PowPositive(b: int, e: nat)
    requires b > 0
    ensures Pow(b, e) > 0
    decreases e
  {
    if e > 0 {
      PowPositive(b, e - 1);
    }
  }

  lemma {:induction false} PowAdd(b: int, m: nat, n: nat)
    ensures Pow(b, m + n) == Pow(b, m) * Pow(b, n)
    decreases m
  {
    if m > 0 {
      PowAdd(b, m - 1, n);
      assert Pow(b, m + n) == b * Pow(b, m - 1 + n);
      MulAssoc(b, Pow(b, m - 1), Pow(b, n));
    }
  }

  lemma PowMonotonic(b: int, m: nat, n: nat)
    requires b > 0 && m <= n
    ensures Pow(b, m) <= Pow(b, n)
  {
    PowAdd(b, m, n - m);
    PowPositive(b, m);
    PowPositive(b, n - m);
    MulGrows(Pow(b, m), Pow(b, n - m));
  }

  lemma PowStrict(b: int, m: nat, n: nat)
    requires b > 1 && m < n
    ensures Pow(b, m) < Pow(b, n)
  {
    PowMonotonic(b, m, n - 1);
    PowPositive(b, n - 1);
    assert Pow(b, n) == b * Pow(b, n - 1);
  }

  // Raising to a fixed exponent is monotonic in the base.
  lemma {:induction false} PowBaseMonotonic(a: nat, b: nat, e: nat)
    requires a <= b
    ensures 0 <= Pow(a, e) <= Pow(b, e)
    decreases e
  {
    if e > 0 {
      PowBaseMonotonic(a, b, e - 1);
      MulMonotonic(a, b, Pow(a, e - 1), Pow(b, e - 1));
    }
  }

  lemma {:induction false} PowBaseStrict(a: nat, b: nat, e: nat)
    requires a < b && e > 0
    ensures Pow(a, e) < Pow(b, e)
    decreases e
  {
    PowBaseMonotonic(a, b, e - 1);
    PowPositive(b, e - 1);
    MulMonotonic(a, a, Pow(a, e - 1), Pow(b, e - 1));
    MulOrder(a, b, Pow(b, e - 1));
  }

  lemma {:induction false} PowDistributes(a: int, b: int, e: nat)
    ensures Pow(a * b, e) == Pow(a, e) * Pow(b, e)
    decreases e
  {
    if e > 0 {
      PowDistributes(a, b, e - 1);
      var x, y := Pow(a, e - 1), Pow(b, e - 1);
      assert a * b * (x * y) == (a * x) * (b * y) by {
        MulAssoc(a, b, x * y);
        MulAssoc(b, x, y);
        MulAssoc(x, b, y);
        MulAssoc(a, x, b * y);
      }
    }
  }

  // ----- products -----

  lemma MulAssoc(x: int, y: int, z: int)
    ensures (x * y) * z == x * (y * z)
  {
  }

  lemma MulGrows(x: int, y: int)
    requires x >= 0 && y >= 1
    ensures x <= x * y
  {
  }

  lemma MulMonotonic(a: int, b: int, x: int, y: int)
    requires 0 <= a <= b && 0 <= x <= y
    ensures 0 <= a * x <= b * y
  {
    assert a * x <= a * y;
    assert a * y <= b * y;
  }

  // Multiplying by a positive number keeps and reflects the order.
  lemma MulOrder(a: int, b: int, x: int)
    requires x > 0
    ensures a < b <==> a * x < b * x
    ensures a <= b <==> a * x <= b * x
  {
    assert (b - a) * x == b * x - a * x;
    assert b - a >= 1 ==> (b - a) * x >= x;
    assert b - a <= -1 ==> (b - a) * x <= -x;
  }

  // ----- quotients and remainders by a positive divisor -----

  // The quotient and remainder are the only pair satisfying the division identity.
  lemma DivModUnique(a: int, b: int, q: int, r: int)
    requires b > 0 && a == q * b + r && 0 <= r < b
    ensures a / b == q && a % b == r
  {
    var q', r' := a / b, a % b;
    assert a == q' * b + r' && 0 <= r' < b;
    MulOrder(q, q' + 1, b);
    MulOrder(q', q + 1, b);
  }

  lemma DivMod(a: int, b: int)
    requires b > 0
    ensures a == (a / b) * b + a % b && 0 <= a % b < b
  {
  }

  // a / b is the largest k with k * b <= a.
  lemma DivBounds(a: int, b: int, k: int)
    requires b > 0
    ensures k * b <= a <==> k <= a / b
    ensures a < k * b <==> a / b < k
  {
    DivMod(a, b);
    if k <= a / b {
      assert k * b <= (a / b) * b;
    } else {
      assert k * b >= (a / b + 1) * b;
    }
  }

  lemma DivMonotonic(a: int, b: int, c: int)
    requires a <= b && c > 0
    ensures a / c <= b / c
  {
    DivMod(a, c);
    DivBounds(b, c, a / c);
  }

  lemma DivAddMultiple(a: int, k: int, b: int)
    requires b > 0
    ensures (a + k * b) / b == a / b + k
    ensures (a + k * b) % b == a % b
  {
    DivMod(a, b);
    assert a + k * b == (a / b + k) * b + a % b;
    DivModUnique(a + k * b, b, a / b + k, a % b);
  }

  lemma DivDiv(a: int, b: int, c: int)
    requires b > 0 && c > 0
    ensures b * c > 0
    ensures a / (b * c) == (a / b) / c
    ensures a % (b * c) == ((a / b) % c) * b + a % b
  {
    var q, r := a / b, a % b;
    var q2, r2 := q / c, q % c;
    DivMod(a, b);
    DivMod(q, c);
    assert b * c > 0;
    assert a == q2 * (b * c) + (r2 * b + r) by { Reassemble(q2, r2, b, c); }
    assert 0 <= r2 * b + r < b * c by { MulOrder(r2 + 1, c, b); MulOrder(0, r2 + 1, b); DistributeOne(r2, b); }
    DivModUnique(a, b * c, q2, r2 * b + r);
  }

  lemma Reassemble(q: int, r: int, b: int, c: int)
    ensures (q * c + r) * b == q * (b * c) + r * b
  {
    MulAssoc(q, c, b);
  }

  lemma DistributeOne(k: int, b: int)
    ensures (k + 1) * b == k * b + b
    ensures (k - 1) * b == k * b - b
  {
  }

  // Scaling numerator and denominator leaves the quotient alone and scales the remainder.
  lemma DivScale(a: int, b: int, k: int)
    requires b > 0 && k > 0
    ensures b * k > 0
    ensures (a * k) / (b * k) == a / b
    ensures (a * k) % (b * k) == (a % b) * k
  {
    DivMod(a, b);
    var q, r := a / b, a % b;
    assert a * k == q * (b * k) + r * k by {
      assert (q * b + r) * k == (q * b) * k + r * k;
      MulAssoc(q, b, k);
    }
    assert 0 <= r * k < b * k by { MulOrder(r, b, k); }
    DivModUnique(a * k, b * k, q, r * k);
  }
}
