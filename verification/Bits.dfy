// Python's bit operations on non-negative integers of any size, defined bit by
// bit, and their arithmetic meaning: a shift is a product or a quotient by a
// power of two, a mask is a remainder, and combining disjoint fields is a sum.
module Bits {
  import opened Powers

  function Pow2(n: nat): (p: int)
    ensures p > 0
  {
    PowPositive(2, n);
    Pow(2, n)
  }

  // int.bit_length
  function BitLength(a: nat): nat {
    if a == 0 then 0 else 1 + BitLength(a / 2)
  }

  // a << n
  function Shl(a: int, n: nat): int {
    a * Pow2(n)
  }

  // a >> n (floors, as Python does for negative integers too)
  function Shr(a: int, n: nat): int {
    a / Pow2(n)
  }

  function BitAnd(a: nat, b: nat): nat
    decreases a
  {
    if a == 0 then 0 else 2 * BitAnd(a / 2, b / 2) + (if a % 2 == 1 && b % 2 == 1 then 1 else 0)
  }

  function BitOr(a: nat, b: nat): nat
    decreases a
  {
    if a == 0 then b else 2 * BitOr(a / 2, b / 2) + (if a % 2 == 1 || b % 2 == 1 then 1 else 0)
  }

  function BitXor(a: nat, b: nat): nat
    decreases a
  {
    if a == 0 then b else 2 * BitXor(a / 2, b / 2) + (if a % 2 != b % 2 then 1 else 0)
  }

  // a << k | r  ==  a * 2**k + r  when r fits in the k low bits.
  lemma {:induction false} OrIsSum(a: nat, k: nat, r: nat)
    requires r < Pow2(k)
    ensures BitOr(Shl(a, k), r) == a * Pow2(k) + r
    decreases k
  {
    if a == 0 {
      assert Shl(a, k) == 0;
    } else if k == 0 {
      assert Shl(a, 0) == a;
      OrZero(a);
    } else {
      HalfShift(a, k);
      OrIsSum(a, k - 1, r / 2);
    }
  }

  lemma {:induction false} OrZero(a: nat)
    ensures BitOr(a, 0) == a
    decreases a
  {
    if a > 0 {
      OrZero(a / 2);
    }
  }

  // One step of a shift: a * 2**k is even, and its half is a * 2**(k-1).
  lemma HalfShift(a: nat, k: nat)
    requires k > 0
    ensures Pow2(k) == 2 * Pow2(k - 1)
    ensures a * Pow2(k) == 2 * (a * Pow2(k - 1))
    ensures Shl(a, k) % 2 == 0 && Shl(a, k) / 2 == Shl(a, k - 1)
  {
    assert Pow2(k) == 2 * Pow2(k - 1);
    assert a * (2 * Pow2(k - 1)) == 2 * (a * Pow2(k - 1));
  }

  // a & (2**k - 1)  ==  a % 2**k
  lemma {:induction false} MaskIsRemainder(a: nat, k: nat)
    ensures BitAnd(a, Pow2(k) - 1) == a % Pow2(k)
    decreases k
  {
    if k == 0 {
      assert Pow2(0) == 1;
      AndZero(a);
    } else if a == 0 {
      DivModUnique(0, Pow2(k), 0, 0);
    } else {
      assert Pow2(k) == 2 * Pow2(k - 1);
      assert (Pow2(k) - 1) / 2 == Pow2(k - 1) - 1 && (Pow2(k) - 1) % 2 == 1;
      MaskIsRemainder(a / 2, k - 1);
      DivDiv(a, 2, Pow2(k - 1));
    }
  }

  lemma {:induction false} AndZero(a: nat)
    ensures BitAnd(a, 0) == 0
    decreases a
  {
    if a > 0 {
      AndZero(a / 2);
    }
  }

  // a ^ ((a >> k) << k)  ==  a % 2**k: clearing the high field leaves the low one.
  lemma {:induction false} XorClearsHigh(a: nat, k: nat)
    ensures Shr(a, k) >= 0 && Shl(Shr(a, k), k) >= 0
    ensures BitXor(a, Shl(Shr(a, k), k)) == a % Pow2(k)
    decreases k
  {
    DivMod(a, Pow2(k));
    DivMonotonic(0, a, Pow2(k));
    if k == 0 {
      assert Pow2(0) == 1;
      XorSelf(a);
    } else if a == 0 {
      DivModUnique(0, Pow2(k), 0, 0);
    } else {
      XorClearsHigh(a / 2, k - 1);
      DivDiv(a, 2, Pow2(k - 1));
      assert Pow2(k) == 2 * Pow2(k - 1);
      assert Shr(a, k) == Shr(a / 2, k - 1);
      HalfShift(Shr(a, k), k);
    }
  }

  lemma {:induction false} XorSelf(a: nat)
    ensures BitXor(a, a) == 0
    decreases a
  {
    if a > 0 {
      XorSelf(a / 2);
    }
  }

  // ----- bit lengths -----

  lemma {:induction false} BitLengthBounds(a: nat)
    requires a > 0
    ensures BitLength(a) >= 1 && Pow2(BitLength(a) - 1) <= a < Pow2(BitLength(a))
    decreases a
  {
    if a > 1 {
      BitLengthBounds(a / 2);
      var k := BitLength(a / 2);
      assert Pow2(k) == 2 * Pow2(k - 1);
      assert Pow2(k + 1) == 2 * Pow2(k);
    } else {
      assert BitLength(a) == 1 + BitLength(0) == 1;
      assert Pow2(0) == 1 && Pow2(1) == 2 * Pow2(0);
    }
  }

  // a fits in n bits exactly when a < 2**n.
  lemma BitLengthFits(a: nat, n: nat)
    ensures BitLength(a) <= n <==> a < Pow2(n)
  {
    hide *;
    if a == 0 {
      NoBits(a);
    } else {
      BitLengthBounds(a);
      if BitLength(a) <= n {
        Pow2Monotonic(BitLength(a), n);
      } else {
        Pow2Monotonic(n, BitLength(a) - 1);
      }
    }
  }

  lemma NoBits(a: nat)
    requires a == 0
    ensures BitLength(a) == 0
  {
  }

  lemma Pow2Monotonic(m: nat, n: nat)
    requires m <= n
    ensures Pow2(m) <= Pow2(n)
  {
    PowMonotonic(2, m, n);
  }
}
