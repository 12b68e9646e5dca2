/**
  Bit operations on non-negative unbounded integers, as Python evaluates
  `v & (1 << k)`, `v | (1 << k)` and `v & ~(1 << k)`. The definitions walk the
  binary digits; the contracts relate each one to plain arithmetic.
 */
module Bits {

  function Pow2(k: nat): (r: nat)
    ensures r >= 1
  {
    if k == 0 then 1 else 2 * Pow2(k - 1)
  }

  lemma {:induction false} Pow2Add(a: nat, b: nat)
    ensures Pow2(a + b) == Pow2(a) * Pow2(b)
    decreases a
  {
    if a > 0 {
      Pow2Add(a - 1, b);
    }
  }

  /** `v & (1 << k) != 0`. */
  predicate Test(v: nat, k: nat)
    decreases k
  {
    if k == 0 then v % 2 == 1 else Test(v / 2, k - 1)
  }

  /** `v | (1 << k)`: adds `2^k` exactly when bit `k` was clear. */
  function Set(v: nat, k: nat): (r: nat)
    ensures r == if Test(v, k) then v else v + Pow2(k)
    decreases k
  {
    if k == 0 then (if v % 2 == 1 then v else v + 1)
    else 2 * Set(v / 2, k - 1) + v % 2
  }

  /** `v & ~(1 << k)`: subtracts `2^k` exactly when bit `k` was set. */
  function Clear(v: nat, k: nat): (r: nat)
    ensures r == if Test(v, k) then v - Pow2(k) else v
    ensures r <= v
    decreases k
  {
    if k == 0 then v - v % 2
    else 2 * Clear(v / 2, k - 1) + v % 2
  }

  /** After setting bit `k`, bit `k` is set and every other bit is as before. */
  lemma {:induction false} SetTest(v: nat, k: nat, j: nat)
    ensures Test(Set(v, k), j) == (j == k || Test(v, j))
    decreases k
  {
    if k == 0 {
      if j > 0 {
        assert Set(v, 0) / 2 == v / 2;
      }
    } else {
      var s := Set(v, k);
      assert s / 2 == Set(v / 2, k - 1) && s % 2 == v % 2;
      if j > 0 {
        SetTest(v / 2, k - 1, j - 1);
      }
    }
  }

  /** After clearing bit `k`, bit `k` is clear and every other bit is as before. */
  lemma {:induction false} ClearTest(v: nat, k: nat, j: nat)
    ensures Test(Clear(v, k), j) == (j != k && Test(v, j))
    decreases k
  {
    if k == 0 {
      if j > 0 {
        assert Clear(v, 0) / 2 == v / 2;
      }
    } else {
      var c := Clear(v, k);
      assert c / 2 == Clear(v / 2, k - 1) && c % 2 == v % 2;
      if j > 0 {
        ClearTest(v / 2, k - 1, j - 1);
      }
    }
  }

  /** Setting a bit twice is the same as setting it once. */
  lemma SetIdempotent(v: nat, k: nat)
    ensures Set(Set(v, k), k) == Set(v, k)
  {
    SetTest(v, k, k);
  }

  /** Clearing a bit just set undoes the set: the result is `v` with bit `k` clear. */
  lemma SetThenClear(v: nat, k: nat)
    ensures Clear(Set(v, k), k) == Clear(v, k)
    ensures !Test(v, k) ==> Clear(Set(v, k), k) == v
  {
    SetTest(v, k, k);
  }

  lemma {:induction false} Pow2Monotone(a: nat, b: nat)
    requires a <= b
    ensures Pow2(a) <= Pow2(b)
    decreases b
  {
    if a < b {
      Pow2Monotone(a, b - 1);
    }
  }

  /** A set bit `k` contributes at least `2^k`; a number below `2^k` has bit `k` clear. */
  lemma {:induction false} TestBound(v: nat, k: nat)
    ensures Test(v, k) ==> v >= Pow2(k)
    ensures v < Pow2(k) ==> !Test(v, k)
    decreases k
  {
    if k > 0 {
      TestBound(v / 2, k - 1);
    }
  }

  /** Setting a bit below position `n` keeps a value below `2^n`. */
  lemma {:induction false} SetBelow(v: nat, k: nat, n: nat)
    requires v < Pow2(n)
    requires k < n
    ensures Set(v, k) < Pow2(n)
    decreases k
  {
    var half := Pow2(n - 1);
    assert Pow2(n) == 2 * half;
    assert v == 2 * (v / 2) + v % 2;
    assert v / 2 < half;
    if k == 0 {
      assert Set(v, 0) <= 2 * (v / 2) + 1;
    } else {
      SetBelow(v / 2, k - 1, n - 1);
      assert Set(v, k) == 2 * Set(v / 2, k - 1) + v % 2;
    }
  }

  /** For a value of width `n`, setting bit `k` stays within width `n` exactly when `k < n`. */
  lemma SetWidth(v: nat, k: nat, n: nat)
    requires v < Pow2(n)
    ensures Set(v, k) < Pow2(n) <==> k < n
  {
    if k < n {
      SetBelow(v, k, n);
    } else {
      Pow2Monotone(n, k);
      TestBound(v, k);
    }
  }
}
