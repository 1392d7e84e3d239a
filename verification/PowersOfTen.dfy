/** Powers of ten, whole and not. */
module PowersOfTen {
  import opened BigInt
  import opened BigCompare
  import opened FastFloat

  lemma TenNext(e: int)
    ensures Power(10, e + 1) == 10.0 * Power(10, e)
  {
    PowPositive(10, Up(e));
    PowPositive(10, Down(e));
    if e < 0 {
      var n := -e - 1;
      PowPositive(10, n);
      assert Pow(10, n + 1) == 10 * Pow(10, n);
      TenthOf(Pow(10, n) as real);
    }
  }

  lemma TenthOf(x: real)
    requires x > 0.0
    ensures 1.0 / x == 10.0 * (1.0 / (10.0 * x))
  {
  }

  lemma {:induction false} TenShift(e: int, k: nat)
    ensures Power(10, e + k) == Power(10, e) * Pow(10, k) as real
    decreases k
  {
    hide Power;
    if k > 0 {
      TenShift(e, k - 1);
      TenNext(e + k - 1);
      assert Power(10, e) * (10 * Pow(10, k - 1)) as real == 10.0 * (Power(10, e) * Pow(10, k - 1) as real);
    }
  }

  lemma TenScale(k: int, e: int, b: nat)
    ensures Times(k, Power(10, e + b)) == Times(k * Pow(10, b), Power(10, e))
  {
    hide Power, Pow;
    TenShift(e, b);
    assert (k * Pow(10, b)) as real == k as real * Pow(10, b) as real;
  }

  lemma {:induction false} TensAreTwosFives(k: nat)
    ensures Pow(10, k) == Pow(2, k) * Pow(5, k)
  {
    if k > 0 {
      TensAreTwosFives(k - 1);
      assert 10 * (Pow(2, k - 1) * Pow(5, k - 1)) == 2 * Pow(2, k - 1) * (5 * Pow(5, k - 1));
    }
  }

  lemma TenGrows(e: int, k: nat)
    ensures Power(10, e) <= Power(10, e + k)
  {
    TenShift(e, k);
    PowPositive(10, k);
    PowerPositive(10, e);
    hide Power, Pow;
    TimesMono(1, Pow(10, k), Power(10, e));
  }

  lemma TenToZero()
    ensures Power(10, 0) == 1.0
  {
  }

  lemma Inverses(a: nat, b: nat)
    requires 0 < a <= b
    ensures 1.0 / a as real >= 1.0 / b as real
  {
  }
}
