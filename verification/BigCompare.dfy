/** The exact comparison that settles which of two doubles a decimal number rounds to. */
module BigCompare {
  import opened Bytes
  import opened Word64
  import opened BigInt
  import opened DecimalBuf

  /** `b` to an integer power. */
  function Power(b: nat, e: int): real
    requires b > 0
  {
    PowPositive(b, if e >= 0 then e else -e);
    if e >= 0 then Pow(b, e) as real else 1.0 / Pow(b, -e) as real
  }

  /** A thousand is less than two to the tenth. */
  lemma {:induction false} PowThousand(k: nat)
    ensures Pow(10, 3 * k) <= Pow(2, 10 * k)
  {
    if k > 0 {
      PowThousand(k - 1);
      PowAdd(10, 3, 3 * (k - 1));
      PowAdd(2, 10, 10 * (k - 1));
      assert Pow(10, 3) == 1000 && Pow(2, 10) == 1024;
      hide Pow;
      MulMono(Pow(10, 3 * (k - 1)), Pow(2, 10 * (k - 1)), 1000);
    }
  }

  lemma TenBelowTwo(n: nat, b: nat)
    requires 10 * n + 30 <= 3 * b
    ensures Pow(10, n) < Pow(2, b)
  {
    hide Pow;
    var k := n / 3 + 1;
    PowMono(10, n, 3 * k);
    PowThousand(k);
    PowAdd(10, n, 3 * k - n);
    TenBelowTwoStrict(n, k);
    PowMono(2, 10 * k, b);
  }

  lemma TenBelowTwoStrict(n: nat, k: nat)
    requires n < 3 * k
    ensures Pow(10, n) < Pow(2, 10 * k)
  {
    PowThousand(k);
    PowMono(10, n + 1, 3 * k);
    PowPositive(10, n);
  }

  /** A number below a power of the limb base has no more limbs than that. */
  lemma UsedBelow(s: seq<u64>, m: nat)
    requires Normal(s) && Val(s) < Pow(2, 64 * m)
    ensures |s| <= m || |s| == 1
  {
    if |s| > 1 && |s| > m {
      hide Val, Scale, Pow;
      TopAtLeast(s);
      ScaleLonger(m, |s| - 1);
      ScaleIsPow2(m, 1);
    }
  }

  lemma ProductBelowPow(x: nat, y: nat, m: nat, n: nat)
    requires x < Pow(2, m) && y <= Pow(2, n)
    ensures x * y < Pow(2, m + n)
  {
    PowAdd(2, m, n);
    PowPositive(2, n);
    hide Pow;
    MulMono(y, Pow(2, n), x);
    MulMono(x + 1, Pow(2, m), Pow(2, n));
    assert (x + 1) * Pow(2, n) == x * Pow(2, n) + Pow(2, n);
  }

  lemma WordIsPow()
    ensures WORD == Pow(2, 64) && Scale(CAPACITY, 1) == Pow(2, 4096)
  {
    Pow2Word();
    hide Pow, Scale;
    ScaleIsPow2(CAPACITY, 1);
  }

  /** Numbers ordered by their difference from each other. */
  function Sign(x: real, y: real): int {
    if x < y then -1 else if x > y then 1 else 0
  }

  lemma SignScales(x: real, y: real, k: real)
    requires k > 0.0
    ensures Sign(x * k, y * k) == Sign(x, y)
  {
    if x < y {
      assert (y - x) * k > 0.0;
    } else if x > y {
      assert (x - y) * k > 0.0;
    }
  }

  /** The powers that are multiplied in, so that only whole numbers remain. */
  function Up(e: int): nat {
    if e >= 0 then e else 0
  }

  function Down(e: int): nat {
    if e >= 0 then 0 else -e
  }

  lemma PowerSplits(b: nat, e: int)
    requires b > 0
    ensures Pow(b, Down(e)) > 0 && Power(b, e) * Pow(b, Down(e)) as real == Pow(b, Up(e)) as real
  {
    PowPositive(b, Down(e));
  }

  lemma RegroupLeft(v: real, p: real, d: real, u: real, k: real)
    requires p * d == u
    ensures v * p * (d * k) == v * u * k
  {
    assert v * p * (d * k) == v * (p * d) * k;
  }

  lemma RegroupRight(w: real, q: real, d: real, k: real, u: real)
    requires q * k == u
    ensures w * q * (d * k) == w * d * u
  {
    assert w * q * (d * k) == w * d * (q * k);
  }

  lemma SameSign(v: real, p: real, dp: real, up: real, w: real, q: real, dq: real, uq: real)
    requires p * dp == up && q * dq == uq && dp > 0.0 && dq > 0.0
    ensures Sign(v * up * dq, w * dp * uq) == Sign(v * p, w * q)
  {
    RegroupLeft(v, p, dp, up, dq);
    RegroupRight(w, q, dp, dq, uq);
    PositiveProduct(dp, dq);
    SignScales(v * p, w * q, dp * dq);
  }

  function Product(a: nat, b: nat, c: nat): nat {
    a * b * c
  }

  lemma SameSignWhole(v: nat, p: real, d: nat, u: nat, w: nat, q: real, k: nat, x: nat)
    requires p * d as real == u as real && q * k as real == x as real && d > 0 && k > 0
    ensures Sign(Product(v, u, k) as real, Product(w, d, x) as real) == Sign(v as real * p, w as real * q)
  {
    CastProduct(v, u, k);
    CastProduct(w, d, x);
    hide Sign, Product;
    SameSign(v as real, p, d as real, u as real, w as real, q, k as real, x as real);
  }

  /** Comparing the whole numbers compares the numbers with their powers. */
  lemma CrossMultiplied(value: nat, e: int, upper: nat, u: int)
    ensures Sign(Product(value, Pow(10, Up(e)), Pow(2, Down(u))) as real,
                 Product(upper, Pow(10, Down(e)), Pow(2, Up(u))) as real)
         == Sign(value as real * Power(10, e), upper as real * Power(2, u))
  {
    hide Pow, Power, Sign, Product;
    PowerSplits(10, e);
    PowerSplits(2, u);
    SameSignWhole(value, Power(10, e), Pow(10, Down(e)), Pow(10, Up(e)),
                  upper, Power(2, u), Pow(2, Down(u)), Pow(2, Up(u)));
  }

  lemma PositiveProduct(a: real, b: real)
    requires a > 0.0 && b > 0.0
    ensures a * b > 0.0
  {
  }

  lemma CastProduct(a: nat, b: nat, c: nat)
    ensures Product(a, b, c) as real == a as real * b as real * c as real
  {
    assert (a * b) as real == a as real * b as real;
  }

  /** Ghost: the whole number and exponent that bigint_set_buf makes of the input. */
  ghost predicate Reads(value: nat, e: int, sig: u64, exp: int, buf: seq<byte>, cut: Option<nat>, end: nat, dot: nat) {
    && Readable(sig, buf, cut, end, dot)
    && (cut.None? ==> value == sig && e == exp)
    && (cut.Some? ==>
         e <= exp && IsSetBuf(value, exp - e, sig - RoundedUp(buf[cut.value]), buf, cut.value, end, dot))
  }

  /** What the number scanner leaves: digits from the cut on, the point neither first nor last. */
  ghost predicate Readable(sig: u64, buf: seq<byte>, cut: Option<nat>, end: nat, dot: nat) {
    cut.Some? ==>
      sig > 0 && cut.value < end && Digits(buf, cut.value, end, dot) && dot != cut.value && dot + 1 != end
  }

  /** The exponents that reach the comparison: that of the number, and that of the upper boundary. */
  predicate InRange(exp: int, u: int) {
    -343 <= exp <= 308 && -1075 <= u <= 970 && (u > 0 ==> exp >= -20)
  }

  lemma SpelledBelow(head: u64, c: nat, d: nat)
    requires d <= Pow(10, c)
    ensures Spelled(head, c, d) < Pow(10, c + 20)
  {
    TwentyDigits();
    PowAdd(10, c, 20);
    PowPositive(10, c);
    hide Pow;
    MulMono(head + 2, Pow(10, 20), Pow(10, c));
    assert (head + 2) * Pow(10, c) == head * Pow(10, c) + 2 * Pow(10, c);
  }

  /** What is read has at most twenty digits more than the exponent dropped, or one more again. */
  lemma ReadsBelow(value: nat, e: int, sig: u64, exp: int, buf: seq<byte>, cut: Option<nat>, end: nat, dot: nat)
    requires Reads(value, e, sig, exp, buf, cut, end, dot)
    ensures exp - 750 <= e <= exp && value < Pow(10, exp - e + 21)
    ensures exp - e < 750 ==> value < Pow(10, exp - e + 20)
  {
    PowMono(10, 20, 21);
    TwentyDigits();
    if cut.Some? {
      var head := sig - RoundedUp(buf[cut.value]);
      var n := Count(cut.value, end, dot);
      if n + SAFE_DIGITS <= MAX_DIGITS {
        DecimalBelow(buf, cut.value, end, dot);
        SpelledBelow(head, n, Decimal(buf, cut.value, end, dot));
        PowMono(10, n + 20, n + 21);
      } else {
        KeptCount(cut.value, end, dot);
        var k := KeptEnd(cut.value, end, dot);
        DecimalBelow(buf, cut.value, k, dot);
        SpelledBelow(head, Count(cut.value, k, dot), Sticky(Decimal(buf, cut.value, k, dot)));
        PowMono(10, Count(cut.value, k, dot) + 20, 771);
      }
    }
  }

  /** The decimal side stays within 41 limbs, before the powers of two. */
  lemma FullFits(value: nat, e: int, exp: int)
    requires exp - 750 <= e <= exp <= 308 && value < Pow(10, exp - e + 21)
    ensures value * Pow(10, Up(e)) < Pow(2, 2624)
  {
    hide Pow;
    if e >= 0 {
      PowAdd(10, exp - e + 21, e);
      PowPositive(10, e);
      MulMono(value + 1, Pow(10, exp - e + 21), Pow(10, e));
      assert (value + 1) * Pow(10, e) == value * Pow(10, e) + Pow(10, e);
      TenBelowTwo(exp + 21, 2624);
    } else {
      PowAtZero(10);
      TenBelowTwo(exp - e + 21, 2624);
    }
  }

  /** So does the binary side, before its powers of two, within 59 limbs, or 42 if there are any. */
  lemma CompFits(upper: u64, e: int, exp: int, u: int)
    requires InRange(exp, u) && exp - 750 <= e <= exp
    ensures upper * Pow(10, Down(e)) < Pow(2, 3776)
    ensures u > 0 ==> upper * Pow(10, Down(e)) < Pow(2, 2688)
  {
    hide Pow;
    WordIsPow();
    PowAtZero(10);
    TenBelowTwo(Down(e), 3712);
    ProductBelowPow(upper, Pow(10, Down(e)), 64, 3712);
    if u > 0 {
      TenBelowTwo(Down(e), 2624);
      ProductBelowPow(upper, Pow(10, Down(e)), 64, 2624);
    }
  }

  /** Room for a product with ten's power, as a count of limbs. */
  lemma RoomInBits(x: nat, bits: nat)
    requires x < Pow(2, bits) && bits <= 4096
    ensures x < Scale(CAPACITY, 1)
  {
    hide Pow, Scale;
    WordIsPow();
    PowMono(2, bits, 4096);
  }

  lemma SpelledPositive(head: nat, c: nat, d: nat)
    requires head > 0
    ensures Spelled(head, c, d) > 0
  {
    PowPositive(10, c);
    MulMono(1, head, Pow(10, c));
  }

  lemma ReadsPositive(value: nat, e: int, sig: u64, exp: int, buf: seq<byte>, cut: Option<nat>, end: nat, dot: nat)
    requires Reads(value, e, sig, exp, buf, cut, end, dot) && sig > 0 && (cut.Some? ==> sig >= POW10[18])
    ensures value > 0
  {
    hide Spelled, Decimal;
    if cut.Some? {
      var head := sig - RoundedUp(buf[cut.value]);
      var n := Count(cut.value, end, dot);
      if n + SAFE_DIGITS <= MAX_DIGITS {
        SpelledPositive(head, n, Decimal(buf, cut.value, end, dot));
      } else {
        KeptCount(cut.value, end, dot);
        var k := KeptEnd(cut.value, end, dot);
        SpelledPositive(head, Count(cut.value, k, dot), Sticky(Decimal(buf, cut.value, k, dot)));
      }
    }
  }

  function TimesPow(x: nat, b: nat, n: nat): nat {
    x * Pow(b, n)
  }

  /** Multiplied by ten's power, with the limbs needed bounded and normal. */
  method TimesTen(big: BigNum, ten: nat, ghost limbs: nat)
    requires big.Valid() && Normal(big.Limbs())
    requires 1 <= limbs <= CAPACITY && TimesPow(big.Value(), 10, ten) < Pow(2, 64 * limbs)
    modifies big`used, big.bits
    ensures big.Valid() && Normal(big.Limbs()) && big.used <= limbs
    ensures big.Value() == TimesPow(old(big.Value()), 10, ten)
  {
    hide Pow, Scale, Normal, Val;
    RoomInBits(big.Value() * Pow(10, ten), 64 * limbs);
    big.MulPow10(ten);
    UsedBelow(big.Limbs(), limbs);
  }

  lemma PositiveTimesPow(x: nat, b: nat, n: nat)
    requires x > 0 && b > 0
    ensures x * Pow(b, n) > 0
  {
    PowPositive(b, n);
    MulMono(1, x, Pow(b, n));
  }

  lemma TensFit(f: nat, c: u64, e: int, exp: int, u: int, limbs: nat)
    requires InRange(exp, u) && exp - 750 <= e <= exp && 0 < f < Pow(10, exp - e + 21) && c > 0
    requires limbs == if u > 0 then 42 else 59
    ensures 0 < TimesPow(f, 10, Up(e)) < Pow(2, 64 * 41)
    ensures 0 < TimesPow(c, 10, Down(e)) < Pow(2, 64 * limbs)
    ensures TimesPow(f, 10, 0) == f && TimesPow(c, 10, 0) == c
  {
    FullFits(f, e, exp);
    CompFits(c, e, exp, u);
    PositiveTimesPow(f, 10, Up(e));
    PositiveTimesPow(c, 10, Down(e));
    PowAtZero(10);
  }

  /** The decimal exponent goes to whichever side it is positive for. */
  method ScaleTens(full: BigNum, comp: BigNum, e: int, ghost exp: int, ghost u: int)
    requires full != comp && full.bits != comp.bits && full.Valid() && comp.Valid()
    requires Normal(full.Limbs()) && Normal(comp.Limbs()) && full.Value() > 0 && 0 < comp.Value() < WORD
    requires InRange(exp, u) && exp - 750 <= e <= exp && full.Value() < Pow(10, exp - e + 21)
    modifies full`used, full.bits, comp`used, comp.bits
    ensures full.Valid() && comp.Valid() && Normal(full.Limbs()) && Normal(comp.Limbs())
    ensures full.Value() == TimesPow(old(full.Value()), 10, Up(e)) > 0 && full.used <= 41
    ensures comp.Value() == TimesPow(old(comp.Value()), 10, Down(e)) > 0
    ensures comp.used <= 59 && (u > 0 ==> comp.used <= 42)
  {
    ghost var limbs := if u > 0 then 42 else 59;
    TensFit(full.Value(), comp.Value(), e, exp, u, limbs);
    hide Pow, Normal, Val, InRange, TimesPow;
    if e >= 0 {
      TimesTen(full, e, 41);
      UsedBelow(comp.Limbs(), limbs);
    } else {
      TimesTen(comp, -e, limbs);
      UsedBelow(full.Limbs(), 41);
    }
  }

  /** The binary exponent goes to whichever side it is positive for. */
  method ScaleTwos(full: BigNum, comp: BigNum, u: int)
    requires full != comp && full.bits != comp.bits && full.Valid() && comp.Valid()
    requires Normal(full.Limbs()) && Normal(comp.Limbs()) && full.Value() > 0 && comp.Value() > 0
    requires -1075 <= u <= 970 && full.used <= 41 && (u > 0 ==> comp.used <= 42)
    modifies full`used, full.bits, comp`used, comp.bits
    ensures full.Valid() && comp.Valid() && Normal(full.Limbs()) && Normal(comp.Limbs())
    ensures full.Value() == TimesPow(old(full.Value()), 2, Down(u))
    ensures comp.Value() == TimesPow(old(comp.Value()), 2, Up(u))
  {
    PowAtZero(2);
    hide Pow, Normal, Val;
    if u > 0 {
      comp.MulPow2(u);
    } else {
      full.MulPow2(-u);
    }
  }

  /**
    The end of the slow path: the sign of the decimal number against the upper boundary, exactly,
    within 64 limbs, for the whole number that bigint_set_buf makes of the digits.
   */
  method Compare(full: BigNum, comp: BigNum, sig: u64, exp: int, buf: seq<byte>, cut: Option<nat>, end: nat, dot: nat,
                 upper: u64, u: int)
    returns (cmp: int, ghost value: nat, ghost e: int)
    requires full != comp && full.bits != comp.bits && full.Valid() && comp.Valid()
    requires Readable(sig, buf, cut, end, dot) && sig > 0 && (cut.Some? ==> sig >= POW10[18])
    requires upper > 0 && InRange(exp, u)
    modifies full`used, full.bits, comp`used, comp.bits
    ensures Reads(value, e, sig, exp, buf, cut, end, dot)
    ensures cmp == Sign(value as real * Power(10, e), upper as real * Power(2, u))
  {
    hide Pow, Power, Normal, Val, Sign, IsSetBuf, Digits, Product, TimesPow;
    var exp' := SetBuf(full, sig, exp, buf, cut, end, dot);
    value, e := full.Value(), exp';
    ReadsBelow(value, e, sig, exp, buf, cut, end, dot);
    ReadsPositive(value, e, sig, exp, buf, cut, end, dot);
    comp.SetU64(upper);
    SingleLimb(upper);
    ScaleTens(full, comp, exp', exp, u);
    ScaleTwos(full, comp, u);
    cmp := full.Cmp(comp);
    CrossMultiplied(value, e, upper, u);
    ProductIs(value, Up(e), Down(u));
    ProductIs(upper, Down(e), Up(u));
    SignOfWhole(full.Value(), comp.Value());
  }

  lemma ProductIs(x: nat, m: nat, n: nat)
    ensures TimesPow(TimesPow(x, 10, m), 2, n) == Product(x, Pow(10, m), Pow(2, n))
  {
  }

  lemma SignOfWhole(x: nat, y: nat)
    ensures Sign(x as real, y as real) == if x < y then -1 else if x > y then 1 else 0
  {
  }
}
