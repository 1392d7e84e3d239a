/** The numbers around half the smallest double, below which a number rounds to zero: no estimate falls short of it. */
module SmallestDouble {
  import opened Word64
  import opened BigInt
  import opened BigCompare
  import opened FastFloat
  import opened Doubles
  import opened DiyFloat
  import opened PowersOfTen

  /** Half the smallest double is between this less a half, and this, times ten to the -342. */
  const NEAREST: nat := 2470328229206232721
  /** The word of the table for ten to the -342. */
  const TABLEWORD: nat := 17218479456385750618

  const FIVES: nat := 6938893903907228377647697925567626953125
  const TWOS: nat := 0x400_0000_0000_0000_0000_0000_0000_0000
  const MORETWOS: nat := 0x8000_0000_0000_0000_0000_0000_0000_0000_0000

  lemma SmallPowers()
    ensures Pow(5, 57) == FIVES && Pow(2, 122) == TWOS && Pow(2, 143) == MORETWOS
  {
    assert Pow(5, 7) == 78125 && Pow(5, 1) == 5;
    Pow2Word();
    assert Pow(2, 9) == 512 && Pow(2, 6) == 64;
    hide Pow;
    PowAdd(5, 7, 7);
    PowAdd(5, 14, 14);
    PowAdd(5, 28, 28);
    PowAdd(5, 56, 1);
    PowAdd(2, 64, 64);
    PowAdd(2, 128, 9);
    PowAdd(2, 137, 6);
    PowAdd(2, 122, 6);
  }

  function Sixth(a: nat): nat {
    a * a * a * (a * a * a)
  }

  lemma SixParts(b: nat, k: nat)
    ensures Pow(b, 6 * k) == Sixth(Pow(b, k))
  {
    hide Pow;
    PowAdd(b, k, k);
    PowAdd(b, 2 * k, k);
    PowAdd(b, 3 * k, 3 * k);
  }

  lemma Literals()
    ensures (2 * NEAREST - 1) * Sixth(TWOS) < Sixth(FIVES) < 2 * NEAREST * Sixth(TWOS)
    ensures TABLEWORD * Sixth(FIVES) < Sixth(MORETWOS)
  {
  }

  lemma WholePowers()
    ensures Pow(5, 342) == Sixth(FIVES) && Pow(2, 732) == Sixth(TWOS) && Pow(2, 858) == Sixth(MORETWOS)
  {
    SmallPowers();
    hide Pow, Sixth;
    SixParts(5, 57);
    SixParts(2, 122);
    SixParts(2, 143);
  }

  /** The powers of two and ten compared, a common power of two taken out. */
  lemma PowersCompared()
    ensures (2 * NEAREST - 1) * Pow(2, 1075) < 2 * Pow(10, 342) && Pow(10, 342) < NEAREST * Pow(2, 1075)
    ensures TABLEWORD * Pow(10, 342) < Pow(2, 1200)
  {
    WholePowers();
    Literals();
    hide Pow, Sixth;
    var two, five, twos := Pow(2, 342), Pow(5, 342), Pow(2, 732);
    TensAreTwosFives(342);
    PowAdd(2, 342, 733);
    PowAdd(2, 342, 858);
    PowNext(2, 732);
    PowPositive(2, 342);
    assert Pow(10, 342) == two * five && Pow(2, 1075) == two * (2 * twos) && Pow(2, 1200) == two * Pow(2, 858);
    CommonFactor(2 * NEAREST - 1, twos, five, two);
    CommonFactor(1, five, 2 * NEAREST * twos, two);
    CommonFactor(TABLEWORD, five, Pow(2, 858), two);
    Regrouped(2 * NEAREST - 1, two, twos);
    Regrouped(NEAREST, two, twos);
    Regrouped(2 * NEAREST, two, twos);
  }

  lemma CommonFactor(k: nat, a: nat, b: nat, c: nat)
    requires c > 0 && k * a < b
    ensures k * (c * a) < c * b
  {
    assert k * (c * a) == c * (k * a);
    MulMono(k * a + 1, b, c);
  }

  lemma Regrouped(k: nat, c: nat, a: nat)
    ensures k * (c * (2 * a)) == 2 * (k * (c * a)) && c * (k * a) == k * (c * a)
  {
  }

  lemma Crossed(a: nat, p: nat, b: nat, q: nat)
    requires p > 0 && q > 0 && a * q < b * p
    ensures Times(a, 1.0 / p as real) < Times(b, 1.0 / q as real)
  {
    var u, w := 1.0 / p as real, 1.0 / q as real;
    Unit(p);
    Unit(q);
    hide Times;
    UnitTimes(a, q, u, w);
    UnitTimes(b, p, w, u);
    PositiveProduct(u, w);
    TimesMono(a * q, b * p, u * w);
  }

  lemma Unit(p: nat)
    requires p > 0
    ensures 1.0 / p as real > 0.0 && Times(p, 1.0 / p as real) == 1.0
  {
  }

  lemma UnitTimes(a: nat, q: nat, u: real, w: real)
    requires Times(q, w) == 1.0
    ensures Times(a * q, u * w) == Times(a, u) && Times(a * q, w * u) == Times(a, u)
  {
    assert (a * q) as real == a as real * q as real;
    assert a as real * q as real * (u * w) == a as real * u * (q as real * w);
  }

  /** Half the smallest double among the multiples of ten to the -342. */
  lemma AroundSmallest()
    ensures Times(2 * NEAREST - 1, Power(10, -342)) < Times(2, Power(2, -1075))
    ensures Power(2, -1075) < Times(NEAREST, Power(10, -342))
  {
    PowersCompared();
    PowPositive(10, 342);
    PowPositive(2, 1075);
    assert Power(10, -342) == 1.0 / Pow(10, 342) as real && Power(2, -1075) == 1.0 / Pow(2, 1075) as real;
    hide Pow, Power;
    Crossed(2 * NEAREST - 1, Pow(10, 342), 2, Pow(2, 1075));
    Crossed(1, Pow(2, 1075), NEAREST, Pow(10, 342));
    Once(1.0 / Pow(2, 1075) as real);
  }

  lemma Once(w: real)
    ensures Times(1, w) == w
  {
  }

  /** Digits and exponent of a number from half the smallest double on. */
  lemma ReachesSmallest(v: real, sig: nat, exp: int, cut: bool)
    requires Power(2, -1075) <= v && Approximates(v, sig, exp, cut) && sig <= WORD && (cut ==> sig >= POW10[18])
    ensures exp >= -342 && (exp == -342 ==> sig >= NEAREST)
    ensures exp > -342 ==> Times(NEAREST + 9, Power(10, -342)) <= v
  {
    AroundSmallest();
    TwiceAtMost(v, sig, exp, cut);
    TwiceTimes(Power(2, -1075));
    PowerPositive(10, -342);
    PowerPositive(10, -343);
    hide Power, Approximates;
    if exp < -342 {
      TenGrows(exp, -343 - exp);
      TimesGrows(2 * sig + 1, Power(10, exp), Power(10, -343));
      TenScale(2 * NEAREST - 1, -343, 1);
      TenToOne();
      hide Times, Pow;
      TimesLarger(10 * (2 * NEAREST - 1), 2 * sig + 1, Power(10, -343));
    } else if exp == -342 {
      hide Times;
      TimesLarger(2 * NEAREST - 1, 2 * sig + 1, Power(10, -342));
    } else {
      WellAbove(v, sig, exp, cut);
    }
  }

  lemma TenToOne()
    ensures Pow(10, 1) == 10
  {
  }

  lemma TwiceTimes(w: real)
    ensures Times(2, w) == 2.0 * w
  {
  }

  lemma TwiceAtMost(v: real, sig: nat, exp: int, cut: bool)
    requires Approximates(v, sig, exp, cut)
    ensures 2.0 * v <= Times(2 * sig + 1, Power(10, exp))
    ensures cut ==> Times(2 * sig - 1, Power(10, exp)) <= 2.0 * v
  {
    PowerPositive(10, exp);
    hide Power;
    TimesDouble(sig, Power(10, exp));
    TimesMono(2 * sig, 2 * sig + 1, Power(10, exp));
  }

  lemma TimesGrows(k: nat, u: real, w: real)
    requires u <= w
    ensures Times(k, u) <= Times(k, w)
  {
  }

  lemma TimesLarger(a: int, b: int, w: real)
    requires w > 0.0 && Times(a, w) < Times(b, w)
    ensures a < b
  {
    if a >= b {
      TimesMono(b, a, w);
    }
  }

  lemma WellAbove(v: real, sig: nat, exp: int, cut: bool)
    requires Power(2, -1075) <= v && Approximates(v, sig, exp, cut) && (cut ==> sig >= POW10[18]) && exp > -342
    ensures Times(NEAREST + 9, Power(10, -342)) <= v
  {
    AroundSmallest();
    TwiceAtMost(v, sig, exp, cut);
    TwiceTimes(Power(2, -1075));
    var k := exp + 342;
    var w := Power(10, -342);
    PowerPositive(10, -342);
    PowNext(10, k - 1);
    PowPositive(10, k - 1);
    hide Power, Pow;
    TimesDouble(NEAREST + 9, w);
    if cut {
      TenScale(2 * sig - 1, -342, k);
      MulMono(1, Pow(10, k - 1), 10 * (2 * sig - 1));
      Pow10Exact(18);
      hide Times;
      TimesMono(2 * (NEAREST + 9), (2 * sig - 1) * Pow(10, k), w);
    } else {
      TenScale(sig, -342, k);
      var m := sig * Pow(10, k - 1);
      assert sig * Pow(10, k) == 10 * m;
      TimesDouble(10 * m, w);
      hide Times;
      TimesLarger(2 * NEAREST - 1, 20 * m, w);
      TimesMono(NEAREST + 9, 10 * m, w);
    }
  }

  /** Ten to the -342 as a multiple of a power of two. */
  lemma WordBelowTen()
    ensures Times(TABLEWORD * WORD, Power(2, -1264)) < Power(10, -342)
  {
    PowersCompared();
    PowPositive(10, 342);
    PowPositive(2, 1200);
    assert Power(10, -342) == 1.0 / Pow(10, 342) as real && Power(2, -1200) == 1.0 / Pow(2, 1200) as real;
    hide Power, Pow;
    Crossed(TABLEWORD, Pow(2, 1200), 1, Pow(10, 342));
    Once(Power(10, -342));
    TimesScale(TABLEWORD, -1264, 64);
    Pow2Word();
  }

  lemma EntryAbove(sig2: u64, ext: u64)
    requires TableEntry(-342, sig2, ext)
    ensures Power(10, -342) < Times(sig2 * WORD + ext + 1, Power(2, -1264))
  {
    assert TableExp(-342) == -1200;
    hide Power;
  }

  /** The table's word for ten to the -342 is no smaller. */
  lemma WordThere(sig2: u64, ext: u64)
    requires Cached(-342, sig2, ext)
    ensures CachedSig(sig2, ext) >= TABLEWORD
  {
    WordBelowTen();
    EntryAbove(sig2, ext);
    CachedNear(sig2, ext);
    PowerPositive(2, -1264);
    hide Times, CachedSig, Power, Cached;
    TimesLarger(TABLEWORD * WORD, sig2 * WORD + ext + 1, Power(2, -1264));
  }

  /** The product with the digits keeps its top bit. */
  lemma ProductReaches(f: u64, c: u64)
    requires f >= 4 * NEAREST && c >= TABLEWORD
    ensures MulRounded(f, c) >= TOP
  {
    MulRoundedNear(f, c);
    hide MulRounded;
    MulMono(4 * NEAREST, f, c);
    assert c * (4 * NEAREST) >= TABLEWORD * (4 * NEAREST);
  }

  /** Numbers below the smallest double's place by their word are so by their value, up to a small error. */
  lemma WordBelow(v: real, word: u64, err: nat, x: int)
    requires Within(v, word, err, x) && err <= 150 && 64 + x < -1074
    ensures v < Times(NEAREST + 9, Power(10, -342))
  {
    AroundSmallest();
    SmallestScaled();
    var y := Power(2, -1142);
    PowerGrows(x - 3, -1142 - (x - 3));
    PowerPositive(2, -1142);
    PowerPositive(2, x - 3);
    hide Power;
    TimesMono(8 * word + err, 8 * WORD + 150, Power(2, x - 3));
    TimesGrows(8 * WORD + 150, Power(2, x - 3), y);
    FarBelow(Power(10, -342), y);
    hide Times;
  }

  lemma SmallestScaled()
    ensures Power(2, -1075) == Times(8 * WORD, Power(2, -1142))
  {
    TimesScale(1, -1142, 67);
    Once(Power(2, -1075));
    Pow2Word();
    PowAdd(2, 64, 3);
    assert Pow(2, 3) == 8;
    hide Power, Pow;
  }

  lemma FarBelow(w: real, y: real)
    requires y > 0.0 && Times(8 * WORD, y) < Times(NEAREST, w)
    ensures Times(8 * WORD + 150, y) < Times(NEAREST + 9, w)
  {
  }
}
