/** The numbers around midway above the largest double: which digits leave the estimate open there. */
module LargestDouble {
  import opened Word64
  import opened BigInt
  import opened BigCompare
  import opened FastFloat
  import opened Doubles
  import opened DiyFloat
  import opened PowersOfTen
  import opened SmallestDouble
  import opened SlowPath
  import opened NumberText

  /** Twice midway above the largest double, and twice midway below it, in units of ten to the 290, rounded down. */
  const TWICEUPPER: nat := 3595386269724631615
  const TWICELOWER: nat := 3595386269724631216

  /** The table's entry for ten to the 290. */
  const ENTRY: nat := 11830521861667747109 * WORD + 13420301003685584469
  const ENTRYWORD: nat := 11830521861667747110

  const FIVES58: nat := 34694469519536141888238489627838134765625
  const TWOS109: nat := 0x2000_0000_0000_0000_0000_0000_0000
  const TWOS136: nat := 0x100_0000_0000_0000_0000_0000_0000_0000_0000

  lemma PowersThere()
    ensures Pow(5, 58) == FIVES58 && Pow(2, 109) == TWOS109 && Pow(2, 136) == TWOS136
  {
    assert Pow(5, 7) == 78125 && Pow(5, 2) == 25;
    Pow2Word();
    assert Pow(2, 9) == 512 && Pow(2, 8) == 256;
    hide Pow;
    PowAdd(5, 7, 7);
    PowAdd(5, 14, 14);
    PowAdd(5, 28, 28);
    PowAdd(5, 56, 2);
    PowAdd(2, 9, 9);
    PowAdd(2, 18, 18);
    PowAdd(2, 36, 9);
    PowAdd(2, 64, 45);
    PowAdd(2, 64, 64);
    PowAdd(2, 128, 8);
  }

  function Fifth(a: nat): nat {
    a * a * (a * a) * a
  }

  lemma FifthParts(b: nat, k: nat)
    ensures Pow(b, 5 * k) == Fifth(Pow(b, k))
  {
    hide Pow;
    PowAdd(b, k, k);
    PowAdd(b, 2 * k, 2 * k);
    PowAdd(b, 4 * k, k);
  }

  lemma LiteralsThere()
    ensures var five, two := Fifth(FIVES58), Fifth(TWOS109);
            && TWICEUPPER * five < (4 * HIDDEN - 1) * (TWOS136 * two) < (TWICEUPPER + 1) * five
            && TWICELOWER * five < (4 * HIDDEN - 3) * (TWOS136 * two)
            && ENTRY * (2 * two) <= five < (ENTRY + 1) * (2 * two)
  {
  }

  lemma WholePowersThere()
    ensures Pow(5, 290) == Fifth(FIVES58) && Pow(2, 545) == Fifth(TWOS109)
    ensures Pow(2, 681) == TWOS136 * Fifth(TWOS109) && Pow(2, 546) == 2 * Fifth(TWOS109)
  {
    PowersThere();
    hide Pow, Fifth;
    FifthParts(5, 58);
    FifthParts(2, 109);
    PowAdd(2, 136, 545);
    PowNext(2, 545);
  }

  /** Powers of two against ten to the 290, a common power of two taken out. */
  lemma PowersComparedThere()
    ensures TWICEUPPER * Pow(10, 290) < (4 * HIDDEN - 1) * Pow(2, 971) < (TWICEUPPER + 1) * Pow(10, 290)
    ensures TWICELOWER * Pow(10, 290) < (4 * HIDDEN - 3) * Pow(2, 971)
    ensures ENTRY * Pow(2, 836) <= Pow(10, 290) < (ENTRY + 1) * Pow(2, 836)
  {
    WholePowersThere();
    LiteralsThere();
    hide Pow, Fifth;
    var two, five := Pow(2, 290), Pow(5, 290);
    TensAreTwosFives(290);
    PowAdd(2, 290, 681);
    PowAdd(2, 290, 546);
    PowPositive(2, 290);
    BothTimes(TWICEUPPER, five, 4 * HIDDEN - 1, Pow(2, 681), two);
    BothTimes(4 * HIDDEN - 1, Pow(2, 681), TWICEUPPER + 1, five, two);
    BothTimes(TWICELOWER, five, 4 * HIDDEN - 3, Pow(2, 681), two);
    BothTimes(1, five, ENTRY + 1, Pow(2, 546), two);
    BothAtMost(ENTRY, Pow(2, 546), five, two);
  }

  lemma BothTimes(k: nat, a: nat, l: nat, b: nat, c: nat)
    requires c > 0 && k * a < l * b
    ensures k * (c * a) < l * (c * b)
  {
    assert k * (c * a) == c * (k * a) && l * (c * b) == c * (l * b);
    MulMono(k * a + 1, l * b, c);
  }

  lemma BothAtMost(k: nat, a: nat, b: nat, c: nat)
    requires k * a <= b
    ensures k * (c * a) <= c * b
  {
    assert k * (c * a) == c * (k * a);
    MulMono(k * a, b, c);
  }

  /** Midway above and below the largest double among the multiples of ten to the 290. */
  lemma AroundLargest()
    ensures var w := Power(10, 290);
            && Times(TWICEUPPER, w) < 2.0 * Half(INFINITY - 1) < Times(TWICEUPPER + 1, w)
            && Times(TWICELOWER, w) < 2.0 * Half(INFINITY - 2)
  {
    PowersComparedThere();
    LargestHalf();
    LowerHalf();
    assert Power(10, 290) == Pow(10, 290) as real && Power(2, 970) == Pow(2, 970) as real;
    PowNext(2, 970);
    hide Pow, Power, Half;
    TwiceReal(4 * HIDDEN - 1, Pow(2, 970));
    TwiceReal(4 * HIDDEN - 3, Pow(2, 970));
    RealTimes(TWICEUPPER, Pow(10, 290));
    RealTimes(TWICEUPPER + 1, Pow(10, 290));
    RealTimes(TWICELOWER, Pow(10, 290));
  }

  lemma LowerHalf()
    ensures Half(INFINITY - 2) == Times(4 * HIDDEN - 3, Power(2, 970))
  {
    assert Mantissa(INFINITY - 2) == 2 * HIDDEN - 2 && Exponent(INFINITY - 2) == 971;
    hide Power;
  }

  lemma TwiceReal(a: nat, b: nat)
    ensures 2.0 * Times(a, b as real) == (a * (2 * b)) as real
  {
    assert (a * (2 * b)) as real == a as real * (2 * b) as real;
  }

  lemma RealTimes(a: nat, b: nat)
    ensures Times(a, b as real) == (a * b) as real
  {
  }

  /** Digits of a number between the two midpoints. */
  lemma NearLargest(v: real, sig: nat, exp: int)
    requires Approximates(v, sig, exp, true) && POW10[18] <= sig <= 10 * POW10[18]
    requires Half(INFINITY - 2) < v < Half(INFINITY - 1)
    ensures exp == 290 && EDGE_ABOVE - 200 <= sig <= EDGE_ABOVE
  {
    AroundLargest();
    TwiceAtMost(v, sig, exp, true);
    PowerPositive(10, 290);
    PowerPositive(10, 289);
    Pow10Exact(18);
    TenToOne();
    hide Power, Approximates, Half, Pow;
    if exp < 290 {
      TenGrows(exp, 289 - exp);
      TimesGrows(2 * sig + 1, Power(10, exp), Power(10, 289));
      TenScale(TWICELOWER, 289, 1);
      hide Times;
      TimesLarger(10 * TWICELOWER, 2 * sig + 1, Power(10, 289));
    } else if exp > 290 {
      TenGrows(291, exp - 291);
      TimesGrows(2 * sig - 1, Power(10, 291), Power(10, exp));
      TenScale(2 * sig - 1, 290, 1);
      hide Times;
      TimesLarger((2 * sig - 1) * 10, TWICEUPPER + 1, Power(10, 290));
    } else {
      hide Times;
      TimesLarger(TWICELOWER, 2 * sig + 1, Power(10, 290));
      TimesLarger(2 * sig - 1, TWICEUPPER + 1, Power(10, 290));
    }
  }

  // ---------------------------------------------------------------------------------------
  // The estimate of such digits
  // ---------------------------------------------------------------------------------------

  /** There is one entry for ten to the 290. */
  lemma EntryIs(sig2: u64, ext: u64)
    requires Cached(290, sig2, ext)
    ensures sig2 * WORD + ext == ENTRY && sig2 == 11830521861667747109 && CachedSig(sig2, ext) == ENTRYWORD
  {
    EntryBounds(sig2, ext);
    OneEntry(sig2 * WORD + ext);
  }

  lemma OneEntry(t: nat)
    requires Times(t, Power(2, 836)) <= Power(10, 290) < Times(t + 1, Power(2, 836))
    ensures t == ENTRY
  {
    PowersComparedThere();
    PowPositive(2, 836);
    assert Power(10, 290) == Pow(10, 290) as real && Power(2, 836) == Pow(2, 836) as real;
    hide Pow, Power;
    RealTimes(ENTRY, Pow(2, 836));
    RealTimes(ENTRY + 1, Pow(2, 836));
    hide Times;
    TimesLarger(t, ENTRY + 1, Pow(2, 836) as real);
    TimesLarger(ENTRY, t + 1, Pow(2, 836) as real);
  }

  lemma EntryBounds(sig2: u64, ext: u64)
    requires TableEntry(290, sig2, ext)
    ensures var t := sig2 * WORD + ext;
            Times(t, Power(2, 836)) <= Power(10, 290) < Times(t + 1, Power(2, 836))
  {
    assert TableExp(290) == 900;
    hide Power;
  }

  /** The digits as a word, and their product with the entry, one bit short of a word. */
  lemma DigitsThere(sig: u64)
    requires EDGE_ABOVE - 200 <= sig <= EDGE_ABOVE
    ensures LeadingZeros(sig) == 3 && NormalWord(sig) == 8 * sig
  {
    assert Pow(2, 3) == 8;
    LeadingZerosAre(sig, 3);
    hide LeadingZeros;
  }

  /** Twice the product is this for the two, and no more than for the largest below. */
  lemma ProductThere(sig: u64)
    requires EDGE_ABOVE - 200 <= sig <= EDGE_ABOVE
    ensures var p := MulRounded(8 * sig, ENTRYWORD);
            && TOP <= 2 * p < WORD
            && (sig == EDGE_BELOW ==> 2 * p == 18446744073709550582)
            && (sig == EDGE_ABOVE ==> 2 * p == 18446744073709550594)
            && (sig < EDGE_BELOW ==> 2 * p <= 18446744073709550572)
  {
    MulRoundedNear(8 * sig, ENTRYWORD);
    var p := MulRounded(8 * sig, ENTRYWORD);
    hide MulRounded;
    ProductBetween(sig, p);
  }

  lemma ProductBetween(sig: nat, p: nat)
    requires EDGE_ABOVE - 200 <= sig <= EDGE_ABOVE
    requires 8 * sig * ENTRYWORD < p * WORD + TOP && p * WORD <= 8 * sig * ENTRYWORD + TOP
    ensures TOP <= 2 * p < WORD
    ensures sig == EDGE_BELOW ==> 2 * p == 18446744073709550582
    ensures sig == EDGE_ABOVE ==> 2 * p == 18446744073709550594
    ensures sig < EDGE_BELOW ==> 2 * p <= 18446744073709550572
  {
  }

  lemma RoundingThere(word: u64)
    requires TOP <= word
    ensures var bits := word % 2048 * 8; var up := bits >= 8274;
            WordRounding(word, 82, 960) == Outcome(ToRaw(if up then word / 2048 + 1 else word / 2048, 971), up || bits <= 8110)
  {
    SlowPath.Powers();
    hide Pow, ToRaw;
  }

  lemma LargestRaw()
    ensures Fits(2 * HIDDEN - 1, 971) && RawOf(2 * HIDDEN - 1, 971) == INFINITY - 1 && ToRaw(2 * HIDDEN - 1, 971) == INFINITY - 1
  {
    ToRawIs(2 * HIDDEN - 1, 971);
    hide ToRaw;
  }

  /** Words that leave the largest double open. */
  lemma OpenThere(word: u64)
    requires TOP <= word
    ensures word == 18446744073709550582 || word == 18446744073709550594 ==> WordRounding(word, 82, 960) == Unsure(INFINITY - 1)
    ensures word <= 18446744073709550572 ==> WordRounding(word, 82, 960) != Unsure(INFINITY - 1)
  {
    RoundingThere(word);
    LargestRaw();
    hide ToRaw, WordRounding;
    var top := word / 2048;
    if word <= 18446744073709550572 && word % 2048 * 8 < 8274 && top < 2 * HIDDEN - 1 {
      ToRawIs(top, 971);
      RawParts(top, 971);
      RawParts(2 * HIDDEN - 1, 971);
    }
  }

  /** The whole estimate of such digits, some digit cut behind them. */
  lemma EstimateThere(sig: u64, sig2: u64, ext: u64)
    requires EDGE_ABOVE - 200 <= sig <= EDGE_ABOVE && Cached(290, sig2, ext)
    ensures sig2 >= TOP && CachedSig(sig2, ext) < WORD
    ensures Estimation(sig, 290, true, sig2, ext) == WordRounding(2 * MulRounded(8 * sig, ENTRYWORD), 82, 960)
    ensures TOP <= 2 * MulRounded(8 * sig, ENTRYWORD) < WORD
  {
    EntryIs(sig2, ext);
    DigitsThere(sig);
    ProductThere(sig);
    assert TableExp(290) == 900;
    assert Pow(2, 3) == 8 && Pow(2, 1) == 2;
    var p := MulRounded(8 * sig, ENTRYWORD);
    hide MulRounded, WordRounding, TableExp;
    LeadingZerosAre(p, 1);
    assert ProductError(FirstError(true, 3)) == 41;
    hide LeadingZeros, ProductError, FirstError, Cached;
    assert NormalWord(p) == 2 * p;
    hide NormalWord;
  }

  /** Just these two leave it open, so that they alone can be taken for infinity when they are not. */
  lemma OpenAtLargest(v: real, sig: u64, exp: int, sig2: u64, ext: u64)
    requires Cached(exp, sig2, ext) && Approximates(v, sig, exp, true) && POW10[18] <= sig <= 10 * POW10[18]
    requires v < Half(INFINITY - 1)
    ensures sig2 >= TOP && CachedSig(sig2, ext) < WORD
    ensures Estimation(sig, exp, true, sig2, ext) == Unsure(INFINITY - 1) <==> exp == 290 && (sig == EDGE_BELOW || sig == EDGE_ABOVE)
  {
    EstimationSettles(v, sig, exp, true, sig2, ext);
    TableTop(exp, sig2, ext);
    hide Estimation, Cached, Approximates, Half, WordRounding, MulRounded;
    if Estimation(sig, exp, true, sig2, ext) == Unsure(INFINITY - 1) {
      NearLargest(v, sig, exp);
    }
    if exp == 290 && EDGE_ABOVE - 200 <= sig <= EDGE_ABOVE {
      EstimateThere(sig, sig2, ext);
      ProductThere(sig);
      OpenThere(2 * MulRounded(8 * sig, ENTRYWORD));
    }
  }
}
