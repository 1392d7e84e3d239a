/** What a number's text is worth, which numbers the reader refuses, and what it makes of the others. */
module NumberValue {
  import opened Bytes
  import opened Word64
  import opened Integers
  import opened IntegerReader
  import opened BigInt
  import DecimalBuf
  import BigCompare
  import opened FastFloat
  import opened Doubles
  import opened DiyFloat
  import opened SlowPath
  import opened PowersOfTen
  import opened ExactStep
  import opened LargestDouble
  import opened NumberText
  import opened RealReader

  /** The exponent of a text shorter than this cannot make up for one of nineteen digits. */
  const LONGEST: nat := 999999999999999000

  ghost function Worth(s: seq<byte>, n: Parts): real
    requires Whole(s, n)
  {
    Times(DecimalBuf.Decimal(s, FirstDigit(s, n.q, n.f), n.f, n.e), BigCompare.Power(10, ScaleAt(n.f, n.e) + Literal(s, n)))
  }

  /** The first digits are large. */
  lemma {:induction false} DecimalAtLeast(s: seq<byte>, p: nat, c: nat, dot: nat)
    requires p < c && p != dot && DecimalBuf.Digits(s, p, c, dot) && s[p] != ZERO
    ensures DecimalBuf.Count(p, c, dot) > 0
    ensures DecimalBuf.Decimal(s, p, c, dot) >= Pow(10, DecimalBuf.Count(p, c, dot) - 1)
    decreases c
  {
    if c == p + 1 {
      assert DecimalBuf.Decimal(s, p, p, dot) == 0;
    } else {
      DecimalAtLeast(s, p, c - 1, dot);
    }
  }

  lemma FirstDigitFound(s: seq<byte>, n: Parts)
    requires Whole(s, n) && FirstDigit(s, n.q, n.f) < n.f
    ensures var p := FirstDigit(s, n.q, n.f); p != n.e && p < |s| && IsDigit(s[p]) && s[p] != ZERO
    ensures var p := FirstDigit(s, n.q, n.f); DecimalBuf.Digits(s, p, n.f, n.e)
  {
  }

  lemma CountAndScale(p: nat, c: nat, f: nat, e: nat)
    requires p < c <= f && p != e && c != e
    ensures DecimalBuf.Count(p, f, e) == DecimalBuf.Count(p, c, e) + DecimalBuf.Count(c, f, e)
    ensures ScaleAt(c, e) == ScaleAt(f, e) + DecimalBuf.Count(c, f, e)
  {
  }

  lemma CutCount(p: nat, e: nat)
    requires p != e
    ensures DecimalBuf.Count(p, CutAt(p, e), e) == 19 && CutAt(p, e) != e
  {
  }

  /** The digits before and behind the cut together. */
  lemma SplitWorth(s: seq<byte>, n: Parts)
    requires Whole(s, n)
    requires var p := FirstDigit(s, n.q, n.f); p < n.f && CutAt(p, n.e) < n.f
    ensures var p := FirstDigit(s, n.q, n.f);
            var c := CutAt(p, n.e);
            var k := DecimalBuf.Count(c, n.f, n.e);
            && DecimalBuf.Digits(s, p, c, n.e) && DecimalBuf.Digits(s, c, n.f, n.e)
            && DecimalBuf.Decimal(s, p, c, n.e) >= POW10[18]
            && Worth(s, n) == Times(DecimalBuf.Spelled(DecimalBuf.Decimal(s, p, c, n.e), k, DecimalBuf.Decimal(s, c, n.f, n.e)),
                                    BigCompare.Power(10, DecimalExponent(s, n) - k))
  {
    var p := FirstDigit(s, n.q, n.f);
    var c := CutAt(p, n.e);
    FirstDigitFound(s, n);
    CutCount(p, n.e);
    CountAndScale(p, c, n.f, n.e);
    DecimalAtLeast(s, p, c, n.e);
    Pow10Exact(18);
    DecimalBuf.DecimalSplit(s, p, c, n.f, n.e);
    hide DecimalBuf.Decimal, Pow, BigCompare.Power, Whole, Literal;
  }

  lemma {:induction false} ZerosSpellNothing(s: seq<byte>, lo: nat, hi: nat, dot: nat)
    requires lo <= hi && DecimalBuf.Digits(s, lo, hi, dot) && AllZeros(s, lo, hi)
    ensures DecimalBuf.Decimal(s, lo, hi, dot) == 0
    decreases hi
  {
    if lo < hi {
      ZerosSpellNothing(s, lo, hi - 1, dot);
      assert At(s, hi - 1) == ZERO || At(s, hi - 1) == DOT;
    }
  }

  /** The scan hands over digits that are worth what the text is. */
  lemma ScanIsWorth(s: seq<byte>, n: Parts, r: Scanned)
    requires Whole(s, n) && ScansAs(s, n, r) && r.Significant?
    ensures BigCompare.Readable(r.sig, s, r.cut, r.end, r.dot) && r.sig > 0
    ensures r.cut.Some? ==> r.sig - DecimalBuf.RoundedUp(s[r.cut.value]) >= POW10[18]
    ensures DecimalValue(r.sig, r.exp, s, r.cut, r.end, r.dot) == Worth(s, n)
  {
    var p := FirstDigit(s, n.q, n.f);
    var c := CutAt(p, n.e);
    FirstDigitFound(s, n);
    if c < n.f {
      SplitWorth(s, n);
      CutCount(p, n.e);
      assert n.e + 1 != n.f;
      hide DecimalBuf.Decimal, Pow, BigCompare.Power, Whole, Literal;
      if r.cut.None? {
        var k := DecimalBuf.Count(c, n.f, n.e);
        ZerosSpellNothing(s, c, n.f, n.e);
        assert At(s, c) == s[c] == ZERO;
        TenScale(r.sig, r.exp - k, k);
      }
    } else {
      DecimalAtLeast(s, p, n.f, n.e);
      PowPositive(10, DecimalBuf.Count(p, n.f, n.e) - 1);
      hide DecimalBuf.Decimal, Pow, BigCompare.Power, Whole, Literal;
    }
  }

  // ---------------------------------------------------------------------------------------
  // Very small and very large
  // ---------------------------------------------------------------------------------------

  /** The value between powers of ten around its first nineteen digits. */
  lemma WorthBetween(s: seq<byte>, n: Parts)
    requires Whole(s, n) && FirstDigit(s, n.q, n.f) < n.f
    ensures BigCompare.Power(10, DecimalExponent(s, n)) <= Worth(s, n) < BigCompare.Power(10, DecimalExponent(s, n) + 19)
  {
    var p := FirstDigit(s, n.q, n.f);
    var c := Least(CutAt(p, n.e), n.f);
    FirstDigitFound(s, n);
    CutCount(p, n.e);
    var k := DecimalBuf.Count(p, n.f, n.e);
    DecimalAtLeast(s, p, n.f, n.e);
    DecimalBuf.DecimalBelow(s, p, n.f, n.e);
    var x := ScaleAt(n.f, n.e) + Literal(s, n);
    var d := DecimalBuf.Decimal(s, p, n.f, n.e);
    var exp := DecimalExponent(s, n);
    assert exp <= k - 1 + x && k + x <= exp + 19 by { ExponentAround(p, c, n); }
    hide DecimalBuf.Decimal, Pow, BigCompare.Power, Whole, Literal, DecimalBuf.Count;
    DigitsBetween(d, k, x, exp);
  }

  lemma DigitsBetween(d: nat, k: nat, x: int, exp: int)
    requires k > 0 && Pow(10, k - 1) <= d < Pow(10, k) && exp <= k - 1 + x && k + x <= exp + 19
    ensures BigCompare.Power(10, exp) <= Times(d, BigCompare.Power(10, x)) < BigCompare.Power(10, exp + 19)
  {
    hide Pow, BigCompare.Power;
    TenScale(1, x, k - 1);
    TenScale(1, x, k);
    PowerPositive(10, x);
    TimesMono(Pow(10, k - 1), d, BigCompare.Power(10, x));
    TimesMono(d, Pow(10, k), BigCompare.Power(10, x));
    TenGrows(exp, k - 1 + x - exp);
    TenGrows(k + x, exp + 19 - k - x);
    OneOf(BigCompare.Power(10, x + (k - 1)));
    OneOf(BigCompare.Power(10, x + k));
  }

  lemma OneOf(w: real)
    ensures Times(1, w) == w
  {
  }

  lemma ExponentAround(p: nat, c: nat, n: Parts)
    requires p < n.f && p != n.e && n.e <= n.f && c == Least(CutAt(p, n.e), n.f)
    ensures var k := DecimalBuf.Count(p, n.f, n.e);
            k > 0 && ScaleAt(c, n.e) <= k - 1 + ScaleAt(n.f, n.e) && k + ScaleAt(n.f, n.e) <= ScaleAt(c, n.e) + 19
  {
  }

  lemma FiveTo13()
    ensures Pow(5, 13) == 1220703125 && Pow(2, 30) == 1073741824
  {
    assert Pow(5, 6) == 15625;
    PowAdd(5, 6, 6);
    PowAdd(5, 12, 1);
    assert Pow(5, 1) == 5;
    assert Pow(2, 10) == 1024;
    PowAdd(2, 10, 10);
    PowAdd(2, 20, 10);
  }

  lemma {:induction false} PowersOrdered(a: nat, m: nat, b: nat, n: nat, k: nat)
    requires Pow(a, m) <= Pow(b, n)
    ensures Pow(a, m * k) <= Pow(b, n * k)
  {
    if k > 0 {
      PowersOrdered(a, m, b, n, k - 1);
      PowAdd(a, m * (k - 1), m);
      PowAdd(b, n * (k - 1), n);
      assert m * (k - 1) + m == m * k && n * (k - 1) + n == n * k;
      hide Pow;
      ProductMono(Pow(a, m * (k - 1)), Pow(b, n * (k - 1)), Pow(a, m), Pow(b, n));
    }
  }

  /** The smallest half double is above ten to the -325. */
  lemma TenTo325()
    ensures Pow(2, 1075) <= Pow(10, 325)
  {
    hide Pow;
    FiveTo13();
    PowersOrdered(2, 30, 5, 13, 25);
    TensAreTwosFives(325);
    PowAdd(2, 750, 325);
    ProductMono(Pow(2, 750), Pow(5, 325), Pow(2, 325), Pow(2, 325));
  }

  lemma TwoTo93()
    ensures Pow(2, 93) <= Pow(10, 28)
  {
    Pow2Word();
    assert Pow(2, 9) == 512 && Pow(10, 9) == 1000000000;
    FiveTo13();
    PowAdd(2, 64, 29);
    PowNext(2, 29);
    Pow10Exact(19);
    PowAdd(10, 19, 9);
  }

  /** Ten to the 309 is above all doubles. */
  lemma TenTo309()
    ensures Pow(2, 1024) <= Pow(10, 309)
  {
    TwoTo93();
    PowersOrdered(2, 93, 10, 28, 11);
    PowNext(2, 1023);
    PowNext(10, 308);
    hide Pow;
  }

  lemma SmallRounds(v: real, k: int)
    requires 0.0 <= v < BigCompare.Power(10, k) && k <= -325
    ensures RoundsStrictly(0, v) && v < Half(INFINITY - 1)
  {
    TenTo325();
    PowPositive(2, 1075);
    Inverses(Pow(2, 1075), Pow(10, 325));
    assert BigCompare.Power(10, -325) == 1.0 / Pow(10, 325) as real;
    assert BigCompare.Power(2, -1075) == 1.0 / Pow(2, 1075) as real;
    TenGrows(k, -325 - k);
    SmallestHalf();
    Increasing(0, INFINITY - 1);
    hide BigCompare.Power, Pow, Half;
  }

  lemma LargeRounds(v: real, k: int)
    requires BigCompare.Power(10, k) <= v && k >= 309
    ensures RoundsTo(INFINITY, v) && Half(INFINITY - 1) < v
  {
    TenTo309();
    assert BigCompare.Power(10, 309) == Pow(10, 309) as real && BigCompare.Power(2, 1024) == Pow(2, 1024) as real;
    TenGrows(309, k - 309);
    LargestHalf();
    RoundsToInfinity(v);
    SlowPath.Powers();
    TimesScale(1, 970, 54);
    PowAdd(2, 52, 2);
    assert Pow(2, 2) == 4;
    TimesLessThan(4 * HIDDEN - 1, 4 * HIDDEN, 970);
    OneOf(BigCompare.Power(2, 1024));
    hide BigCompare.Power, Pow, Half, RoundsTo;
  }

  lemma {:induction false} ZerosSkipped(s: seq<byte>, g: nat, x: nat)
    requires g <= x
    ensures var k := SkipZeros(s, g, x); k < x ==> At(s, k) != ZERO
    decreases x - g
  {
    if g < x && At(s, g) == ZERO {
      ZerosSkipped(s, g + 1, x);
    }
  }

  /** An exponent of nineteen digits is larger than any text is long. */
  lemma LongLiteral(s: seq<byte>, n: Parts)
    requires Whole(s, n) && LiteralLength(s, n) >= DecimalBuf.SAFE_DIGITS
    ensures if At(s, n.f + 1) == MINUS then Literal(s, n) <= -1000000000000000000 else Literal(s, n) >= 1000000000000000000
  {
    var g := ExponentStart(s, n.f);
    var k := SkipZeros(s, g, n.x);
    ZerosSkipped(s, g, n.x);
    SpelledAtLeast(s, k, n.x);
    TenToIsPow(n.x - k - 1);
    PowMono(10, 18, n.x - k - 1);
    Pow10Exact(18);
  }

  lemma ScaleBounded(s: seq<byte>, n: Parts)
    requires Whole(s, n) && FirstDigit(s, n.q, n.f) < n.f
    ensures var c := Least(CutAt(FirstDigit(s, n.q, n.f), n.e), n.f);
            -|s| <= ScaleAt(c, n.e) <= |s|
  {
  }

  lemma WorthNothing(s: seq<byte>, n: Parts)
    requires Whole(s, n) && FirstDigit(s, n.q, n.f) == n.f
    ensures Worth(s, n) == 0.0
  {
  }

  lemma NothingRounds()
    ensures RoundsStrictly(0, 0.0) && 0.0 < Half(INFINITY - 1)
  {
    HalfIsMidway(0);
    assert ValueOf(0) == 0.0;
    Increasing(0, INFINITY - 1);
    hide Half;
  }

  /** Taken for zero by its digits or its exponent alone. */
  ghost predicate OutBelow(s: seq<byte>, n: Parts)
    requires Whole(s, n)
  {
    || FirstDigit(s, n.q, n.f) == n.f
    || if LiteralLength(s, n) >= DecimalBuf.SAFE_DIGITS then At(s, n.f + 1) == MINUS
       else DecimalExponent(s, n) < MIN_DECIMAL_EXP - 19
  }

  /** Taken for infinity by its exponent alone. */
  ghost predicate OutAbove(s: seq<byte>, n: Parts)
    requires Whole(s, n)
  {
    && FirstDigit(s, n.q, n.f) < n.f
    && if LiteralLength(s, n) >= DecimalBuf.SAFE_DIGITS then At(s, n.f + 1) != MINUS
       else DecimalExponent(s, n) > MAX_DECIMAL_EXP
  }

  /** What the scan calls zero rounds to zero. */
  lemma ZeroWorth(s: seq<byte>, n: Parts)
    requires Whole(s, n) && OutBelow(s, n) && |s| <= LONGEST
    ensures RoundsStrictly(0, Worth(s, n)) && Worth(s, n) < Half(INFINITY - 1) && !TooLarge(s, n)
  {
    if FirstDigit(s, n.q, n.f) == n.f {
      WorthNothing(s, n);
      NothingRounds();
    } else {
      if LiteralLength(s, n) >= DecimalBuf.SAFE_DIGITS {
        LongLiteral(s, n);
        ScaleBounded(s, n);
      }
      WorthBetween(s, n);
      PowerPositive(10, DecimalExponent(s, n));
      hide Literal, LiteralLength, Worth, Half, BigCompare.Power, Whole, BeyondDoubles;
      SmallRounds(Worth(s, n), DecimalExponent(s, n) + 19);
    }
  }

  /** What the scan refuses is beyond all doubles. */
  lemma HugeWorth(s: seq<byte>, n: Parts)
    requires Whole(s, n) && OutAbove(s, n) && |s| <= LONGEST
    ensures RoundsTo(INFINITY, Worth(s, n)) && Half(INFINITY - 1) < Worth(s, n) && TooLarge(s, n)
  {
    if LiteralLength(s, n) >= DecimalBuf.SAFE_DIGITS {
      LongLiteral(s, n);
      ScaleBounded(s, n);
    }
    WorthBetween(s, n);
    hide Literal, LiteralLength, Worth, Half, BigCompare.Power, Whole, BeyondDoubles;
    LargeRounds(Worth(s, n), DecimalExponent(s, n));
  }

  lemma LimitIsHalf()
    ensures Half(INFINITY - 1) == LIMIT as real
  {
    LargestHalf();
    assert BigCompare.Power(2, 970) == Pow(2, 970) as real;
    assert 4 * HIDDEN - 1 == 0x40_0000_0000_0000 - 1;
    LimitReal(4 * HIDDEN - 1, Pow(2, 970));
    hide Half, BigCompare.Power, Pow;
  }

  lemma LimitReal(a: nat, b: nat)
    ensures Times(a, b as real) == (a * b) as real
  {
  }

  /** The whole-number test for numbers beyond the doubles. */
  lemma BeyondIsBeyond(d: nat, k: int)
    ensures BeyondDoubles(d, k) <==> Times(d, BigCompare.Power(10, k)) >= Half(INFINITY - 1)
  {
    LimitIsHalf();
    if k >= 0 {
      assert BigCompare.Power(10, k) == Pow(10, k) as real;
      LimitReal(d, Pow(10, k));
    } else {
      PowPositive(10, -k);
      assert BigCompare.Power(10, k) == 1.0 / Pow(10, -k) as real;
      hide Pow, Half;
      Quotient(d, Pow(10, -k), LIMIT);
    }
  }

  lemma Quotient(d: nat, p: nat, l: nat)
    requires p > 0
    ensures d >= l * p <==> d as real * (1.0 / p as real) >= l as real
  {
    var w := 1.0 / p as real;
    assert w * p as real == 1.0 && w > 0.0;
    LimitReal(l, p as int);
    if d >= l * p {
      TimesMono(l * p, d, w);
    } else {
      TimesMono(d, l * p, w);
    }
    assert (l * p) as real * w == l as real;
  }

  /** The reader's exponent tests and the whole-number test together say which numbers round to infinity. */
  lemma InfiniteExactly(s: seq<byte>, i: nat)
    requires NumberEnd(s, i).Some? && |s| <= LONGEST
    ensures Infinite(s, i) <==> RoundsTo(INFINITY, Worth(s, PartsAt(s, i)))
  {
    var n := PartsAt(s, i);
    RoundsToInfinity(Worth(s, n));
    if OutBelow(s, n) {
      ZeroWorth(s, n);
    } else if OutAbove(s, n) {
      HugeWorth(s, n);
    } else {
      InfiniteInside(s, i);
    }
    hide Half, RoundsTo, NumberEnd, BigCompare.Power, DecimalBuf.Decimal, BeyondDoubles, Whole;
  }

  lemma InfiniteInside(s: seq<byte>, i: nat)
    requires NumberEnd(s, i).Some? && !OutBelow(s, PartsAt(s, i)) && !OutAbove(s, PartsAt(s, i))
    ensures Infinite(s, i) <==> Half(INFINITY - 1) <= Worth(s, PartsAt(s, i))
  {
    var n := PartsAt(s, i);
    FirstDigitFound(s, n);
    BeyondIsBeyond(DecimalBuf.Decimal(s, FirstDigit(s, n.q, n.f), n.f, n.e), ScaleAt(n.f, n.e) + Literal(s, n));
    hide Half, NumberEnd, BigCompare.Power, DecimalBuf.Decimal, BeyondDoubles, Whole;
  }

  /** What the reader refuses: the numbers that round to infinity, and those at the edge with their point dropped. */
  lemma RefusedExactly(s: seq<byte>, i: nat)
    requires NumberEnd(s, i).Some? && |s| <= LONGEST
    ensures Refused(s, i) <==> RoundsTo(INFINITY, Worth(s, PartsAt(s, i))) || AtTheEdge(s, PartsAt(s, i))
  {
    InfiniteExactly(s, i);
    hide RoundsTo, NumberEnd, TooLarge, AtTheEdge, Worth;
  }

  // ---------------------------------------------------------------------------------------
  // The point among the dropped digits
  // ---------------------------------------------------------------------------------------

  /** The point is dropped, and the number neither zero nor infinity by its exponent alone. */
  ghost predicate Misscaled(s: seq<byte>, n: Parts)
    requires Whole(s, n)
  {
    PointDropped(s, n) && !OutBelow(s, n) && !OutAbove(s, n)
  }

  lemma ScanDecides(s: seq<byte>, n: Parts, r: Scanned)
    requires Whole(s, n) && ScansAs(s, n, r)
    ensures r.Significant? <==> !OutBelow(s, n) && !OutAbove(s, n)
  {
  }

  lemma CutIsMany(s: seq<byte>, n: Parts, r: Scanned)
    requires Whole(s, n) && ScansAs(s, n, r) && r.Significant?
    requires r.cut.Some? ==> r.cut.value < r.end
    ensures TooLong(r.cut, r.end, r.dot) <==> ManyDigits(s, n)
    ensures (TooLong(r.cut, r.end, r.dot) && DecimalBuf.PointBeyond(r.cut.value, r.end, r.dot)) <==> PointDropped(s, n)
  {
  }

  /** Digits that are cut are those of a number of nineteen digits and more. */
  lemma DroppedReadable(s: seq<byte>, n: Parts)
    requires Whole(s, n) && PointDropped(s, n)
    ensures var c := CutAt(FirstDigit(s, n.q, n.f), n.e);
            && POW10[18] + DecimalBuf.RoundedUp(s[c]) <= RoundedWord(s, n) <= 10 * POW10[18] && 10 * POW10[18] < WORD
            && BigCompare.Readable(RoundedWord(s, n), s, Some(c), n.f, n.e) && TooLong(Some(c), n.f, n.e)
            && DecimalValue(RoundedWord(s, n), DecimalExponent(s, n), s, Some(c), n.f, n.e) == Worth(s, n)
  {
    var p := FirstDigit(s, n.q, n.f);
    var c := CutAt(p, n.e);
    FirstDigitFound(s, n);
    SplitWorth(s, n);
    CutCount(p, n.e);
    DecimalBuf.DecimalBelow(s, p, c, n.e);
    Pow10Exact(18);
    Pow10Exact(19);
    assert n.e + 1 != n.f;
    assert Pow(10, 19) == 10 * Pow(10, 18);
    hide DecimalBuf.Decimal, Pow, BigCompare.Power, Whole, Literal;
  }

  /** The real number that is compared in its place: the digits that are kept, one place too high. */
  ghost function KeptAt(s: seq<byte>, n: Parts): real
    requires Whole(s, n) && PointDropped(s, n)
  {
    DroppedReadable(s, n);
    Kept(RoundedWord(s, n), DecimalExponent(s, n), s, CutAt(FirstDigit(s, n.q, n.f), n.e), n.f, n.e)
  }

  /** What is estimated from its first nineteen digits and its exponent. */
  ghost predicate EstimatedAs(s: seq<byte>, n: Parts, e: Estimated)
    requires Whole(s, n) && PointDropped(s, n)
  {
    DroppedReadable(s, n);
    exists sig2: u64, ext: u64 ::
      Cached(DecimalExponent(s, n), sig2, ext) && e == Estimation(RoundedWord(s, n), DecimalExponent(s, n), true, sig2, ext)
  }

  /** What is read then: what the estimate settles, or what that other number decides. */
  ghost predicate ReadMisscaled(s: seq<byte>, i: nat, r: Option<nat>)
    requires NumberEnd(s, i).Some? && PointDropped(s, PartsAt(s, i))
  {
    var n := PartsAt(s, i);
    exists e: Estimated, raw: nat {:trigger EstimatedAs(s, n, e), Coded(raw)} ::
      EstimatedAs(s, n, e) && r == Coded(raw) && TakenBy(raw, e, KeptAt(s, n), Worth(s, n))
  }

  /** The table has one entry for each power of ten. */
  lemma CachedOnce(exp: int, a: u64, b: u64, c: u64, d: u64)
    requires Cached(exp, a, b) && Cached(exp, c, d)
    ensures a == c && b == d
  {
    var w := BigCompare.Power(2, TableExp(exp) - 64);
    PowerPositive(2, TableExp(exp) - 64);
    EntryBetween(exp, a, b);
    EntryBetween(exp, c, d);
    hide BigCompare.Power, Cached, Times, TableExp;
    SmallestDouble.TimesLarger(a * WORD + b, c * WORD + d + 1, w);
    SmallestDouble.TimesLarger(c * WORD + d, a * WORD + b + 1, w);
  }

  lemma EntryBetween(exp: int, a: u64, b: u64)
    requires Cached(exp, a, b)
    ensures var w := BigCompare.Power(2, TableExp(exp) - 64);
            Times(a * WORD + b, w) <= BigCompare.Power(10, exp) < Times(a * WORD + b + 1, w)
  {
    hide BigCompare.Power, TableExp;
  }

  lemma EstimatedOnce(s: seq<byte>, n: Parts, e: Estimated, f: Estimated)
    requires Whole(s, n) && PointDropped(s, n) && EstimatedAs(s, n, e) && EstimatedAs(s, n, f)
    ensures e == f
  {
    DroppedReadable(s, n);
    var exp := DecimalExponent(s, n);
    hide Estimation, Whole, PointDropped, Cached, Worth, DecimalValue, RoundedWord, DecimalExponent;
    var a: u64, b: u64 :| Cached(exp, a, b) && e == Estimation(RoundedWord(s, n), exp, true, a, b);
    var c: u64, d: u64 :| Cached(exp, c, d) && f == Estimation(RoundedWord(s, n), exp, true, c, d);
    CachedOnce(exp, a, b, c, d);
  }

  /**
    When such a number is read right: when its first digits settle it, or when it and the number compared in its place
    are on the same side of the midpoint in question.
   */
  lemma MisscaledExactly(s: seq<byte>, i: nat, r: nat)
    requires NumberEnd(s, i).Some? && PointDropped(s, PartsAt(s, i)) && ReadMisscaled(s, i, Some(r))
    ensures var n := PartsAt(s, i);
            RoundsTo(r, Worth(s, n)) <==>
              forall raw: nat | EstimatedAs(s, n, Unsure(raw)) :: Above(KeptAt(s, n), raw) <==> Above(Worth(s, n), raw)
  {
    var n := PartsAt(s, i);
    hide NumberEnd, PointDropped, Worth, KeptAt, EstimatedAs, Above, RoundsTo, Half;
    var e: Estimated, raw: nat :|
      EstimatedAs(s, n, e) && Some(r) == Coded(raw) && TakenBy(raw, e, KeptAt(s, n), Worth(s, n));
    forall other: nat | EstimatedAs(s, n, Unsure(other)) ensures e == Unsure(other) {
      EstimatedOnce(s, n, e, Unsure(other));
    }
    if e.Sure? {
      StrictIsRounded(raw, Worth(s, n));
    }
  }

  /** What is taken for infinity is what rounds to it, or what the two numbers next to the midpoint stand for. */
  lemma InfinityTaken(v: real, kept: real, raw: nat, sig: u64, exp: int, sig2: u64, ext: u64)
    requires Cached(exp, sig2, ext) && Approximates(v, sig, exp, true) && POW10[18] <= sig <= 10 * POW10[18]
    requires sig2 >= TOP && CachedSig(sig2, ext) < WORD && TakenBy(raw, Estimation(sig, exp, true, sig2, ext), kept, v)
    ensures raw == INFINITY <==> Half(INFINITY - 1) <= v || (exp == EDGE_EXP && (sig == EDGE_BELOW || sig == EDGE_ABOVE))
  {
    var e := Estimation(sig, exp, true, sig2, ext);
    if v < Half(INFINITY - 1) {
      OpenAtLargest(v, sig, exp, sig2, ext);
    }
    hide Estimation, Cached, Approximates, Half, RoundsTo;
    if e.Sure? && raw < INFINITY - 1 {
      Increasing(raw, INFINITY - 1);
    } else if e.Unsure? && e.raw + 1 < INFINITY - 1 {
      Increasing(e.raw + 1, INFINITY - 1);
    }
  }

  lemma MisscaledRefused(s: seq<byte>, i: nat, r: Option<nat>)
    requires NumberEnd(s, i).Some? && Misscaled(s, PartsAt(s, i)) && ReadMisscaled(s, i, r)
    ensures r.None? <==> Refused(s, i)
  {
    var n := PartsAt(s, i);
    var c := CutAt(FirstDigit(s, n.q, n.f), n.e);
    var exp := DecimalExponent(s, n);
    DroppedReadable(s, n);
    InfiniteInside(s, i);
    EdgeMisscaled(s, n);
    ValueApproximated(RoundedWord(s, n), exp, s, Some(c), n.f, n.e);
    hide NumberEnd, PointDropped, Worth, KeptAt, Half, Whole, TooLarge, AtTheEdge, Estimation, TakenBy, Cached, Misscaled;
    hide DecimalValue, Approximates, RoundedWord, DecimalExponent;
    var e: Estimated, raw: nat :| EstimatedAs(s, n, e) && r == Coded(raw) && TakenBy(raw, e, KeptAt(s, n), Worth(s, n));
    var sig2: u64, ext: u64 :| Cached(exp, sig2, ext) && e == Estimation(RoundedWord(s, n), exp, true, sig2, ext);
    InfinityTaken(Worth(s, n), KeptAt(s, n), raw, RoundedWord(s, n), exp, sig2, ext);
  }

  /** At the edge is misscaled, with these digits. */
  lemma EdgeMisscaled(s: seq<byte>, n: Parts)
    requires Whole(s, n)
    ensures AtTheEdge(s, n) ==> Misscaled(s, n)
    ensures Misscaled(s, n) ==>
              (AtTheEdge(s, n) <==>
                DecimalExponent(s, n) == EDGE_EXP && (RoundedWord(s, n) == EDGE_BELOW || RoundedWord(s, n) == EDGE_ABOVE))
  {
    hide Literal, Whole, DecimalBuf.Decimal;
  }

  // ---------------------------------------------------------------------------------------
  // The reader
  // ---------------------------------------------------------------------------------------

  /**
    What the reader of real numbers achieves: the double the number rounds to, or a refusal if there is none; but a
    number of more than 768 digits that is midway above an even double is read as the next one.
   */
  ghost predicate ReadRight(s: seq<byte>, i: nat, r: Option<nat>)
    requires NumberEnd(s, i).Some?
  {
    var n := PartsAt(s, i);
    var v := Worth(s, n);
    && (r.None? <==> RoundsTo(INFINITY, v))
    && (r.Some? ==> ConvertsTo(r.value, v, ManyDigits(s, n)))
  }

  /** All there is to say of what is read: the text alone decides it. */
  ghost predicate RealReads(s: seq<byte>, i: nat, r: Option<nat>)
    requires NumberEnd(s, i).Some?
  {
    var n := PartsAt(s, i);
    if OutBelow(s, n) then r == Some(0)
    else if OutAbove(s, n) then r == None
    else if PointDropped(s, n) then ReadMisscaled(s, i, r)
    else ReadRight(s, i, r)
  }

  function Coded(raw: nat): Option<nat> {
    if raw == INFINITY then None else Some(raw)
  }

  lemma ConvertedRight(s: seq<byte>, i: nat, raw: nat, long: bool, beyond: bool)
    requires NumberEnd(s, i).Some? && !OutBelow(s, PartsAt(s, i)) && !OutAbove(s, PartsAt(s, i))
    requires var n := PartsAt(s, i); Converted(raw, Worth(s, n), long, beyond)
    requires var n := PartsAt(s, i); long == ManyDigits(s, n) && beyond == PointDropped(s, n)
    requires !beyond
    ensures ReadRight(s, i, Coded(raw)) && (Coded(raw).None? <==> Refused(s, i))
  {
    var n := PartsAt(s, i);
    var v := Worth(s, n);
    EdgeMisscaled(s, n);
    InfiniteInside(s, i);
    RoundsToInfinity(v);
    ConvertsToRight(raw, v, long);
    ConvertsToInfinity(raw, v, long);
    hide Worth, ManyDigits, PointDropped, Half, NumberEnd, TooLarge, AtTheEdge, RoundsTo, OutBelow, OutAbove, ConvertsTo;
  }

  lemma ConvertsToInfinity(raw: nat, v: real, long: bool)
    requires ConvertsTo(raw, v, long)
    ensures raw == INFINITY <==> RoundsTo(INFINITY, v)
  {
    hide Half;
    if RoundsTo(INFINITY, v) {
      if OnTie(v) {
        TieIsFinite(v);
      } else {
        RoundsToOne(raw, INFINITY, v);
      }
    }
  }

  lemma TieIsFinite(v: real)
    requires OnTie(v)
    ensures !RoundsTo(INFINITY, v)
  {
    hide Half;
    var raw: nat :| TieToEven(raw, v);
    assert raw != INFINITY - 1;
    Increasing(raw, INFINITY - 1);
    RoundsToInfinity(v);
  }

  /** The words of the table of powers, by their exponent, and the machine's conversion of a word to a double. */
  datatype Tables = Tables(power: int -> (u64, u64), toDouble: u64 -> nat)

  /** The table is filled for the exponents that are looked up, and the conversion rounds correctly. */
  ghost predicate Filled(tables: Tables) {
    && (forall exp: int | -343 <= exp <= 308 :: Cached(exp, tables.power(exp).0, tables.power(exp).1))
    && (forall w: u64 :: RoundsTo(tables.toDouble(w), w as real))
  }

  /** The bits of a double are its sign and, below it, those of its magnitude. */
  const SIGN_BIT: nat := 0x8000_0000_0000_0000

  function Signed(negative: bool, raw: nat): (bits: u64)
    requires raw <= INFINITY
    ensures (bits >= SIGN_BIT <==> negative) && bits % SIGN_BIT == raw
  {
    if negative then SIGN_BIT + raw else raw
  }

  /** Without its sign. */
  function Unsigned(bits: Option<u64>): Option<nat> {
    match bits
    case None => None
    case Some(b) => Some(b % SIGN_BIT)
  }

  /**
    Main result: read_num's floating-point path refuses a number exactly when it rounds to infinity or is at the edge,
    and otherwise returns the double it rounds to, unless it has more than 768 digits and is midway above an even
    double. A number whose point is among the digits that are dropped is read as `MisscaledExactly` says. The sign bit
    is set exactly for a text that begins with a minus.
   */
  method ReadReal(s: seq<byte>, i: nat, tables: Tables) returns (r: Option<u64>)
    requires NumberEnd(s, i).Some? && Filled(tables)
    ensures r.None? <==> Refused(s, i)
    ensures r.Some? ==> (r.value >= SIGN_BIT <==> At(s, i) == '-' as int)
    ensures RealReads(s, i, Unsigned(r))
    ensures !Misscaled(s, PartsAt(s, i)) && |s| <= LONGEST ==> ReadRight(s, i, Unsigned(r))
  {
    hide ReadRight, RealReads, Misscaled, NumberEnd, Refused;
    var sign := At(s, i) == MINUS;
    var raw := ReadMagnitude(s, i, tables);
    match raw
    case None => return None;
    case Some(v) => return Some(Signed(sign, v));
  }

  method ReadMagnitude(s: seq<byte>, i: nat, tables: Tables) returns (r: Option<nat>)
    requires NumberEnd(s, i).Some? && Filled(tables)
    ensures r.None? <==> Refused(s, i)
    ensures r.Some? ==> r.value <= INFINITY
    ensures RealReads(s, i, r)
    ensures !Misscaled(s, PartsAt(s, i)) && |s| <= LONGEST ==> ReadRight(s, i, r)
  {
    ghost var n := PartsAt(s, i);
    hide Worth, ManyDigits, PointDropped, Half, NumberEnd, Refused, RoundsTo, ReadRight, ScansAs, Cached;
    hide Converted, TooLong, DecimalBuf.PointBeyond, DecimalValue, OutBelow, OutAbove, Whole;
    hide ReadMisscaled, TakenBy, Estimation, Coded, Kept, RoundedWord, RealReads;
    var scanned := Scan(s, i);
    ScanDecides(s, n, scanned);
    match scanned
    case ZeroNumber =>
      ZeroRight(s, i, scanned);
      return Some(0);
    case HugeNumber =>
      HugeRight(s, i, scanned);
      return None;
    case Significant(sig, exp, cut, end, dot) =>
      ScanIsWorth(s, n, scanned);
      ScanInRange(s, n, scanned);
      CutIsMany(s, n, scanned);
      var words := tables.power(exp);
      var raw := Convert(sig, exp, s, cut, end, dot, words.0, words.1);
      r := Coded(raw);
      if PointDropped(s, n) {
        TakenMisscaled(s, i, scanned, words.0, words.1, raw);
        MisscaledRefused(s, i, r);
        MisscaledInRange(s, i, r);
        MisscaledReads(s, i, r);
      } else {
        ConvertedRight(s, i, raw, TooLong(cut, end, dot), false);
        RightReads(s, i, r);
      }
  }

  lemma MisscaledReads(s: seq<byte>, i: nat, r: Option<nat>)
    requires NumberEnd(s, i).Some? && Misscaled(s, PartsAt(s, i)) && ReadMisscaled(s, i, r)
    ensures RealReads(s, i, r)
  {
    hide NumberEnd, PointDropped, ReadMisscaled, OutBelow, OutAbove;
  }

  lemma MisscaledInRange(s: seq<byte>, i: nat, r: Option<nat>)
    requires NumberEnd(s, i).Some? && PointDropped(s, PartsAt(s, i)) && ReadMisscaled(s, i, r)
    ensures r.Some? ==> r.value <= INFINITY
  {
    hide NumberEnd, PointDropped, KeptAt, EstimatedAs, Half, Above;
  }

  lemma RightReads(s: seq<byte>, i: nat, r: Option<nat>)
    requires NumberEnd(s, i).Some? && ReadRight(s, i, r)
    requires var n := PartsAt(s, i); !OutBelow(s, n) && !OutAbove(s, n) && !PointDropped(s, n)
    ensures RealReads(s, i, r) && (r.Some? ==> r.value <= INFINITY)
  {
    hide NumberEnd, PointDropped, OutBelow, OutAbove, Half, Worth, ManyDigits;
  }

  lemma TakenMisscaled(s: seq<byte>, i: nat, scanned: Scanned, sig2: u64, ext: u64, raw: nat)
    requires NumberEnd(s, i).Some? && ScansAs(s, PartsAt(s, i), scanned) && scanned.Significant?
    requires var n := PartsAt(s, i); PointDropped(s, n)
    requires Cached(scanned.exp, sig2, ext) && scanned.sig > 0 && scanned.cut.Some? && scanned.cut.value < scanned.end
    requires BigCompare.Readable(scanned.sig, s, scanned.cut, scanned.end, scanned.dot)
    requires TooLong(scanned.cut, scanned.end, scanned.dot)
    requires TakenBy(raw, Estimation(scanned.sig, scanned.exp, true, sig2, ext),
                     Kept(scanned.sig, scanned.exp, s, scanned.cut.value, scanned.end, scanned.dot), Worth(s, PartsAt(s, i)))
    ensures ReadMisscaled(s, i, Coded(raw))
  {
    var n := PartsAt(s, i);
    DroppedReadable(s, n);
    DroppedScans(s, n, scanned);
    hide Worth, NumberEnd, ScansAs, Cached, TakenBy, Estimation, Kept, PointDropped, RoundedWord, DecimalExponent, DecimalValue;
    assert EstimatedAs(s, n, Estimation(scanned.sig, scanned.exp, true, sig2, ext));
  }

  lemma DroppedScans(s: seq<byte>, n: Parts, scanned: Scanned)
    requires Whole(s, n) && ScansAs(s, n, scanned) && scanned.Significant? && PointDropped(s, n)
    ensures scanned == Significant(RoundedWord(s, n), DecimalExponent(s, n), Some(CutAt(FirstDigit(s, n.q, n.f), n.e)), n.f, n.e)
  {
    hide Literal, DecimalBuf.Decimal;
  }

  lemma ScanInRange(s: seq<byte>, n: Parts, r: Scanned)
    requires Whole(s, n) && ScansAs(s, n, r) && r.Significant?
    ensures -343 <= r.exp <= 308
  {
  }

  lemma ZeroRight(s: seq<byte>, i: nat, r: Scanned)
    requires NumberEnd(s, i).Some? && ScansAs(s, PartsAt(s, i), r) && r.ZeroNumber?
    ensures !Refused(s, i) && !Misscaled(s, PartsAt(s, i)) && (|s| <= LONGEST ==> ReadRight(s, i, Some(0)))
    ensures RealReads(s, i, Some(0))
  {
    var n := PartsAt(s, i);
    var v := Worth(s, n);
    ScanDecides(s, n, r);
    EdgeMisscaled(s, n);
    if |s| <= LONGEST {
      ZeroWorth(s, n);
      RoundsToInfinity(v);
      hide Worth, ManyDigits, Half, NumberEnd;
      StrictIsRounded(0, v);
    }
  }

  lemma StrictIsRounded(raw: nat, v: real)
    requires RoundsStrictly(raw, v)
    ensures RoundsTo(raw, v) && !OnTie(v)
  {
    hide Half;
    forall other: nat ensures !TieToEven(other, v) {
      StrictNoTie(raw, v, other);
    }
  }

  lemma HugeRight(s: seq<byte>, i: nat, r: Scanned)
    requires NumberEnd(s, i).Some? && ScansAs(s, PartsAt(s, i), r) && r.HugeNumber?
    ensures Refused(s, i) && !Misscaled(s, PartsAt(s, i)) && (|s| <= LONGEST ==> ReadRight(s, i, None))
    ensures RealReads(s, i, None)
  {
    if |s| <= LONGEST {
      HugeWorth(s, PartsAt(s, i));
    }
    hide Worth, ManyDigits, Half, NumberEnd;
  }

  // ---------------------------------------------------------------------------------------
  // One double for each text
  // ---------------------------------------------------------------------------------------

  lemma MisscaledOnce(s: seq<byte>, i: nat, a: Option<nat>, b: Option<nat>)
    requires NumberEnd(s, i).Some? && PointDropped(s, PartsAt(s, i)) && ReadMisscaled(s, i, a) && ReadMisscaled(s, i, b)
    ensures a == b
  {
    var n := PartsAt(s, i);
    hide NumberEnd, PointDropped, Worth, KeptAt, EstimatedAs, Above, RoundsTo, Half, OneOfTwo;
    var e: Estimated, x: nat :| EstimatedAs(s, n, e) && a == Coded(x) && TakenBy(x, e, KeptAt(s, n), Worth(s, n));
    var f: Estimated, y: nat :| EstimatedAs(s, n, f) && b == Coded(y) && TakenBy(y, f, KeptAt(s, n), Worth(s, n));
    EstimatedOnce(s, n, e, f);
  }

  lemma RightOnce(s: seq<byte>, i: nat, a: Option<nat>, b: Option<nat>)
    requires NumberEnd(s, i).Some? && ReadRight(s, i, a) && ReadRight(s, i, b)
    ensures a == b
  {
    var n := PartsAt(s, i);
    hide NumberEnd, ManyDigits, Worth, RoundsTo, ConvertsTo;
    if a.Some? && b.Some? {
      ConvertsToOne(a.value, b.value, Worth(s, n), ManyDigits(s, n));
    }
  }

  /** What is said of it settles what is read. */
  lemma ReadsOnce(s: seq<byte>, i: nat, a: Option<nat>, b: Option<nat>)
    requires NumberEnd(s, i).Some? && RealReads(s, i, a) && RealReads(s, i, b)
    ensures a == b
  {
    var n := PartsAt(s, i);
    hide NumberEnd, OutBelow, OutAbove, PointDropped, ReadRight, ReadMisscaled;
    if OutBelow(s, n) || OutAbove(s, n) {
    } else if PointDropped(s, n) {
      MisscaledOnce(s, i, a, b);
    } else {
      RightOnce(s, i, a, b);
    }
  }

  /** The magnitude that is read. */
  ghost function RealOf(s: seq<byte>, i: nat): Option<nat>
    requires NumberEnd(s, i).Some?
  {
    if exists r :: RealReads(s, i, r) then var r :| RealReads(s, i, r); r else None
  }

  lemma RealIs(s: seq<byte>, i: nat, r: Option<nat>)
    requires NumberEnd(s, i).Some? && RealReads(s, i, r)
    ensures RealOf(s, i) == r
  {
    ReadsOnce(s, i, r, RealOf(s, i));
    hide NumberEnd, RealReads;
  }

  /** If no point is dropped, it is the double the number rounds to, or the one above a long tie. */
  lemma RealIsRight(s: seq<byte>, i: nat)
    requires NumberEnd(s, i).Some? && |s| <= LONGEST && !PointDropped(s, PartsAt(s, i))
    ensures ReadRight(s, i, RealOf(s, i))
  {
    var n := PartsAt(s, i);
    hide NumberEnd, PointDropped, Worth, ManyDigits, Half, Whole, TooLarge;
    if OutBelow(s, n) {
      ZeroWorth(s, n);
      RoundsToInfinity(Worth(s, n));
      StrictIsRounded(0, Worth(s, n));
      assert ReadRight(s, i, Some(0));
      RealIs(s, i, Some(0));
    } else if OutAbove(s, n) {
      HugeWorth(s, n);
      RealIs(s, i, None);
    } else {
      var r := RightThere(s, i);
      RealIs(s, i, r);
    }
  }

  lemma RightThere(s: seq<byte>, i: nat) returns (r: Option<nat>)
    requires NumberEnd(s, i).Some?
    ensures ReadRight(s, i, r)
  {
    var v, long := Worth(s, PartsAt(s, i)), ManyDigits(s, PartsAt(s, i));
    hide NumberEnd, Worth, ManyDigits, Half;
    if RoundsTo(INFINITY, v) {
      r := None;
    } else if long && OnTie(v) {
      var tie: nat :| TieToEven(tie, v);
      assert TieToEven(tie + 1 - 1, v);
      r := Some(tie + 1);
    } else {
      r := Some(NearestDouble(v));
    }
  }

  lemma RealInRange(s: seq<byte>, i: nat)
    requires NumberEnd(s, i).Some?
    ensures RealOf(s, i).Some? ==> RealOf(s, i).value <= INFINITY
  {
    var n := PartsAt(s, i);
    hide NumberEnd, OutBelow, OutAbove, PointDropped, ReadMisscaled, ReadRight;
    if r :| RealReads(s, i, r) {
      RealIs(s, i, r);
      if !OutBelow(s, n) && !OutAbove(s, n) {
        if PointDropped(s, n) {
          MisscaledInRange(s, i, r);
        } else {
          RightReads(s, i, r);
        }
      }
    }
  }
}
