/** Two numbers that the reader of real numbers takes for the wrong double, and that its table can be filled. */
module ReaderExamples {
  import opened Bytes
  import opened Word64
  import opened Integers
  import opened IntegerReader
  import opened BigInt
  import DecimalBuf
  import opened BigCompare
  import opened FastFloat
  import opened Doubles
  import opened DiyFloat
  import opened SlowPath
  import opened PowersOfTen
  import opened ExactStep
  import opened NumberText
  import opened RealReader
  import opened NumberValue

  // ---------------------------------------------------------------------------------------
  // The point among the dropped digits
  // ---------------------------------------------------------------------------------------

  /** 9007199254740992, then 784 nines, `.9e-784`: hardly less than midway above two to the 53. */
  function Misread(): (s: seq<byte>)
    ensures |s| == 807 && s[..16] == [57, 48, 48, 55, 49, 57, 57, 50, 53, 52, 55, 52, 48, 57, 57, 50]
    ensures forall k | 16 <= k < 802 && k != 800 :: s[k] == 57
    ensures s[800] == 46 && s[802] == 101 && s[803] == 45 && s[804] == 55 && s[805] == 56 && s[806] == 52
  {
    [57, 48, 48, 55, 49, 57, 57, 50, 53, 52, 55, 52, 48, 57, 57, 50] + seq(784, _ => 57 as byte) + [46, 57, 101, 45, 55, 56, 52]
  }

  const MISREAD: Parts := Parts(0, 800, 802, 807)

  lemma FirstEight(s: seq<byte>, dot: nat)
    requires |s| >= 16 && dot >= 16
    requires s[..16] == [57, 48, 48, 55, 49, 57, 57, 50, 53, 52, 55, 52, 48, 57, 57, 50]
    ensures DecimalBuf.Digits(s, 0, 8, dot) && DecimalBuf.Decimal(s, 0, 8, dot) == 90071992
  {
    assert forall k | 0 <= k < 8 :: s[k] == s[..16][k];
    assert DecimalBuf.Decimal(s, 0, 4, dot) == 9007 by {
      assert DecimalBuf.Decimal(s, 0, 2, dot) == 90 by { assert DecimalBuf.Decimal(s, 0, 1, dot) == 9; }
      assert DecimalBuf.Decimal(s, 0, 3, dot) == 900;
    }
    assert DecimalBuf.Decimal(s, 0, 5, dot) == 90071;
    assert DecimalBuf.Decimal(s, 0, 6, dot) == 900719;
    assert DecimalBuf.Decimal(s, 0, 7, dot) == 9007199;
  }

  lemma NextEight(s: seq<byte>, dot: nat)
    requires |s| >= 16 && dot >= 16
    requires s[..16] == [57, 48, 48, 55, 49, 57, 57, 50, 53, 52, 55, 52, 48, 57, 57, 50]
    ensures DecimalBuf.Digits(s, 8, 16, dot) && DecimalBuf.Decimal(s, 8, 16, dot) == 54740992
  {
    assert forall k | 8 <= k < 16 :: s[k] == s[..16][k];
    assert DecimalBuf.Decimal(s, 8, 12, dot) == 5474 by {
      assert DecimalBuf.Decimal(s, 8, 10, dot) == 54 by { assert DecimalBuf.Decimal(s, 8, 9, dot) == 5; }
      assert DecimalBuf.Decimal(s, 8, 11, dot) == 547;
    }
    assert DecimalBuf.Decimal(s, 8, 13, dot) == 54740;
    assert DecimalBuf.Decimal(s, 8, 14, dot) == 547409;
    assert DecimalBuf.Decimal(s, 8, 15, dot) == 5474099;
  }

  lemma FirstSixteen(s: seq<byte>, dot: nat)
    requires |s| >= 16 && dot >= 16
    requires s[..16] == [57, 48, 48, 55, 49, 57, 57, 50, 53, 52, 55, 52, 48, 57, 57, 50]
    ensures DecimalBuf.Digits(s, 0, 16, dot) && DecimalBuf.Decimal(s, 0, 16, dot) == 9007199254740992
  {
    FirstEight(s, dot);
    NextEight(s, dot);
    assert DecimalBuf.Digits(s, 0, 16, dot);
    assert Pow(10, 8) == 100000000;
    hide DecimalBuf.Decimal, DecimalBuf.Digits;
    DecimalBuf.DecimalSplit(s, 0, 8, 16, dot);
  }

  lemma {:induction false} Nines(s: seq<byte>, lo: nat, hi: nat, dot: nat)
    requires lo <= hi <= |s| && forall k | lo <= k < hi && k != dot :: s[k] == 57
    ensures DecimalBuf.Digits(s, lo, hi, dot) && DecimalBuf.Decimal(s, lo, hi, dot) == Pow(10, DecimalBuf.Count(lo, hi, dot)) - 1
    decreases hi
  {
    if lo < hi {
      Nines(s, lo, hi - 1, dot);
    }
  }

  lemma MisreadDigits()
    ensures var s := Misread();
            && DecimalBuf.Digits(s, 0, 802, 800) && DecimalBuf.Decimal(s, 0, 19, 800) == 9007199254740992999
            && DecimalBuf.Decimal(s, 0, 802, 800) == 9007199254740993 * Pow(10, 785) - 1
  {
    var s := Misread();
    hide Misread, Pow;
    FirstSixteen(s, 800);
    Nines(s, 16, 802, 800);
    Nines(s, 16, 19, 800);
    assert forall k | 0 <= k < 802 && k != 800 :: IsDigit(s[k]) by { SixteenDigits(s); }
    DecimalBuf.DecimalSplit(s, 0, 16, 802, 800);
    DecimalBuf.DecimalSplit(s, 0, 16, 19, 800);
    assert Pow(10, 3) == 1000 by { Thousand(); }
  }

  lemma Thousand()
    ensures Pow(10, 3) == 1000
  {
  }

  lemma SixteenDigits(s: seq<byte>)
    requires |s| == 807 && s[..16] == [57, 48, 48, 55, 49, 57, 57, 50, 53, 52, 55, 52, 48, 57, 57, 50]
    ensures forall k | 0 <= k < 16 :: IsDigit(s[k])
  {
    assert forall k | 0 <= k < 16 :: s[k] == s[..16][k];
  }

  /** Where the digits of the whole part, of the fraction and of the exponent end. */
  lemma MisreadRuns()
    ensures var s := Misread(); RunEnd(s, 0) == 800 && RunEnd(s, 801) == 802 && RunEnd(s, 804) == 807 && s[0] == 57
  {
    var s := Misread();
    hide Misread, RunEnd;
    SixteenDigits(s);
    assert s[..16][0] == s[0];
    RunEndAt(s, 0, 800);
    assert s[801] == 57 && IsDigit(At(s, 801));
    assert !IsDigit(At(s, 802));
    RunEndAt(s, 801, 802);
    assert IsDigit(At(s, 804)) && IsDigit(At(s, 805)) && IsDigit(At(s, 806));
    RunEndAt(s, 804, 807);
  }

  lemma MisreadParts()
    ensures var s := Misread(); NumberEnd(s, 0) == Some(807) && PartsOf(s, 0) == MISREAD && Whole(s, MISREAD)
  {
    var s := Misread();
    MisreadRuns();
    hide Misread, RunEnd, Whole;
    assert FractionEnd(s, 800) == Some(802);
    assert ExponentEnd(s, 802) == Some(807);
    assert NumberEnd(s, 0) == Some(807) && PartsOf(s, 0) == MISREAD;
    PartsWhole(s, 0);
  }

  lemma MisreadExponent()
    requires Whole(Misread(), MISREAD)
    ensures var s := Misread();
            FirstDigit(s, 0, 802) == 0 && LiteralLength(s, MISREAD) == 3 && Literal(s, MISREAD) == -784
  {
    var s := Misread();
    hide Misread, Whole;
    assert s[..16][0] == s[0] == 57;
    assert SkipZeros(s, 804, 807) == 804;
    assert forall j | 804 <= j < 807 :: IsDigit(At(s, j));
    assert IntegerReader.Spelled(s, 804, 807) == 784 by {
      assert IntegerReader.Spelled(s, 804, 804) == 0;
      assert IntegerReader.Spelled(s, 804, 805) == 7;
      assert IntegerReader.Spelled(s, 804, 806) == 78;
    }
  }

  const SIG: u64 := 9007199254740993000
  const SIG2: u64 := 0x83126E978D4FDF3B
  const EXT: u64 := 0x645A1CAC083126E9

  /** The scan leaves these digits, the point behind the cut. */
  lemma MisreadScans()
    ensures var s := Misread();
            NumberEnd(s, 0).Some? && PartsAt(s, 0) == MISREAD && ScansAs(s, MISREAD, Significant(SIG, -3, Some(19), 802, 800))
  {
    MisreadParts();
    MisreadExponent();
    MisreadDigits();
    var s := Misread();
    hide Misread, Whole, Literal, LiteralLength, FirstDigit, NumberEnd, DecimalBuf.Decimal, Pow, PartsOf;
    assert At(s, 19) == 57;
    assert DecimalExponent(s, MISREAD) == -3;
    assert WordOf(s, MISREAD, SIG, Some(19));
  }

  /** Ten to the minus three, as the table has it. */
  lemma TableHasThousandth()
    ensures Cached(-3, SIG2, EXT)
  {
    assert TableExp(-3) == -73;
    TwoTo137();
    PowPositive(2, 137);
    Thousand();
    assert Power(2, -137) == 1.0 / Pow(2, 137) as real && Power(10, -3) == 1.0 / Pow(10, 3) as real;
    hide Power, Pow;
    var t := SIG2 * WORD + EXT;
    ThousandthBetween(t, 174224571863520493293247799005065324265472);
  }

  lemma ThousandthBetween(t: nat, p: nat)
    requires p > 0 && t * 1000 <= p < (t + 1) * 1000
    ensures Times(t, 1.0 / p as real) <= 1.0 / 1000.0 < Times(t + 1, 1.0 / p as real)
  {
    InverseTimes(p);
    hide Times;
    ThousandthScaled(t, p, 1.0 / p as real);
  }

  lemma InverseTimes(p: nat)
    requires p > 0
    ensures 1.0 / p as real > 0.0 && Times(p, 1.0 / p as real) == 1.0
  {
  }

  lemma ThousandthScaled(t: nat, p: nat, w: real)
    requires w > 0.0 && Times(p, w) == 1.0 && t * 1000 <= p < (t + 1) * 1000
    ensures Times(t, w) <= 1.0 / 1000.0 < Times(t + 1, w)
  {
    ThousandTimes(t, w);
    ThousandTimes(t + 1, w);
    TimesMono(p, (t + 1) * 1000, w);
    TimesMono(t * 1000, p, w);
    hide Times;
    Thousandths(Times(t, w), Times(t + 1, w));
  }

  lemma ThousandTimes(t: nat, w: real)
    ensures Times(t * 1000, w) == 1000.0 * Times(t, w)
  {
    assert (t * 1000) as real == 1000.0 * t as real;
  }

  lemma Thousandths(x: real, y: real)
    requires 1000.0 * x <= 1.0 < 1000.0 * y
    ensures x <= 1.0 / 1000.0 < y
  {
  }

  const BITS: nat := 0x4340_0000_0000_0000

  lemma ProductIsLiteral()
    ensures MulRounded(18014398509481986000, SIG2) == 9223372036854776832
  {
    MulRoundedNear(18014398509481986000, SIG2);
    hide MulRounded;
  }

  /** The estimate does not settle it: it is two to the 53 or the next double. */
  lemma MisreadUnsure()
    ensures SIG2 >= TOP && CachedSig(SIG2, EXT) == SIG2 && Estimation(SIG, -3, true, SIG2, EXT) == Unsure(BITS)
  {
    assert Pow(2, 0) == 1 && Pow(2, 1) == 2;
    LeadingZerosAre(SIG, 1);
    ProductIsLiteral();
    var fp: u64 := 9223372036854776832;
    LeadingZerosAre(fp, 0);
    assert TableExp(-3) == -73;
    hide LeadingZeros, MulRounded, TableExp;
    assert NormalWord(SIG) == 18014398509481986000 && NormalWord(fp) == fp;
    assert ProductError(FirstError(true, 1)) == 17;
    assert WordRounding(fp, 17, -10) == Unsure(BITS) by { WordUnsure(fp); }
    hide WordRounding, NormalWord, ProductError, FirstError, Pow;
  }

  lemma WordUnsure(fp: u64)
    requires fp == 9223372036854776832
    ensures WordRounding(fp, 17, -10) == Unsure(BITS)
  {
    SlowPath.Powers();
    ToRawIs(HIDDEN, 1);
    hide ToRaw;
  }

  /** The number lies below midway, so that two to the 53 is the right double. */
  lemma MisreadWorth()
    ensures var s := Misread(); NumberEnd(s, 0).Some? && PartsAt(s, 0) == MISREAD
    ensures var v := Worth(Misread(), MISREAD); 9007199254740992.0 <= v < 9007199254740993.0
  {
    MisreadParts();
    MisreadSpelled();
    MisreadDigits();
    hide Misread, Whole, Worth, NumberEnd, DecimalBuf.Decimal, Pow, PartsOf, Power, DecimalBuf.Digits;
    BelowMidway(9007199254740993 * Pow(10, 785) - 1);
  }

  lemma MisreadSpelled()
    requires Whole(Misread(), MISREAD)
    ensures Worth(Misread(), MISREAD) == Times(DecimalBuf.Decimal(Misread(), 0, 802, 800), Power(10, -785))
  {
    MisreadExponent();
    hide Misread, Whole, Literal, LiteralLength, FirstDigit, DecimalBuf.Decimal, Power, DecimalBuf.Digits, Times;
  }

  lemma BelowMidway(d: nat)
    requires d == 9007199254740993 * Pow(10, 785) - 1
    ensures 9007199254740992.0 <= Times(d, Power(10, -785)) < 9007199254740993.0
  {
    PowPositive(10, 785);
    PowerPositive(10, -785);
    hide Pow, Power;
    TenScale(9007199254740993, -785, 785);
    TenScale(9007199254740992, -785, 785);
    TenToZero();
    TimesMono(d, 9007199254740993 * Pow(10, 785), Power(10, -785));
    TimesMono(9007199254740992 * Pow(10, 785), d, Power(10, -785));
  }

  lemma HalfOfBits()
    ensures Half(BITS) == 9007199254740993.0 && BITS % 2 == 0 && BITS < INFINITY
  {
    assert Mantissa(BITS) == HIDDEN && Exponent(BITS) == 1;
    assert Power(2, 0) == 1.0;
  }

  lemma MisreadBelow(v: real)
    requires v < 9007199254740993.0 && OneOfTwo(BITS, v)
    ensures RoundsTo(BITS, v) && !RoundsTo(BITS + 1, v)
  {
    HalfOfBits();
    BelowHalf(BITS, v);
    RoundsToApart(BITS, BITS + 1, v);
    hide Half;
  }

  /** The point is among the digits that are dropped. */
  lemma MisreadDropped()
    requires Whole(Misread(), MISREAD)
    ensures Misscaled(Misread(), MISREAD)
  {
    var s := Misread();
    MisreadScans();
    hide Misread, NumberEnd, PartsOf;
    assert At(s, 19) == s[19] == 57;
    ScanDecides(s, MISREAD, Significant(SIG, -3, Some(19), 802, 800));
    CutIsMany(s, MISREAD, Significant(SIG, -3, Some(19), 802, 800));
    hide Whole, ScansAs, OutBelow, OutAbove, ManyDigits, PointDropped;
    assert DecimalBuf.Count(19, 802, 800) == 782;
  }

  /** Its estimate is open. */
  lemma MisreadEstimated(e: Estimated)
    requires Whole(Misread(), MISREAD) && PointDropped(Misread(), MISREAD) && EstimatedAs(Misread(), MISREAD, e)
    ensures e == Unsure(BITS)
  {
    MisreadWords();
    DroppedReadable(Misread(), MISREAD);
    hide Misread, Estimation, Worth, Whole, Cached, PointDropped, DecimalValue, RoundedWord, DecimalExponent;
    assert EstimatedAs(Misread(), MISREAD, Unsure(BITS));
    hide EstimatedAs;
    EstimatedOnce(Misread(), MISREAD, e, Unsure(BITS));
  }

  lemma MisreadWords()
    requires Whole(Misread(), MISREAD) && PointDropped(Misread(), MISREAD)
    ensures RoundedWord(Misread(), MISREAD) == SIG && DecimalExponent(Misread(), MISREAD) == -3
    ensures Cached(-3, SIG2, EXT) && SIG2 >= TOP && Estimation(SIG, -3, true, SIG2, EXT) == Unsure(BITS)
  {
    MisreadScans();
    MisreadUnsure();
    TableHasThousandth();
    hide Misread, Estimation, ScansAs, NumberEnd, Whole, Cached, PartsOf, PointDropped;
    DroppedScans(Misread(), MISREAD, Significant(SIG, -3, Some(19), 802, 800));
  }

  /** Whatever the reader returns by its contract for the misread number, it is the next double. */
  lemma MisreadIsHigh(r: Option<nat>)
    requires Whole(Misread(), MISREAD) && PointDropped(Misread(), MISREAD)
    requires NumberEnd(Misread(), 0).Some? && PartsAt(Misread(), 0) == MISREAD && ReadMisscaled(Misread(), 0, r)
    ensures r == Some(BITS + 1)
  {
    var s := Misread();
    hide Misread, Estimation, Worth, NumberEnd, Whole, RoundsTo, OneOfTwo, Half, EstimatedAs, PointDropped, KeptAt, PartsOf;
    var e: Estimated, raw: nat :|
      EstimatedAs(s, MISREAD, e) && r == Coded(raw) && TakenBy(raw, e, KeptAt(s, MISREAD), Worth(s, MISREAD));
    MisreadEstimated(e);
  }

  /**
    A number read wrong: it rounds to two to the 53, but its point is among the digits that are dropped, the estimate
    leaves it open, and so the reader returns the next double.
   */
  lemma PointBeyondMisread(r: Option<nat>)
    ensures var s := Misread();
            && NumberEnd(s, 0).Some? && PartsAt(s, 0) == MISREAD && !Infinite(s, 0) && Misscaled(s, MISREAD)
            && (ReadMisscaled(s, 0, r) ==> r == Some(BITS + 1))
            && RoundsTo(BITS, Worth(s, MISREAD)) && !RoundsTo(BITS + 1, Worth(s, MISREAD))
  {
    MisreadScans();
    MisreadDropped();
    MisreadWorth();
    MisreadOpen();
    MisreadBelow(Worth(Misread(), MISREAD));
    MisreadFinite();
    hide Misread, RoundsTo, Worth, ScansAs, Cached, Half, ReadMisscaled, PointDropped, NumberEnd, Infinite, OutBelow, OutAbove;
    if ReadMisscaled(Misread(), 0, r) {
      MisreadIsHigh(r);
    }
  }

  lemma MisreadOpen()
    requires Whole(Misread(), MISREAD)
    ensures OneOfTwo(BITS, Worth(Misread(), MISREAD))
  {
    var s := Misread();
    var v := Worth(s, MISREAD);
    MisreadScans();
    MisreadUnsure();
    TableHasThousandth();
    ScanIsWorth(s, MISREAD, Significant(SIG, -3, Some(19), 802, 800));
    ValueApproximated(SIG, -3, s, Some(19), 802, 800);
    EstimationSettles(v, SIG, -3, true, SIG2, EXT);
    hide Misread, Estimation, Worth, ScansAs, Cached, Half, OneOfTwo, Approximates;
  }

  lemma MisreadFinite()
    ensures NumberEnd(Misread(), 0).Some? && !Infinite(Misread(), 0)
  {
    var s := Misread();
    MisreadScans();
    MisreadWorth();
    MisreadOpen();
    MisreadBelow(Worth(s, MISREAD));
    InfiniteExactly(s, 0);
    hide Misread, Worth, ScansAs, Infinite, NumberEnd, RoundsTo;
    if RoundsTo(INFINITY, Worth(s, MISREAD)) {
      RoundsToOne(BITS, INFINITY, Worth(s, MISREAD));
    }
  }

  // ---------------------------------------------------------------------------------------
  // A tie with many digits
  // ---------------------------------------------------------------------------------------

  /** 73786976294838214656, a point and 752 zeros: midway above two to the 66. */
  function Tie(): (s: seq<byte>)
    ensures |s| == 773
    ensures s[..20] == [55, 51, 55, 56, 54, 57, 55, 54, 50, 57, 52, 56, 51, 56, 50, 49, 52, 54, 53, 54]
    ensures s[20] == 46 && forall k | 21 <= k < 773 :: s[k] == ZERO
  {
    [55, 51, 55, 56, 54, 57, 55, 54, 50, 57, 52, 56, 51, 56, 50, 49, 52, 54, 53, 54] + [46] + seq(752, _ => ZERO)
  }

  const TIE: Parts := Parts(0, 20, 773, 773)
  const TIEBITS: nat := 0x4410_0000_0000_0000

  predicate Twenty(s: seq<byte>) {
    && |s| >= 20
    && s[..20] == [55, 51, 55, 56, 54, 57, 55, 54, 50, 57, 52, 56, 51, 56, 50, 49, 52, 54, 53, 54]
  }

  lemma TwentyDigits(s: seq<byte>)
    requires Twenty(s)
    ensures s[0] == 55 && forall k | 0 <= k < 20 :: IsDigit(s[k])
  {
    assert forall k | 0 <= k < 20 :: s[k] == s[..20][k];
  }

  lemma FirstTen(s: seq<byte>)
    requires Twenty(s)
    ensures DecimalBuf.Digits(s, 0, 10, 20) && DecimalBuf.Decimal(s, 0, 10, 20) == 7378697629
  {
    assert forall k | 0 <= k < 10 :: s[k] == s[..20][k];
    assert DecimalBuf.Decimal(s, 0, 5, 20) == 73786 by {
      assert DecimalBuf.Decimal(s, 0, 2, 20) == 73 by { assert DecimalBuf.Decimal(s, 0, 1, 20) == 7; }
      assert DecimalBuf.Decimal(s, 0, 3, 20) == 737;
      assert DecimalBuf.Decimal(s, 0, 4, 20) == 7378;
    }
    assert DecimalBuf.Decimal(s, 0, 6, 20) == 737869;
    assert DecimalBuf.Decimal(s, 0, 7, 20) == 7378697;
    assert DecimalBuf.Decimal(s, 0, 8, 20) == 73786976;
    assert DecimalBuf.Decimal(s, 0, 9, 20) == 737869762;
  }

  lemma NextTen(s: seq<byte>)
    requires Twenty(s)
    ensures DecimalBuf.Digits(s, 10, 20, 20) && DecimalBuf.Decimal(s, 10, 20, 20) == 4838214656
  {
    assert forall k | 10 <= k < 20 :: s[k] == s[..20][k];
    assert DecimalBuf.Decimal(s, 10, 15, 20) == 48382 by {
      assert DecimalBuf.Decimal(s, 10, 12, 20) == 48 by { assert DecimalBuf.Decimal(s, 10, 11, 20) == 4; }
      assert DecimalBuf.Decimal(s, 10, 13, 20) == 483;
      assert DecimalBuf.Decimal(s, 10, 14, 20) == 4838;
    }
    assert DecimalBuf.Decimal(s, 10, 16, 20) == 483821;
    assert DecimalBuf.Decimal(s, 10, 17, 20) == 4838214;
    assert DecimalBuf.Decimal(s, 10, 18, 20) == 48382146;
    assert DecimalBuf.Decimal(s, 10, 19, 20) == 483821465;
  }

  lemma TieDigits()
    ensures var s := Tie(); DecimalBuf.Digits(s, 0, 773, 20) && DecimalBuf.Decimal(s, 0, 773, 20) == 73786976294838214656 * Pow(10, 752)
  {
    var s := Tie();
    hide Tie;
    FirstTen(s);
    NextTen(s);
    TwentyDigits(s);
    assert Pow(10, 10) == 10000000000 by { Pow10Exact(10); }
    hide Pow;
    assert forall k | 20 <= k < 773 && k != 20 :: IsDigit(s[k]) && At(s, k) == ZERO;
    assert DecimalBuf.Digits(s, 0, 773, 20) && DecimalBuf.Digits(s, 0, 20, 20) && DecimalBuf.Digits(s, 20, 773, 20);
    ZerosSpellNothing(s, 20, 773, 20);
    hide DecimalBuf.Decimal, DecimalBuf.Digits;
    DecimalBuf.DecimalSplit(s, 0, 10, 20, 20);
    DecimalBuf.DecimalSplit(s, 0, 20, 773, 20);
  }

  lemma TieParts()
    ensures var s := Tie(); NumberEnd(s, 0) == Some(773) && PartsOf(s, 0) == TIE && Whole(s, TIE)
  {
    var s := Tie();
    hide Tie;
    TwentyDigits(s);
    RunEndAt(s, 0, 20);
    ZerosRun(s);
    hide RunEnd, Whole;
    assert FractionEnd(s, 20) == Some(773);
    assert ExponentEnd(s, 773) == Some(773);
    assert NumberEnd(s, 0) == Some(773) && PartsOf(s, 0) == TIE;
    PartsWhole(s, 0);
  }

  lemma ZerosRun(s: seq<byte>)
    requires |s| == 773 && forall k | 21 <= k < 773 :: s[k] == ZERO
    ensures RunEnd(s, 21) == 773
  {
    hide RunEnd;
    forall j | 21 <= j < 773 ensures IsDigit(At(s, j)) {
      assert At(s, j) == s[j] == ZERO;
    }
    assert At(s, 773) == 0;
    RunEndAt(s, 21, 773);
  }

  lemma TieWorth()
    requires Whole(Tie(), TIE)
    ensures Worth(Tie(), TIE) == 73786976294838214656.0 == Half(TIEBITS)
  {
    TieDigits();
    TieHalf();
    TenScale(73786976294838214656, -752, 752);
    TenToZero();
    assert FirstDigit(Tie(), 0, 773) == 0 && Literal(Tie(), TIE) == 0 by { TwentyDigits(Tie()); hide Tie; }
    hide Tie, Whole, Literal, FirstDigit, DecimalBuf.Decimal, Power, DecimalBuf.Digits, Half, Pow;
  }

  lemma TieHalf()
    ensures Half(TIEBITS) == 73786976294838214656.0
  {
    assert Mantissa(TIEBITS) == HIDDEN && Exponent(TIEBITS) == 14;
    assert Pow(2, 13) == 8192;
    assert Power(2, 13) == 8192.0;
    hide Pow, Power;
  }

  lemma TieMany()
    requires Whole(Tie(), TIE)
    ensures ManyDigits(Tie(), TIE) && !PointDropped(Tie(), TIE)
  {
    var s := Tie();
    TwentyDigits(s);
    assert s[..20][19] == s[19];
    hide Tie;
    assert FirstDigit(s, 0, 773) == 0;
    assert CutAt(0, 20) == 19 && At(s, 19) == 54;
    assert DecimalBuf.Count(19, 773, 20) == 753;
    hide FirstDigit, Whole;
  }

  /**
    The exception for ties is met: whatever double the reader makes of this number, by its contract, is not the one it
    rounds to, which is two to the 66.
   */
  lemma TieMisread(r: Option<nat>)
    ensures var s := Tie();
            && NumberEnd(s, 0).Some? && PartsAt(s, 0) == TIE && ManyDigits(s, TIE) && OnTie(Worth(s, TIE))
            && RoundsTo(TIEBITS, Worth(s, TIE)) && !PointDropped(s, TIE)
            && (ReadRight(s, 0, r) ==> r.Some? && r.value != TIEBITS)
  {
    var s := Tie();
    TieParts();
    TieWorth();
    TieMany();
    TieRounds();
    hide Tie, Worth, Half, NumberEnd, Whole, RoundsTo, ManyDigits, PointDropped, OnTie, Infinite;
    if RoundsTo(INFINITY, Worth(s, TIE)) {
      RoundsToOne(TIEBITS, INFINITY, Worth(s, TIE));
    }
  }

  lemma TieRounds()
    ensures var v := Half(TIEBITS); OnTie(v) && RoundsTo(TIEBITS, v)
  {
    var v := Half(TIEBITS);
    Increasing(TIEBITS - 1, TIEBITS);
    TieHalf();
    assert TIEBITS % 2 == 0;
    hide Half;
    assert TieToEven(TIEBITS, v);
  }
}
