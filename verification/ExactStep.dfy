/** The slow path as a whole: the estimate, and the exact comparison with the midpoint where that is not enough. */
module ExactStep {
  import opened Bytes
  import opened Word64
  import opened BigInt
  import opened DecimalBuf
  import opened BigCompare
  import opened FastFloat
  import opened Doubles
  import opened DiyFloat
  import opened SlowPath
  import opened PowersOfTen

  // ---------------------------------------------------------------------------------------
  // The number that the digits spell
  // ---------------------------------------------------------------------------------------

  /** The value of the digits: the word alone, or the word before it was rounded and the digits that were cut. */
  ghost function DecimalValue(sig: u64, exp: int, buf: seq<byte>, cut: Option<nat>, end: nat, dot: nat): real
    requires Readable(sig, buf, cut, end, dot)
  {
    match cut
    case None => Times(sig, Power(10, exp))
    case Some(c) =>
      var n := Count(c, end, dot);
      Times(Spelled(sig - RoundedUp(buf[c]), n, Decimal(buf, c, end, dot)), Power(10, exp - n))
  }

  /** The first digit that was cut says on which side of the middle the rest lies. */
  lemma FirstCutDigit(buf: seq<byte>, cut: nat, end: nat, dot: nat)
    requires cut < end && Digits(buf, cut, end, dot) && dot != cut
    ensures var n, d := Count(cut, end, dot), Decimal(buf, cut, end, dot);
            n > 0 && d < Pow(10, n) && (if RoundedUp(buf[cut]) == 1 then 2 * d >= Pow(10, n) else 2 * d < Pow(10, n))
  {
    var x := buf[cut] - 48;
    DecimalBelow(buf, cut, end, dot);
    DecimalSplit(buf, cut, cut + 1, end, dot);
    CountSplit(cut, cut + 1, end, dot);
    DecimalBelow(buf, cut + 1, end, dot);
    assert Decimal(buf, cut, cut + 1, dot) == x by {
      assert Decimal(buf, cut, cut, dot) == 0;
    }
    var m, r := Count(cut + 1, end, dot), Decimal(buf, cut + 1, end, dot);
    assert Pow(10, m + 1) == 10 * Pow(10, m);
    hide Decimal, Pow;
    FirstDigitBounds(x, Pow(10, m), r);
  }

  lemma FirstDigitBounds(x: nat, p: nat, r: nat)
    requires x < 10 && r < p
    ensures x >= 5 ==> 2 * (x * p + r) >= 10 * p
    ensures x < 5 ==> 2 * (x * p + r) < 10 * p
  {
    if x >= 5 {
      MulMono(5, x, p);
    } else {
      MulMono(x, 4, p);
    }
  }

  /** The rounded word is within half a unit of the number. */
  lemma ValueApproximated(sig: u64, exp: int, buf: seq<byte>, cut: Option<nat>, end: nat, dot: nat)
    requires Readable(sig, buf, cut, end, dot)
    ensures Approximates(DecimalValue(sig, exp, buf, cut, end, dot), sig, exp, cut.Some?)
  {
    if cut.Some? {
      var c := cut.value;
      var n, d := Count(c, end, dot), Decimal(buf, c, end, dot);
      var head := sig - RoundedUp(buf[c]);
      FirstCutDigit(buf, c, end, dot);
      hide Decimal, Pow, Power, Times, Digits;
      TenScale(2 * sig - 1, exp - n, n);
      TenScale(2 * sig + 1, exp - n, n);
      TimesDouble(Spelled(head, n, d), Power(10, exp - n));
      PowerPositive(10, exp - n);
      HalfUnitAround(sig, head, Pow(10, n), d);
      TimesMono((2 * sig - 1) * Pow(10, n), 2 * Spelled(head, n, d), Power(10, exp - n));
      TimesMono(2 * Spelled(head, n, d), (2 * sig + 1) * Pow(10, n), Power(10, exp - n));
    }
  }

  lemma HalfUnitAround(sig: nat, head: nat, p: nat, d: nat)
    requires head <= sig <= head + 1 && d < p
    requires if sig == head + 1 then 2 * d >= p else 2 * d < p
    ensures (2 * sig - 1) * p <= 2 * (head * p + d) <= (2 * sig + 1) * p
  {
    Distributes(2 * sig, 1, p);
    assert 2 * sig * p == 2 * (sig * p);
    if sig == head + 1 {
      assert sig * p == head * p + p;
    }
  }

  // ---------------------------------------------------------------------------------------
  // Midpoints among long numbers
  // ---------------------------------------------------------------------------------------

  lemma FiveTo59()
    ensures Pow(5, 59) == 173472347597680709441192448139190673828125
  {
    assert Pow(5, 7) == 78125 && Pow(5, 3) == 125;
    hide Pow;
    PowAdd(5, 7, 7);
    PowAdd(5, 14, 14);
    PowAdd(5, 28, 28);
    PowAdd(5, 56, 3);
  }

  lemma TwoTo137()
    ensures Pow(2, 137) == 174224571863520493293247799005065324265472
  {
    Pow2Word();
    PowAdd(2, 64, 64);
    assert Pow(2, 9) == 512;
    PowAdd(2, 128, 9);
    hide Pow;
  }

  lemma FivesBelowTwos()
    ensures Pow(5, 307) <= Pow(2, 713)
  {
    FiveTo59();
    TwoTo137();
    FivesLeft();
    hide Pow;
    FiveTimes(Pow(5, 59), Pow(2, 137));
    FiveParts(5, 59);
    FiveParts(2, 137);
    PowAdd(5, 295, 12);
    PowAdd(2, 685, 28);
    ProductMono(Pow(5, 295), Pow(2, 685), Pow(5, 12), Pow(2, 28));
  }

  lemma FiveParts(b: nat, k: nat)
    ensures Pow(b, 5 * k) == Pow(b, k) * Pow(b, k) * (Pow(b, k) * Pow(b, k)) * Pow(b, k)
  {
    hide Pow;
    PowAdd(b, k, k);
    PowAdd(b, 2 * k, 2 * k);
    PowAdd(b, 4 * k, k);
  }

  lemma FivesLeft()
    ensures Pow(5, 12) <= Pow(2, 28)
  {
    assert Pow(5, 6) == 15625;
    PowAdd(5, 6, 6);
    assert Pow(2, 10) == 1024 && Pow(2, 8) == 256;
    PowAdd(2, 10, 10);
    PowAdd(2, 20, 8);
  }

  lemma ProductMono(a: nat, b: nat, c: nat, d: nat)
    requires a <= b && c <= d
    ensures a * c <= b * d
  {
    MulMono(a, b, c);
    MulMono(c, d, b);
  }

  lemma FiveTimes(a: nat, b: nat)
    requires a <= b
    ensures a * a * (a * a) * a <= b * b * (b * b) * b
  {
    ProductMono(a, b, a, b);
    ProductMono(a * a, b * b, a * a, b * b);
    ProductMono(a * a * (a * a), b * b * (b * b), a, b);
  }

  lemma TensBelow(m: nat)
    requires m <= 307
    ensures Pow(10, m) <= Pow(2, m + 713)
  {
    TensAreTwosFives(m);
    PowMono(5, m, 307);
    FivesBelowTwos();
    PowAdd(2, m, 713);
    hide Pow;
    var a, b, c := Pow(5, m), Pow(2, 713), Pow(2, m);
    assert a <= b && Pow(10, m) == c * a && Pow(2, m + 713) == c * b;
    MulMono(a, b, c);
  }

  lemma {:induction false} TwoBelowTen(k: nat)
    ensures Pow(2, k) <= Pow(10, k)
  {
    if k > 0 {
      TwoBelowTen(k - 1);
    }
  }

  /** Nineteen digits in the place of a long number's exponent are beyond any double that far down. */
  lemma TenBeatsTwo(exp: int, u: int)
    requires -1075 <= u && u + 750 <= exp
    ensures Power(10, exp + 18) >= Power(2, u + 55)
  {
    TenGrows(u + 768, exp - u - 750);
    if u + 768 >= 0 {
      TwoBelowTen(u + 768);
      PowerGrows(u + 55, 713);
    } else {
      var m := -(u + 768);
      TensBelow(m);
      PowPositive(10, m);
      Inverses(Pow(10, m), Pow(2, m + 713));
      assert Power(10, -m) == 1.0 / Pow(10, m) as real;
      assert Power(2, u + 55) == 1.0 / Pow(2, m + 713) as real;
    }
  }

  lemma FiniteExponent(raw: nat)
    requires raw < INFINITY
    ensures -1074 <= Exponent(raw) <= 971 && Mantissa(raw) < 2 * HIDDEN
  {
  }

  lemma HalfAboveNext(raw: nat)
    ensures Half(raw + 1) <= Times(4 * HIDDEN + 2, Power(2, Exponent(raw) - 1))
  {
    NextDouble(raw);
    var m, e := Mantissa(raw), Exponent(raw);
    if Exponent(raw + 1) == e {
      TimesAtMost(2 * m + 3, 4 * HIDDEN + 2, e - 1);
    } else {
      FloatDouble(2 * HIDDEN + 1, e);
    }
    hide Power, Times;
  }

  /** A number with nineteen digits in front is far enough above its last kept place. */
  lemma PlaceBelowMidpoint(v: real, exp: int, raw: nat)
    requires OneOfTwo(raw, v) && Times(POW10[18], Power(10, exp)) <= v
    ensures exp <= Exponent(raw) - 1 + 749
  {
    var u := Exponent(raw) - 1;
    FiniteExponent(raw);
    HalfAboveNext(raw);
    Pow10Exact(18);
    Powers();
    TenScale(1, exp, 18);
    TimesScale(1, u, 55);
    PowAdd(2, 52, 3);
    assert Pow(2, 3) == 8;
    TimesLessThan(4 * HIDDEN + 2, 8 * HIDDEN, u);
    if exp >= u + 750 {
      TenBeatsTwo(exp, u);
    }
    hide Power, Pow, Half, Mantissa, Exponent;
  }

  /** Midpoints are whole multiples of the last kept place. */
  lemma MidpointIsMultiple(raw: nat, exp: int) returns (b: nat)
    requires raw < INFINITY && exp <= Exponent(raw) - 1 + 749 && exp <= 308
    ensures Half(raw) == Times(b, Power(10, exp - 749))
  {
    var h, u, k := 2 * Mantissa(raw) + 1, Exponent(raw) - 1, 749 - exp;
    b := h * Pow(2, u + k) * Pow(5, k);
    TensAreTwosFives(k);
    PowerShift(u, k);
    TenShift(-k, k);
    assert Power(10, 0) == 1.0 && Power(2, u + k) == Pow(2, u + k) as real;
    hide Power, Pow, Mantissa, Exponent;
    ClearTens(h, Power(2, u), Pow(2, k), Pow(5, k), Pow(2, u + k), Power(10, -k));
  }

  lemma ClearTens(h: nat, w: real, two: nat, five: nat, shifted: nat, ten: real)
    requires ten * (two * five) as real == 1.0 && shifted as real == w * two as real
    ensures Times(h, w) == Times(h * shifted * five, ten)
  {
    assert (h * shifted * five) as real == h as real * shifted as real * five as real;
    assert (two * five) as real == two as real * five as real;
    assert h as real * (w * two as real) * five as real * ten == h as real * w * (ten * (two as real * five as real));
  }

  lemma ValueAtLeast(sig: u64, exp: int, buf: seq<byte>, cut: nat, end: nat, dot: nat)
    requires Readable(sig, buf, Some(cut), end, dot) && sig - RoundedUp(buf[cut]) >= POW10[18]
    ensures Times(POW10[18], Power(10, exp)) <= DecimalValue(sig, exp, buf, Some(cut), end, dot)
  {
    var n, d := Count(cut, end, dot), Decimal(buf, cut, end, dot);
    TenScale(POW10[18], exp - n, n);
    PowerPositive(10, exp - n);
    PowPositive(10, n);
    hide Power, Pow, Decimal, Digits;
    var head := sig - RoundedUp(buf[cut]);
    MulMono(POW10[18], head, Pow(10, n));
    TimesMono(POW10[18] * Pow(10, n), Spelled(head, n, d), Power(10, exp - n));
  }

  lemma TinyTens(k: nat, exp: int)
    requires exp < -20 && k <= 2 * WORD
    ensures Times(k, Power(10, exp)) <= 1.0
  {
    hide Power, Pow, Times;
    var b := -exp;
    TenScale(1, exp, b);
    TenTwentyOne(b);
    TenToZero();
    PowerPositive(10, exp);
    TimesMono(k, 1 * Pow(10, b), Power(10, exp));
    OneTimes();
  }

  lemma OneTimes()
    ensures Times(1, 1.0) == 1.0
  {
  }

  /** A midpoint that is a whole number is not read with a very small exponent. */
  lemma LargeMidpoint(v: real, sig: u64, exp: int, cut: bool, raw: nat)
    requires OneOfTwo(raw, v) && Approximates(v, sig, exp, cut) && Exponent(raw) - 1 > 0
    ensures exp >= -20
  {
    assert raw >= 1077 * HIDDEN;
    hide Power, Half, ValueOf, Exponent, Times;
    AboveOne(raw, v);
    if exp < -20 {
      TinyTens(2 * sig + 1, exp);
      TinyTens(2 * sig, exp);
      TimesDouble(sig, Power(10, exp));
    }
  }

  lemma AboveOne(raw: nat, v: real)
    requires OneOfTwo(raw, v) && raw >= 1077 * HIDDEN
    ensures v > 1.0
  {
    hide Power, Half, ValueOf;
    OneIsDouble();
    Increasing(1023 * HIDDEN, raw - 1);
    HalfIsMidway(raw - 1);
  }

  lemma OneIsDouble()
    ensures ValueOf(1023 * HIDDEN) == 1.0
  {
    assert Mantissa(1023 * HIDDEN) == HIDDEN && Exponent(1023 * HIDDEN) == -52;
    Powers();
    TimesScale(1, -52, 52);
    assert Power(2, 0) == 1.0;
    PowerShift(-52, 52);
    hide Power, Pow;
  }

  lemma TenTwentyOne(b: nat)
    requires b >= 21
    ensures 2 * WORD < Pow(10, b)
  {
    PowMono(10, 21, b);
    Pow10Exact(19);
    assert Pow(10, 2) == 100;
    PowAdd(10, 19, 2);
  }

  /** More digits than are kept. */
  predicate TooLong(cut: Option<nat>, end: nat, dot: nat)
    requires cut.Some? ==> cut.value < end
  {
    cut.Some? && Count(cut.value, end, dot) + SAFE_DIGITS > MAX_DIGITS
  }

  /** Up to 768 digits, the big integer is exact. */
  lemma ShortIsExact(value: nat, e: int, sig: u64, exp: int, buf: seq<byte>, cut: Option<nat>, end: nat, dot: nat)
    requires Reads(value, e, sig, exp, buf, cut, end, dot) && !TooLong(cut, end, dot)
    ensures Times(value, Power(10, e)) == DecimalValue(sig, exp, buf, cut, end, dot)
  {
    hide Power, Decimal;
  }

  /** Beyond them it is ordered against a midpoint as the number is, but a tie counts as above. */
  lemma LongIsOrdered(value: nat, e: int, sig: u64, exp: int, buf: seq<byte>, cut: nat, end: nat, dot: nat, raw: nat)
    requires Reads(value, e, sig, exp, buf, Some(cut), end, dot) && TooLong(Some(cut), end, dot)
    requires !PointBeyond(cut, end, dot) && exp <= 308 && sig - RoundedUp(buf[cut]) >= POW10[18]
    requires OneOfTwo(raw, DecimalValue(sig, exp, buf, Some(cut), end, dot))
    ensures var v := DecimalValue(sig, exp, buf, Some(cut), end, dot);
            Sign(Times(value, Power(10, e)), Half(raw)) == if v == Half(raw) then 1 else Sign(v, Half(raw))
  {
    var v, n, head := DecimalValue(sig, exp, buf, Some(cut), end, dot), Count(cut, end, dot), sig - RoundedUp(buf[cut]);
    ValueAtLeast(sig, exp, buf, cut, end, dot);
    hide Power, Pow, Decimal, Half, Mantissa, Exponent, Digits, PointBeyond;
    PlaceBelowMidpoint(v, exp, raw);
    var b := MidpointIsMultiple(raw, exp);
    LongNumberOrder(value, 750, head, buf, cut, end, dot, b);
    var whole, r := Spelled(head, n, Decimal(buf, cut, end, dot)), n - 749;
    TenScale(b, exp - n, r);
    TenScale(b, exp - 750, 1);
    assert Pow(10, 1) == 10 by { TenOnce(); }
    assert e == exp - 750 && v == Times(whole, Power(10, exp - n));
    OrderCarried(value, whole, b, Pow(10, r), e, exp - n);
  }

  /** The order of the whole numbers is that of what they stand for. */
  lemma OrderCarried(value: nat, whole: nat, b: nat, p: nat, e: int, f: int)
    requires (value < 10 * b) == (whole < b * p) && ((value > 10 * b) == (whole > b * p) <==> whole != b * p)
    ensures var u, v, h := Times(value, Power(10, e)), Times(whole, Power(10, f)), Times(b * p, Power(10, f));
            h == Times(b * 10, Power(10, e)) ==> Sign(u, h) == if v == h then 1 else Sign(v, h)
  {
    hide Power, Times;
    SignOfTimes(value, b * 10, e);
    SignOfTimes(whole, b * p, f);
  }

  lemma TenOnce()
    ensures Pow(10, 1) == 10
  {
  }

  lemma SignOfTimes(a: nat, b: nat, e: int)
    ensures Sign(Times(a, Power(10, e)), Times(b, Power(10, e))) == if a < b then -1 else if a > b then 1 else 0
  {
    PowerPositive(10, e);
    hide Power;
    if a < b {
      TimesMono(a, b, Power(10, e));
    } else if a > b {
      TimesMono(b, a, Power(10, e));
    }
  }

  /** The double that a comparison with the midpoint above `raw` picks. */
  function Picked(raw: nat, cmp: int): nat {
    if cmp != 0 then (if cmp > 0 then raw + 1 else raw) else raw + raw % 2
  }

  lemma BelowHalf(raw: nat, v: real)
    requires OneOfTwo(raw, v) && v < Half(raw)
    ensures RoundsTo(raw, v)
  {
    hide Half;
  }

  lemma AboveHalf(raw: nat, v: real)
    requires OneOfTwo(raw, v) && Half(raw) < v
    ensures RoundsTo(raw + 1, v)
  {
    hide Half;
  }

  lemma OnHalf(raw: nat, v: real)
    requires OneOfTwo(raw, v) && v == Half(raw)
    ensures raw % 2 == 0 ==> RoundsTo(raw, v)
    ensures raw % 2 == 1 ==> RoundsTo(raw + 1, v)
  {
    hide Half;
    Odd(raw);
  }

  lemma Odd(n: nat)
    ensures n % 2 == 1 ==> (n + 1) % 2 == 0
    ensures n % 2 == 0 ==> (n + 1) % 2 == 1
  {
  }

  /** Comparing with the midpoint picks the double, and on a tie the even one. */
  lemma ComparisonDecides(raw: nat, v: real, cmp: int)
    requires OneOfTwo(raw, v) && cmp == Sign(v, Half(raw))
    ensures RoundsTo(Picked(raw, cmp), v)
  {
    hide Half, RoundsTo, OneOfTwo;
    if v < Half(raw) {
      BelowHalf(raw, v);
    } else if v > Half(raw) {
      AboveHalf(raw, v);
    } else {
      OnHalf(raw, v);
    }
  }

  ghost predicate OnTie(v: real) {
    exists raw: nat :: TieToEven(raw, v)
  }

  lemma OnlyTie(raw: nat, v: real, other: nat)
    requires v == Half(raw) && TieToEven(other, v)
    ensures other == raw
  {
    hide Half;
    if other < raw {
      Increasing(other, raw);
    } else if raw < other {
      Increasing(raw, other);
    }
  }

  /** If a tie counts as above, that is wrong exactly when the lower double is even. */
  lemma TieGoesUp(raw: nat, v: real)
    requires OneOfTwo(raw, v) && v == Half(raw)
    ensures RoundsTo(raw + 1, v) <==> raw % 2 == 1
    ensures OnTie(v) <==> raw % 2 == 0
  {
    hide Half;
    OnHalf(raw, v);
    if raw % 2 == 0 {
      Odd(raw);
      assert TieToEven(raw, v);
    }
    forall other: nat | TieToEven(other, v) ensures other == raw {
      OnlyTie(raw, v, other);
    }
  }

  // ---------------------------------------------------------------------------------------
  // The conversion
  // ---------------------------------------------------------------------------------------

  /** What the digits are read as: the double they round to, but with more than 768 of them a tie goes up. */
  ghost predicate ConvertsTo(raw: nat, v: real, long: bool) {
    if long && OnTie(v) then raw > 0 && TieToEven(raw - 1, v) else RoundsTo(raw, v)
  }

  /** What the conversion of the digits to a double achieves, and what it does not. */
  ghost predicate Converted(raw: nat, v: real, long: bool, beyond: bool) {
    !(long && beyond) ==> ConvertsTo(raw, v, long)
  }

  /** They are read as one double only. */
  lemma ConvertsToOne(a: nat, b: nat, v: real, long: bool)
    requires ConvertsTo(a, v, long) && ConvertsTo(b, v, long)
    ensures a == b
  {
    hide Half;
    if long && OnTie(v) {
      OnlyTie(a - 1, v, b - 1);
    } else {
      RoundsToOne(a, b, v);
    }
  }

  /** And as the right one exactly if it is no long tie. */
  lemma ConvertsToRight(raw: nat, v: real, long: bool)
    requires ConvertsTo(raw, v, long)
    ensures RoundsTo(raw, v) <==> !(long && OnTie(v))
    ensures OnTie(v) ==> !RoundsTo(INFINITY, v)
  {
    hide Half;
    if OnTie(v) {
      var tie: nat :| TieToEven(tie, v);
      TieRounds(tie, v);
      if RoundsTo(INFINITY, v) {
        RoundsToOne(tie, INFINITY, v);
      }
      if long && RoundsTo(raw, v) {
        OnlyTie(raw - 1, v, tie);
        RoundsToOne(tie, raw, v);
      }
    }
  }

  lemma TieRounds(tie: nat, v: real)
    requires TieToEven(tie, v)
    ensures RoundsTo(tie, v)
  {
    hide Half;
    if tie > 0 {
      Increasing(tie - 1, tie);
    }
  }

  lemma SureConverts(raw: nat, v: real, long: bool, beyond: bool)
    requires Settles(Sure(raw), v)
    ensures Converted(raw, v, long, beyond)
  {
    hide Half;
    if RoundsStrictly(raw, v) {
      forall other: nat ensures !TieToEven(other, v) {
        StrictNoTie(raw, v, other);
      }
    }
  }

  lemma UnsureConverts(raw: nat, v: real, long: bool, beyond: bool, cmp: int)
    requires OneOfTwo(raw, v)
    requires !long ==> cmp == Sign(v, Half(raw))
    requires long && !beyond ==> cmp == if v == Half(raw) then 1 else Sign(v, Half(raw))
    ensures Converted(Picked(raw, cmp), v, long, beyond)
  {
    hide Half;
    if !long || v != Half(raw) {
      if !long || !beyond {
        ComparisonDecides(raw, v, cmp);
      }
      if v != Half(raw) {
        NoTieBetween(raw, v);
      }
    } else {
      TieGoesUp(raw, v);
    }
  }

  lemma NoTieBetween(raw: nat, v: real)
    requires OneOfTwo(raw, v) && v != Half(raw)
    ensures !OnTie(v)
  {
    hide Half;
    forall other: nat ensures !TieToEven(other, v) {
      if other < raw - 1 {
        Increasing(other, raw - 1);
      } else if other > raw + 1 {
        Increasing(raw + 1, other);
      }
    }
  }

  /** What the big integer stands for when digits are dropped: the ones it keeps, at the scale it reports. */
  ghost function Kept(sig: u64, exp: int, buf: seq<byte>, cut: nat, end: nat, dot: nat): real
    requires Readable(sig, buf, Some(cut), end, dot) && TooLong(Some(cut), end, dot)
  {
    KeptCount(cut, end, dot);
    var e := KeptEnd(cut, end, dot);
    Times(Spelled(sig - RoundedUp(buf[cut]), Count(cut, e, dot), Sticky(Decimal(buf, cut, e, dot))), Power(10, exp - 750))
  }

  lemma KeptIs(value: nat, e: int, sig: u64, exp: int, buf: seq<byte>, cut: nat, end: nat, dot: nat)
    requires Reads(value, e, sig, exp, buf, Some(cut), end, dot) && TooLong(Some(cut), end, dot)
    ensures Times(value, Power(10, e)) == Kept(sig, exp, buf, cut, end, dot)
  {
    hide Power, Spelled, Decimal, Digits, KeptEnd, PointBeyond;
  }

  /** Above the midpoint, or on it if an odd double lies below. */
  ghost predicate Above(u: real, raw: nat) {
    Half(raw) < u || (u == Half(raw) && raw % 2 == 1)
  }

  /** An estimate that is settled, or one of two doubles by what the big integer stands for, and when that is right. */
  ghost predicate TakenBy(r: nat, e: Estimated, kept: real, v: real) {
    match e
    case Sure(raw) => r == raw && RoundsStrictly(raw, v)
    case Unsure(raw) =>
      && OneOfTwo(raw, v) && r == (if Above(kept, raw) then raw + 1 else raw) && (raw > 0 ==> Half(raw) < kept)
      && (RoundsTo(r, v) <==> (Above(kept, raw) <==> Above(v, raw)))
  }

  /** The lower double is right exactly for numbers that are not above. */
  lemma AboveExactly(raw: nat, v: real)
    requires OneOfTwo(raw, v)
    ensures RoundsTo(raw + 1, v) <==> Above(v, raw)
    ensures RoundsTo(raw, v) <==> !Above(v, raw)
  {
    hide Half;
    if v < Half(raw) {
      BelowHalf(raw, v);
      RoundsToApart(raw, raw + 1, v);
    } else if v == Half(raw) {
      TieGoesUp(raw, v);
      OnHalf(raw, v);
      if raw % 2 == 1 {
        RoundsToUp(raw, v);
      }
    } else {
      AboveHalf(raw, v);
      RoundsToUp(raw, v);
    }
  }

  lemma UnsureTaken(raw: nat, v: real, kept: real, cmp: int)
    requires OneOfTwo(raw, v) && cmp == Sign(kept, Half(raw)) && (raw > 0 ==> Half(raw) < kept)
    ensures TakenBy(Picked(raw, cmp), Unsure(raw), kept, v)
  {
    AboveExactly(raw, v);
    hide Half, RoundsTo, OneOfTwo;
  }

  /** Which double or infinity: the second fast path, the estimate, and the exact comparison with the midpoint. */
  method Convert(sig: u64, exp: int, buf: seq<byte>, cut: Option<nat>, end: nat, dot: nat, sig2: u64, ext: u64)
    returns (raw: nat)
    requires Readable(sig, buf, cut, end, dot) && sig > 0 && -343 <= exp <= 308 && Cached(exp, sig2, ext)
    requires cut.Some? ==> sig - RoundedUp(buf[cut.value]) >= POW10[18]
    ensures Converted(raw, DecimalValue(sig, exp, buf, cut, end, dot), TooLong(cut, end, dot),
                      TooLong(cut, end, dot) && PointBeyond(cut.value, end, dot))
    ensures TooLong(cut, end, dot) && PointBeyond(cut.value, end, dot) ==>
              TakenBy(raw, Estimation(sig, exp, true, sig2, ext), Kept(sig, exp, buf, cut.value, end, dot),
                      DecimalValue(sig, exp, buf, cut, end, dot))
  {
    ghost var v := DecimalValue(sig, exp, buf, cut, end, dot);
    ghost var long := TooLong(cut, end, dot);
    ghost var beyond := long && PointBeyond(cut.value, end, dot);
    hide Power, Pow, Half, Decimal, TableEntry, Converted, Mantissa, Exponent, OneOfTwo, Times, PointBeyond, TooLong, Kept;
    if cut.None? && -307 < exp < 288 {
      TableOf(exp, sig2, ext);
      var fast := FastPath(sig, exp, sig2, ext);
      if fast.Some? {
        FastConverts(fast.value, v, long, beyond);
        return fast.value;
      }
    }
    ValueApproximated(sig, exp, buf, cut, end, dot);
    EstimationSettles(v, sig, exp, cut.Some?, sig2, ext);
    var estimate := Estimation(sig, exp, cut.Some?, sig2, ext);
    if estimate.Sure? {
      SureConverts(estimate.raw, v, long, beyond);
      return estimate.raw;
    }
    raw := estimate.raw;
    var cmp := CompareWithHalf(sig, exp, buf, cut, end, dot, raw);
    UnsureConverts(raw, v, long, beyond, cmp);
    if beyond {
      UnsureTaken(raw, v, Kept(sig, exp, buf, cut.value, end, dot), cmp);
    }
    raw := Picked(raw, cmp);
  }

  lemma TableOf(exp: int, sig2: u64, ext: u64)
    requires Cached(exp, sig2, ext)
    ensures TableEntry(exp, sig2, ext)
  {
  }

  lemma FastConverts(raw: nat, v: real, long: bool, beyond: bool)
    requires CorrectlyRounded(raw, v) && !long
    ensures Converted(raw, v, long, beyond)
  {
    NearestRounds(raw, v);
    hide RoundsTo, CorrectlyRounded;
  }

  lemma HalfInRange(sig: u64, exp: int, buf: seq<byte>, cut: Option<nat>, end: nat, dot: nat, raw: nat)
    requires Readable(sig, buf, cut, end, dot) && sig > 0 && -343 <= exp <= 308
    requires OneOfTwo(raw, DecimalValue(sig, exp, buf, cut, end, dot))
    ensures InRange(exp, Exponent(raw) - 1) && Mantissa(raw) < 2 * HIDDEN
  {
    hide Half, DecimalValue, Readable;
    FiniteExponent(raw);
    ValueApproximated(sig, exp, buf, cut, end, dot);
    if Exponent(raw) - 1 > 0 {
      LargeMidpoint(DecimalValue(sig, exp, buf, cut, end, dot), sig, exp, cut.Some?, raw);
    }
  }

  lemma HalfIsTimes(raw: nat)
    ensures Half(raw) == (2 * Mantissa(raw) + 1) as real * Power(2, Exponent(raw) - 1)
  {
  }

  /** The big integers: the number against the midpoint above the estimate. */
  method CompareWithHalf(sig: u64, exp: int, buf: seq<byte>, cut: Option<nat>, end: nat, dot: nat, raw: nat)
    returns (cmp: int)
    requires Readable(sig, buf, cut, end, dot) && sig > 0 && -343 <= exp <= 308
    requires cut.Some? ==> sig - RoundedUp(buf[cut.value]) >= POW10[18]
    requires OneOfTwo(raw, DecimalValue(sig, exp, buf, cut, end, dot))
    ensures var v := DecimalValue(sig, exp, buf, cut, end, dot);
            && (!TooLong(cut, end, dot) ==> cmp == Sign(v, Half(raw)))
            && (TooLong(cut, end, dot) && !PointBeyond(cut.value, end, dot) ==>
                 cmp == if v == Half(raw) then 1 else Sign(v, Half(raw)))
            && (TooLong(cut, end, dot) ==> cmp == Sign(Kept(sig, exp, buf, cut.value, end, dot), Half(raw)))
            && (TooLong(cut, end, dot) && PointBeyond(cut.value, end, dot) && raw > 0 ==>
                 Half(raw) < Kept(sig, exp, buf, cut.value, end, dot))
  {
    hide Power, Pow, Decimal, Mantissa, Exponent, DecimalValue, Reads, PointBeyond, InRange, Half, OneOfTwo, Kept;
    var full := new BigNum(0);
    var comp := new BigNum(0);
    HalfInRange(sig, exp, buf, cut, end, dot, raw);
    HalfIsTimes(raw);
    ghost var value, e;
    var upper: u64 := 2 * Mantissa(raw) + 1;
    cmp, value, e := Compare(full, comp, sig, exp, buf, cut, end, dot, upper, Exponent(raw) - 1);
    assert value as real * Power(10, e) == Times(value, Power(10, e));
    assert upper as real * Power(2, Exponent(raw) - 1) == Half(raw);
    assert cmp == Sign(Times(value, Power(10, e)), Half(raw));
    if !TooLong(cut, end, dot) {
      ShortIsExact(value, e, sig, exp, buf, cut, end, dot);
      return;
    }
    KeptIs(value, e, sig, exp, buf, cut.value, end, dot);
    if !PointBeyond(cut.value, end, dot) {
      LongIsOrdered(value, e, sig, exp, buf, cut.value, end, dot, raw);
    } else if raw > 0 {
      BeyondIsAbove(value, e, sig, exp, buf, cut.value, end, dot, raw);
    }
  }

  /** With the point among the dropped digits, the big integer is above every midpoint in question. */
  lemma BeyondIsAbove(value: nat, e: int, sig: u64, exp: int, buf: seq<byte>, cut: nat, end: nat, dot: nat, raw: nat)
    requires Reads(value, e, sig, exp, buf, Some(cut), end, dot) && TooLong(Some(cut), end, dot)
    requires PointBeyond(cut, end, dot) && sig - RoundedUp(buf[cut]) > 0
    requires raw > 0 && OneOfTwo(raw, DecimalValue(sig, exp, buf, Some(cut), end, dot))
    ensures Sign(Times(value, Power(10, e)), Half(raw)) == 1
  {
    var v, n, head := DecimalValue(sig, exp, buf, Some(cut), end, dot), Count(cut, end, dot), sig - RoundedUp(buf[cut]);
    PointBeyondMisscales(value, 750, head, buf, cut, end, dot);
    HalfTripled(raw);
    hide Power, Pow, Decimal, Half, Digits, PointBeyond;
    var whole := Spelled(head, n, Decimal(buf, cut, end, dot));
    assert e == exp - 750 && v == Times(whole, Power(10, exp - n));
    TenScale(value, exp - n, n - 750);
    PowerPositive(10, exp - n);
    TimesMono(9 * whole, value * Pow(10, n - 750), Power(10, exp - n));
    NineTimes(whole, Power(10, exp - n));
    hide Spelled, Reads, DecimalValue, Times;
  }

  lemma NineTimes(k: nat, w: real)
    ensures Times(9 * k, w) == 9.0 * Times(k, w)
  {
  }

  /** A midpoint is at most three times the one before, and so less than nine times what is above that. */
  lemma HalfTripled(raw: nat)
    requires raw > 0
    ensures 0.0 < Half(raw) <= 3.0 * Half(raw - 1)
  {
    var m, t := Mantissa(raw - 1), Exponent(raw - 1) - 1;
    NextDouble(raw - 1);
    FloatDouble(2 * HIDDEN + 1, t + 1);
    assert Half(raw) == Float(if m + 1 < 2 * HIDDEN then 2 * m + 3 else 4 * HIDDEN + 2, t);
    PowerPositive(2, t);
    hide Power, Mantissa, Exponent;
    TimesMono(if m + 1 < 2 * HIDDEN then 2 * m + 3 else 4 * HIDDEN + 2, 3 * (2 * m + 1), Power(2, t));
    TimesMono(0, 2 * m + 1, Power(2, t));
    ThreeTimes(2 * m + 1, Power(2, t));
    HalfPositive(raw);
  }

  lemma ThreeTimes(k: nat, w: real)
    ensures Times(3 * k, w) == 3.0 * Times(k, w)
  {
  }

  lemma HalfPositive(raw: nat)
    ensures Half(raw) > 0.0
  {
    PowerPositive(2, Exponent(raw) - 1);
    hide Power;
    TimesMono(0, 2 * Mantissa(raw) + 1, Power(2, Exponent(raw) - 1));
  }
}
