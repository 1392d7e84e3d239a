/** The slow path of the number reader up to the exact comparison: the estimate, rounded as far as it settles. */
module SlowPath {
  import opened Bytes
  import opened Word64
  import opened BigInt
  import opened BigCompare
  import opened FastFloat
  import opened Doubles
  import opened DiyFloat
  import opened SmallestDouble

  // ---------------------------------------------------------------------------------------
  // Where the number lies
  // ---------------------------------------------------------------------------------------

  lemma GridScale(k: int, x: int, p: nat)
    ensures Times(k, Power(2, x + p - 1)) == Times(k * (4 * Pow(2, p)), Power(2, x - 3))
    ensures Times(k, Power(2, x + p - 2)) == Times(k * (2 * Pow(2, p)), Power(2, x - 3))
  {
    TimesScale(k, x - 3, p + 2);
    TimesScale(k, x - 3, p + 1);
    assert Pow(2, p + 2) == 2 * Pow(2, p + 1) && Pow(2, p + 1) == 2 * Pow(2, p);
    hide Power, Times;
  }

  lemma GridBounds(sig: nat, err: nat, q: nat)
    requires err <= q && q > 0
    ensures var l, low := sig / q, sig % q;
            && (4 * l - 1) * (2 * q) <= 8 * sig - err
            && 8 * sig + err <= (2 * l + 3) * (4 * q)
            && (8 * low >= 4 * q + err ==> (2 * l + 1) * (4 * q) <= 8 * sig - err)
            && (8 * low + err <= 4 * q ==> 8 * sig + err <= (2 * l + 1) * (4 * q))
  {
    var l, low := sig / q, sig % q;
    assert sig == l * q + low;
    Distributes(4 * l, 1, 2 * q);
    Distributes(2 * l, 3, 4 * q);
    Distributes(2 * l, 1, 4 * q);
    assert 4 * l * (2 * q) == 8 * (l * q) && 2 * l * (4 * q) == 8 * (l * q);
  }

  /** What the error bound says of the top digits `l`, in units of two to the `s`. */
  ghost predicate Placed(v: real, l: nat, s: int) {
    Times(4 * l - 1, Power(2, s - 2)) < v < Times(2 * l + 3, Power(2, s - 1))
  }

  lemma AboveGrid(v: real, sig: nat, err: nat, x: int, p: nat, k: int)
    requires Within(v, sig, err, x)
    ensures k * (4 * Pow(2, p)) <= 8 * sig - err ==> Times(k, Power(2, x + p - 1)) < v
    ensures k * (2 * Pow(2, p)) <= 8 * sig - err ==> Times(k, Power(2, x + p - 2)) < v
  {
    hide Power, Times, Pow;
    GridScale(k, x, p);
    if k * (4 * Pow(2, p)) <= 8 * sig - err {
      TimesAtMost(k * (4 * Pow(2, p)), 8 * sig - err, x - 3);
    }
    if k * (2 * Pow(2, p)) <= 8 * sig - err {
      TimesAtMost(k * (2 * Pow(2, p)), 8 * sig - err, x - 3);
    }
  }

  lemma BelowGrid(v: real, sig: nat, err: nat, x: int, p: nat, k: int)
    requires Within(v, sig, err, x)
    ensures 8 * sig + err <= k * (4 * Pow(2, p)) ==> v < Times(k, Power(2, x + p - 1))
    ensures 8 * sig + err <= k * (2 * Pow(2, p)) ==> v < Times(k, Power(2, x + p - 2))
  {
    hide Power, Times, Pow;
    GridScale(k, x, p);
    if 8 * sig + err <= k * (4 * Pow(2, p)) {
      TimesAtMost(8 * sig + err, k * (4 * Pow(2, p)), x - 3);
    }
    if 8 * sig + err <= k * (2 * Pow(2, p)) {
      TimesAtMost(8 * sig + err, k * (2 * Pow(2, p)), x - 3);
    }
  }

  lemma Places(v: real, sig: nat, err: nat, x: int, p: nat)
    requires Within(v, sig, err, x) && err <= Pow(2, p)
    ensures Pow(2, p) > 0
    ensures var q := Pow(2, p);
            var l, low, s := sig / q, sig % q, x + p;
            && Placed(v, l, s)
            && (8 * low >= 4 * q + err ==> Times(2 * l + 1, Power(2, s - 1)) < v)
            && (8 * low + err <= 4 * q ==> v < Times(2 * l + 1, Power(2, s - 1)))
  {
    hide Power, Times, Pow;
    PowPositive(2, p);
    var q := Pow(2, p);
    var l := sig / q;
    GridBounds(sig, err, q);
    AboveGrid(v, sig, err, x, p, 4 * l - 1);
    BelowGrid(v, sig, err, x, p, 2 * l + 3);
    AboveGrid(v, sig, err, x, p, 2 * l + 1);
    BelowGrid(v, sig, err, x, p, 2 * l + 1);
    hide Within;
  }

  // ---------------------------------------------------------------------------------------
  // The bits
  // ---------------------------------------------------------------------------------------

  /** diy_fp_to_ieee_raw. */
  function ToRaw(sig: u64, exp: int): nat {
    if sig == 0 then 0
    else
      var lz := LeadingZeros(sig);
      var m := sig * Pow(2, lz) / 2048;
      var e := exp - lz + 63;
      if e >= 1024 then INFINITY
      else if e >= -1022 then (e + 1023) * HIDDEN + m % HIDDEN
      else if e >= -1074 then (PowPositive(2, -1022 - e); m / Pow(2, -1022 - e))
      else 0
  }

  /** A significand and exponent as a double has them. */
  predicate Fits(l: nat, s: int) {
    (HIDDEN <= l < 2 * HIDDEN && s >= -1074) || (l < HIDDEN && s == -1074)
  }

  function RawOf(l: nat, s: int): nat
    requires Fits(l, s)
  {
    if s >= 972 then INFINITY else if l < HIDDEN then l else (s + 1075) * HIDDEN + (l - HIDDEN)
  }

  lemma RawParts(l: nat, s: int)
    requires Fits(l, s) && s < 972
    ensures RawOf(l, s) < INFINITY && Mantissa(RawOf(l, s)) == l && Exponent(RawOf(l, s)) == s
  {
    if l >= HIDDEN {
      assert RawOf(l, s) / HIDDEN == s + 1075 && RawOf(l, s) % HIDDEN == l - HIDDEN;
    }
  }

  lemma LeadingZerosAre(x: u64, n: nat)
    requires 0 < x && TOP <= x * Pow(2, n) < WORD
    ensures LeadingZeros(x) == n
  {
    var m := LeadingZeros(x);
    if m < n {
      Doubles2(x, m, n);
    } else if n < m {
      Doubles2(x, n, m);
    }
  }

  lemma Doubles2(x: nat, m: nat, n: nat)
    requires m < n
    ensures 2 * (x * Pow(2, m)) <= x * Pow(2, n)
  {
    PowMono(2, m + 1, n);
    MulMono(Pow(2, m + 1), Pow(2, n), x);
    assert x * Pow(2, m + 1) == 2 * (x * Pow(2, m));
  }

  lemma Powers()
    ensures Pow(2, 10) == 1024 && Pow(2, 11) == 2048 && Pow(2, 52) == HIDDEN && Pow(2, 63) == TOP
  {
    assert Pow(2, 10) == 1024;
    PowAdd(2, 10, 10);
    PowAdd(2, 20, 20);
    PowAdd(2, 40, 10);
    PowAdd(2, 50, 2);
    assert Pow(2, 2) == 4;
    PowAdd(2, 52, 11);
  }

  lemma ToRawNormal(l: nat, s: int)
    requires HIDDEN <= l <= 2 * HIDDEN && s >= -1074
    ensures ToRaw(l, s) == if l < 2 * HIDDEN then RawOf(l, s) else if s >= 971 then INFINITY else (s + 1076) * HIDDEN
  {
    Powers();
    if l < 2 * HIDDEN {
      LeadingZerosAre(l, 11);
      assert l * 2048 / 2048 == l;
    } else {
      LeadingZerosAre(l, 10);
      assert l * 1024 / 2048 == HIDDEN;
    }
    hide Pow, LeadingZeros;
  }

  /** How far a subnormal significand is from a normal one. */
  lemma {:induction false} Shift(l: nat) returns (j: nat)
    requires 0 < l < HIDDEN
    ensures 1 <= j <= 52 && HIDDEN <= l * Pow(2, j) < 2 * HIDDEN
    decreases HIDDEN - l
  {
    if 2 * l >= HIDDEN {
      j := 1;
      assert Pow(2, 1) == 2;
    } else {
      var i := Shift(2 * l);
      j := i + 1;
      assert l * Pow(2, i + 1) == 2 * l * Pow(2, i);
      ShiftRoom(l, j);
    }
  }

  lemma ShiftRoom(l: nat, j: nat)
    requires 0 < l && l * Pow(2, j) < 2 * HIDDEN
    ensures j <= 52
  {
    Powers();
    PowOrder(53, j);
    PowNext(2, 52);
    MulMono(1, l, Pow(2, j));
    hide Pow;
  }

  lemma PowOrder(m: nat, n: nat)
    ensures m <= n ==> Pow(2, m) <= Pow(2, n)
  {
    if m <= n {
      PowMono(2, m, n);
    }
  }

  lemma ToRawShifted(l: nat, j: nat)
    requires 0 < l && 1 <= j <= 52 && HIDDEN <= l * Pow(2, j) < 2 * HIDDEN && l < HIDDEN
    ensures ToRaw(l, -1074) == l
  {
    Powers();
    PowAdd(2, j, 11);
    PowPositive(2, j);
    hide Pow, LeadingZeros;
    var m := l * Pow(2, j);
    assert l * Pow(2, j + 11) == m * 2048 by { Regroup(l, Pow(2, j)); }
    LeadingZerosAre(l, j + 11);
    assert m * 2048 / 2048 == m;
    Divides(l, Pow(2, j));
  }

  lemma Regroup(l: nat, q: nat)
    ensures l * (q * 2048) == l * q * 2048
  {
  }

  lemma ToRawSubnormal(l: nat)
    requires l < HIDDEN
    ensures ToRaw(l, -1074) == l
  {
    hide Pow;
    if l > 0 {
      var j := Shift(l);
      ToRawShifted(l, j);
    }
  }

  lemma Divides(l: nat, q: nat)
    requires q > 0
    ensures l * q / q == l
  {
    var k := l * q / q;
    var r := l * q % q;
    assert l * q == k * q + r;
    Distributes(l, k, q);
    if l != k {
      MulMono(1, if l > k then l - k else k - l, q);
    }
  }

  lemma ToRawTiny(l: nat, s: int)
    requires l <= 1 && s < -1074
    ensures ToRaw(l, s) == 0
  {
    if l == 1 {
      Powers();
      LeadingZerosAre(1, 63);
      hide Pow, LeadingZeros;
    }
  }

  /** The conversion is exact, and goes to the next double with the next significand. */
  lemma ToRawIs(l: nat, s: int)
    requires Fits(l, s)
    ensures ToRaw(l, s) == RawOf(l, s)
    ensures ToRaw(l + 1, s) == if s >= 972 then INFINITY else RawOf(l, s) + 1
  {
    hide ToRaw;
    if l < HIDDEN {
      ToRawSubnormal(l);
    } else {
      ToRawNormal(l, s);
    }
    if l + 1 < HIDDEN {
      ToRawSubnormal(l + 1);
    } else {
      ToRawNormal(l + 1, s);
    }
  }

  // ---------------------------------------------------------------------------------------
  // What is settled
  // ---------------------------------------------------------------------------------------

  lemma HalfBefore(raw: nat)
    requires raw > 0
    ensures Half(raw - 1) <= Times(4 * Mantissa(raw) - 1, Power(2, Exponent(raw) - 2))
  {
    NextDouble(raw - 1);
    var m, e := Mantissa(raw), Exponent(raw);
    if Exponent(raw - 1) == e {
      FloatDouble(2 * m - 1, e - 1);
      TimesAtMost(4 * m - 2, 4 * m - 1, e - 2);
    }
    hide Power, Times;
  }

  lemma HalfAfter(raw: nat)
    ensures Times(2 * Mantissa(raw) + 3, Power(2, Exponent(raw) - 1)) <= Half(raw + 1)
  {
    NextDouble(raw);
    var m, e := Mantissa(raw), Exponent(raw);
    if Exponent(raw + 1) != e {
      FloatDouble(2 * HIDDEN + 1, e);
      TimesAtMost(2 * m + 3, 4 * HIDDEN + 2, e - 1);
    }
    hide Power, Times;
  }

  lemma RoundsDown(v: real, l: nat, s: int)
    requires Fits(l, s) && s < 972 && Placed(v, l, s) && v < Times(2 * l + 1, Power(2, s - 1))
    ensures RoundsStrictly(RawOf(l, s), v)
  {
    RawParts(l, s);
    var raw := RawOf(l, s);
    if raw > 0 {
      HalfBefore(raw);
    }
    assert Half(raw) == Times(2 * l + 1, Power(2, s - 1));
    hide Power, Times, Half, Mantissa, Exponent;
  }

  lemma RoundsUp(v: real, l: nat, s: int)
    requires Fits(l, s) && s < 972 && Placed(v, l, s) && Times(2 * l + 1, Power(2, s - 1)) < v
    ensures RoundsStrictly(RawOf(l, s) + 1, v)
  {
    RawParts(l, s);
    var raw := RawOf(l, s);
    HalfAfter(raw);
    assert Half(raw) == Times(2 * l + 1, Power(2, s - 1));
    hide Power, Times, Half, Mantissa, Exponent;
  }

  /** Not settled: it is this double or the next. */
  ghost predicate OneOfTwo(raw: nat, v: real) {
    raw < INFINITY && (raw > 0 ==> Half(raw - 1) < v) && v < Half(raw + 1)
  }

  lemma StaysOpen(v: real, l: nat, s: int)
    requires Fits(l, s) && s < 972 && Placed(v, l, s)
    ensures OneOfTwo(RawOf(l, s), v)
  {
    RawParts(l, s);
    var raw := RawOf(l, s);
    if raw > 0 {
      HalfBefore(raw);
    }
    HalfAfter(raw);
    hide Power, Times, Half, Mantissa, Exponent;
  }

  lemma LargestHalf()
    ensures Half(INFINITY - 1) == Times(4 * HIDDEN - 1, Power(2, 970))
  {
    RawParts(2 * HIDDEN - 1, 971);
    hide Power;
  }

  lemma Overflows(v: real, l: nat, s: int)
    requires HIDDEN <= l && s >= 972 && Placed(v, l, s)
    ensures RoundsStrictly(INFINITY, v)
  {
    LargestHalf();
    var b := s - 972;
    TimesScale(4 * l - 1, 970, b);
    PowPositive(2, b);
    MulMono(1, Pow(2, b), 4 * l - 1);
    TimesAtMost(4 * HIDDEN - 1, (4 * l - 1) * Pow(2, b), 970);
    hide Power, Times, Half, Pow;
  }

  lemma SmallestHalf()
    ensures Half(0) == Power(2, -1075)
  {
    assert Half(0) == Float(1, -1075);
    hide Power;
  }

  // ---------------------------------------------------------------------------------------
  // The estimate
  // ---------------------------------------------------------------------------------------

  datatype Estimated = Sure(raw: nat) | Unsure(raw: nat)

  /** What the caller may take from an estimate. */
  ghost predicate Settles(r: Estimated, v: real) {
    match r
    case Sure(raw) => RoundsStrictly(raw, v)
    case Unsure(raw) => OneOfTwo(raw, v)
  }

  /** The top digits and what is below them, ready to be rounded. */
  ghost predicate Ready(v: real, sig: nat, err: nat, x: int, digits: nat) {
    && Within(v, sig, err, x) && 0 < err <= 200 && 11 <= digits <= 60 && sig < WORD
    && Pow(2, digits) > 0
    && var l, s := sig / Pow(2, digits), x + digits;
       Fits(l, s) || (l == 0 && s < -1074 && v < Half(0))
  }

  lemma DigitsRoom(digits: nat)
    requires 11 <= digits <= 60
    ensures Pow(2, digits) >= 2048 && 2 * Pow(2, digits - 1) == Pow(2, digits) && 8 * Pow(2, digits) <= TOP
  {
    Powers();
    PowMono(2, 11, digits);
    PowMono(2, digits, 60);
    PowAdd(2, 60, 3);
    assert Pow(2, 3) == 8;
    hide Pow;
    assert Pow(2, digits) == 2 * Pow(2, digits - 1) by { PowNext(2, digits - 1); }
  }

  lemma QuotientSmall(sig: u64, q: nat)
    requires q >= 2048
    ensures sig / q + 1 < WORD
  {
    var k := sig / q;
    assert sig == k * q + sig % q;
    MulMono(2048, q, k);
  }

  function RoundedTop(sig: u64, q: nat, up: bool): (top: u64)
    requires q >= 2048
    ensures top == if up then sig / q + 1 else sig / q
  {
    QuotientSmall(sig, q);
    if up then sig / q + 1 else sig / q
  }

  function Outcome(raw: nat, sure: bool): Estimated {
    if sure || raw == INFINITY then Sure(raw) else Unsure(raw)
  }

  lemma FitSettles(v: real, l: nat, s: int, up: bool, down: bool)
    requires Fits(l, s) && Placed(v, l, s) && !(up && down)
    requires up ==> Times(2 * l + 1, Power(2, s - 1)) < v
    requires down ==> v < Times(2 * l + 1, Power(2, s - 1))
    ensures Settles(Outcome(ToRaw(if up then l + 1 else l, s), up || down), v)
  {
    hide Pow, Times, Power, ToRaw, RoundsStrictly, Half, OneOfTwo;
    ToRawIs(l, s);
    if s >= 972 {
      Overflows(v, l, s);
    } else {
      RawParts(l, s);
      StaysOpen(v, l, s);
      if up {
        RoundsUp(v, l, s);
      } else if down {
        RoundsDown(v, l, s);
      }
    }
  }

  /** Rounding the top digits by those below, as far as the error bound allows. */
  function Rounding(sig: u64, err: nat, x: int, digits: nat): Estimated
    requires 11 <= digits <= 60
  {
    DigitsRoom(digits);
    var q := Pow(2, digits);
    var bits := sig % q * 8;
    var half := Pow(2, digits - 1) * 8;
    var up := bits >= half + err;
    Outcome(ToRaw(RoundedTop(sig, q, up), x + digits), up || bits <= half - err)
  }

  lemma RoundingSettles(v: real, sig: u64, err: nat, x: int, digits: nat)
    requires Ready(v, sig, err, x, digits)
    ensures Settles(Rounding(sig, err, x, digits), v)
  {
    hide Pow, Times, Power, ToRaw, RoundsStrictly, Half, OneOfTwo, Within, Placed, Settles, RoundedTop;
    DigitsRoom(digits);
    Places(v, sig, err, x, digits);
    var q := Pow(2, digits);
    var bits := sig % q * 8;
    var half := Pow(2, digits - 1) * 8;
    assert half == 4 * q && err <= half && half + err < WORD;
    var up, down := bits >= half + err, bits <= half - err;
    var l, s := sig / q, x + digits;
    assert Rounding(sig, err, x, digits) == Outcome(ToRaw(RoundedTop(sig, q, up), s), up || down);
    if Fits(l, s) {
      FitSettles(v, l, s, up, down);
    } else {
      ToRawTiny(RoundedTop(sig, q, up), s);
      TinySettles(v);
    }
  }

  lemma TinySettles(v: real)
    requires v < Half(0)
    ensures Settles(Sure(0), v) && Settles(Unsure(0), v)
  {
    Increasing(0, 1);
    hide Half;
  }

  // The whole estimate.

  lemma SmallShift(lz: nat)
    requires lz <= 4
    ensures Pow(2, lz) <= 16
  {
    PowMono(2, lz, 4);
    assert Pow(2, 4) == 16;
  }

  /** A significand of nineteen digits has its top bit among the first five. */
  lemma LongSignificand(sig: u64)
    requires sig >= POW10[18]
    ensures LeadingZeros(sig) <= 4
  {
    var n := LeadingZeros(sig);
    if n > 4 {
      PowMono(2, 5, n);
      assert Pow(2, 5) == 32;
      MulMono(32, Pow(2, n), sig);
    }
  }

  lemma ErrorSmall(sig: u64, cut: bool, lz: nat)
    requires sig > 0 && (cut ==> sig >= POW10[18]) && lz == LeadingZeros(sig)
    ensures 0 < ProductError(FirstError(cut, lz)) <= 73
  {
    if cut {
      LongSignificand(sig);
      SmallShift(lz);
      PowPositive(2, lz);
    }
  }

  /** The product of two normalised words is at most one bit short of normalised. */
  lemma ProductHigh(f: u64, c: u64)
    requires f >= TOP && c >= TOP
    ensures TOP <= 2 * MulRounded(f, c) < 2 * WORD
  {
    ProductAtLeast(f, c);
    ProductLessThan(f, c);
    MulRoundedNear(f, c);
    hide MulRounded;
  }

  lemma OneBit(p: u64)
    requires TOP <= 2 * p
    ensures p > 0 && LeadingZeros(p) <= 1 && Pow(2, LeadingZeros(p)) <= 2
  {
    if p >= TOP {
      assert Pow(2, 0) == 1;
      LeadingZerosAre(p, 0);
    } else {
      assert Pow(2, 1) == 2;
      LeadingZerosAre(p, 1);
    }
  }

  /** How many of the 64 digits are kept: 53, or fewer below the normal doubles. */
  function Effective(order: int): nat {
    if order >= -1021 then 53 else if order <= -1074 then 0 else order + 1074
  }

  lemma ReadyNormal(v: real, sig: u64, err: nat, x: int)
    requires Within(v, sig, err, x) && 0 < err <= 150 && TOP <= sig && 64 + x >= -1021
    ensures Ready(v, sig, err, x, 11)
  {
    Powers();
  }

  lemma QuotientBelow(a: nat, q: nat, k: nat)
    requires q > 0 && a < k * q
    ensures a / q < k
  {
    var m := a / q;
    assert a == m * q + a % q;
    if k <= m {
      MulMono(k, m, q);
    }
  }

  /** The top digits of a normalised word. */
  lemma TopDigits(sig: u64, eff: nat)
    requires eff <= 52
    ensures Pow(2, 64 - eff) > 0 && sig / Pow(2, 64 - eff) < HIDDEN
    ensures eff == 0 ==> sig / Pow(2, 64 - eff) == 0
  {
    hide Pow;
    PowPositive(2, 64 - eff);
    PowAdd(2, eff, 64 - eff);
    Pow2Word();
    Powers();
    PowMono(2, eff, 52);
    PowAtZero(2);
    QuotientBelow(sig, Pow(2, 64 - eff), Pow(2, eff));
  }

  lemma ReadyLow(v: real, sig: u64, err: nat, x: int)
    requires Within(v, sig, err, x) && 0 < err <= 150 && -1074 < 64 + x < -1021 && Effective(64 + x) > 3
    ensures Ready(v, sig, err, x, 64 - Effective(64 + x))
  {
    TopDigits(sig, Effective(64 + x));
    hide Pow;
  }

  lemma DivideTwice(a: nat, b: nat, c: nat)
    requires b > 0 && c > 0
    ensures b * c > 0 && a / b / c == a / (b * c)
  {
    var k := a / b;
    var m := k / c;
    Divided(a, b, c, k, m, a % b, k % c);
  }

  lemma Divided(a: nat, b: nat, c: nat, k: nat, m: nat, i: nat, j: nat)
    requires i < b && j < c && a == k * b + i && k == m * c + j
    ensures b * c > 0 && m == a / (b * c)
  {
    TwiceRemainder(m, b, c, i, j);
    QuotientIs(a, b * c, m, j * b + i);
  }

  lemma TwiceRemainder(m: nat, b: nat, c: nat, i: nat, j: nat)
    requires i < b && j < c
    ensures b * c > 0 && (m * c + j) * b + i == m * (b * c) + (j * b + i) && j * b + i < b * c
  {
    Distributes(m * c, j, b);
    assert m * c * b == m * (b * c);
    MulMono(j, c - 1, b);
    Distributes(c, 1, b);
  }

  lemma QuotientIs(a: nat, d: nat, m: nat, r: nat)
    requires d > 0 && a == m * d + r && r < d
    ensures a / d == m
  {
    var k := a / d;
    assert a == k * d + a % d;
    Distributes(m, k, d);
    if m != k {
      MulMono(1, if m > k then m - k else k - m, d);
    }
  }

  /** Near underflow the word is shortened so that the error keeps three digits of room. */
  lemma ReadyTiny(v: real, sig: u64, err: nat, x: int, shr: nat)
    requires Within(v, sig, err, x) && 0 < err <= 150 && 64 + x < -1021 && Effective(64 + x) <= 3
    requires shr == 4 - Effective(64 + x) && (64 + x < -1074 ==> v < Half(0))
    ensures Pow(2, shr) > 0 && sig / Pow(2, shr) >= 0 && err / Pow(2, shr) >= 0
    ensures Ready(v, sig / Pow(2, shr), err / Pow(2, shr) + 9, x + shr, 60)
  {
    hide Pow, Within, Half, Fits, Ready, Effective;
    Shortened(v, sig, err, x, shr);
    ShortTop(sig, err, Effective(64 + x), shr);
    var short, left := sig / Pow(2, shr), err / Pow(2, shr);
    TinyFits(short / Pow(2, 60), x, shr);
    ReadySixty(v, short, left + 9, x + shr);
  }

  lemma ShortTop(sig: u64, err: nat, eff: nat, shr: nat)
    requires eff <= 3 && shr == 4 - eff && err <= 150
    ensures Pow(2, shr) > 0 && Pow(2, 60) > 0
    ensures 0 <= sig / Pow(2, shr) < WORD && 0 <= err / Pow(2, shr) && err / Pow(2, shr) + 9 <= 200
    ensures 0 <= sig / Pow(2, shr) / Pow(2, 60) < HIDDEN && (eff == 0 ==> sig / Pow(2, shr) / Pow(2, 60) == 0)
  {
    hide Pow;
    TopDigits(sig, eff);
    PowAdd(2, shr, 60);
    PowPositive(2, 60);
    PowPositive(2, shr);
    ShortSmaller(sig, err, Pow(2, shr));
    TwiceInto(sig, Pow(2, shr), Pow(2, 60), Pow(2, 64 - eff));
  }

  lemma TwiceInto(a: nat, b: nat, c: nat, d: nat)
    requires b > 0 && c > 0 && d == b * c
    ensures d > 0 && 0 <= a / b / c == a / d
  {
    DivideTwice(a, b, c);
  }

  lemma ReadySixty(v: real, sig: u64, err: nat, x: int)
    requires Pow(2, 60) > 0 && Within(v, sig, err, x) && 0 < err <= 200
    requires Fits(sig / Pow(2, 60), x + 60) || (sig / Pow(2, 60) == 0 && x + 60 < -1074 && v < Half(0))
    ensures Ready(v, sig, err, x, 60)
  {
    hide Pow, Within, Half, Fits;
  }

  lemma TinyFits(l: nat, x: int, shr: nat)
    requires 64 + x < -1021 && Effective(64 + x) <= 3 && shr == 4 - Effective(64 + x)
    requires l < HIDDEN && (Effective(64 + x) == 0 ==> l == 0)
    ensures var s := x + shr + 60; Fits(l, s) || (l == 0 && s == 64 + x < -1074)
  {
  }

  lemma ShortSmaller(sig: u64, err: nat, q: nat)
    requires q > 0 && err <= 150
    ensures 0 <= sig / q < WORD && 0 <= err / q && err / q + 9 <= 200
  {
    QuotientAtMost(sig, q);
    QuotientAtMost(err, q);
  }

  function NormalWord(x: u64): (w: u64)
    requires x > 0
    ensures TOP <= w && w == x * Pow(2, LeadingZeros(x))
  {
    x * Pow(2, LeadingZeros(x))
  }

  /** A normalised word, shortened where few digits are kept, and rounded. */
  function WordRounding(word: u64, err: nat, x: int): Estimated {
    var digits := 64 - Effective(64 + x);
    if digits + 3 >= 64 then
      var shr := digits + 3 - 64 + 1;
      PowPositive(2, shr);
      QuotientAtMost(word, Pow(2, shr));
      Rounding(word / Pow(2, shr), err / Pow(2, shr) + 1 + 8, x + shr, digits - shr)
    else
      Rounding(word, err, x, digits)
  }

  lemma QuotientAtMost(a: nat, q: nat)
    requires q > 0
    ensures 0 <= a / q <= a
  {
    assert a == a / q * q + a % q;
    MulMono(1, q, a / q);
  }

  /** The estimate of the slow path: the rounded bits, and whether they are certain. */
  function Estimation(sig: u64, exp: int, cut: bool, sig2: u64, ext: u64): Estimated
    requires sig > 0 && sig2 >= TOP && CachedSig(sig2, ext) < WORD
  {
    var lz := LeadingZeros(sig);
    var fp := ProductWord(NormalWord(sig), CachedSig(sig2, ext));
    var b := LeadingZeros(fp);
    WordRounding(NormalWord(fp), ProductError(FirstError(cut, lz)) * Pow(2, b), TableExp(exp) + 64 - lz - b)
  }

  lemma WordSettles(v: real, word: u64, err: nat, x: int)
    requires Within(v, word, err, x) && 0 < err <= 150 && TOP <= word
    requires 64 + x < -1074 ==> v < Half(0)
    ensures Settles(WordRounding(word, err, x), v)
  {
    hide Pow, Settles, Within, Ready, Rounding;
    var digits := 64 - Effective(64 + x);
    if digits + 3 >= 64 {
      var shr := digits + 3 - 64 + 1;
      ReadyTiny(v, word, err, x, shr);
      QuotientAtMost(word, Pow(2, shr));
      RoundingSettles(v, word / Pow(2, shr), err / Pow(2, shr) + 9, x + shr, 60);
    } else {
      if digits == 11 {
        ReadyNormal(v, word, err, x);
      } else {
        ReadyLow(v, word, err, x);
      }
      RoundingSettles(v, word, err, x, digits);
    }
  }

  /** The product normalised again, with its error. */
  lemma ProductNormalised(v: real, sig: u64, exp: int, cut: bool, sig2: u64, ext: u64)
    requires sig > 0 && (cut ==> sig >= POW10[18])
    requires Cached(exp, sig2, ext) && Approximates(v, sig, exp, cut) && sig2 >= TOP
    ensures var lz, fp := LeadingZeros(sig), ProductWord(NormalWord(sig), CachedSig(sig2, ext));
            var b := LeadingZeros(fp);
            var err := ProductError(FirstError(cut, lz)) * Pow(2, b);
            Within(v, NormalWord(fp), err, TableExp(exp) + 64 - lz - b) && 0 < err <= 150
  {
    hide Pow, Power, TableEntry, Approximates, MulRounded, TableExp, Within, ProductError, FirstError, LeadingZeros;
    var lz := LeadingZeros(sig);
    var fp, err := ProductWord(NormalWord(sig), CachedSig(sig2, ext)), ProductError(FirstError(cut, lz));
    ErrorSmall(sig, cut, lz);
    ProductWithin(v, sig, exp, cut, sig2, ext, lz, NormalWord(sig));
    OneBit(fp);
    var b := LeadingZeros(fp);
    Normalised(v, fp, err, TableExp(exp) + 64 - lz, b);
    MulMono(Pow(2, b), 2, err);
    PositiveTimes(err, b);
  }

  lemma LongWord(sig: u64)
    requires sig >= NEAREST
    ensures LeadingZeros(sig) <= 2
  {
    var n := LeadingZeros(sig);
    if n > 2 {
      PowMono(2, 3, n);
      assert Pow(2, 3) == 8;
      MulMono(8, Pow(2, n), sig);
    }
  }

  /** The product of ten to the -342 with digits from half the smallest double on. */
  lemma ProductAtSmallest(sig: u64, sig2: u64, ext: u64)
    requires sig >= NEAREST && Cached(-342, sig2, ext) && sig2 >= TOP
    ensures LeadingZeros(sig) + LeadingZeros(ProductWord(NormalWord(sig), CachedSig(sig2, ext))) <= 2
  {
    LongWord(sig);
    WordThere(sig2, ext);
    var f, c := NormalWord(sig), CachedSig(sig2, ext);
    OneBit(ProductWord(f, c));
    if LeadingZeros(sig) == 2 {
      assert Pow(2, 2) == 4;
      ProductReaches(f, c);
      assert Pow(2, 0) == 1;
      LeadingZerosAre(ProductWord(f, c), 0);
    }
  }

  /** No number from half the smallest double on is estimated to be of a smaller order. */
  lemma OrderReaches(v: real, sig: u64, exp: int, cut: bool, sig2: u64, ext: u64)
    requires sig > 0 && (cut ==> sig >= POW10[18]) && Half(0) <= v
    requires Cached(exp, sig2, ext) && Approximates(v, sig, exp, cut) && sig2 >= TOP
    ensures var lz, fp := LeadingZeros(sig), ProductWord(NormalWord(sig), CachedSig(sig2, ext));
            128 + TableExp(exp) - lz - LeadingZeros(fp) >= -1074
  {
    hide Pow, Power, TableEntry, Approximates, MulRounded, Within, ProductError, FirstError, LeadingZeros;
    SmallestHalf();
    hide Half;
    ReachesSmallest(v, sig, exp, cut);
    var lz, fp := LeadingZeros(sig), ProductWord(NormalWord(sig), CachedSig(sig2, ext));
    var b := LeadingZeros(fp);
    if exp == -342 {
      ProductAtSmallest(sig, sig2, ext);
    } else {
      ProductNormalised(v, sig, exp, cut, sig2, ext);
      if 128 + TableExp(exp) - lz - b < -1074 {
        WordBelow(v, NormalWord(fp), ProductError(FirstError(cut, lz)) * Pow(2, b), TableExp(exp) + 64 - lz - b);
      }
    }
  }

  /** Whatever number the digits stand for, the estimate is right where it is certain, and otherwise one of two. */
  lemma EstimationSettles(v: real, sig: u64, exp: int, cut: bool, sig2: u64, ext: u64)
    requires sig > 0 && (cut ==> sig >= POW10[18])
    requires Cached(exp, sig2, ext) && Approximates(v, sig, exp, cut)
    ensures sig2 >= TOP && Settles(Estimation(sig, exp, cut, sig2, ext), v)
  {
    TableTop(exp, sig2, ext);
    hide Pow, TableEntry, Approximates, MulRounded, TableExp, Settles, Within, WordRounding, ProductError, FirstError;
    hide LeadingZeros;
    var lz, fp := LeadingZeros(sig), ProductWord(NormalWord(sig), CachedSig(sig2, ext));
    var b := LeadingZeros(fp);
    ProductNormalised(v, sig, exp, cut, sig2, ext);
    if Half(0) <= v {
      OrderReaches(v, sig, exp, cut, sig2, ext);
    }
    hide Half;
    WordSettles(v, NormalWord(fp), ProductError(FirstError(cut, lz)) * Pow(2, b), TableExp(exp) + 64 - lz - b);
  }

  function ProductWord(f: u64, c: u64): (p: u64)
    requires f >= TOP && c >= TOP
    ensures 0 < p && TOP <= 2 * p && p == MulRounded(f, c)
  {
    ProductHigh(f, c);
    MulRounded(f, c)
  }

  lemma TableTop(exp: int, sig2: u64, ext: u64)
    requires Cached(exp, sig2, ext)
    ensures TOP <= sig2 <= CachedSig(sig2, ext) < WORD
  {
  }

  lemma PositiveTimes(err: nat, b: nat)
    requires err > 0
    ensures err * Pow(2, b) > 0
  {
    PowPositive(2, b);
    MulMono(1, Pow(2, b), err);
  }
}
