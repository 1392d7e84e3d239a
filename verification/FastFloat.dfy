/**
  The second fast path of the number reader: a decimal significand times a power of ten, rounded to a
  double by one or two 64-bit multiplications with the cached leading 128 bits of the power.
 */
module FastFloat {
  import opened Bytes
  import opened Word64
  import opened BigInt
  import opened BigCompare

  const TOP: nat := 0x8000_0000_0000_0000
  const HIDDEN: nat := 0x10_0000_0000_0000
  const SQUARE: nat := 0x1_0000_0000_0000_0000_0000_0000_0000_0000

  /** pow10_table_get_exp. */
  function TableExp(exp: int): int {
    (exp * 217706 - 4128768) / 65536
  }

  /** What the table of powers holds: the leading 128 bits of ten to the `exp`, rounded down. */
  ghost predicate TableEntry(exp: int, sig2: u64, ext: u64) {
    && sig2 >= TOP
    && (sig2 * WORD + ext) as real * Power(2, TableExp(exp) - 64) <= Power(10, exp)
    && Power(10, exp) < (sig2 * WORD + ext + 1) as real * Power(2, TableExp(exp) - 64)
  }

  /** The number a significand and a binary exponent stand for. */
  function Float(m: nat, s: int): real {
    Times(m, Power(2, s))
  }

  function Times(m: int, u: real): real {
    m as real * u
  }

  function Distance(x: real, y: real): real {
    if x < y then y - x else x - y
  }

  /** No other number with a 53-bit significand is as near. */
  ghost predicate Nearest(v: real, m: nat, s: int) {
    forall k: nat, t: int {:trigger Float(k, t)} ::
      k < 2 * HIDDEN && Float(k, t) != Float(m, s) ==> Distance(v, Float(m, s)) < Distance(v, Float(k, t))
  }

  /** The bits of the normal double that `v` rounds to, to nearest, with no tie to break. */
  ghost predicate CorrectlyRounded(raw: nat, v: real) {
    1 <= raw / HIDDEN <= 2046 && Nearest(v, HIDDEN + raw % HIDDEN, raw / HIDDEN - 1075)
  }

  lemma PowerPositive(b: nat, e: int)
    requires b > 0
    ensures Power(b, e) > 0.0
  {
    PowPositive(b, Up(e));
    PowPositive(b, Down(e));
  }

  lemma DoublePower(e: int)
    ensures Power(2, e + 1) == 2.0 * Power(2, e)
  {
    PowPositive(2, Up(e));
    PowPositive(2, Down(e));
    if e < 0 {
      var n := -e - 1;
      PowPositive(2, n);
      assert Pow(2, n + 1) == 2 * Pow(2, n);
      HalfOf(Pow(2, n) as real);
    }
  }

  lemma HalfOf(x: real)
    requires x > 0.0
    ensures 1.0 / x == 2.0 * (1.0 / (2.0 * x))
  {
  }

  lemma {:induction false} PowerShift(e: int, k: nat)
    ensures Power(2, e + k) == Power(2, e) * Pow(2, k) as real
    decreases k
  {
    hide Power;
    if k > 0 {
      PowerShift(e, k - 1);
      DoublePower(e + k - 1);
      assert Power(2, e) * (2 * Pow(2, k - 1)) as real == 2.0 * (Power(2, e) * Pow(2, k - 1) as real);
    }
  }

  lemma {:induction false} PowerGrows(s: int, k: nat)
    ensures Power(2, s) <= Power(2, s + k)
    decreases k
  {
    hide Power;
    if k > 0 {
      PowerGrows(s, k - 1);
      PowerPositive(2, s + k - 1);
      DoublePower(s + k - 1);
    }
  }

  /** Nearer to a multiple of the unit than half of it is nearer than to any other multiple. */
  lemma OtherMultiple(v: real, u: real, m: int, j: int)
    requires u > 0.0 && j != m && 2.0 * Distance(v, Times(m, u)) < u
    ensures Distance(v, Times(m, u)) < Distance(v, Times(j, u))
  {
    UnitApart(m, j, u);
    hide Times;
  }

  lemma UnitApart(m: int, j: int, u: real)
    requires u > 0.0
    ensures j < m ==> Times(j, u) + u <= Times(m, u)
    ensures j > m ==> Times(m, u) + u <= Times(j, u)
  {
    if j < m {
      assert (m - j - 1) as real * u >= 0.0;
    } else if j > m {
      assert (j - m - 1) as real * u >= 0.0;
    }
  }

  /** Numbers of a smaller exponent all lie half a unit or more below. */
  lemma SmallerExponent(v: real, u: real, m: int, k: nat, w: real)
    requires u > 0.0 && 0.0 < w && 2.0 * w <= u && k < 2 * HIDDEN
    requires v >= Times(HIDDEN, u) && 2.0 * Distance(v, Times(m, u)) < u
    ensures Distance(v, Times(m, u)) < Distance(v, Times(k, w))
  {
    UnitApart(2 * HIDDEN, k, w);
    DoubledTimes(u, w);
    hide Times;
  }

  lemma DoubledTimes(u: real, w: real)
    requires 2.0 * w <= u
    ensures Times(2 * HIDDEN, w) <= Times(HIDDEN, u)
    ensures Times(2 * HIDDEN, w) - w <= Times(HIDDEN, u) - u / 2.0
  {
  }

  lemma FloatShift(k: nat, s: int, d: nat)
    ensures Float(k, s + d) == Times(k * Pow(2, d), Power(2, s))
  {
    PowerShift(s, d);
    hide Power, Pow;
    TimesShift(k, Power(2, s), Pow(2, d));
  }

  lemma TimesShift(k: nat, p: real, x: nat)
    ensures Times(k, p * x as real) == Times(k * x, p)
  {
    assert (k * x) as real == k as real * x as real;
  }

  lemma NearestFromGap(v: real, m: nat, s: int)
    requires 2.0 * Distance(v, Float(m, s)) < Power(2, s) && v >= Float(HIDDEN, s)
    ensures Nearest(v, m, s)
  {
    forall k: nat, t: int {:trigger Float(k, t)} | k < 2 * HIDDEN && Float(k, t) != Float(m, s)
      ensures Distance(v, Float(m, s)) < Distance(v, Float(k, t))
    {
      NearerThan(v, m, s, k, t);
    }
  }

  lemma NearerThan(v: real, m: nat, s: int, k: nat, t: int)
    requires 2.0 * Distance(v, Float(m, s)) < Power(2, s) && v >= Float(HIDDEN, s)
    requires k < 2 * HIDDEN && Float(k, t) != Float(m, s)
    ensures Distance(v, Float(m, s)) < Distance(v, Float(k, t))
  {
    hide Power, Float, Distance;
    if t >= s {
      NearerSameGrid(v, m, s, k, t - s);
    } else {
      NearerBelow(v, m, s, k, t);
    }
  }

  lemma NearerSameGrid(v: real, m: nat, s: int, k: nat, d: nat)
    requires 2.0 * Distance(v, Float(m, s)) < Power(2, s) && Float(k, s + d) != Float(m, s)
    ensures Distance(v, Float(m, s)) < Distance(v, Float(k, s + d))
  {
    PowerPositive(2, s);
    FloatShift(k, s, d);
    hide Power, Pow, Times;
    OtherMultiple(v, Power(2, s), m, k * Pow(2, d));
  }

  lemma NearerBelow(v: real, m: nat, s: int, k: nat, t: int)
    requires 2.0 * Distance(v, Float(m, s)) < Power(2, s) && v >= Float(HIDDEN, s) && k < 2 * HIDDEN && t < s
    ensures Distance(v, Float(m, s)) < Distance(v, Float(k, t))
  {
    HalfUnit(t, s);
    hide Power, Times;
    PowerPositive(2, s);
    SmallerExponent(v, Power(2, s), m, k, Power(2, t));
  }

  lemma HalfUnit(t: int, s: int)
    requires t < s
    ensures 0.0 < Power(2, t) && 2.0 * Power(2, t) <= Power(2, s)
  {
    hide Power;
    PowerPositive(2, t);
    PowerGrows(t, s - 1 - t);
    DoublePower(s - 1);
  }

  /** Rounding a 54-bit quotient to 53 bits: half up is enough when there is no tie. */
  lemma HalfUp(v: real, u: real, q: nat)
    requires u > 0.0 && Times(q, u) < 2.0 * v < Times(q + 1, u)
    ensures 2.0 * Distance(v, Times((q + q % 2) / 2, u)) < u
  {
    var m := (q + q % 2) / 2;
    EvenHalf(q + q % 2, m, u);
    TimesNext(q, u);
    hide Times;
  }

  lemma EvenHalf(e: nat, m: nat, u: real)
    requires e == 2 * m
    ensures Times(e, u) == 2.0 * Times(m, u)
  {
    assert e as real == 2.0 * m as real;
  }

  lemma TimesNext(q: int, u: real)
    ensures Times(q + 1, u) == Times(q, u) + u
  {
  }

  /** What the high word and the test bits say about the product and the part of it not computed. */
  ghost predicate Settled(hi: u64, n: nat, d: nat) {
    && TOP <= 2 * hi
    && var k := if hi < TOP then 2 else 1;
       var q := hi * k / 1024;
       q * 1024 * SQUARE < k * n && k * (n + d) <= (q + 1) * 1024 * SQUARE
  }

  lemma OneProductSettles(hi: u64, lo: u64, n: nat, d: nat, rest: nat)
    requires TOP <= 2 * hi && hi % 512 != 0 && hi % 512 != 511
    requires n == (hi * WORD + lo) * WORD + rest && rest + d <= SQUARE
    ensures Settled(hi, n, d)
  {
  }

  lemma TwoProductsSettle(hi: u64, lo: u64, hi2: u64, lo2: u64, n: nat, d: nat, add: u64, carry: nat)
    requires TOP <= 2 * hi && hi + 1 < WORD && d < WORD
    requires n == (hi * WORD + lo) * WORD + (hi2 * WORD + lo2)
    requires lo + hi2 == carry * WORD + add && carry <= 1 && add != 0 && add != WORD - 1
    ensures Settled(hi + carry, n, d)
  {
  }

  lemma ProductAtLeast(a: u64, b: u64)
    requires a >= TOP && b >= TOP
    ensures a * b >= TOP * TOP
  {
    MulMono(TOP, a, b);
    MulMono(TOP, b, TOP);
  }

  lemma HighRange(a: u64, b: u64, hi: u64, lo: u64)
    requires a >= TOP && b >= TOP && hi * WORD + lo == a * b
    ensures TOP <= 2 * hi && hi + 1 < WORD
  {
    ProductAtLeast(a, b);
    ProductLessThan(a, b);
  }

  /** The 64-bit product of the significand with the cached power, and whether its top 54 bits are certain. */
  method HighProduct(sig1: u64, sig2: u64, ext: u64) returns (high: u64, exact: bool)
    requires sig1 >= TOP && sig2 >= TOP
    ensures exact ==> Settled(high, sig1 * (sig2 * WORD + ext), sig1)
  {
    hide U128Mul, Settled;
    ghost var n := sig1 * (sig2 * WORD + ext);
    var (hi, lo) := U128Mul(sig1, sig2);
    HighRange(sig1, sig2, hi, lo);
    SumOfProducts(sig1, sig2, ext);
    exact := false;
    var bits := hi % 512;
    if (bits - 1) % WORD < 510 {
      ProductLessThan(sig1, ext);
      OneProductSettles(hi, lo, n, sig1, sig1 * ext);
      exact := true;
    } else {
      var (hi2, lo2) := U128Mul(sig1, ext);
      var add := (lo + hi2) % WORD;
      if (add + 1) % WORD > 1 {
        var carry := if add < lo || add < hi2 then 1 else 0;
        CarryOf(lo, hi2, add, carry);
        TwoProductsSettle(hi, lo, hi2, lo2, n, sig1, add, carry);
        hi := hi + carry;
        exact := true;
      }
    }
    high := hi;
  }

  lemma SumOfProducts(a: nat, b: nat, c: nat)
    ensures a * (b * WORD + c) == a * b * WORD + a * c
  {
  }

  lemma CarryOf(lo: u64, hi2: u64, add: u64, carry: nat)
    requires add == (lo + hi2) % WORD && carry == if add < lo || add < hi2 then 1 else 0
    ensures lo + hi2 == carry * WORD + add
  {
  }

  /** The cached power is known to one part in two to the 127; so is its product with the significand. */
  lemma TableProduct(sig: nat, x: nat, table: nat, w: real, ten: real)
    requires sig > 0 && Times(table, w * x as real) <= ten < Times(table + 1, w * x as real)
    ensures Times(sig * x * table, w) <= Times(sig, ten) < Times(sig * x * table + sig * x, w)
  {
    TimesShift(table, w, x);
    TimesShift(table + 1, w, x);
    TimesTimes(sig, table * x, w);
    TimesTimes(sig, (table + 1) * x, w);
    TimesLess(sig, Times(table * x, w), ten, Times((table + 1) * x, w));
    assert sig * (table * x) == sig * x * table;
    assert sig * ((table + 1) * x) == sig * x * table + sig * x;
  }

  lemma TimesTimes(a: nat, b: nat, w: real)
    ensures Times(a, Times(b, w)) == Times(a * b, w)
  {
    assert (a * b) as real == a as real * b as real;
  }

  lemma TimesLess(a: nat, x: real, y: real, z: real)
    requires a > 0 && x <= y < z
    ensures Times(a, x) <= Times(a, y) < Times(a, z)
  {
    assert a as real * (y - x) >= 0.0;
    assert a as real * (z - y) > 0.0;
  }

  lemma TimesMono(a: int, b: int, w: real)
    requires w > 0.0 && a <= b
    ensures Times(a, w) <= Times(b, w)
    ensures a < b ==> Times(a, w) < Times(b, w)
  {
    assert (b - a) as real * w >= 0.0;
    if a < b {
      assert (b - a) as real * w > 0.0;
    }
  }

  /** The unit of the 54-bit quotient, over that of the whole product. */
  lemma QuotientUnit(b: int, k: nat)
    requires k == 1 || k == 2
    ensures Times(k, Power(2, b + 140 - k)) == Times(2048 * SQUARE, Power(2, b))
  {
    PowerShift(b, 139);
    SquareIsPow();
    PowAdd(2, 128, 11);
    assert Pow(2, 11) == 2048;
    hide Power, Pow;
    if k == 2 {
      DoublePower(b + 138);
    }
  }

  lemma SquareIsPow()
    ensures Pow(2, 128) == SQUARE
  {
    Pow2Word();
    PowAdd(2, 64, 64);
  }

  lemma QuotientTimes(q: int, k: nat, u: real, w: real)
    requires (k == 1 || k == 2) && Times(k, u) == Times(2048 * SQUARE, w)
    ensures Times(k, Times(q, u)) == 2.0 * Times(q * 1024 * SQUARE, w)
  {
    assert Times(k, Times(q, u)) == q as real * Times(k, u);
    assert (q * 1024 * SQUARE) as real == q as real * (1024 * SQUARE) as real;
    assert Times(2048 * SQUARE, w) == 2.0 * Times(1024 * SQUARE, w);
    assert q as real * Times(1024 * SQUARE, w) == Times(q * 1024 * SQUARE, w);
  }

  /** The quotient brackets the number. */
  lemma SettledBrackets(v: real, n: nat, d: nat, b: int, hi: u64)
    requires Settled(hi, n, d) && Times(n, Power(2, b)) <= v < Times(n + d, Power(2, b))
    ensures var k := if hi < TOP then 2 else 1; var q := hi * k / 1024; var u := Power(2, b + 140 - k);
            Times(q, u) < 2.0 * v < Times(q + 1, u)
  {
    var k := if hi < TOP then 2 else 1;
    var q := hi * k / 1024;
    var w, u := Power(2, b), Power(2, b + 140 - k);
    PowerPositive(2, b);
    QuotientUnit(b, k);
    hide Power, Times;
    QuotientTimes(q, k, u, w);
    QuotientTimes(q + 1, k, u, w);
    TimesMono(q * 1024 * SQUARE, k * n, w);
    TimesMono(k * (n + d), (q + 1) * 1024 * SQUARE, w);
    TimesTimes(k, n, w);
    TimesTimes(k, n + d, w);
    TimesLess(k, Times(n, w), v, Times(n + d, w));
    CancelTimes(k, Times(q, u), 2.0 * v, Times(q + 1, u), v);
  }

  lemma CancelTimes(k: nat, x: real, y: real, z: real, v: real)
    requires (k == 1 || k == 2) && y == 2.0 * v
    requires Times(k, x) < 2.0 * Times(k, v) < Times(k, z)
    ensures x < y < z
  {
  }

  /** The half-up rounding of the quotient is the nearest float, in the larger binade if it carries out. */
  lemma RoundedIsNearest(v: real, q: nat, s: int)
    requires 2 * HIDDEN <= q < 4 * HIDDEN
    requires Times(q, Power(2, s)) < 2.0 * v < Times(q + 1, Power(2, s))
    ensures var m := (q + q % 2) / 2;
            HIDDEN <= m <= 2 * HIDDEN && if m == 2 * HIDDEN then Nearest(v, HIDDEN, s + 1) else Nearest(v, m, s)
  {
    var m := (q + q % 2) / 2;
    PowerPositive(2, s);
    hide Power, Nearest;
    HalfUp(v, Power(2, s), q);
    TimesMono(2 * HIDDEN, q, Power(2, s));
    EvenHalf(2 * HIDDEN, HIDDEN, Power(2, s));
    NearestFromGap(v, m, s);
    if m == 2 * HIDDEN {
      NextBinade(v, s);
    }
  }

  lemma NextBinade(v: real, s: int)
    requires Nearest(v, 2 * HIDDEN, s)
    ensures Nearest(v, HIDDEN, s + 1)
  {
    DoublePower(s);
    assert Float(HIDDEN, s + 1) == Float(2 * HIDDEN, s);
  }

  /** u64_lz_bits. */
  function LeadingZeros(x: u64): (n: nat)
    requires x > 0
    ensures n < 64 && TOP <= x * Pow(2, n) < WORD
    decreases WORD - x
  {
    if x >= TOP then 0
    else
      var n := LeadingZeros(2 * x);
      ShiftedOnce(x, n);
      n + 1
  }

  lemma ShiftedOnce(x: nat, n: nat)
    requires 0 < x < TOP && TOP <= 2 * x * Pow(2, n) < WORD
    ensures TOP <= x * Pow(2, n + 1) < WORD && n + 1 < 64
  {
    assert x * Pow(2, n + 1) == 2 * x * Pow(2, n);
    LongShift(x, n + 1);
  }

  lemma LongShift(x: nat, n: nat)
    requires x > 0
    ensures n >= 64 ==> x * Pow(2, n) >= WORD
  {
    if n >= 64 {
      Pow2Word();
      PowMono(2, 64, n);
      hide Pow;
      MulMono(1, x, Pow(2, n));
    }
  }

  lemma ProductBrackets(sig: nat, exp: int, sig2: u64, ext: u64, lz: nat)
    requires sig > 0 && TableEntry(exp, sig2, ext)
    ensures var d := sig * Pow(2, lz); var n := d * (sig2 * WORD + ext); var w := Power(2, TableExp(exp) - 64 - lz);
            Times(n, w) <= Times(sig, Power(10, exp)) < Times(n + d, w)
  {
    var b := TableExp(exp) - 64 - lz;
    PowerShift(b, lz);
    hide Power, Pow;
    TableProduct(sig, Pow(2, lz), sig2 * WORD + ext, Power(2, b), Power(10, exp));
  }

  /** The binary exponents stay in the range of normal doubles. */
  lemma NormalRange(exp: int, lz: nat, k: nat)
    requires -307 < exp < 288 && lz < 64 && (k == 1 || k == 2)
    ensures 1 <= TableExp(exp) - lz - k + 76 + 1075 <= 2045
  {
  }

  /** Packing the exponent and the 53 bits. */
  lemma Packed(v: real, m: nat, s: int, raw: nat)
    requires HIDDEN <= m < 2 * HIDDEN && 1 <= s + 1075 <= 2046 && Nearest(v, m, s)
    requires raw == (s + 1075) * HIDDEN + m % HIDDEN
    ensures CorrectlyRounded(raw, v)
  {
    hide Nearest;
    assert m % HIDDEN == m - HIDDEN;
    assert raw / HIDDEN == s + 1075 && raw % HIDDEN == m - HIDDEN;
  }

  /** Normalised and rounded on bit 54: the significand and the biased exponent. */
  method RoundHigh(high: u64, exp2: int) returns (m: nat, e: int)
    requires TOP <= 2 * high
    ensures var k := if high < TOP then 2 else 1; var q := high * k / 1024; var half := (q + q % 2) / 2;
            if half == 2 * HIDDEN then m == HIDDEN && e == exp2 - k + 77 + 1075
            else m == half && e == exp2 - k + 76 + 1075
  {
    var hi := high;
    var lz := if hi < TOP then 1 else 0;
    hi := if lz == 1 then hi * 2 else hi;
    e := exp2 - lz + 64;
    ghost var q := hi / 1024;
    assert q == high * (if high < TOP then 2 else 1) / 1024;
    var roundUp := hi / 1024 % 2 > 0;
    hi := (hi + if roundUp then 1024 else 0) % WORD;
    if hi < 1024 {
      hi := TOP;
      e := e + 1;
    }
    m := hi / 2048;
    e := e + 11 + 52 + 1023;
  }

  /** Rounded and packed. */
  method Pack(high: u64, exp2: int, ghost v: real) returns (raw: nat)
    requires TOP <= 2 * high
    requires var k := if high < TOP then 2 else 1; var u := Power(2, exp2 + 76 - k); var q := high * k / 1024;
             Times(q, u) < 2.0 * v < Times(q + 1, u) && 1 <= exp2 - k + 76 + 1075 <= 2045
    ensures CorrectlyRounded(raw, v)
  {
    ghost var k := if high < TOP then 2 else 1;
    ghost var q := high * k / 1024;
    RoundedIsNearest(v, q, exp2 + 76 - k);
    hide Power, Nearest, CorrectlyRounded, Times;
    var m, e := RoundHigh(high, exp2);
    raw := e * HIDDEN + m % HIDDEN;
    Packed(v, m, e - 1075, raw);
  }

  /** The fast path of the reader: what it returns, it has rounded correctly. */
  method FastPath(sig: u64, exp: int, sig2: u64, ext: u64) returns (r: Option<nat>)
    requires sig > 0 && -307 < exp < 288 && TableEntry(exp, sig2, ext)
    ensures r.Some? ==> CorrectlyRounded(r.value, Times(sig, Power(10, exp)))
  {
    ghost var v := Times(sig, Power(10, exp));
    assert sig2 >= TOP;
    hide Power, CorrectlyRounded, Pow, Times, TableEntry, TableExp;
    var lz := LeadingZeros(sig);
    var sig1: u64 := sig * Pow(2, lz);
    var exp2 := TableExp(exp) - lz;
    var high, exact := HighProduct(sig1, sig2, ext);
    if !exact {
      return None;
    }
    ProductBrackets(sig, exp, sig2, ext, lz);
    SettledBrackets(v, sig1 * (sig2 * WORD + ext), sig1, exp2 - 64, high);
    NormalRange(exp, lz, if high < TOP then 2 else 1);
    var raw := Pack(high, exp2, v);
    return Some(raw);
  }
}
