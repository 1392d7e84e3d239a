/**
  The estimate of the slow path: the significand times a cached 64-bit power of ten, with a bound on the
  error in eighths of a unit, and what of the rounding that settles.
 */
module DiyFloat {
  import opened Bytes
  import opened Word64
  import opened BigInt
  import opened BigCompare
  import opened FastFloat
  import opened Doubles

  // ---------------------------------------------------------------------------------------
  // Bounds
  // ---------------------------------------------------------------------------------------

  /** `v` is less than `err` eighths of a unit away from `sig` units of two to the `x`. */
  ghost predicate Within(v: real, sig: nat, err: nat, x: int) {
    Times(8 * sig - err, Power(2, x - 3)) < v < Times(8 * sig + err, Power(2, x - 3))
  }

  lemma TimesScale(k: int, e: int, b: nat)
    ensures Times(k, Power(2, e + b)) == Times(k * Pow(2, b), Power(2, e))
  {
    hide Power, Pow;
    PowerShift(e, b);
    assert (k * Pow(2, b)) as real == k as real * Pow(2, b) as real;
  }

  lemma TimesLessThan(a: int, b: int, e: int)
    requires a < b
    ensures Times(a, Power(2, e)) < Times(b, Power(2, e))
  {
    PowerPositive(2, e);
    hide Power;
    TimesMono(a, b, Power(2, e));
  }

  lemma TimesAtMost(a: int, b: int, e: int)
    requires a <= b
    ensures Times(a, Power(2, e)) <= Times(b, Power(2, e))
  {
    PowerPositive(2, e);
    hide Power;
    TimesMono(a, b, Power(2, e));
  }

  /** A shift to the left changes nothing. */
  lemma Normalised(v: real, sig: nat, err: nat, x: int, b: nat)
    requires Within(v, sig, err, x)
    ensures Within(v, sig * Pow(2, b), err * Pow(2, b), x - b)
  {
    TimesScale(8 * sig - err, x - b - 3, b);
    TimesScale(8 * sig + err, x - b - 3, b);
    hide Power, Times;
    Distributes(8 * sig, err, Pow(2, b));
    assert 8 * (sig * Pow(2, b)) == 8 * sig * Pow(2, b);
  }

  lemma Distributes(a: int, b: int, c: int)
    ensures (a - b) * c == a * c - b * c && (a + b) * c == a * c + b * c
  {
  }

  /** A shift to the right drops less than a unit of each. */
  lemma Shortened(v: real, sig: nat, err: nat, x: int, shr: nat)
    requires Within(v, sig, err, x)
    ensures Pow(2, shr) > 0 && Within(v, sig / Pow(2, shr), err / Pow(2, shr) + 9, x + shr)
  {
    hide Power, Times, Pow;
    PowPositive(2, shr);
    var q := Pow(2, shr);
    var s, e := sig / q, err / q + 9;
    TimesScale(8 * s - e, x - 3, shr);
    TimesScale(8 * s + e, x - 3, shr);
    ShortBounds(sig, err, q);
    TimesAtMost((8 * s - e) * q, 8 * sig - err, x - 3);
    TimesAtMost(8 * sig + err, (8 * s + e) * q, x - 3);
  }

  lemma ShortBounds(sig: nat, err: nat, q: nat)
    requires q > 0
    ensures (8 * (sig / q) - (err / q + 9)) * q <= 8 * sig - err
    ensures 8 * sig + err <= (8 * (sig / q) + (err / q + 9)) * q
  {
    var s, e := sig / q, err / q;
    assert sig == s * q + sig % q && err == e * q + err % q;
    Distributes(8 * s, e + 9, q);
    assert (e + 9) * q == e * q + 9 * q && 8 * s * q == 8 * (s * q);
  }

  // ---------------------------------------------------------------------------------------
  // The product
  // ---------------------------------------------------------------------------------------

  /** diy_fp_get_cached_pow10: the leading word, rounded by the next bit. */
  function CachedSig(sig2: u64, ext: u64): nat {
    sig2 + ext / TOP
  }

  ghost predicate Cached(exp: int, sig2: u64, ext: u64) {
    TableEntry(exp, sig2, ext) && CachedSig(sig2, ext) < WORD
  }

  /** diy_fp_mul: the high word of the product, rounded by the next bit. */
  function MulRounded(f: u64, c: u64): nat {
    var (hi, lo) := U128Mul(f, c);
    hi + lo / TOP
  }

  lemma MulRoundedNear(f: u64, c: u64)
    ensures f * c < MulRounded(f, c) * WORD + TOP && MulRounded(f, c) * WORD <= f * c + TOP
  {
    hide U128Mul;
  }

  lemma CachedNear(sig2: u64, ext: u64)
    ensures sig2 * WORD + ext < CachedSig(sig2, ext) * WORD + TOP && CachedSig(sig2, ext) * WORD <= sig2 * WORD + ext + TOP
  {
  }

  /** The rounded product is less than a unit away from the product with the table's 128 bits and all they may lack. */
  lemma ProductNear(f: u64, sig2: u64, ext: u64)
    requires CachedSig(sig2, ext) < WORD
    ensures var p, t := MulRounded(f, CachedSig(sig2, ext)), sig2 * WORD + ext;
            (p - 1) * SQUARE < f * t && f * (t + 1) <= (p + 1) * SQUARE
  {
    var c := CachedSig(sig2, ext);
    var p, t := MulRounded(f, c), sig2 * WORD + ext;
    MulRoundedNear(f, c);
    CachedNear(sig2, ext);
    var off: int := c as int * WORD - t;
    assert f * t == f * c * WORD - f * off by {
      assert f * t == f * (c * WORD - off);
      Distributes(c * WORD, off, f);
    }
    OffBounds(f, off);
    hide MulRounded, CachedSig;
    assert p * SQUARE == p * WORD * WORD;
    WordTimes(p * WORD, f * c, TOP);
  }

  lemma OffBounds(f: u64, off: int)
    requires 0 < TOP + off && off <= TOP
    ensures f * off <= f * TOP < WORD * TOP && -(f * off) + f <= f * TOP
  {
    if off <= TOP {
      MulMono(off, TOP, f);
    }
    MulMono(-off, TOP - 1, f);
    assert f * (TOP - 1) + f == f * TOP;
  }

  lemma WordTimes(a: int, b: int, t: int)
    requires b - t < a <= b + t
    ensures a * WORD <= b * WORD + t * WORD && b * WORD - t * WORD + WORD <= a * WORD
  {
  }

  /** The real number against the table: without a cut it is the significand's, with one it is half a unit from it at most. */
  ghost predicate Approximates(v: real, sig: nat, exp: int, cut: bool) {
    if cut then Times(2 * sig - 1, Power(10, exp)) <= 2.0 * v <= Times(2 * sig + 1, Power(10, exp))
    else v == Times(sig, Power(10, exp))
  }

  function FirstError(cut: bool, lz: nat): nat {
    if cut then 4 * Pow(2, lz) else 0
  }

  function ProductError(err: nat): nat {
    err + 4 + (if err != 0 then 1 else 0) + 4
  }

  lemma TimesDouble(k: int, w: real)
    ensures 2.0 * Times(k, w) == Times(2 * k, w)
  {
  }

  lemma CutBetween(v: real, sig: nat, exp: int, sig2: u64, ext: u64, lz: nat)
    requires sig > 0 && TableEntry(exp, sig2, ext) && Approximates(v, sig, exp, true)
    ensures var d, f, t := Pow(2, lz), sig * Pow(2, lz), sig2 * WORD + ext;
            var w := Power(2, TableExp(exp) - 64 - lz);
            Times((2 * f - d) * t, w) <= 2.0 * v < Times((2 * f + d) * (t + 1), w)
  {
    hide Power, Pow, Times, TableEntry;
    var d, f, t := Pow(2, lz), sig * Pow(2, lz), sig2 * WORD + ext;
    ProductBrackets(2 * sig - 1, exp, sig2, ext, lz);
    ProductBrackets(2 * sig + 1, exp, sig2, ext, lz);
    Distributes(2 * sig, 1, d);
    assert 2 * sig * d == 2 * f;
    assert (2 * f + d) * t + (2 * f + d) == (2 * f + d) * (t + 1);
  }

  lemma WholeBetween(v: real, sig: nat, exp: int, sig2: u64, ext: u64, lz: nat)
    requires sig > 0 && TableEntry(exp, sig2, ext) && Approximates(v, sig, exp, false)
    ensures var f, t := sig * Pow(2, lz), sig2 * WORD + ext;
            var w := Power(2, TableExp(exp) - 64 - lz);
            Times(2 * (f * t), w) <= 2.0 * v < Times(2 * (f * (t + 1)), w)
  {
    hide Power, Pow, Times, TableEntry;
    var f, t := sig * Pow(2, lz), sig2 * WORD + ext;
    var w := Power(2, TableExp(exp) - 64 - lz);
    ProductBrackets(sig, exp, sig2, ext, lz);
    TimesDouble(f * t, w);
    TimesDouble(f * t + f, w);
    assert f * t + f == f * (t + 1);
  }

  /** Twice the number, between whole multiples of the table's unit. */
  function LowMultiple(f: nat, d: nat, t: int, cut: bool): int {
    if cut then (2 * f - d) * t else 2 * (f * t)
  }

  function HighMultiple(f: nat, d: nat, t: int, cut: bool): int {
    if cut then (2 * f + d) * (t + 1) else 2 * (f * (t + 1))
  }

  const EIGHTH: nat := 0x4000_0000_0000_0000_0000_0000_0000_0000

  /** The whole multiples lie inside the error bound around the product. */
  lemma ProductInside(f: nat, d: nat, t: nat, p: int, cut: bool, err: nat)
    requires d <= f && 0 <= t < SQUARE
    requires (p - 1) * SQUARE < f * t && f * (t + 1) <= (p + 1) * SQUARE
    requires err == ProductError(if cut then 4 * d else 0) && (cut ==> d > 0)
    ensures (8 * p - err) * EIGHTH < LowMultiple(f, d, t, cut) && HighMultiple(f, d, t, cut) <= (8 * p + err) * EIGHTH
  {
    if cut {
      Distributes(2 * f, d, t);
      Distributes(2 * f, d, t + 1);
      MulMono(t, SQUARE, d);
      MulMono(t + 1, SQUARE, d);
    }
  }

  /** After the product, `v` is within the error bound of the source. */
  lemma ProductWithin(v: real, sig: nat, exp: int, cut: bool, sig2: u64, ext: u64, lz: nat, f: u64)
    requires 0 < sig && Cached(exp, sig2, ext) && Approximates(v, sig, exp, cut) && f == sig * Pow(2, lz)
    ensures Within(v, MulRounded(f, CachedSig(sig2, ext)), ProductError(FirstError(cut, lz)), TableExp(exp) + 64 - lz)
  {
    PowPositive(2, lz);
    hide Power, Pow, Times, TableEntry, MulRounded, CachedSig, ProductError;
    var d, t := Pow(2, lz), sig2 * WORD + ext;
    var p, err := MulRounded(f, CachedSig(sig2, ext)), ProductError(FirstError(cut, lz));
    if cut {
      CutBetween(v, sig, exp, sig2, ext, lz);
    } else {
      WholeBetween(v, sig, exp, sig2, ext, lz);
    }
    var low, high := LowMultiple(f, d, t, cut), HighMultiple(f, d, t, cut);
    ProductNear(f, sig2, ext);
    MulMono(1, sig, d);
    ProductInside(f, d, t, p, cut, err);
    var b := TableExp(exp) - 64 - lz;
    TimesLessThan((8 * p - err) * EIGHTH, low, b);
    TimesAtMost(high, (8 * p + err) * EIGHTH, b);
    EighthScale(8 * p - err, b);
    EighthScale(8 * p + err, b);
  }

  lemma EighthIsPow()
    ensures EIGHTH == Pow(2, 126)
  {
    PowAdd(2, 126, 2);
    SquareIsPow();
    assert Pow(2, 2) == 4;
  }

  lemma EighthScale(k: int, b: int)
    ensures Times(k * EIGHTH, Power(2, b)) == 2.0 * Times(k, Power(2, b + 125))
  {
    EighthIsPow();
    TimesScale(k, b, 126);
    DoublePower(b + 125);
    hide Power, Pow;
  }
}
