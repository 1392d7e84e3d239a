/** The parts of a JSON number, and which numbers the reader refuses as infinite. */
module NumberText {
  import opened Bytes
  import opened Word64
  import opened Integers
  import opened IntegerReader
  import opened BigInt
  import opened DecimalBuf

  // ---------------------------------------------------------------------------------------
  // Where a number ends
  // ---------------------------------------------------------------------------------------

  /** The end of the fraction that may follow the digits ending at `e`. */
  function FractionEnd(s: seq<byte>, e: nat): (f: Option<nat>)
    ensures f.Some? ==> e <= f.value
  {
    if At(s, e) != 46 then Some(e)
    else if RunEnd(s, e + 1) == e + 1 then None
    else Some(RunEnd(s, e + 1))
  }

  /** Where the digits of the exponent begin whose mark is at `f`. */
  function ExponentStart(s: seq<byte>, f: nat): nat {
    if At(s, f + 1) == 45 || At(s, f + 1) == 43 then f + 2 else f + 1
  }

  /** The end of the exponent that may follow. */
  function ExponentEnd(s: seq<byte>, f: nat): (x: Option<nat>)
    ensures x.Some? ==> f <= x.value
  {
    if At(s, f) != 69 && At(s, f) != 101 then Some(f)
    else
      var g := ExponentStart(s, f);
      if RunEnd(s, g) == g then None else Some(RunEnd(s, g))
  }

  /** The end of the number at `i`. */
  function NumberEnd(s: seq<byte>, i: nat): (x: Option<nat>)
    ensures x.Some? ==> i < x.value
  {
    var q := i + Sign(s, i);
    var e := RunEnd(s, q);
    if q == e || (At(s, q) == ZERO && e > q + 1) then None
    else
      match FractionEnd(s, e)
      case None => None
      case Some(f) => ExponentEnd(s, f)
  }

  // ---------------------------------------------------------------------------------------
  // How large it is
  // ---------------------------------------------------------------------------------------

  const MAX_DECIMAL_EXP: int := 308
  const MIN_DECIMAL_EXP: int := -324

  /** The first digit but zero, or the end. */
  function FirstDigit(s: seq<byte>, q: nat, f: nat): (p: nat)
    requires q <= f
    ensures q <= p <= f && (p < f ==> At(s, p) != ZERO && At(s, p) != DOT)
    decreases f - q
  {
    if q < f && (At(s, q) == ZERO || At(s, q) == DOT) then FirstDigit(s, q + 1, f) else q
  }

  /** Behind nineteen digits from `p` on, the point at `e` not counted. */
  function CutAt(p: nat, e: nat): (c: nat)
    ensures p < c
  {
    if p > e || p + SAFE_DIGITS < e then p + SAFE_DIGITS else p + SAFE_DIGITS + 1
  }

  /** The decimal exponent of digits that end at `c`, with the point at `e`. */
  function ScaleAt(c: nat, e: nat): int {
    if e < c then e + 1 - c else e - c
  }

  /** The first digit of an exponent that is no zero. */
  function SkipZeros(s: seq<byte>, g: nat, x: nat): (k: nat)
    requires g <= x
    ensures g <= k <= x
    decreases x - g
  {
    if g < x && At(s, g) == ZERO then SkipZeros(s, g + 1, x) else g
  }

  function Least(a: nat, b: nat): nat {
    if a < b then a else b
  }

  lemma {:induction false} RunEndWithin(s: seq<byte>, i: nat)
    ensures RunEnd(s, i) > i ==> RunEnd(s, i) <= |s|
    decreases |s| - i
  {
    if IsDigit(At(s, i)) {
      RunEndWithin(s, i + 1);
    }
  }

  /** The digits of a number, from `q` to `e` and behind the point there to `f`, and its exponent to `x`. */
  datatype Parts = Parts(q: nat, e: nat, f: nat, x: nat)

  ghost predicate Whole(s: seq<byte>, n: Parts) {
    && n.q < n.e <= n.f <= n.x <= |s| && Digits(s, n.q, n.f, n.e)
    && (At(s, n.q) == ZERO ==> n.e == n.q + 1)
    && (n.e < n.f ==> At(s, n.e) == DOT && n.e + 1 < n.f)
    && (n.f < n.x ==>
         var g := ExponentStart(s, n.f);
         g < n.x && forall j | g <= j < n.x :: IsDigit(At(s, j)))
  }

  function PartsOf(s: seq<byte>, i: nat): Parts
    requires NumberEnd(s, i).Some?
  {
    var q := i + Sign(s, i);
    var e := RunEnd(s, q);
    Parts(q, e, FractionEnd(s, e).value, NumberEnd(s, i).value)
  }

  lemma PartsWhole(s: seq<byte>, i: nat)
    requires NumberEnd(s, i).Some?
    ensures Whole(s, PartsOf(s, i))
  {
    var n := PartsOf(s, i);
    RunEndWithin(s, n.q);
    RunEndWithin(s, n.e + 1);
    RunEndWithin(s, ExponentStart(s, n.f));
    assert forall j | n.q <= j < n.e :: IsDigit(At(s, j));
    assert n.e < n.f ==> forall j | n.e + 1 <= j < n.f :: IsDigit(At(s, j));
    assert forall j | n.q <= j < n.f && j != n.e :: s[j] == At(s, j);
  }

  function PartsAt(s: seq<byte>, i: nat): (n: Parts)
    requires NumberEnd(s, i).Some?
    ensures Whole(s, n) && n.q == i + Sign(s, i) && n.x == NumberEnd(s, i).value
  {
    PartsWhole(s, i);
    PartsOf(s, i)
  }

  /** The exponent as written, and how many digits it has behind its leading zeros. */
  function Literal(s: seq<byte>, n: Parts): int
    requires Whole(s, n)
  {
    if n.f == n.x then 0
    else
      var v := IntegerReader.Spelled(s, SkipZeros(s, ExponentStart(s, n.f), n.x), n.x);
      if At(s, n.f + 1) == MINUS then -(v as int) else v
  }

  function LiteralLength(s: seq<byte>, n: Parts): nat
    requires Whole(s, n)
  {
    if n.f == n.x then 0 else n.x - SkipZeros(s, ExponentStart(s, n.f), n.x)
  }

  /** The decimal exponent of the first nineteen digits. */
  function DecimalExponent(s: seq<byte>, n: Parts): int
    requires Whole(s, n)
  {
    ScaleAt(Least(CutAt(FirstDigit(s, n.q, n.f), n.e), n.f), n.e) + Literal(s, n)
  }

  /** Midway between the largest double and what the next one would be. */
  const LIMIT: nat := (0x40_0000_0000_0000 - 1) * Pow(2, 970)

  /** `d` times ten to the `k` is rounded to infinity. */
  predicate BeyondDoubles(d: nat, k: int) {
    if k >= 0 then d * Pow(10, k) >= LIMIT else d >= LIMIT * Pow(10, -k)
  }

  predicate TooLarge(s: seq<byte>, n: Parts)
    requires Whole(s, n)
  {
    var p := FirstDigit(s, n.q, n.f);
    if p == n.f then false
    else if LiteralLength(s, n) >= SAFE_DIGITS then At(s, n.f + 1) != MINUS
    else
      var exp := DecimalExponent(s, n);
      || exp > MAX_DECIMAL_EXP
      || (exp >= MIN_DECIMAL_EXP - 19 && BeyondDoubles(Decimal(s, p, n.f, n.e), ScaleAt(n.f, n.e) + Literal(s, n)))
  }

  // ---------------------------------------------------------------------------------------
  // What the digits that are dropped can do to it
  // ---------------------------------------------------------------------------------------

  predicate AllZeros(s: seq<byte>, lo: nat, hi: nat) {
    forall j | lo <= j < hi :: At(s, j) == ZERO || At(s, j) == DOT
  }

  /** More than 768 digits, not counting zeros at the end of nineteen. */
  predicate ManyDigits(s: seq<byte>, n: Parts)
    requires Whole(s, n)
  {
    var c := CutAt(FirstDigit(s, n.q, n.f), n.e);
    c < n.f && !AllZeros(s, c, n.f) && Count(c, n.f, n.e) + SAFE_DIGITS > MAX_DIGITS
  }

  /** And the point among those that are dropped. */
  predicate PointDropped(s: seq<byte>, n: Parts)
    requires Whole(s, n)
  {
    ManyDigits(s, n) && PointBeyond(CutAt(FirstDigit(s, n.q, n.f), n.e), n.f, n.e)
  }

  /** The first nineteen digits, rounded by the next one. */
  function RoundedWord(s: seq<byte>, n: Parts): nat
    requires Whole(s, n) && CutAt(FirstDigit(s, n.q, n.f), n.e) < n.f
  {
    var p := FirstDigit(s, n.q, n.f);
    var c := CutAt(p, n.e);
    Decimal(s, p, c, n.e) + RoundedUp(s[c])
  }

  const EDGE_EXP: int := 290
  const EDGE_BELOW: nat := 1797693134862315807
  const EDGE_ABOVE: nat := 1797693134862315808

  /** The point dropped, and the first nineteen digits those next to the midpoint above the largest double. */
  predicate AtTheEdge(s: seq<byte>, n: Parts)
    requires Whole(s, n)
  {
    && PointDropped(s, n) && LiteralLength(s, n) < SAFE_DIGITS && DecimalExponent(s, n) == EDGE_EXP
    && (RoundedWord(s, n) == EDGE_BELOW || RoundedWord(s, n) == EDGE_ABOVE)
  }

  /** The number at `i` rounds to infinity. */
  predicate Infinite(s: seq<byte>, i: nat) {
    NumberEnd(s, i).Some? && TooLarge(s, PartsAt(s, i))
  }

  /** The reader refuses the number at `i` because it is infinite, or taken for it. */
  predicate Refused(s: seq<byte>, i: nat) {
    NumberEnd(s, i).Some? && (TooLarge(s, PartsAt(s, i)) || AtTheEdge(s, PartsAt(s, i)))
  }

  // ---------------------------------------------------------------------------------------
  // Integers are not too large
  // ---------------------------------------------------------------------------------------

  lemma {:induction false} TenToIsPow(k: nat)
    ensures TenTo(k) == Pow(10, k)
  {
    if k > 0 {
      TenToIsPow(k - 1);
    }
  }

  lemma FewDigitsInRange(d: nat)
    requires d < Pow(10, 20)
    ensures !BeyondDoubles(d, 0) && !BeyondDoubles(d, -0)
  {
    PowMono(2, 40, 970);
    TwentyZeros();
    assert Pow(2, 40) == 1099511627776 by {
      PowAdd(2, 20, 20);
      PowAdd(2, 10, 10);
      assert Pow(2, 10) == 1024;
    }
  }

  lemma IntegerEnds(s: seq<byte>, i: nat)
    requires IntegerText(s, i)
    ensures NumberEnd(s, i) == Some(RunEnd(s, i + Sign(s, i)))
    ensures var n := PartsAt(s, i); n.e == n.f == n.x == RunEnd(s, n.q)
  {
  }

  lemma TooLargeInteger(s: seq<byte>, n: Parts)
    requires Whole(s, n) && n.e == n.f == n.x && n.e - n.q <= 20
    ensures !TooLarge(s, n) && !AtTheEdge(s, n)
  {
    var p := FirstDigit(s, n.q, n.f);
    DecimalBelow(s, p, n.f, n.e);
    PowMono(10, Count(p, n.f, n.e), 20);
    FewDigitsInRange(Decimal(s, p, n.f, n.e));
  }

  /** They have at most twenty digits. */
  lemma WordIsShort(s: seq<byte>, i: nat)
    requires IntegerText(s, i) && Magnitude(s, i) < WORD
    ensures var q := i + Sign(s, i); RunEnd(s, q) - q <= 20
  {
    var q := i + Sign(s, i);
    var e := RunEnd(s, q);
    TwentyZeros();
    if At(s, q) != ZERO && e - q > 20 {
      SpelledAtLeast(s, q, e);
      TenToIsPow(e - q - 1);
      PowMono(10, 20, e - q - 1);
    }
  }

  /** Integers of a word are not refused, nor are the negative ones that lose digits. */
  lemma WordIsTaken(s: seq<byte>, i: nat)
    requires IntegerText(s, i) && Magnitude(s, i) < WORD
    ensures !Refused(s, i)
  {
    IntegerEnds(s, i);
    WordIsShort(s, i);
    TooLargeInteger(s, PartsAt(s, i));
  }

  lemma TwentyZeros()
    ensures Pow(10, 20) == 100000000000000000000
  {
    TenToIsPow(20);
    BigPowers();
    assert TenTo(20) == 10 * TenTo(19);
  }
}
