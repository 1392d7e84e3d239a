/** Reading the digits that did not fit a word into a big integer. */
module DecimalBuf {
  import opened Bytes
  import opened Word64
  import opened BigInt

  const SAFE_DIGITS: nat := 19
  const MAX_DIGITS: nat := 768

  /** `buf[lo..hi]` holds digits only, apart from the decimal point at `dot`. */
  predicate Digits(buf: seq<byte>, lo: nat, hi: nat, dot: nat) {
    hi <= |buf| && forall i | lo <= i < hi && i != dot :: IsDigit(buf[i])
  }

  /** How many digits there are. */
  function Count(lo: nat, hi: nat, dot: nat): nat
    requires lo <= hi
  {
    if lo <= dot < hi then hi - lo - 1 else hi - lo
  }

  /** The integer the digits spell, the point skipped. */
  function Decimal(buf: seq<byte>, lo: nat, hi: nat, dot: nat): nat
    requires lo <= hi && Digits(buf, lo, hi, dot)
  {
    if lo == hi then 0
    else if hi - 1 == dot then Decimal(buf, lo, hi - 1, dot)
    else 10 * Decimal(buf, lo, hi - 1, dot) + (buf[hi - 1] - 48)
  }

  /** The same with its last digit replaced by a one. */
  function Sticky(n: nat): nat {
    n - n % 10 + 1
  }

  lemma {:induction false} DecimalBelow(buf: seq<byte>, lo: nat, hi: nat, dot: nat)
    requires lo <= hi && Digits(buf, lo, hi, dot)
    ensures Decimal(buf, lo, hi, dot) < Pow(10, Count(lo, hi, dot))
  {
    if lo < hi {
      DecimalBelow(buf, lo, hi - 1, dot);
    }
  }

  lemma {:induction false} PowTenBelowPowTwo(n: nat)
    ensures Pow(10, n) <= Pow(2, 4 * n)
  {
    if n > 0 {
      PowTenBelowPowTwo(n - 1);
      PowAdd(2, 4, 4 * (n - 1));
      assert Pow(2, 4) == 16;
    }
  }

  lemma TwentyDigits()
    ensures WORD < Pow(10, 20)
  {
    Pow10Exact(19);
    assert Pow(10, 20) == 10 * Pow(10, 19);
  }

  /** Sixty-four limbs hold every number of at most 1003 digits. */
  lemma DigitsFit(n: nat)
    requires n <= 1003
    ensures Pow(10, n) < Scale(CAPACITY, 1)
  {
    hide Pow, Scale;
    PowTenBelowPowTwo(n);
    PowMono(2, 4 * n, 4012);
    PowMono(2, 4013, 4096);
    DoublePow(4012);
    ScaleIsPow2(CAPACITY, 1);
  }

  lemma DoublePow(n: nat)
    ensures Pow(2, n + 1) == 2 * Pow(2, n) > Pow(2, n)
  {
    PowPositive(2, n);
  }

  /** A 64-bit head followed by `c` digits is within the capacity. */
  lemma HeadAndDigitsFit(sig: u64, c: nat, d: nat)
    requires c <= 800 && d < Pow(10, c)
    ensures sig * Pow(10, c) + d + 1 < Scale(CAPACITY, 1)
  {
    TwentyDigits();
    PowAdd(10, 20, c);
    DigitsFit(20 + c);
    hide Pow, Scale;
    MulMono(sig + 1, Pow(10, 20), Pow(10, c));
    assert (sig + 1) * Pow(10, c) == sig * Pow(10, c) + Pow(10, c);
  }

  /** A head followed by `c` digits spelling `d`. */
  function Spelled(sig: nat, c: nat, d: nat): nat {
    sig * Pow(10, c) + d
  }

  /** What is in the big integer, and the digits not yet added to it. */
  ghost predicate Reading(big: nat, val: nat, len: nat, sig: nat, c: nat, d: nat) {
    big * Pow(10, len) + val == Spelled(sig, c, d) && val < Pow(10, len)
  }

  lemma ReadDigit(big: nat, val: nat, len: nat, sig: nat, c: nat, d: nat, x: nat)
    requires Reading(big, val, len, sig, c, d) && x < 10
    ensures Reading(big, val * 10 + x, len + 1, sig, c + 1, 10 * d + x)
  {
    assert big * Pow(10, len + 1) == 10 * (big * Pow(10, len));
    assert sig * Pow(10, c + 1) == 10 * (sig * Pow(10, c));
  }

  lemma ReadingRestarts(big: nat, sig: nat, c: nat, d: nat)
    requires big == Spelled(sig, c, d)
    ensures Reading(big, 0, 0, sig, c, d)
  {
  }

  lemma PendingFitsWord(big: nat, val: nat, len: nat, sig: nat, c: nat, d: nat)
    requires Reading(big, val, len, sig, c, d) && len <= 19
    ensures val + 1 < WORD
  {
    PowMono(10, len, 19);
    Pow10Exact(19);
  }

  /** The digits as they are, or with a one in place of the last when more digits follow. */
  function Kept(d: nat, more: bool): nat {
    if more then Sticky(d) else d
  }

  /** The pending digits, the last perhaps made a one, can be added within the capacity. */
  lemma FlushReady(big: nat, val: nat, len: nat, sig: u64, c: nat, d: nat, v: nat, e: nat)
    requires Reading(big, val, len, sig, c, d) && v - val == e - d && e <= d + 1
    requires c <= 800 && d < Pow(10, c)
    ensures big * Pow(10, len) + v == Spelled(sig, c, e) < Scale(CAPACITY, 1)
  {
    HeadAndDigitsFit(sig, c, d);
  }

  /** Pending digits go into the big integer. */
  method Flush(big: BigNum, val: u64, len: nat, ghost read: nat, ghost sig: u64, ghost c: nat, ghost d: nat, ghost e: nat)
    requires big.Valid() && Normal(big.Limbs())
    requires Reading(big.Value(), read, len, sig, c, d) && val - read == e - d && e <= d + 1
    requires c <= 800 && d < Pow(10, c)
    modifies big`used, big.bits
    ensures big.Valid() && Normal(big.Limbs()) && big.Value() == Spelled(sig, c, e)
  {
    FlushReady(big.Value(), read, len, sig, c, d, val, e);
    hide Pow, Scale, Normal, BigNum.Limbs, BigNum.Value, Reading;
    big.MulPow10(len);
    big.AddU64(val);
  }

  /** One more character: a digit, or the point. */
  lemma OneMore(buf: seq<byte>, lo: nat, cur: nat, end: nat, dot: nat)
    requires lo <= cur < end && Digits(buf, lo, end, dot)
    ensures Digits(buf, lo, cur, dot) && Digits(buf, lo, cur + 1, dot) && end <= |buf|
    ensures cur == dot ==> Count(lo, cur + 1, dot) == Count(lo, cur, dot)
    ensures cur == dot ==> Decimal(buf, lo, cur + 1, dot) == Decimal(buf, lo, cur, dot)
    ensures cur != dot ==> IsDigit(buf[cur]) && Count(lo, cur + 1, dot) == Count(lo, cur, dot) + 1
    ensures cur != dot ==> Decimal(buf, lo, cur + 1, dot) == 10 * Decimal(buf, lo, cur, dot) + (buf[cur] - 48)
    ensures Count(lo, cur + 1, dot) <= Count(lo, end, dot)
  {
  }

  lemma StartsEmpty(buf: seq<byte>, lo: nat, end: nat, dot: nat)
    requires lo < end && Digits(buf, lo, end, dot)
    ensures Digits(buf, lo, lo, dot) && Count(lo, lo, dot) == 0 && Decimal(buf, lo, lo, dot) == 0
  {
  }

  /** The digits pending after one more digit, with the last digit of all made a one if more follow. */
  lemma KeptStep(val: nat, d: nat, x: nat, last: bool)
    requires x < 10
    ensures var v := val * 10 + x;
            (if last then v - v % 10 + 1 else v) - v == Kept(10 * d + x, last) - (10 * d + x) <= 1
  {
  }

  /** The reading loop of bigint_set_buf: nineteen digits at a time. */
  method ReadDigits(big: BigNum, sig: u64, buf: seq<byte>, cut: nat, end: nat, dot: nat, more: bool)
    requires big.Valid() && Normal(big.Limbs()) && big.Value() == sig
    requires cut < end && Digits(buf, cut, end, dot) && dot + 1 != end && Count(cut, end, dot) <= 800
    modifies big`used, big.bits
    ensures big.Valid() && Normal(big.Limbs())
    ensures big.Value() == Spelled(sig, Count(cut, end, dot), Kept(Decimal(buf, cut, end, dot), more))
  {
    hide Pow, Scale, Reading, Normal, BigNum.Limbs, BigNum.Value, Spelled, Count, Decimal, Digits, Kept;
    var cur, len: nat, val: u64 := cut, 0, 0;
    SpelledNothing(sig);
    StartsEmpty(buf, cut, end, dot);
    ReadingRestarts(big.Value(), sig, 0, 0);
    while cur < end
      invariant cut <= cur <= end && len < 19 && big.Valid() && Normal(big.Limbs())
      invariant Digits(buf, cut, cur, dot)
      invariant cur < end ==>
        Reading(big.Value(), val, len, sig, Count(cut, cur, dot), Decimal(buf, cut, cur, dot))
      invariant cur == end ==>
        big.Value() == Spelled(sig, Count(cut, end, dot), Kept(Decimal(buf, cut, end, dot), more))
    {
      OneMore(buf, cut, cur, end, dot);
      if cur != dot {
        val, len := TakeDigit(big, sig, val, len, buf[cur] - 48, cur + 1 == end, more,
                              Count(cut, cur, dot), Decimal(buf, cut, cur, dot), buf, cut, cur + 1, dot);
      }
      cur := cur + 1;
    }
  }

  /** One digit of the loop: taken into `val`, and `val` into the big integer when it is full. */
  method TakeDigit(big: BigNum, sig: u64, val: u64, len: nat, x: nat, last: bool, more: bool,
                   ghost c: nat, ghost d: nat, ghost buf: seq<byte>, ghost cut: nat, ghost cur: nat, ghost dot: nat)
    returns (val': u64, len': nat)
    requires big.Valid() && Normal(big.Limbs()) && x < 10 && len < 19
    requires Reading(big.Value(), val, len, sig, c, d)
    requires cut <= cur && Digits(buf, cut, cur, dot)
    requires Count(cut, cur, dot) == c + 1 <= 800 && Decimal(buf, cut, cur, dot) == 10 * d + x
    modifies big`used, big.bits
    ensures big.Valid() && Normal(big.Limbs()) && len' < 19
    ensures !last ==> Reading(big.Value(), val', len', sig, c + 1, 10 * d + x)
    ensures last ==> big.Value() == Spelled(sig, c + 1, Kept(10 * d + x, more))
  {
    hide Pow, Scale, Reading, Normal, BigNum.Limbs, BigNum.Value, Spelled, Count, Decimal, Digits, Kept;
    ReadDigit(big.Value(), val, len, sig, c, d, x);
    PendingFitsWord(big.Value(), val * 10 + x, len + 1, sig, c + 1, 10 * d + x);
    DecimalBelow(buf, cut, cur, dot);
    KeptStep(val, d, x, last && more);
    val', len' := val * 10 + x, len + 1;
    if last && more {
      val' := val' - val' % 10 + 1;
    }
    if len' == SAFE_DIGITS || last {
      ghost var e := Kept(10 * d + x, last && more);
      Flush(big, val', len', val * 10 + x, sig, c + 1, 10 * d + x, e);
      if !last {
        KeptAll(10 * d + x);
        ReadingRestarts(big.Value(), sig, c + 1, e);
      }
      val', len' := 0, 0;
    }
  }

  lemma KeptAll(d: nat)
    ensures Kept(d, false) == d
  {
  }

  /** What rounding up added to the first nineteen digits. */
  function RoundedUp(b: byte): nat {
    if b >= 53 then 1 else 0
  }

  /** Where reading stops when there are more than 768 digits in all. */
  function KeptEnd(cut: nat, end: nat, dot: nat): nat
    requires cut < end && Count(cut, end, dot) >= 750
  {
    var e := end - (Count(cut, end, dot) - 750);
    if dot + 1 == e then e - 1 else e
  }

  /** The point is among the digits that are not read. */
  predicate PointBeyond(cut: nat, end: nat, dot: nat)
    requires cut < end && Count(cut, end, dot) >= 750
  {
    end - (Count(cut, end, dot) - 750) <= dot < end
  }

  /** One digit too many is read when the point is among those left out, and only then. */
  lemma KeptCount(cut: nat, end: nat, dot: nat)
    requires cut < end && dot != cut && Count(cut, end, dot) >= 750
    ensures var e := KeptEnd(cut, end, dot);
            cut < e <= end && dot + 1 != e
            && Count(cut, e, dot) == if PointBeyond(cut, end, dot) then 751 else 750
  {
  }

  /** What bigint_set_buf leaves: the integer, and how much the decimal exponent drops. */
  ghost predicate IsSetBuf(value: nat, drop: nat, head: nat, buf: seq<byte>, cut: nat, end: nat, dot: nat)
    requires cut < end && dot != cut && dot + 1 != end && Digits(buf, cut, end, dot)
  {
    var n := Count(cut, end, dot);
    if n + SAFE_DIGITS <= MAX_DIGITS then
      value == Spelled(head, n, Decimal(buf, cut, end, dot)) && drop == n
    else
      KeptCount(cut, end, dot);
      var e := KeptEnd(cut, end, dot);
      value == Spelled(head, Count(cut, e, dot), Sticky(Decimal(buf, cut, e, dot))) && drop == 750
  }

  /** bigint_set_buf. */
  method SetBuf(big: BigNum, sig: u64, exp: int, buf: seq<byte>, cut: Option<nat>, end: nat, dot: nat)
    returns (exp': int)
    requires big.Valid()
    requires cut.Some? ==> cut.value < end && Digits(buf, cut.value, end, dot) && dot != cut.value && dot + 1 != end
    requires cut.Some? ==> sig > 0
    modifies big`used, big.bits
    ensures big.Valid() && Normal(big.Limbs())
    ensures cut.None? ==> big.Value() == sig && exp' == exp
    ensures cut.Some? ==> exp' <= exp
    ensures cut.Some? ==> IsSetBuf(big.Value(), exp - exp', sig - RoundedUp(buf[cut.value]), buf, cut.value, end, dot)
  {
    hide Pow, Scale, Val, Decimal, Spelled, Reading;
    if cut.None? {
      big.SetU64(sig);
      SingleLimb(sig);
      return exp;
    }
    var hdr := cut.value;
    var hasDot := if hdr < dot < end then 1 else 0;
    var total := SAFE_DIGITS + (end - hdr) - hasDot;
    var head := if buf[hdr] >= 53 then sig - 1 else sig;
    var last, more := end, false;
    if total > MAX_DIGITS {
      more := true;
      KeptCount(hdr, end, dot);
      last := last - (total - (MAX_DIGITS + 1));
      last := last - if dot + 1 == last then 1 else 0;
      total := MAX_DIGITS + 1;
      assert last == KeptEnd(hdr, end, dot);
    }
    exp' := exp - (total - SAFE_DIGITS);
    big.SetU64(head);
    SingleLimb(head);
    ReadDigits(big, head, buf, hdr, last, dot, more);
  }

  lemma SingleLimb(x: u64)
    ensures Val([x]) == x && Normal([x])
  {
  }

  lemma {:induction false} CountSplit(lo: nat, mid: nat, hi: nat, dot: nat)
    requires lo <= mid <= hi
    ensures Count(lo, hi, dot) == Count(lo, mid, dot) + Count(mid, hi, dot)
  {
  }

  lemma {:induction false} DecimalSplit(buf: seq<byte>, lo: nat, mid: nat, hi: nat, dot: nat)
    requires lo <= mid <= hi && Digits(buf, lo, hi, dot)
    ensures Decimal(buf, lo, hi, dot)
         == Spelled(Decimal(buf, lo, mid, dot), Count(mid, hi, dot), Decimal(buf, mid, hi, dot))
  {
    hide Pow, Spelled;
    if mid == hi {
      SpelledNothing(Decimal(buf, lo, mid, dot));
    } else {
      DecimalSplit(buf, lo, mid, hi - 1, dot);
      OneMore(buf, lo, hi - 1, hi, dot);
      OneMore(buf, mid, hi - 1, hi, dot);
      hide Decimal, Count, Digits;
      if hi - 1 != dot {
        var digit: int := buf[hi - 1];
        SpelledMore(Decimal(buf, lo, mid, dot), Count(mid, hi - 1, dot), Decimal(buf, mid, hi - 1, dot), digit - 48);
      }
    }
  }

  lemma SpelledNothing(x: nat)
    ensures Spelled(x, 0, 0) == x
  {
  }

  lemma SpelledMore(x: nat, k: nat, d: nat, c: int)
    requires 10 * d + c >= 0
    ensures Spelled(x, k + 1, 10 * d + c) == 10 * Spelled(x, k, d) + c
  {
    assert x * (10 * Pow(10, k)) == 10 * (x * Pow(10, k));
  }

  lemma SpelledSplit(head: nat, m: nat, d: nat, n: nat, e: nat)
    ensures Spelled(head, m + n, Spelled(d, n, e)) == Spelled(Spelled(head, m, d), n, e)
  {
    PowAdd(10, m, n);
    hide Pow;
    assert (head * Pow(10, m) + d) * Pow(10, n) == head * (Pow(10, m) * Pow(10, n)) + d * Pow(10, n);
  }

  lemma StickyLast(head: nat, c: nat, d: nat, x: nat)
    requires x < 10
    ensures Spelled(head, c + 1, Sticky(10 * d + x)) == 10 * Spelled(head, c, d) + 1
  {
    assert head * (10 * Pow(10, c)) == 10 * (head * Pow(10, c));
  }

  /** A final one orders like the digits it stands for, except on a tie that has none left. */
  lemma StickyOrder(p: nat, t: nat, low: nat, b: nat)
    requires low < t
    ensures (10 * p + 1 < 10 * b) == (p * t + low < b * t)
    ensures (10 * p + 1 > 10 * b) == (p * t + low > b * t) <==> !(low == 0 && p == b)
  {
    if p < b {
      MulMono(p + 1, b, t);
      assert (p + 1) * t == p * t + t;
    } else {
      MulMono(b, p, t);
    }
    if b < p {
      MulMono(b + 1, p, t);
      assert (b + 1) * t == b * t + t;
    }
  }

  lemma KeptSplit(value: nat, drop: nat, head: nat, buf: seq<byte>, cut: nat, end: nat, dot: nat)
    requires cut < end && dot != cut && dot + 1 != end && Digits(buf, cut, end, dot)
    requires Count(cut, end, dot) >= 750 && !PointBeyond(cut, end, dot)
    requires IsSetBuf(value, drop, head, buf, cut, end, dot)
    ensures var e := KeptEnd(cut, end, dot);
            && cut < e <= end <= |buf| && IsDigit(buf[e - 1])
            && Digits(buf, cut, e - 1, dot) && Digits(buf, e - 1, end, dot)
            && Count(e - 1, end, dot) == Count(cut, end, dot) - 749
            && value == Spelled(head, 750, Sticky(10 * Decimal(buf, cut, e - 1, dot) + (buf[e - 1] - 48)))
  {
    KeptCount(cut, end, dot);
    var e := KeptEnd(cut, end, dot);
    hide Spelled, Sticky;
    OneMore(buf, cut, e - 1, end, dot);
    CountSplit(cut, e - 1, end, dot);
  }

  /** The digits split after the first 768. */
  lemma LongParts(value: nat, drop: nat, head: nat, buf: seq<byte>, cut: nat, end: nat, dot: nat)
    returns (parts: (nat, nat))
    requires cut < end && dot != cut && dot + 1 != end && Digits(buf, cut, end, dot)
    requires Count(cut, end, dot) >= 750 && !PointBeyond(cut, end, dot)
    requires IsSetBuf(value, drop, head, buf, cut, end, dot)
    ensures var n := Count(cut, end, dot);
            && value == 10 * Spelled(head, 749, parts.0) + 1
            && Spelled(head, n, Decimal(buf, cut, end, dot)) == Spelled(Spelled(head, 749, parts.0), n - 749, parts.1)
            && parts.1 < Pow(10, n - 749)
  {
    var e, n := KeptEnd(cut, end, dot), Count(cut, end, dot);
    KeptSplit(value, drop, head, buf, cut, end, dot);
    var d, low := Decimal(buf, cut, e - 1, dot), Decimal(buf, e - 1, end, dot);
    parts := (d, low);
    hide Pow, Spelled, Decimal, Digits, Sticky, KeptEnd, PointBeyond, Count, IsSetBuf;
    DecimalSplit(buf, cut, e - 1, end, dot);
    DecimalBelow(buf, e - 1, end, dot);
    StickyLast(head, 749, d, buf[e - 1] - 48);
    SpelledSplit(head, 749, d, n - 749, low);
  }

  /**
    With more than 768 digits and the point among those read, the integer left by bigint_set_buf compares
    with any number of 768 digits as the full digits do, unless they are that number followed by zeros.
   */
  lemma LongNumberOrder(value: nat, drop: nat, head: nat, buf: seq<byte>, cut: nat, end: nat, dot: nat, b: nat)
    requires cut < end && dot != cut && dot + 1 != end && Digits(buf, cut, end, dot)
    requires Count(cut, end, dot) >= 750 && !PointBeyond(cut, end, dot)
    requires IsSetBuf(value, drop, head, buf, cut, end, dot)
    ensures var n := Count(cut, end, dot);
            var whole, r := Spelled(head, n, Decimal(buf, cut, end, dot)), n - 749;
            && (value < 10 * b) == (whole < b * Pow(10, r))
            && ((value > 10 * b) == (whole > b * Pow(10, r)) <==> whole != b * Pow(10, r))
  {
    var parts := LongParts(value, drop, head, buf, cut, end, dot);
    hide Pow, Spelled, Decimal, Digits, IsSetBuf;
    LongOrder(head, parts.0, Count(cut, end, dot) - 749, parts.1, b);
  }

  lemma LongOrder(head: nat, d: nat, r: nat, low: nat, b: nat)
    requires low < Pow(10, r)
    ensures var p := Spelled(head, 749, d); var whole := Spelled(p, r, low);
            && (10 * p + 1 < 10 * b) == (whole < b * Pow(10, r))
            && ((10 * p + 1 > 10 * b) == (whole > b * Pow(10, r)) <==> whole != b * Pow(10, r))
  {
    hide Pow;
    var p, t := Spelled(head, 749, d), Pow(10, r);
    StickyOrder(p, t, low, b);
    if p < b {
      MulMono(p + 1, b, t);
      assert (p + 1) * t == p * t + t;
    } else if b < p {
      MulMono(b + 1, p, t);
      assert (b + 1) * t == b * t + t;
    }
  }

  lemma NineTimes(p: nat, value: nat, t: nat, low: nat)
    requires p >= 100 && value >= p - 8 && low < t
    ensures value * (10 * t) > 9 * (p * t + low)
  {
    MulMono(p - 8, value, 10 * t);
    MulMono(100, p, t);
    assert (p - 8) * (10 * t) == 10 * (p * t) - 80 * t;
  }

  lemma HeadIsLarge(head: nat, c: nat, d: nat)
    requires head > 0 && c >= 2
    ensures Spelled(head, c, d) >= 100
  {
    PowMono(10, 2, c);
    assert Pow(10, 2) == 100;
    MulMono(1, head, Pow(10, c));
  }

  /**
    When the point is among the digits that are not read, one digit too many is read for the exponent:
    the integer, scaled back by the drop in the exponent, is more than nine times the number in the buffer.
   */
  lemma PointBeyondMisscales(value: nat, drop: nat, head: nat, buf: seq<byte>, cut: nat, end: nat, dot: nat)
    requires cut < end && dot != cut && dot + 1 != end && Digits(buf, cut, end, dot) && head > 0
    requires Count(cut, end, dot) >= 750 && PointBeyond(cut, end, dot)
    requires IsSetBuf(value, drop, head, buf, cut, end, dot)
    ensures var n := Count(cut, end, dot);
            n > drop && value * Pow(10, n - drop) > 9 * Spelled(head, n, Decimal(buf, cut, end, dot))
  {
    KeptCount(cut, end, dot);
    var e, n := KeptEnd(cut, end, dot), Count(cut, end, dot);
    CountSplit(cut, e, end, dot);
    var d, low := Decimal(buf, cut, e, dot), Decimal(buf, e, end, dot);
    assert value == Spelled(head, 751, Sticky(d));
    MoreThanDropped(cut, e, end, dot);
    hide Spelled, Decimal, Digits, KeptEnd, PointBeyond, Count;
    DecimalSplit(buf, cut, e, end, dot);
    DecimalBelow(buf, e, end, dot);
    SpelledSplit(head, 751, d, n - 751, low);
    HeadIsLarge(head, 751, d);
    StickyNear(head, 751, d);
    NineTimesSpelled(Spelled(head, 751, d), value, n - 751, low);
  }

  lemma MoreThanDropped(cut: nat, e: nat, end: nat, dot: nat)
    requires cut <= e <= end && Count(cut, e, dot) == 751
    ensures Count(cut, end, dot) >= 751
  {
  }

  lemma StickyNear(head: nat, c: nat, d: nat)
    ensures Spelled(head, c, Sticky(d)) >= Spelled(head, c, d) - 8
  {
  }

  lemma NineTimesSpelled(p: nat, value: nat, r: nat, low: nat)
    requires p >= 100 && value >= p - 8 && low < Pow(10, r)
    ensures value * Pow(10, r + 1) > 9 * Spelled(p, r, low)
  {
    assert Pow(10, r + 1) == 10 * Pow(10, r);
    NineTimes(p, value, Pow(10, r), low);
  }
}
