/** Reading a number that is no integer of a word: its digits, its exponent, and the double or the refusal. */
module RealReader {
  import opened Bytes
  import opened Word64
  import opened Integers
  import opened IntegerReader
  import opened BigInt
  import DecimalBuf
  import opened BigCompare
  import opened FastFloat
  import opened Doubles
  import opened DiyFloat
  import opened SlowPath
  import opened ExactStep
  import opened NumberText

  /** What the digits and the exponent come to. */
  datatype Scanned =
    | ZeroNumber
    | HugeNumber
    | Significant(sig: u64, exp: int, cut: Option<nat>, end: nat, dot: nat)

  /** The first nineteen digits, rounded by the next one, and whether the rest matters. */
  ghost predicate WordOf(s: seq<byte>, n: Parts, sig: nat, cut: Option<nat>)
    requires Whole(s, n)
  {
    var p := FirstDigit(s, n.q, n.f);
    var c := CutAt(p, n.e);
    if c < n.f then
      && sig == RoundedWord(s, n)
      && cut == if AllZeros(s, c, n.f) then None else Some(c)
    else sig == DecimalBuf.Decimal(s, p, n.f, n.e) && cut == None
  }

  /** What the source's variables hold behind its scan. */
  ghost predicate ScansAs(s: seq<byte>, n: Parts, r: Scanned)
    requires Whole(s, n)
  {
    var exp := DecimalExponent(s, n);
    if FirstDigit(s, n.q, n.f) == n.f then r.ZeroNumber?
    else if LiteralLength(s, n) >= DecimalBuf.SAFE_DIGITS then if At(s, n.f + 1) == MINUS then r.ZeroNumber? else r.HugeNumber?
    else if exp < MIN_DECIMAL_EXP - 19 then r.ZeroNumber?
    else if exp > MAX_DECIMAL_EXP then r.HugeNumber?
    else r.Significant? && r.exp == exp && r.end == n.f && r.dot == n.e && WordOf(s, n, r.sig, r.cut)
  }

  // ---------------------------------------------------------------------------------------
  // The scan
  // ---------------------------------------------------------------------------------------

  predicate IsExp(b: byte) {
    b == 69 || b == 101
  }

  /** What stands behind each part. */
  ghost predicate Ends(s: seq<byte>, n: Parts) {
    && Whole(s, n)
    && !IsDigit(At(s, n.e)) && (At(s, n.e) == DOT <==> n.e < n.f)
    && !IsDigit(At(s, n.f)) && (IsExp(At(s, n.f)) <==> n.f < n.x)
    && !IsDigit(At(s, n.x))
  }

  lemma EndsAt(s: seq<byte>, i: nat)
    requires NumberEnd(s, i).Some?
    ensures Ends(s, PartsAt(s, i))
  {
  }

  lemma NextDigit(s: seq<byte>, p: nat, cur: nat, n: Parts)
    requires Whole(s, n) && n.q <= p <= cur < n.f
    ensures DecimalBuf.Digits(s, p, cur, n.e) && DecimalBuf.Digits(s, p, cur + 1, n.e)
    ensures cur == n.e ==> DecimalBuf.Decimal(s, p, cur + 1, n.e) == DecimalBuf.Decimal(s, p, cur, n.e)
    ensures cur != n.e ==> IsDigit(At(s, cur)) && At(s, cur) == s[cur]
                           && DecimalBuf.Decimal(s, p, cur + 1, n.e) == 10 * DecimalBuf.Decimal(s, p, cur, n.e) + (s[cur] - 48)
  {
  }

  /** Nineteen digits fit a word, and so does the sum when they are rounded up. */
  lemma WordRoom(s: seq<byte>, p: nat, c: nat, n: Parts)
    requires Whole(s, n) && n.q <= p <= c <= n.f && DecimalBuf.Count(p, c, n.e) <= 19
    ensures DecimalBuf.Digits(s, p, c, n.e) && DecimalBuf.Decimal(s, p, c, n.e) + 1 < WORD
  {
    DecimalBuf.DecimalBelow(s, p, c, n.e);
    PowMono(10, DecimalBuf.Count(p, c, n.e), 19);
    Pow10Exact(19);
  }

  /** Digits, as long as there are any and nineteen are not reached. */
  method ReadDigitRun(s: seq<byte>, from: nat, before: u64, had: nat, ghost p: nat, ghost n: Parts)
    returns (sig: u64, cur: nat, count: nat)
    requires Ends(s, n) && n.q <= p <= from <= n.f && had == DecimalBuf.Count(p, from, n.e) <= 19
    requires DecimalBuf.Digits(s, p, from, n.e) && before == DecimalBuf.Decimal(s, p, from, n.e)
    ensures from <= cur <= n.f && count == DecimalBuf.Count(p, cur, n.e) == had + (cur - from) <= 19
    ensures DecimalBuf.Digits(s, p, cur, n.e) && sig == DecimalBuf.Decimal(s, p, cur, n.e)
    ensures count == 19 || cur == n.e || cur == n.f
    ensures from <= n.e ==> cur <= n.e
  {
    sig, cur, count := before, from, had;
    while count < 19 && IsDigit(At(s, cur))
      invariant from <= cur <= n.f && (from <= n.e ==> cur <= n.e)
      invariant count == DecimalBuf.Count(p, cur, n.e) == had + (cur - from) <= 19
      invariant DecimalBuf.Digits(s, p, cur, n.e) && sig == DecimalBuf.Decimal(s, p, cur, n.e)
      decreases n.f - cur
    {
      NextDigit(s, p, cur, n);
      assert DecimalBuf.Count(p, cur + 1, n.e) == count + 1;
      WordRoom(s, p, cur + 1, n);
      hide DecimalBuf.Decimal, DecimalBuf.Digits;
      sig, cur, count := 10 * sig + (At(s, cur) - ZERO), cur + 1, count + 1;
    }
    if count < 19 && cur != n.e && cur < n.f {
      NextDigit(s, p, cur, n);
    }
  }

  /** Up to nineteen digits from `p` on, the point skipped. */
  method ReadNineteen(s: seq<byte>, p: nat, point: Option<nat>, ghost n: Parts) returns (sig: u64, cur: nat, dot: Option<nat>)
    requires Ends(s, n) && n.q <= p < n.f && p != n.e
    requires point == if p > n.e then Some(n.e) else None
    ensures cur == Least(CutAt(p, n.e), n.f) && DecimalBuf.Digits(s, p, cur, n.e) && sig == DecimalBuf.Decimal(s, p, cur, n.e)
    ensures dot.Some? ==> dot.value == n.e < cur
    ensures dot.None? ==> cur <= n.e && (cur == n.e ==> n.e == n.f)
  {
    var count: nat;
    dot := point;
    sig, cur, count := ReadDigitRun(s, p, 0, 0, p, n);
    if dot.None? && At(s, cur) == DOT {
      PointThere(s, cur, n);
      NextDigit(s, p, cur, n);
      dot, cur := Some(cur), cur + 1;
      sig, cur, count := ReadDigitRun(s, cur, sig, count, p, n);
    }
  }

  lemma PointThere(s: seq<byte>, cur: nat, n: Parts)
    requires Ends(s, n) && n.q <= cur <= n.e && At(s, cur) == DOT
    ensures cur == n.e < n.f
  {
  }

  /** The end of the digits from `from` on. */
  method SkipDigits(s: seq<byte>, from: nat) returns (cur: nat)
    ensures cur == RunEnd(s, from) && from <= cur && (from <= |s| ==> cur <= |s|)
  {
    cur := from;
    while IsDigit(At(s, cur))
      invariant from <= cur && (from <= |s| ==> cur <= |s|) && RunEnd(s, from) == RunEnd(s, cur)
      decreases |s| - cur
    {
      cur := cur + 1;
    }
  }

  /** The end of the number at `i`, or nothing where some digit is missing or the first one is a zero too many. */
  method FindEnd(s: seq<byte>, i: nat) returns (x: Option<nat>)
    ensures x == NumberEnd(s, i)
  {
    hide RunEnd;
    var q := i + if At(s, i) == MINUS then 1 else 0;
    var cur := SkipDigits(s, q);
    if cur == q || (At(s, q) == ZERO && cur > q + 1) {
      return None;
    }
    if At(s, cur) == DOT {
      var e := cur + 1;
      cur := SkipDigits(s, e);
      if cur == e {
        return None;
      }
    }
    if IsExp(At(s, cur)) {
      var g := cur + if At(s, cur + 1) == MINUS || At(s, cur + 1) == 43 then 2 else 1;
      cur := SkipDigits(s, g);
      if cur == g {
        return None;
      }
    }
    return Some(cur);
  }

  lemma RunToPart(s: seq<byte>, cur: nat, n: Parts)
    requires Ends(s, n) && n.q <= cur <= n.f
    ensures cur <= n.e ==> RunEnd(s, cur) == n.e
    ensures n.e < cur ==> RunEnd(s, cur) == n.f
  {
    hide RunEnd;
    if cur <= n.e {
      assert forall j | cur <= j < n.e :: IsDigit(At(s, j)) by { DigitsInParts(s, n); }
      RunEndAt(s, cur, n.e);
    } else {
      assert forall j | cur <= j < n.f :: IsDigit(At(s, j)) by { DigitsInParts(s, n); }
      RunEndAt(s, cur, n.f);
    }
  }

  lemma DigitsInParts(s: seq<byte>, n: Parts)
    requires Whole(s, n)
    ensures forall j | n.q <= j < n.f && j != n.e :: IsDigit(At(s, j))
  {
  }

  /** Whether digits behind the cut are all zeros: looked for from their end, as far as the number goes back. */
  method TrailingZeros(s: seq<byte>, hdr: nat, cut: nat, end: nat) returns (zeros: bool)
    requires hdr < cut <= end <= |s|
    ensures zeros <==> AllZeros(s, cut, end)
  {
    var tmp: int := end - 1;
    while (At(s, tmp) == ZERO || At(s, tmp) == DOT) && tmp > hdr
      invariant hdr <= tmp < end
      invariant AllZeros(s, tmp + 1, end)
    {
      tmp := tmp - 1;
    }
    zeros := tmp < cut;
  }

  /** More digits than nineteen: the rounded word, the cut, and where the digits and the point are. */
  method ReadCut(s: seq<byte>, hdr: nat, p: nat, word: u64, at: nat, point: Option<nat>, ghost n: Parts)
    returns (sig: u64, cut: Option<nat>, cur: nat, dot: nat)
    requires Ends(s, n) && hdr <= n.q && p == FirstDigit(s, n.q, n.f) < n.f && at == CutAt(p, n.e) < n.f
    requires DecimalBuf.Digits(s, p, at, n.e) && word == DecimalBuf.Decimal(s, p, at, n.e) && word + 1 < WORD
    requires if point.Some? then point.value == n.e < at else at < n.e
    requires At(s, at) != DOT
    ensures cur == n.f && dot == n.e && WordOf(s, n, sig, cut)
  {
    hide RunEnd, DecimalBuf.Decimal;
    RunToPart(s, at, n);
    cur := SkipDigits(s, at);
    sig := word + DecimalBuf.RoundedUp(At(s, at));
    if point.Some? {
      dot := point.value;
    } else {
      dot := cur;
      if At(s, cur) == DOT {
        RunToPart(s, cur + 1, n);
        cur := SkipDigits(s, cur + 1);
      }
    }
    var zeros := TrailingZeros(s, hdr, at, cur);
    cut := if zeros then None else Some(at);
  }

  /** The digits of the exponent whose mark is at `f`, behind its leading zeros. */
  method ReadExponent(s: seq<byte>, f: nat, ghost n: Parts) returns (lit: nat, length: nat, negative: bool)
    requires Ends(s, n) && f == n.f < n.x
    ensures length == LiteralLength(s, n) && negative == (At(s, n.f + 1) == MINUS)
    ensures (if negative then -(lit as int) else lit) == Literal(s, n)
  {
    negative := At(s, f + 1) == MINUS;
    var cur := ExponentStart(s, f);
    ghost var g := cur;
    hide DecimalBuf.Digits;
    while At(s, cur) == ZERO
      invariant g <= cur <= n.x && SkipZeros(s, g, n.x) == SkipZeros(s, cur, n.x)
      decreases n.x - cur
    {
      cur := cur + 1;
    }
    var tmp := cur;
    assert SkipZeros(s, g, n.x) == tmp;
    lit := 0;
    while IsDigit(At(s, cur))
      invariant tmp <= cur <= n.x && lit == IntegerReader.Spelled(s, tmp, cur)
      decreases n.x - cur
    {
      lit := 10 * lit + (At(s, cur) - ZERO);
      cur := cur + 1;
    }
    length := cur - tmp;
  }

  /** The exponent so far and as written: out of range, or the digits to convert. */
  method Classify(s: seq<byte>, sig: u64, scale: int, cut: Option<nat>, f: nat, dot: nat, ghost n: Parts)
    returns (r: Scanned)
    requires Ends(s, n) && f == n.f && dot == n.e && FirstDigit(s, n.q, n.f) < n.f && WordOf(s, n, sig, cut)
    requires scale == ScaleAt(Least(CutAt(FirstDigit(s, n.q, n.f), n.e), n.f), n.e)
    ensures ScansAs(s, n, r)
  {
    hide WordOf, Literal, LiteralLength;
    var exp := scale;
    if IsExp(At(s, f)) {
      var lit, length, negative := ReadExponent(s, f, n);
      if length >= 19 {
        return if negative then ZeroNumber else HugeNumber;
      }
      exp := exp + if negative then -(lit as int) else lit;
    } else {
      NoExponent(s, n);
    }
    if exp < MIN_DECIMAL_EXP - 19 {
      return ZeroNumber;
    }
    if exp > MAX_DECIMAL_EXP {
      return HugeNumber;
    }
    return Significant(sig, exp, cut, f, dot);
  }

  lemma NoExponent(s: seq<byte>, n: Parts)
    requires Whole(s, n) && n.f == n.x
    ensures Literal(s, n) == 0 && LiteralLength(s, n) == 0
  {
  }

  /** read_num's scan of a number that is left to the floating-point path. */
  method Scan(s: seq<byte>, pos: nat) returns (r: Scanned)
    requires NumberEnd(s, pos).Some?
    ensures ScansAs(s, PartsAt(s, pos), r)
  {
    ghost var n := PartsAt(s, pos);
    EndsAt(s, pos);
    hide RunEnd, Ends, ScansAs, WordOf, NumberEnd;
    var p, point := SkipLeadingZeros(s, pos + IntegerReader.Sign(s, pos), n);
    if !IsDigit(At(s, p)) {
      ZerosScan(s, n);
      return ZeroNumber;
    }
    var word, at, dot := ReadNineteen(s, p, point, n);
    FewDigits19(s, p, at, n);
    if IsDigit(At(s, at)) {
      var sig, cut, cur, d := ReadCut(s, pos, p, word, at, dot, n);
      r := Classify(s, sig, ScaleAt(at, d), cut, cur, d, n);
    } else {
      var d := if dot.Some? then dot.value else at;
      r := Classify(s, word, ScaleAt(at, d), None, at, d, n);
    }
  }

  /** Where nineteen digits end: a word's worth, and more of them only before the end. */
  lemma FewDigits19(s: seq<byte>, p: nat, at: nat, n: Parts)
    requires Ends(s, n) && n.q <= p < n.f && p != n.e && at == Least(CutAt(p, n.e), n.f)
    ensures DecimalBuf.Digits(s, p, at, n.e) && DecimalBuf.Decimal(s, p, at, n.e) + 1 < WORD
    ensures IsDigit(At(s, at)) ==> at < n.f
    ensures !IsDigit(At(s, at)) ==> at == n.f || at == n.e
  {
    WordRoom(s, p, at, n);
    if at < n.f && at != n.e {
      NextDigit(s, p, at, n);
    }
    hide DecimalBuf.Decimal;
  }

  lemma ZerosScan(s: seq<byte>, n: Parts)
    requires Whole(s, n) && FirstDigit(s, n.q, n.f) == n.f
    ensures ScansAs(s, n, ZeroNumber)
  {
  }

  /** A zero in front, and with it those behind the point. */
  method SkipLeadingZeros(s: seq<byte>, start: nat, ghost n: Parts) returns (p: nat, point: Option<nat>)
    requires Ends(s, n) && start == n.q
    ensures p == FirstDigit(s, n.q, n.f) && (IsDigit(At(s, p)) <==> p < n.f)
    ensures p < n.f ==> p != n.e && point == if p > n.e then Some(n.e) else None
  {
    p, point := start, None;
    if At(s, p) == ZERO {
      p := p + 1;
      if At(s, p) == DOT {
        point := Some(p);
        p := p + 1;
        while At(s, p) == ZERO
          invariant n.e < p <= n.f && FirstDigit(s, n.q, n.f) == FirstDigit(s, p, n.f)
          decreases n.f - p
        {
          p := p + 1;
        }
      }
    }
  }
}
