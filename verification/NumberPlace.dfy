/** What a number is read as depends on its text alone, wherever that stands. */
module NumberPlace {
  import opened Bytes
  import opened Word64
  import opened Integers
  import opened IntegerReader
  import BigInt
  import DecimalBuf
  import opened SlowPath
  import opened Doubles
  import ExactStep
  import FastFloat
  import opened NumberText
  import opened NumberValue

  /** The parts, `k` further on. */
  function Moved(n: Parts, k: nat): Parts {
    Parts(n.q + k, n.e + k, n.f + k, n.x + k)
  }

  lemma AtHeld(v: seq<byte>, s: seq<byte>, k: nat, j: nat)
    requires Holds(s, k, v)
    ensures j < |v| ==> k + j < |s| && At(s, k + j) == At(v, j) && v[j] == s[k + j] == At(v, j)
  {
    if j < |v| {
      assert s[k..k + |v|][j] == s[k + j];
    }
  }

  lemma {:induction false} FirstDigitHeld(v: seq<byte>, s: seq<byte>, k: nat, q: nat, f: nat)
    requires Holds(s, k, v) && q <= f <= |v|
    ensures FirstDigit(s, q + k, f + k) == FirstDigit(v, q, f) + k
    decreases f - q
  {
    AtHeld(v, s, k, q);
    if q < f {
      FirstDigitHeld(v, s, k, q + 1, f);
    }
  }

  lemma {:induction false} SkipZerosHeld(v: seq<byte>, s: seq<byte>, k: nat, g: nat, x: nat)
    requires Holds(s, k, v) && g <= x <= |v|
    ensures SkipZeros(s, g + k, x + k) == SkipZeros(v, g, x) + k
    decreases x - g
  {
    AtHeld(v, s, k, g);
    if g < x {
      SkipZerosHeld(v, s, k, g + 1, x);
    }
  }

  lemma DigitsHeld(v: seq<byte>, s: seq<byte>, k: nat, lo: nat, hi: nat, dot: nat)
    requires Holds(s, k, v) && hi <= |v|
    ensures DecimalBuf.Digits(v, lo, hi, dot) <==> DecimalBuf.Digits(s, lo + k, hi + k, dot + k)
  {
    forall j | lo <= j < hi
      ensures v[j] == s[j + k]
    {
      AtHeld(v, s, k, j);
    }
    if DecimalBuf.Digits(s, lo + k, hi + k, dot + k) {
      forall j | lo <= j < hi && j != dot
        ensures IsDigit(v[j])
      {
        assert IsDigit(s[j + k]);
      }
    }
    if DecimalBuf.Digits(v, lo, hi, dot) {
      forall j | lo + k <= j < hi + k && j != dot + k
        ensures IsDigit(s[j])
      {
        assert IsDigit(v[j - k]);
      }
    }
  }

  lemma {:induction false} DecimalHeld(v: seq<byte>, s: seq<byte>, k: nat, lo: nat, hi: nat, dot: nat)
    requires Holds(s, k, v) && lo <= hi <= |v| && DecimalBuf.Digits(v, lo, hi, dot)
    ensures DecimalBuf.Digits(s, lo + k, hi + k, dot + k)
    ensures DecimalBuf.Decimal(s, lo + k, hi + k, dot + k) == DecimalBuf.Decimal(v, lo, hi, dot)
    decreases hi
  {
    DigitsHeld(v, s, k, lo, hi, dot);
    if lo < hi {
      AtHeld(v, s, k, hi - 1);
      DecimalHeld(v, s, k, lo, hi - 1, dot);
    }
  }

  lemma {:induction false} SpelledHeld(v: seq<byte>, s: seq<byte>, k: nat, i: nat, e: nat)
    requires Holds(s, k, v) && i <= e <= |v| && forall j | i <= j < e :: IsDigit(At(v, j))
    ensures forall j | i + k <= j < e + k :: IsDigit(At(s, j))
    ensures IntegerReader.Spelled(s, i + k, e + k) == IntegerReader.Spelled(v, i, e)
    decreases e
  {
    forall j | i + k <= j < e + k
      ensures IsDigit(At(s, j))
    {
      AtHeld(v, s, k, j - k);
      assert IsDigit(At(v, j - k));
    }
    if i < e {
      AtHeld(v, s, k, e - 1);
      SpelledHeld(v, s, k, i, e - 1);
    }
  }

  lemma ZerosHeld(v: seq<byte>, s: seq<byte>, k: nat, lo: nat, hi: nat)
    requires Holds(s, k, v) && hi <= |v|
    ensures AllZeros(s, lo + k, hi + k) <==> AllZeros(v, lo, hi)
  {
    forall j | lo <= j < hi
      ensures At(v, j) == At(s, j + k)
    {
      AtHeld(v, s, k, j);
    }
    if AllZeros(s, lo + k, hi + k) {
      forall j | lo <= j < hi
        ensures At(v, j) == ZERO || At(v, j) == DOT
      {
        assert At(s, j + k) == ZERO || At(s, j + k) == DOT;
      }
    }
    if AllZeros(v, lo, hi) {
      forall j | lo + k <= j < hi + k
        ensures At(s, j) == ZERO || At(s, j) == DOT
      {
        assert At(v, j - k) == ZERO || At(v, j - k) == DOT;
      }
    }
  }

  lemma ExponentHeld(v: seq<byte>, s: seq<byte>, k: nat, f: nat, x: nat)
    requires Holds(s, k, v) && f < x <= |v|
    ensures f + 1 < x ==> ExponentStart(s, f + k) == ExponentStart(v, f) + k && At(s, f + k + 1) == At(v, f + 1)
  {
    AtHeld(v, s, k, f + 1);
  }

  lemma WholeHeld(v: seq<byte>, s: seq<byte>, k: nat, n: Parts)
    requires Holds(s, k, v) && Whole(v, n)
    ensures Whole(s, Moved(n, k))
  {
    DigitsHeld(v, s, k, n.q, n.f, n.e);
    AtHeld(v, s, k, n.q);
    if n.e < n.f {
      AtHeld(v, s, k, n.e);
    }
    if n.f < n.x {
      var g := ExponentStart(v, n.f);
      ExponentHeld(v, s, k, n.f, n.x);
      forall j | g + k <= j < n.x + k
        ensures IsDigit(At(s, j))
      {
        AtHeld(v, s, k, j - k);
        assert IsDigit(At(v, j - k));
      }
    }
  }

  lemma LiteralHeld(v: seq<byte>, s: seq<byte>, k: nat, n: Parts)
    requires Holds(s, k, v) && Whole(v, n)
    ensures Whole(s, Moved(n, k))
    ensures Literal(s, Moved(n, k)) == Literal(v, n) && LiteralLength(s, Moved(n, k)) == LiteralLength(v, n)
    ensures n.f < n.x ==> At(s, n.f + k + 1) == At(v, n.f + 1)
  {
    WholeHeld(v, s, k, n);
    if n.f < n.x {
      var g := ExponentStart(v, n.f);
      ExponentHeld(v, s, k, n.f, n.x);
      SkipZerosHeld(v, s, k, g, n.x);
      SpelledHeld(v, s, k, SkipZeros(v, g, n.x), n.x);
    }
  }

  /** Where the digits that count begin, and where nineteen of them end. */
  lemma FirstAgrees(v: seq<byte>, s: seq<byte>, k: nat, n: Parts)
    requires Holds(s, k, v) && Whole(v, n)
    ensures Whole(s, Moved(n, k))
    ensures var p := FirstDigit(v, n.q, n.f);
            FirstDigit(s, n.q + k, n.f + k) == p + k && CutAt(p + k, n.e + k) == CutAt(p, n.e) + k
  {
    WholeHeld(v, s, k, n);
    FirstDigitHeld(v, s, k, n.q, n.f);
  }

  /** They spell the same as far as `c`. */
  lemma DigitsAgree(v: seq<byte>, s: seq<byte>, k: nat, n: Parts, c: nat)
    requires Holds(s, k, v) && Whole(v, n) && FirstDigit(v, n.q, n.f) <= c <= n.f
    ensures var p := FirstDigit(v, n.q, n.f);
            && DecimalBuf.Digits(v, p, c, n.e) && DecimalBuf.Digits(s, p + k, c + k, n.e + k)
            && DecimalBuf.Decimal(s, p + k, c + k, n.e + k) == DecimalBuf.Decimal(v, p, c, n.e)
  {
    DecimalHeld(v, s, k, FirstDigit(v, n.q, n.f), c, n.e);
  }

  lemma ExponentAgrees(v: seq<byte>, s: seq<byte>, k: nat, n: Parts)
    requires Holds(s, k, v) && Whole(v, n)
    ensures Whole(s, Moved(n, k)) && DecimalExponent(s, Moved(n, k)) == DecimalExponent(v, n)
    ensures ScaleAt(n.f + k, n.e + k) == ScaleAt(n.f, n.e)
  {
    FirstAgrees(v, s, k, n);
    LiteralHeld(v, s, k, n);
    hide Literal, Whole, FirstDigit;
  }

  lemma TooLargeIs(s: seq<byte>, n: Parts)
    requires Whole(s, n)
    ensures LiteralLength(s, n) > 0 ==> n.f < n.x
    ensures var p := FirstDigit(s, n.q, n.f);
            DecimalBuf.Digits(s, p, n.f, n.e)
            && (TooLarge(s, n) <==>
                 && p < n.f
                 && if LiteralLength(s, n) >= DecimalBuf.SAFE_DIGITS then At(s, n.f + 1) != MINUS
                    else
                      || DecimalExponent(s, n) > MAX_DECIMAL_EXP
                      || (DecimalExponent(s, n) >= MIN_DECIMAL_EXP - 19
                          && BeyondDoubles(DecimalBuf.Decimal(s, p, n.f, n.e), ScaleAt(n.f, n.e) + Literal(s, n))))
  {
    hide Literal, FirstDigit, DecimalBuf.Decimal, BeyondDoubles, DecimalExponent, ScaleAt;
  }

  /** Whether a number is too large is seen from its text alone. */
  lemma TooLargeHeld(v: seq<byte>, s: seq<byte>, k: nat, n: Parts)
    requires Holds(s, k, v) && Whole(v, n)
    ensures Whole(s, Moved(n, k)) && TooLarge(s, Moved(n, k)) == TooLarge(v, n)
  {
    hide Literal, LiteralLength, FirstDigit, DecimalBuf.Decimal, BeyondDoubles, DecimalExponent, ScaleAt, Holds;
    FirstAgrees(v, s, k, n);
    DigitsAgree(v, s, k, n, n.f);
    LiteralHeld(v, s, k, n);
    ExponentAgrees(v, s, k, n);
    TooLargeIs(v, n);
    TooLargeIs(s, Moved(n, k));
    hide TooLarge, Whole, DecimalBuf.Digits;
  }

  /** And so is whether it has too many digits, and whether its point is dropped. */
  lemma ManyHeld(v: seq<byte>, s: seq<byte>, k: nat, n: Parts)
    requires Holds(s, k, v) && Whole(v, n)
    ensures Whole(s, Moved(n, k))
    ensures ManyDigits(s, Moved(n, k)) == ManyDigits(v, n) && PointDropped(s, Moved(n, k)) == PointDropped(v, n)
  {
    FirstAgrees(v, s, k, n);
    var c := CutAt(FirstDigit(v, n.q, n.f), n.e);
    ZerosHeld(v, s, k, c, n.f);
    hide Whole, FirstDigit, DecimalBuf.Decimal, AllZeros;
  }

  lemma WordHeld(v: seq<byte>, s: seq<byte>, k: nat, n: Parts)
    requires Holds(s, k, v) && Whole(v, n) && CutAt(FirstDigit(v, n.q, n.f), n.e) < n.f
    ensures Whole(s, Moved(n, k)) && CutAt(FirstDigit(s, n.q + k, n.f + k), n.e + k) < n.f + k
    ensures RoundedWord(s, Moved(n, k)) == RoundedWord(v, n)
  {
    var c := CutAt(FirstDigit(v, n.q, n.f), n.e);
    FirstAgrees(v, s, k, n);
    DigitsAgree(v, s, k, n, c);
    AtHeld(v, s, k, c);
    hide Whole, FirstDigit, DecimalBuf.Decimal;
  }

  /** And what its first digits are. */
  lemma EdgeHeld(v: seq<byte>, s: seq<byte>, k: nat, n: Parts)
    requires Holds(s, k, v) && Whole(v, n)
    ensures Whole(s, Moved(n, k)) && AtTheEdge(s, Moved(n, k)) == AtTheEdge(v, n)
  {
    ManyHeld(v, s, k, n);
    LiteralHeld(v, s, k, n);
    ExponentAgrees(v, s, k, n);
    if PointDropped(v, n) {
      WordHeld(v, s, k, n);
    }
    hide Literal, LiteralLength, Whole, FirstDigit, RoundedWord, DecimalExponent;
  }

  lemma OutHeld(v: seq<byte>, s: seq<byte>, k: nat, n: Parts)
    requires Holds(s, k, v) && Whole(v, n)
    ensures Whole(s, Moved(n, k))
    ensures OutBelow(s, Moved(n, k)) == OutBelow(v, n) && OutAbove(s, Moved(n, k)) == OutAbove(v, n)
  {
    FirstAgrees(v, s, k, n);
    LiteralHeld(v, s, k, n);
    ExponentAgrees(v, s, k, n);
    hide Literal, LiteralLength, Whole, FirstDigit, DecimalExponent;
  }

  /** What it is worth, */
  lemma WorthHeld(v: seq<byte>, s: seq<byte>, k: nat, n: Parts)
    requires Holds(s, k, v) && Whole(v, n)
    ensures Whole(s, Moved(n, k)) && Worth(s, Moved(n, k)) == Worth(v, n)
  {
    FirstAgrees(v, s, k, n);
    DigitsAgree(v, s, k, n, n.f);
    LiteralHeld(v, s, k, n);
    ExponentAgrees(v, s, k, n);
    hide Literal, Whole, FirstDigit, DecimalBuf.Decimal, DecimalExponent, FastFloat.Times;
  }

  lemma KeptMoved(c: nat, f: nat, e: nat, k: nat)
    requires c < f && DecimalBuf.Count(c, f, e) >= 750
    ensures DecimalBuf.Count(c + k, f + k, e + k) == DecimalBuf.Count(c, f, e)
    ensures DecimalBuf.KeptEnd(c + k, f + k, e + k) == DecimalBuf.KeptEnd(c, f, e) + k
  {
  }

  /** what is compared in its place, */
  lemma KeptHeld(v: seq<byte>, s: seq<byte>, k: nat, n: Parts)
    requires Holds(s, k, v) && Whole(v, n) && PointDropped(v, n)
    ensures Whole(s, Moved(n, k)) && PointDropped(s, Moved(n, k)) && KeptAt(s, Moved(n, k)) == KeptAt(v, n)
  {
    var c := CutAt(FirstDigit(v, n.q, n.f), n.e);
    var m := Moved(n, k);
    ManyHeld(v, s, k, n);
    WordHeld(v, s, k, n);
    ExponentAgrees(v, s, k, n);
    FirstAgrees(v, s, k, n);
    DroppedReadable(v, n);
    DroppedReadable(s, m);
    KeptMoved(c, n.f, n.e, k);
    DecimalBuf.KeptCount(c, n.f, n.e);
    var e := DecimalBuf.KeptEnd(c, n.f, n.e);
    DecimalHeld(v, s, k, c, e, n.e);
    AtHeld(v, s, k, c);
    hide Whole, FirstDigit, DecimalBuf.Decimal, DecimalExponent, RoundedWord, FastFloat.Times, PointDropped, DecimalBuf.KeptEnd;
    hide DecimalBuf.Count, DecimalBuf.Digits, ExactStep.DecimalValue, Worth;
  }

  /** and what is estimated from its first digits. */
  lemma EstimateHeld(v: seq<byte>, s: seq<byte>, k: nat, n: Parts, e: Estimated)
    requires Holds(s, k, v) && Whole(v, n) && PointDropped(v, n)
    ensures Whole(s, Moved(n, k)) && PointDropped(s, Moved(n, k))
    ensures EstimatedAs(s, Moved(n, k), e) <==> EstimatedAs(v, n, e)
  {
    ManyHeld(v, s, k, n);
    WordHeld(v, s, k, n);
    ExponentAgrees(v, s, k, n);
    hide Whole, FirstDigit, DecimalExponent, RoundedWord, PointDropped, Estimation, Worth, ExactStep.DecimalValue;
  }

  // ---------------------------------------------------------------------------------------
  // A number's own text
  // ---------------------------------------------------------------------------------------

  lemma {:induction false} RunEndIs(s: seq<byte>, q: nat, e: nat)
    requires q <= e && !IsDigit(At(s, e)) && forall j | q <= j < e :: IsDigit(At(s, j))
    ensures RunEnd(s, q) == e
    decreases e - q
  {
    if q < e {
      assert IsDigit(At(s, q));
      RunEndIs(s, q + 1, e);
    }
  }

  lemma RunEndHeld(v: seq<byte>, s: seq<byte>, k: nat, q: nat, e: nat)
    requires Holds(s, k, v) && q <= e <= |v| && RunEnd(s, q + k) == e + k
    ensures RunEnd(v, q) == e
  {
    forall j | q <= j < e
      ensures IsDigit(At(v, j))
    {
      AtHeld(v, s, k, j);
      assert IsDigit(At(s, j + k));
    }
    AtHeld(v, s, k, e);
    RunEndIs(v, q, e);
  }

  lemma FractionHeld(v: seq<byte>, s: seq<byte>, k: nat, e: nat, f: nat)
    requires Holds(s, k, v) && e <= f <= |v| && FractionEnd(s, e + k) == Some(f + k)
    ensures FractionEnd(v, e) == Some(f)
  {
    AtHeld(v, s, k, e);
    if e < f {
      RunEndHeld(v, s, k, e + 1, f);
    }
    hide RunEnd;
  }

  lemma ExponentEndHeld(v: seq<byte>, s: seq<byte>, k: nat, f: nat, x: nat)
    requires Holds(s, k, v) && f <= x <= |v| && ExponentEnd(s, f + k) == Some(x + k)
    ensures ExponentEnd(v, f) == Some(x)
  {
    AtHeld(v, s, k, f);
    if f < x {
      AtHeld(v, s, k, f + 1);
      RunEndHeld(v, s, k, ExponentStart(v, f), x);
    }
    hide RunEnd;
  }

  lemma EndInside(s: seq<byte>, i: nat)
    requires NumberEnd(s, i).Some?
    ensures i <= NumberEnd(s, i).value <= |s|
  {
    PartsWhole(s, i);
    hide RunEnd, FractionEnd, ExponentEnd;
  }

  function Cutout(s: seq<byte>, i: nat): seq<byte>
    requires NumberEnd(s, i).Some?
  {
    EndInside(s, i);
    s[i..NumberEnd(s, i).value]
  }

  /** The text of the number at `i`, which alone is a number too. */
  function TextOf(s: seq<byte>, i: nat): (v: seq<byte>)
    requires NumberEnd(s, i).Some?
    ensures NumberEnd(v, 0) == Some(|v|)
  {
    CutoutHeld(s, i);
    Cutout(s, i)
  }

  lemma TextHeld(s: seq<byte>, i: nat)
    requires NumberEnd(s, i).Some?
    ensures Holds(s, i, TextOf(s, i)) && |TextOf(s, i)| == NumberEnd(s, i).value - i
  {
    EndInside(s, i);
    hide NumberEnd;
  }

  lemma EndFrom(v: seq<byte>, i: nat, n: Parts)
    requires n.q == i + Sign(v, i) && RunEnd(v, n.q) == n.e && n.q < n.e && !(At(v, n.q) == ZERO && n.e > n.q + 1)
    requires FractionEnd(v, n.e) == Some(n.f) && ExponentEnd(v, n.f) == Some(n.x)
    ensures NumberEnd(v, i) == Some(n.x) && PartsOf(v, i) == n
  {
    hide RunEnd, FractionEnd, ExponentEnd;
  }

  /** The parts of a number, each by where it ends. */
  lemma PartsEnd(s: seq<byte>, i: nat)
    requires NumberEnd(s, i).Some?
    ensures var n := PartsAt(s, i);
            && n.q == i + Sign(s, i) && n.q < n.e <= n.f <= n.x <= |s| && !(At(s, n.q) == ZERO && n.e > n.q + 1)
            && RunEnd(s, n.q) == n.e && FractionEnd(s, n.e) == Some(n.f) && ExponentEnd(s, n.f) == Some(n.x)
  {
    PartsWhole(s, i);
    hide RunEnd, FractionEnd, ExponentEnd;
  }

  lemma PartsPlaced(v: seq<byte>, s: seq<byte>, k: nat, n: Parts)
    requires Holds(s, k, v) && |v| == n.x && n.q == Sign(s, k) && n.q < n.e <= n.f <= n.x
    requires RunEnd(s, n.q + k) == n.e + k && !(At(s, n.q + k) == ZERO && n.e > n.q + 1)
    requires FractionEnd(s, n.e + k) == Some(n.f + k) && ExponentEnd(s, n.f + k) == Some(n.x + k)
    ensures NumberEnd(v, 0) == Some(|v|) && Sign(v, 0) == Sign(s, k) && PartsOf(v, 0) == n
  {
    hide RunEnd, FractionEnd, ExponentEnd, NumberEnd, Holds, PartsOf;
    AtHeld(v, s, k, 0);
    AtHeld(v, s, k, n.q);
    RunEndHeld(v, s, k, n.q, n.e);
    FractionHeld(v, s, k, n.e, n.f);
    ExponentEndHeld(v, s, k, n.f, n.x);
    EndFrom(v, 0, n);
  }

  lemma CutoutHeld(s: seq<byte>, i: nat)
    requires NumberEnd(s, i).Some?
    ensures var v := Cutout(s, i);
            && NumberEnd(v, 0) == Some(|v|) && Sign(v, 0) == Sign(s, i)
            && PartsOf(s, i) == Moved(PartsOf(v, 0), i)
  {
    PartsEnd(s, i);
    var v := Cutout(s, i);
    hide NumberEnd, RunEnd, FractionEnd, ExponentEnd, Whole, Cutout;
    var n := PartsAt(s, i);
    CutoutThere(s, i);
    hide Holds;
    PartsPlaced(v, s, i, Parts(n.q - i, n.e - i, n.f - i, n.x - i));
    PartsThere(s, i);
  }

  lemma CutoutThere(s: seq<byte>, i: nat)
    requires NumberEnd(s, i).Some?
    ensures Holds(s, i, Cutout(s, i)) && |Cutout(s, i)| == NumberEnd(s, i).value - i
  {
    EndInside(s, i);
    hide NumberEnd;
  }

  /** The text alone is a number with the same parts. */
  lemma PartsHeld(s: seq<byte>, i: nat)
    requires NumberEnd(s, i).Some?
    ensures var v := TextOf(s, i); Sign(v, 0) == Sign(s, i) && PartsAt(s, i) == Moved(PartsAt(v, 0), i)
  {
    CutoutHeld(s, i);
    PartsThere(s, i);
    PartsThere(TextOf(s, i), 0);
    hide NumberEnd, PartsOf, Cutout, PartsAt;
  }

  lemma PartsThere(s: seq<byte>, i: nat)
    requires NumberEnd(s, i).Some?
    ensures PartsAt(s, i) == PartsOf(s, i)
  {
  }

  lemma RefusedHeld(s: seq<byte>, i: nat)
    requires NumberEnd(s, i).Some?
    ensures Refused(s, i) == Refused(TextOf(s, i), 0)
  {
    var v := TextOf(s, i);
    TextHeld(s, i);
    PartsHeld(s, i);
    var n := PartsAt(v, 0);
    TooLargeHeld(v, s, i, n);
    EdgeHeld(v, s, i, n);
    hide NumberEnd, TooLarge, AtTheEdge, Whole, TextOf;
  }

  lemma MisscaledHeld(v: seq<byte>, s: seq<byte>, k: nat, n: Parts)
    requires Holds(s, k, v) && Whole(v, n) && PointDropped(v, n)
    ensures Whole(s, Moved(n, k)) && PointDropped(s, Moved(n, k)) && KeptAt(s, Moved(n, k)) == KeptAt(v, n)
    ensures Worth(s, Moved(n, k)) == Worth(v, n)
    ensures forall e :: EstimatedAs(s, Moved(n, k), e) <==> EstimatedAs(v, n, e)
  {
    KeptHeld(v, s, k, n);
    WorthHeld(v, s, k, n);
    forall e
      ensures EstimatedAs(s, Moved(n, k), e) <==> EstimatedAs(v, n, e)
    {
      EstimateHeld(v, s, k, n, e);
    }
    hide EstimatedAs, Worth, KeptAt, PointDropped, Whole;
  }

  lemma ReadsHeld(s: seq<byte>, i: nat, r: Option<nat>)
    requires NumberEnd(s, i).Some?
    ensures NumberEnd(TextOf(s, i), 0).Some? && (RealReads(s, i, r) <==> RealReads(TextOf(s, i), 0, r))
  {
    var v := TextOf(s, i);
    TextHeld(s, i);
    PartsHeld(s, i);
    var n := PartsAt(v, 0);
    OutHeld(v, s, i, n);
    ManyHeld(v, s, i, n);
    WorthHeld(v, s, i, n);
    hide NumberEnd, OutBelow, OutAbove, Worth, ManyDigits, Whole, TextOf, ExactStep.ConvertsTo, PointDropped;
    if PointDropped(v, n) {
      MisscaledHeld(v, s, i, n);
    }
    hide EstimatedAs, KeptAt, ExactStep.TakenBy;
  }

  /** The double that is read is that of the number's own text. */
  lemma RealHeld(s: seq<byte>, i: nat)
    requires NumberEnd(s, i).Some?
    ensures NumberEnd(TextOf(s, i), 0).Some? && RealOf(s, i) == RealOf(TextOf(s, i), 0)
  {
    var v := TextOf(s, i);
    PartsHeld(s, i);
    hide NumberEnd, TextOf, RealReads;
    forall r
      ensures RealReads(s, i, r) <==> RealReads(v, 0, r)
    {
      ReadsHeld(s, i, r);
    }
    if r :| RealReads(s, i, r) {
      RealIs(s, i, r);
      RealIs(v, 0, r);
    }
  }

  /** The bits of the double that a number's text is read as. */
  ghost function DoubleBits(text: seq<byte>): (bits: u64)
    requires NumberEnd(text, 0).Some?
    ensures bits >= SIGN_BIT <==> At(text, 0) == MINUS
  {
    RealInRange(text, 0);
    Signed(At(text, 0) == MINUS, if RealOf(text, 0).Some? then RealOf(text, 0).value else 0)
  }

  /** They are what the reader of real numbers returns. */
  lemma BitsAre(s: seq<byte>, i: nat, bits: u64)
    requires NumberEnd(s, i).Some? && RealReads(s, i, Some(bits % SIGN_BIT)) && (bits >= SIGN_BIT <==> At(s, i) == MINUS)
    ensures NumberEnd(TextOf(s, i), 0).Some?
    ensures DoubleBits(TextOf(s, i)) == bits
  {
    var v := TextOf(s, i);
    RealIs(s, i, Some(bits % SIGN_BIT));
    RealHeld(s, i);
    RealInRange(v, 0);
    PartsHeld(s, i);
    TextHeld(s, i);
    hide NumberEnd, TextOf, RealReads;
    AtHeld(v, s, i, 0);
    BitsParted(bits);
  }

  lemma BitsParted(bits: u64)
    ensures bits == if bits >= SIGN_BIT then SIGN_BIT + bits % SIGN_BIT else bits % SIGN_BIT
  {
  }

  // ---------------------------------------------------------------------------------------
  // Integers of a word
  // ---------------------------------------------------------------------------------------

  lemma {:induction false} DecimalSpells(s: seq<byte>, q: nat, e: nat)
    requires q <= e <= |s| && forall j | q <= j < e :: IsDigit(At(s, j))
    ensures DecimalBuf.Digits(s, q, e, e) && DecimalBuf.Decimal(s, q, e, e) == IntegerReader.Spelled(s, q, e)
    decreases e
  {
    forall j | q <= j < e
      ensures s[j] == At(s, j) && IsDigit(s[j])
    {
    }
    DecimalOf(s, q, e, e);
  }

  lemma {:induction false} DecimalOf(s: seq<byte>, q: nat, e: nat, dot: nat)
    requires q <= e <= |s| && e <= dot && forall j | q <= j < e :: IsDigit(At(s, j))
    ensures DecimalBuf.Digits(s, q, e, dot) && DecimalBuf.Decimal(s, q, e, dot) == IntegerReader.Spelled(s, q, e)
    decreases e
  {
    forall j | q <= j < e
      ensures IsDigit(s[j])
    {
      assert IsDigit(At(s, j));
    }
    if q < e {
      DecimalOf(s, q, e - 1, dot);
    }
  }

  lemma {:induction false} FirstDigitZeros(s: seq<byte>, q: nat, f: nat)
    requires q <= f
    ensures AllZeros(s, q, FirstDigit(s, q, f))
    decreases f - q
  {
    if q < f && (At(s, q) == ZERO || At(s, q) == DOT) {
      FirstDigitZeros(s, q + 1, f);
    }
  }

  /** Zeros in front count for nothing. */
  lemma DecimalFromFirst(s: seq<byte>, q: nat, f: nat, e: nat)
    requires q <= f && DecimalBuf.Digits(s, q, f, e)
    ensures var p := FirstDigit(s, q, f);
            DecimalBuf.Digits(s, p, f, e) && DecimalBuf.Decimal(s, q, f, e) == DecimalBuf.Decimal(s, p, f, e)
  {
    var p := FirstDigit(s, q, f);
    FirstDigitZeros(s, q, f);
    ZerosSpellNothing(s, q, p, e);
    DecimalBuf.DecimalSplit(s, q, p, f, e);
    hide FirstDigit, DecimalBuf.Decimal, BigInt.Pow;
  }

  /** An integer is worth what its digits spell. */
  lemma IntegerWorth(s: seq<byte>, i: nat)
    requires IntegerText(s, i)
    ensures NumberEnd(s, i).Some? && Worth(s, PartsAt(s, i)) == Magnitude(s, i) as real
  {
    IntegerEnds(s, i);
    var n := PartsAt(s, i);
    DecimalFromFirst(s, n.q, n.f, n.e);
    DecimalSpells(s, n.q, n.e);
    hide FirstDigit, DecimalBuf.Decimal, NumberEnd, RunEnd;
    assert BigInt.Pow(10, 0) == 1;
  }

  lemma IntegerInRange(s: seq<byte>, i: nat)
    requires IntegerText(s, i) && 0 < Magnitude(s, i) < WORD
    ensures NumberEnd(s, i).Some?
    ensures var n := PartsAt(s, i); !OutBelow(s, n) && !OutAbove(s, n) && !PointDropped(s, n) && !ManyDigits(s, n)
  {
    IntegerEnds(s, i);
    WordIsShort(s, i);
    var n := PartsAt(s, i);
    NotAllZeros(s, i);
    hide FirstDigit, NumberEnd, RunEnd, AllZeros, Magnitude;
  }

  lemma NotAllZeros(s: seq<byte>, i: nat)
    requires IntegerText(s, i) && 0 < Magnitude(s, i)
    ensures var q := i + Sign(s, i); FirstDigit(s, q, RunEnd(s, q)) < RunEnd(s, q)
  {
    var q := i + Sign(s, i);
    var e := RunEnd(s, q);
    RunEndWithin(s, q);
    DecimalSpells(s, q, e);
    FirstDigitZeros(s, q, e);
    if FirstDigit(s, q, e) == e {
      ZerosSpellNothing(s, q, e, e);
    }
    hide FirstDigit, DecimalBuf.Decimal, RunEnd;
  }

  /** An integer of a word is read as the double nearest to it. */
  lemma WordReads(s: seq<byte>, i: nat, raw: nat)
    requires IntegerText(s, i) && 0 < Magnitude(s, i) < WORD && RoundsTo(raw, Magnitude(s, i) as real)
    ensures NumberEnd(s, i).Some? && RealReads(s, i, Some(raw))
  {
    var n := PartsAt(s, i);
    IntegerEnds(s, i);
    IntegerWorth(s, i);
    WordIsTaken(s, i);
    IntegerInRange(s, i);
    InfiniteInside(s, i);
    RoundsToInfinity(Worth(s, n));
    hide NumberEnd, Worth, OutBelow, OutAbove, PointDropped, ManyDigits, Half, TooLarge, AtTheEdge, Whole, RunEnd;
  }
}
