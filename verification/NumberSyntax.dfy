/**
  Numbers as section 6 of RFC 8259 writes them, and what they are worth. The reader takes exactly these
  texts for numbers: an integer that fits a word is stored exactly, and any other number as a double, which
  is the one nearest to its value as long as it has at most 768 digits.
*/
module NumberSyntax {
  import opened Bytes
  import opened Literals
  import opened Word64
  import opened Integers
  import opened IntegerReader
  import BigInt
  import BigCompare
  import DecimalBuf
  import opened FastFloat
  import opened Doubles
  import ExactStep
  import opened NumberText
  import opened NumberValue
  import opened NumberPlace
  import opened JsonTree

  // ---------------------------------------------------------------------------------------
  // Texts
  // ---------------------------------------------------------------------------------------

  datatype Scale = Unscaled | Scaled(mark: byte, sign: seq<byte>, digits: seq<byte>)

  /** `fraction` holds the digits behind the point; there is no point if there are none. */
  datatype Number = Number(negative: bool, whole: seq<byte>, fraction: seq<byte>, scale: Scale)

  ghost predicate ValidScale(x: Scale) {
    match x
    case Unscaled => true
    case Scaled(mark, sign, digits) =>
      && mark in Ascii("eE") && (sign == [] || sign == Ascii("+") || sign == Ascii("-"))
      && digits != [] && AllDecimal(digits)
  }

  ghost predicate ValidNumber(n: Number) {
    && n.whole != [] && AllDecimal(n.whole) && (n.whole[0] == '0' as int ==> |n.whole| == 1)
    && AllDecimal(n.fraction) && ValidScale(n.scale)
  }

  function SignText(n: Number): seq<byte> {
    if n.negative then Ascii("-") else []
  }

  function FractionText(n: Number): seq<byte> {
    if n.fraction == [] then [] else Ascii(".") + n.fraction
  }

  function ScaleText(x: Scale): seq<byte> {
    match x
    case Unscaled => []
    case Scaled(mark, sign, digits) => [mark] + (sign + digits)
  }

  function NumText(n: Number): seq<byte> {
    SignText(n) + (n.whole + (FractionText(n) + ScaleText(n.scale)))
  }

  // ---------------------------------------------------------------------------------------
  // Values
  // ---------------------------------------------------------------------------------------

  ghost function ScaleOf(x: Scale): int
    requires ValidScale(x)
  {
    match x
    case Unscaled => 0
    case Scaled(_, sign, digits) => if sign == Ascii("-") then -(DecimalNumber(digits) as int) else DecimalNumber(digits)
  }

  /** The value without its sign: the digits in a row, scaled by the exponent and the places behind the point. */
  ghost function Size(n: Number): real
    requires ValidNumber(n)
  {
    Times(DecimalNumber(n.whole + n.fraction), BigCompare.Power(10, ScaleOf(n.scale) - |n.fraction|))
  }

  predicate IsInteger(n: Number) {
    n.fraction == [] && n.scale == Unscaled
  }

  /** An integer a word can hold, signed if it has a minus. */
  ghost predicate Fits(n: Number)
    requires ValidNumber(n)
  {
    var d := DecimalNumber(n.whole);
    IsInteger(n) && if n.negative then d <= 0x8000_0000_0000_0000 else d < 0x1_0000_0000_0000_0000
  }

  /** The word that holds it, in two's complement. */
  ghost function WordOf(n: Number): u64
    requires ValidNumber(n) && Fits(n)
  {
    var d := DecimalNumber(n.whole);
    if n.negative && d > 0 then 0x1_0000_0000_0000_0000 - d else d
  }

  /** What is stored for a number, unless it is refused as infinite. */
  ghost function NumberAtom(n: Number): Option<Atom>
    requires ValidNumber(n)
  {
    if Fits(n) then Some(Int(n.negative, WordOf(n)))
    else if Refused(NumText(n), 0) then None
    else
      TextIsNumber(n);
      Some(Atom.Real(DoubleBits(NumText(n))))
  }

  // ---------------------------------------------------------------------------------------
  // Where the scanner finds the parts
  // ---------------------------------------------------------------------------------------

  /** Where the parts of a number whose text is at `i` stand. */
  function PlacedParts(n: Number, i: nat): Parts {
    var q := i + |SignText(n)|;
    var e := q + |n.whole|;
    var f := e + |FractionText(n)|;
    Parts(q, e, f, f + |ScaleText(n.scale)|)
  }

  /** A byte that a number cannot go on with. */
  predicate EndsNumber(b: byte) {
    !('0' as int <= b <= '9' as int) && b != '.' as int && b != 'e' as int && b != 'E' as int
  }

  lemma HeldParts(s: seq<byte>, i: nat, n: Number)
    ensures var p := PlacedParts(n, i);
            Holds(s, i, NumText(n)) <==>
              && Holds(s, i, SignText(n)) && Holds(s, p.q, n.whole)
              && Holds(s, p.e, FractionText(n)) && Holds(s, p.f, ScaleText(n.scale))
    ensures |NumText(n)| == PlacedParts(n, i).x - i
  {
    var p := PlacedParts(n, i);
    HoldsParts(s, i, SignText(n), n.whole + (FractionText(n) + ScaleText(n.scale)));
    HoldsParts(s, p.q, n.whole, FractionText(n) + ScaleText(n.scale));
    HoldsParts(s, p.e, FractionText(n), ScaleText(n.scale));
    hide Holds, SignText, FractionText, ScaleText;
  }

  /** A run of digits ends where they do. */
  lemma DigitsEnd(s: seq<byte>, q: nat, ds: seq<byte>)
    requires Holds(s, q, ds) && AllDecimal(ds) && !IsDigit(At(s, q + |ds|))
    ensures RunEnd(s, q) == q + |ds|
  {
    forall j | q <= j < q + |ds|
      ensures IsDigit(At(s, j))
    {
      AtHeld(ds, s, q, j - q);
      DecimalRange(ds[j - q]);
    }
    RunEndIs(s, q, q + |ds|);
  }

  lemma FirstHeld(s: seq<byte>, q: nat, w: seq<byte>)
    requires Holds(s, q, w) && w != []
    ensures At(s, q) == w[0] && q < |s|
  {
    AtHeld(w, s, q, 0);
  }

  lemma ScaleEnds(s: seq<byte>, f: nat, x: Scale)
    requires ValidScale(x) && Holds(s, f, ScaleText(x)) && EndsNumber(At(s, f + |ScaleText(x)|))
    ensures ExponentEnd(s, f) == Some(f + |ScaleText(x)|)
    ensures x.Scaled? ==>
              && ExponentStart(s, f) == f + 1 + |x.sign| && Holds(s, f + 1 + |x.sign|, x.digits)
              && (At(s, f + 1) == MINUS <==> x.sign == Ascii("-"))
  {
    hide Holds, AllDecimal, IsDecimal, RunEnd;
    if x.Scaled? {
      var g := f + 1 + |x.sign|;
      HoldsParts(s, f, [x.mark], x.sign + x.digits);
      HoldsParts(s, f + 1, x.sign, x.digits);
      MarkIs(x.mark);
      FirstHeld(s, f, [x.mark]);
      FirstHeld(s, g, x.digits);
      FirstDecimal(x.digits);
      if x.sign != [] {
        FirstHeld(s, f + 1, x.sign);
      }
      DigitsEnd(s, g, x.digits);
    }
  }

  lemma FirstDecimal(ds: seq<byte>)
    requires ds != [] && AllDecimal(ds)
    ensures '0' as int <= ds[0] <= '9' as int
  {
    DecimalRange(ds[0]);
  }

  lemma MarkIs(b: byte)
    ensures b in Ascii("eE") <==> b == 101 || b == 69
  {
    var t := Ascii("eE");
    assert t == [101, 69];
  }

  lemma FractionEnds(s: seq<byte>, e: nat, n: Number)
    requires ValidNumber(n) && Holds(s, e, FractionText(n))
    requires !IsDigit(At(s, e + |FractionText(n)|)) && At(s, e + |FractionText(n)|) != DOT
    ensures FractionEnd(s, e) == Some(e + |FractionText(n)|)
  {
    if n.fraction != [] {
      HoldsParts(s, e, Ascii("."), n.fraction);
      FirstHeld(s, e, Ascii("."));
      DigitsEnd(s, e + 1, n.fraction);
    }
    hide RunEnd, AllDecimal, ValidScale;
  }

  /** What stands behind the digits, and behind the fraction. */
  lemma BehindParts(s: seq<byte>, i: nat, n: Number)
    requires ValidNumber(n) && Holds(s, i, NumText(n)) && EndsNumber(At(s, i + |NumText(n)|))
    ensures var p := PlacedParts(n, i);
            && !IsDigit(At(s, p.f)) && At(s, p.f) != DOT && !IsDigit(At(s, p.e))
            && (IsFp(At(s, p.e)) <==> !IsInteger(n))
  {
    var p := PlacedParts(n, i);
    HeldParts(s, i, n);
    if n.scale.Scaled? {
      FirstHeld(s, p.f, ScaleText(n.scale));
      MarkIs(n.scale.mark);
    }
    if n.fraction != [] {
      FirstHeld(s, p.e, FractionText(n));
    }
    hide Holds, AllDecimal, NumText;
  }

  lemma SignPlaced(s: seq<byte>, i: nat, n: Number)
    requires ValidNumber(n) && Holds(s, i, NumText(n))
    ensures Sign(s, i) == |SignText(n)| && (At(s, i) == MINUS <==> n.negative)
    ensures At(s, PlacedParts(n, i).q) == n.whole[0]
  {
    HeldParts(s, i, n);
    FirstHeld(s, PlacedParts(n, i).q, n.whole);
    DecimalRange(n.whole[0]);
    if n.negative {
      FirstHeld(s, i, SignText(n));
    }
    hide Holds, NumText;
  }

  /** The scanner finds a number's text whole, and its parts where they stand. */
  lemma NumberPlaced(s: seq<byte>, i: nat, n: Number)
    requires ValidNumber(n) && Holds(s, i, NumText(n)) && EndsNumber(At(s, i + |NumText(n)|))
    ensures NumberEnd(s, i) == Some(i + |NumText(n)|) && PartsAt(s, i) == PlacedParts(n, i)
    ensures TextOf(s, i) == NumText(n) && RunEnd(s, i + Sign(s, i)) == PlacedParts(n, i).e
  {
    hide Holds, NumText, RunEnd, FractionEnd, ExponentEnd, ValidScale, AllDecimal, SignText, FractionText, ScaleText;
    var p := PlacedParts(n, i);
    HeldParts(s, i, n);
    BehindParts(s, i, n);
    SignPlaced(s, i, n);
    DigitsEnd(s, p.q, n.whole);
    FractionEnds(s, p.e, n);
    ScaleEnds(s, p.f, n.scale);
    PlacedOrder(n, i);
    TextPlaced(s, i, n);
    hide PlacedParts, EndsNumber, PartsAt, PartsOf;
    EndFrom(s, i, p);
    PartsThere(s, i);
  }

  lemma TextPlaced(s: seq<byte>, i: nat, n: Number)
    requires Holds(s, i, NumText(n))
    ensures i + |NumText(n)| <= |s| && s[i..i + |NumText(n)|] == NumText(n)
  {
  }

  lemma PlacedOrder(n: Number, i: nat)
    requires ValidNumber(n)
    ensures var p := PlacedParts(n, i);
            p.q == i + |SignText(n)| < p.e <= p.f <= p.x && p.e == p.q + |n.whole| && (|n.whole| > 1 ==> n.whole[0] != ZERO)
  {
    hide AllDecimal;
  }

  // ---------------------------------------------------------------------------------------
  // What it makes of them
  // ---------------------------------------------------------------------------------------

  lemma DigitsHeldThere(s: seq<byte>, q: nat, ds: seq<byte>)
    requires Holds(s, q, ds) && AllDecimal(ds)
    ensures forall j | q <= j < q + |ds| :: IsDigit(At(s, j))
  {
    forall j | q <= j < q + |ds|
      ensures IsDigit(At(s, j))
    {
      AtHeld(ds, s, q, j - q);
      DecimalRange(ds[j - q]);
    }
  }

  lemma {:induction false} DigitsSpell(s: seq<byte>, q: nat, ds: seq<byte>)
    requires Holds(s, q, ds) && AllDecimal(ds)
    ensures forall j | q <= j < q + |ds| :: IsDigit(At(s, j))
    ensures IntegerReader.Spelled(s, q, q + |ds|) == DecimalNumber(ds)
    decreases |ds|
  {
    DigitsHeldThere(s, q, ds);
    if ds != [] {
      var k := |ds| - 1;
      var front := ds[..k];
      hide IsDecimal, DigitWorth;
      HoldsParts(s, q, front, ds[k..]);
      assert ds == front + ds[k..];
      AtHeld(ds, s, q, k);
      DecimalRange(ds[k]);
      hide Holds;
      DigitsSpell(s, q, front);
    }
  }

  lemma {:induction false} SpelledFirst(s: seq<byte>, g: nat, x: nat)
    requires g < x && At(s, g) == ZERO && forall j | g <= j < x :: IsDigit(At(s, j))
    ensures IntegerReader.Spelled(s, g, x) == IntegerReader.Spelled(s, g + 1, x)
    decreases x
  {
    if g + 1 == x {
      assert IntegerReader.Spelled(s, g, g) == 0;
    } else {
      SpelledFirst(s, g, x - 1);
    }
  }

  /** Zeros in front of an exponent count for nothing. */
  lemma {:induction false} SpelledFromFirst(s: seq<byte>, g: nat, x: nat)
    requires g <= x && forall j | g <= j < x :: IsDigit(At(s, j))
    ensures IntegerReader.Spelled(s, SkipZeros(s, g, x), x) == IntegerReader.Spelled(s, g, x)
    decreases x - g
  {
    if g < x && At(s, g) == ZERO {
      SpelledFirst(s, g, x);
      SpelledFromFirst(s, g + 1, x);
    }
  }

  lemma DecimalStep(s: seq<byte>, q: nat, h: nat, e: nat)
    requires q < h <= |s| && DecimalBuf.Digits(s, q, h - 1, e) && (h - 1 != e ==> IsDigit(s[h - 1]))
    ensures DecimalBuf.Digits(s, q, h, e)
    ensures DecimalBuf.Decimal(s, q, h, e) ==
              if h - 1 == e then DecimalBuf.Decimal(s, q, h - 1, e)
              else 10 * DecimalBuf.Decimal(s, q, h - 1, e) + (s[h - 1] - 48)
  {
  }

  lemma OneMoreDigit(ds: seq<byte>, b: byte)
    requires AllDecimal(ds) && IsDecimal(b)
    ensures AllDecimal(ds + [b]) && DecimalNumber(ds + [b]) == 10 * DecimalNumber(ds) + (b - 48)
  {
    assert (ds + [b])[..|ds|] == ds && (ds + [b])[|ds|] == b;
    DecimalRange(b);
    hide IsDecimal, DigitWorth;
  }

  lemma {:induction false} FractionSpells(s: seq<byte>, q: nat, e: nat, whole: seq<byte>, ds: seq<byte>, k: nat)
    requires AllDecimal(whole) && AllDecimal(ds) && k <= |ds| && e == q + |whole|
    requires Holds(s, q, whole) && Holds(s, e + 1, ds)
    ensures DecimalBuf.Digits(s, q, e + 1 + k, e) && AllDecimal(whole + ds[..k])
    ensures DecimalBuf.Decimal(s, q, e + 1 + k, e) == DecimalNumber(whole + ds[..k])
    decreases k
  {
    hide DecimalNumber, DecimalBuf.Decimal, DecimalBuf.Digits, IntegerReader.Spelled, IsDecimal;
    if k == 0 {
      DigitsSpell(s, q, whole);
      DecimalSpells(s, q, e);
      DecimalStep(s, q, e + 1, e);
      assert whole + ds[..0] == whole;
    } else {
      FractionSpells(s, q, e, whole, ds, k - 1);
      AtHeld(ds, s, e + 1, k - 1);
      DecimalRange(ds[k - 1]);
      DecimalStep(s, q, e + 1 + k, e);
      OneMoreDigit(whole + ds[..k - 1], ds[k - 1]);
      assert whole + ds[..k] == whole + ds[..k - 1] + [ds[k - 1]];
    }
  }

  lemma AllDigits(n: Number)
    requires ValidNumber(n)
    ensures AllDecimal(n.whole + n.fraction)
  {
  }

  /** The digits before and behind the point in a row. */
  lemma RowSpells(s: seq<byte>, q: nat, n: Number)
    requires ValidNumber(n) && Holds(s, q, n.whole) && Holds(s, q + |n.whole|, FractionText(n))
    ensures AllDecimal(n.whole + n.fraction)
    ensures var e := q + |n.whole|;
            var f := e + |FractionText(n)|;
            DecimalBuf.Digits(s, q, f, e) && DecimalBuf.Decimal(s, q, f, e) == DecimalNumber(n.whole + n.fraction)
  {
    hide AllDecimal, IsDecimal, DecimalNumber, IntegerReader.Spelled, DecimalBuf.Decimal, DecimalBuf.Digits, ValidScale;
    AllDigits(n);
    if n.fraction == [] {
      DigitsSpell(s, q, n.whole);
      DecimalSpells(s, q, q + |n.whole|);
      assert n.whole + n.fraction == n.whole;
    } else {
      HoldsParts(s, q + |n.whole|, Ascii("."), n.fraction);
      FractionSpells(s, q, q + |n.whole|, n.whole, n.fraction, |n.fraction|);
      assert n.fraction[..|n.fraction|] == n.fraction;
    }
  }

  lemma LiteralIs(s: seq<byte>, p: Parts)
    requires Whole(s, p) && p.f < p.x
    ensures var g := ExponentStart(s, p.f);
            && g <= p.x && (forall j | g <= j < p.x :: IsDigit(At(s, j)))
            && Literal(s, p) == if At(s, p.f + 1) == MINUS then -(IntegerReader.Spelled(s, g, p.x) as int)
                                else IntegerReader.Spelled(s, g, p.x)
  {
    SpelledFromFirst(s, ExponentStart(s, p.f), p.x);
    hide SkipZeros, IntegerReader.Spelled;
  }

  lemma ScaleSpells(s: seq<byte>, p: Parts, x: Scale)
    requires Whole(s, p) && ValidScale(x) && p.x == p.f + |ScaleText(x)|
    requires Holds(s, p.f, ScaleText(x)) && EndsNumber(At(s, p.x))
    ensures Literal(s, p) == ScaleOf(x)
  {
    hide Holds, DecimalNumber, IntegerReader.Spelled, AllDecimal, ExponentEnd, EndsNumber;
    ScaleEnds(s, p.f, x);
    if x.Scaled? {
      var g := p.f + 1 + |x.sign|;
      assert g + |x.digits| == p.x;
      DigitsSpell(s, g, x.digits);
      LiteralIs(s, p);
      hide Literal, ExponentStart;
    }
    hide Whole;
  }

  lemma WorthOfAll(s: seq<byte>, p: Parts)
    requires Whole(s, p)
    ensures Worth(s, p) ==
              Times(DecimalBuf.Decimal(s, p.q, p.f, p.e), BigCompare.Power(10, ScaleAt(p.f, p.e) + Literal(s, p)))
  {
    DecimalFromFirst(s, p.q, p.f, p.e);
    hide DecimalBuf.Decimal, FirstDigit, Literal, Times, BigCompare.Power, ScaleAt;
  }

  /** What the scanner's parts are worth is the size of the number. */
  lemma WorthIsSize(s: seq<byte>, i: nat, n: Number)
    requires ValidNumber(n) && Holds(s, i, NumText(n)) && EndsNumber(At(s, i + |NumText(n)|))
    ensures NumberEnd(s, i).Some? && Worth(s, PartsAt(s, i)) == Size(n)
  {
    hide Holds, NumberEnd, NumText, AllDecimal, DecimalNumber, DecimalBuf.Decimal, Worth, Literal, ScaleOf, ValidScale;
    hide Times, BigCompare.Power, RunEnd, TextOf, ScaleText, Whole, EndsNumber;
    var p := PlacedParts(n, i);
    NumberPlaced(s, i, n);
    HeldParts(s, i, n);
    ScaleSpells(s, p, n.scale);
    RowSpells(s, p.q, n);
    WorthOfAll(s, p);
    assert ScaleAt(p.f, p.e) == -|n.fraction|;
  }

  lemma IntegerTextIs(s: seq<byte>, i: nat, e: nat)
    requires var q := i + Sign(s, i); RunEnd(s, q) == e && q < e && (At(s, q) == ZERO ==> e == q + 1)
    ensures IntegerText(s, i) <==> !IsFp(At(s, e))
    ensures Magnitude(s, i) == IntegerReader.Spelled(s, i + Sign(s, i), e)
  {
    hide RunEnd, IntegerReader.Spelled;
  }

  lemma IntegerIs(s: seq<byte>, i: nat, n: Number)
    requires ValidNumber(n) && Holds(s, i, NumText(n)) && EndsNumber(At(s, i + |NumText(n)|))
    ensures IntegerText(s, i) <==> IsInteger(n)
    ensures Magnitude(s, i) == DecimalNumber(n.whole)
    ensures At(s, i) == MINUS <==> n.negative
  {
    hide Holds, DecimalNumber, NumText, AllDecimal, RunEnd, IntegerReader.Spelled, TextOf, NumberEnd, IntegerText, Magnitude;
    hide ValidScale;
    var p := PlacedParts(n, i);
    NumberPlaced(s, i, n);
    HeldParts(s, i, n);
    BehindParts(s, i, n);
    SignPlaced(s, i, n);
    PlacedOrder(n, i);
    DigitsSpell(s, p.q, n.whole);
    hide PartsAt, PartsOf, FractionText, ScaleText, SignText;
    IntegerTextIs(s, i, p.e);
  }

  /** A number followed by what cannot be part of it is read as what it stands for, or refused. */
  lemma NumberRead(s: seq<byte>, i: nat, n: Number)
    requires ValidNumber(n) && Holds(s, i, NumText(n)) && EndsNumber(At(s, i + |NumText(n)|))
    ensures Refused(s, i) == Refused(NumText(n), 0) && NumberEnd(s, i) == Some(i + |NumText(n)|)
    ensures IntegerText(s, i) && FitsWord(s, i) <==> Fits(n)
    ensures Fits(n) ==> Stored(s, i) == WordOf(n) && (Sign(s, i) == 1 <==> n.negative)
    ensures TextOf(s, i) == NumText(n)
  {
    NumberPlaced(s, i, n);
    IntegerIs(s, i, n);
    SignPlaced(s, i, n);
    RefusedHeld(s, i);
    hide Holds, DecimalNumber, NumberEnd, NumText, AllDecimal, Magnitude, Refused, TextOf, PartsAt, PlacedParts, RunEnd;
  }

  // ---------------------------------------------------------------------------------------
  // Rounding
  // ---------------------------------------------------------------------------------------

  lemma FewDigits(p: nat, q: nat, f: nat, e: nat)
    requires q <= p <= f && q < e <= f && (e < f ==> e + 1 < f) && DecimalBuf.Count(q, f, e) <= 768
    ensures var c := CutAt(p, e); c < f ==> DecimalBuf.Count(c, f, e) + DecimalBuf.SAFE_DIGITS <= DecimalBuf.MAX_DIGITS
  {
  }

  lemma NotMany(s: seq<byte>, p: Parts)
    requires Whole(s, p) && DecimalBuf.Count(p.q, p.f, p.e) <= 768
    ensures !ManyDigits(s, p) && !PointDropped(s, p) && !AtTheEdge(s, p)
  {
    FewDigits(FirstDigit(s, p.q, p.f), p.q, p.f, p.e);
    hide FirstDigit, AllZeros;
  }

  lemma EndsThere(v: seq<byte>)
    ensures Holds(v, 0, v) && EndsNumber(At(v, |v|))
  {
  }

  /** Its text alone: scanned whole, worth its size, with few digits. */
  lemma TextIsNumber(n: Number)
    requires ValidNumber(n)
    ensures var v := NumText(n);
            && NumberEnd(v, 0).Some? && Worth(v, PartsAt(v, 0)) == Size(n) && (At(v, 0) == MINUS <==> n.negative)
            && (|n.whole| + |n.fraction| <= 768 ==>
                 var p := PartsAt(v, 0); !ManyDigits(v, p) && !PointDropped(v, p) && !AtTheEdge(v, p))
  {
    var v := NumText(n);
    EndsThere(v);
    hide Holds, NumText, NumberEnd, Worth, ValidScale, AllDecimal, ManyDigits, PointDropped, AtTheEdge, EndsNumber;
    NumberPlaced(v, 0, n);
    SignPlaced(v, 0, n);
    WorthIsSize(v, 0, n);
    if |n.whole| + |n.fraction| <= 768 {
      NotMany(v, PlacedParts(n, 0));
    }
  }

  /** What the double is read as that a number of at most 768 digits rounds to. */
  lemma RealRounds(n: Number)
    requires ValidNumber(n) && |n.whole| + |n.fraction| <= 768 && |NumText(n)| <= LONGEST
    ensures var raw := NearestDouble(Size(n));
            && (Refused(NumText(n), 0) <==> raw == INFINITY)
            && (raw < INFINITY ==> NumberEnd(NumText(n), 0).Some? && DoubleBits(NumText(n)) == Signed(n.negative, raw))
  {
    var v := NumText(n);
    var raw := NearestDouble(Size(n));
    TextIsNumber(n);
    hide NumText, NumberEnd, Worth, ManyDigits, PointDropped, AtTheEdge, RoundsTo, Size, Refused, ExactStep.OnTie, ValidNumber;
    RealIsRight(v, 0);
    RefusedExactly(v, 0);
    if RoundsTo(INFINITY, Size(n)) {
      NearestIs(INFINITY, Size(n));
    } else {
      NearestIs(RealOf(v, 0).value, Size(n));
    }
  }

  /**
    Main result: a number of at most 768 digits that is no integer of a word is stored as the double nearest to its
    value, half to even, with its sign; it is refused exactly if that is infinite.
   */
  lemma NumberRounds(n: Number)
    requires ValidNumber(n) && !Fits(n) && |n.whole| + |n.fraction| <= 768 && |NumText(n)| <= LONGEST
    ensures var raw := NearestDouble(Size(n));
            NumberAtom(n) == if raw == INFINITY then None else Some(Atom.Real(Signed(n.negative, raw)))
  {
    RealRounds(n);
    hide NumText, Size, Refused, DoubleBits, Fits, RoundsTo;
  }

  /** Whatever its length, the sign bit says whether it has a minus. */
  lemma SignKept(n: Number)
    requires ValidNumber(n) && NumberAtom(n).Some? && NumberAtom(n).value.Real?
    ensures NumberAtom(n).value.bits >= SIGN_BIT <==> n.negative
  {
    TextIsNumber(n);
    hide NumText, NumberEnd, Worth, ManyDigits, PointDropped, AtTheEdge, Size, Refused, ValidNumber, Fits, DoubleBits;
  }

  // ---------------------------------------------------------------------------------------
  // What is read is a number
  // ---------------------------------------------------------------------------------------

  lemma DigitsFound(s: seq<byte>, q: nat, e: nat)
    requires q <= e <= |s| && forall j | q <= j < e :: IsDigit(At(s, j))
    ensures AllDecimal(s[q..e])
  {
    forall k | 0 <= k < e - q
      ensures IsDecimal(s[q..e][k])
    {
      assert IsDigit(At(s, q + k));
      DecimalRange(s[q + k]);
    }
  }

  lemma ScaleFound(s: seq<byte>, f: nat, x: nat) returns (scale: Scale)
    requires f <= x <= |s| && ExponentEnd(s, f) == Some(x)
    ensures ValidScale(scale) && Holds(s, f, ScaleText(scale)) && x == f + |ScaleText(scale)|
  {
    if f == x {
      scale := Unscaled;
    } else {
      var g := ExponentStart(s, f);
      scale := Scaled(s[f], s[f + 1..g], s[g..x]);
      MarkIs(s[f]);
      DigitsFound(s, g, x);
      assert s[f..f + 1] == [s[f]] && (g == f + 2 ==> s[f + 1..g] == [s[f + 1]]);
      assert Ascii("+") == [43] && Ascii("-") == [45];
      HoldsParts(s, f + 1, s[f + 1..g], s[g..x]);
      HoldsParts(s, f, [s[f]], s[f + 1..g] + s[g..x]);
    }
    hide RunEnd;
  }

  lemma FractionFound(s: seq<byte>, e: nat, f: nat) returns (fraction: seq<byte>)
    requires e <= f <= |s| && FractionEnd(s, e) == Some(f)
    ensures AllDecimal(fraction)
    ensures var w := if fraction == [] then [] else Ascii(".") + fraction;
            Holds(s, e, w) && f == e + |w|
  {
    if e == f {
      fraction := [];
    } else {
      fraction := s[e + 1..f];
      DigitsFound(s, e + 1, f);
      assert s[e..e + 1] == [s[e]] && Ascii(".") == [46];
      HoldsParts(s, e, Ascii("."), fraction);
    }
    hide RunEnd;
  }

  /** What the scanner takes for a number is one. */
  lemma NumberFound(s: seq<byte>, i: nat) returns (n: Number)
    requires NumberEnd(s, i).Some?
    ensures ValidNumber(n) && Holds(s, i, NumText(n)) && NumberEnd(s, i) == Some(i + |NumText(n)|)
  {
    hide NumberEnd, PartsOf, FractionEnd, ExponentEnd, ValidScale, AllDecimal, Holds, RunEnd, ScaleText, NumText;
    PartsEnd(s, i);
    var p := PartsAt(s, i);
    hide PartsAt, Whole;
    var fraction := FractionFound(s, p.e, p.f);
    var scale := ScaleFound(s, p.f, p.x);
    n := Number(Sign(s, i) == 1, s[p.q..p.e], fraction, scale);
    WholeFound(s, p.q, p.e);
    SignFound(s, i);
    Slice(s, p.q, p.e);
    HeldParts(s, i, n);
  }

  lemma WholeFound(s: seq<byte>, q: nat, e: nat)
    requires q < e <= |s| && RunEnd(s, q) == e
    ensures AllDecimal(s[q..e])
  {
    DigitsFound(s, q, e);
  }

  lemma Slice(s: seq<byte>, q: nat, e: nat)
    requires q < e <= |s|
    ensures Holds(s, q, s[q..e]) && s[q..e][0] == s[q] == At(s, q)
  {
  }

  lemma SignFound(s: seq<byte>, i: nat)
    requires i + Sign(s, i) < |s|
    ensures Holds(s, i, if Sign(s, i) == 1 then Ascii("-") else [])
  {
    assert Ascii("-") == [45];
    assert s[i..i + 1] == [s[i]];
  }
}
