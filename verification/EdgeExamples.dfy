/** A finite number that the reader takes for infinity, a document of it, and a document that cannot be cut behind it. */
module EdgeExamples {
  import opened Bytes
  import opened Word64
  import opened IntegerReader
  import opened BigInt
  import DecimalBuf
  import opened BigCompare
  import opened FastFloat
  import opened Doubles
  import opened PowersOfTen
  import opened SmallestDouble
  import opened LargestDouble
  import opened NumberText
  import opened NumberTruncation
  import opened NumberValue
  import opened ReaderExamples
  import opened JsonTree
  import opened JsonGrammar
  import opened JsonCuts

  // ---------------------------------------------------------------------------------------
  // The number
  // ---------------------------------------------------------------------------------------

  const HEAD: seq<byte> := [49, 55, 57, 55, 54, 57, 51, 49, 51, 52, 56, 54, 50, 51, 49, 53, 56, 48, 54, 57]

  /** From the second byte on: 17976931348623158069, 780 nines, `.9e-491`. */
  ghost predicate Edge(s: seq<byte>) {
    && |s| >= 808 && s[1..21] == HEAD && (forall k | 21 <= k < 803 && k != 801 :: s[k] == 57)
    && s[801] == 46 && s[803] == 101 && s[804] == 45 && s[805] == 52 && s[806] == 57 && s[807] == 49
  }

  /** Its parts, with the exponent ending at `x`. */
  function EdgeParts(x: nat): Parts {
    Parts(1, 801, 803, x)
  }

  lemma HeadDigits(s: seq<byte>)
    requires Edge(s)
    ensures s[1] == 49 && forall k | 1 <= k < 801 :: IsDigit(s[k])
  {
    assert forall k | 1 <= k < 21 :: s[k] == s[1..21][k - 1];
  }

  /** Where the digits of the whole part and of the fraction end. */
  lemma EdgeRuns(s: seq<byte>)
    requires Edge(s)
    ensures RunEnd(s, 1) == 801 && RunEnd(s, 802) == 803 && IntegerReader.Sign(s, 1) == 0 && At(s, 1) == 49
  {
    HeadDigits(s);
    hide RunEnd;
    assert s[802] == 57 && IsDigit(At(s, 802));
    assert !IsDigit(At(s, 801)) && !IsDigit(At(s, 803));
    RunEndAt(s, 1, 801);
    RunEndAt(s, 802, 803);
  }

  lemma EdgeEnds(s: seq<byte>, x: nat)
    requires Edge(s) && 805 < x && RunEnd(s, 805) == x
    ensures NumberEnd(s, 1) == Some(x) && PartsOf(s, 1) == EdgeParts(x) && Whole(s, EdgeParts(x))
  {
    EdgeRuns(s);
    hide Edge, RunEnd, Whole;
    assert At(s, 801) == 46 && At(s, 803) == 101 && At(s, 804) == 45 by { EdgePlaces(s); }
    assert FractionEnd(s, 801) == Some(803);
    assert ExponentEnd(s, 803) == Some(x);
    assert NumberEnd(s, 1) == Some(x) && PartsOf(s, 1) == EdgeParts(x);
    PartsWhole(s, 1);
  }

  lemma EdgePlaces(s: seq<byte>)
    requires Edge(s)
    ensures At(s, 801) == 46 && At(s, 803) == 101 && At(s, 804) == 45 && At(s, 805) == 52
  {
  }

  lemma FirstTenDigits(s: seq<byte>)
    requires Edge(s)
    ensures DecimalBuf.Digits(s, 1, 11, 801) && DecimalBuf.Decimal(s, 1, 11, 801) == 1797693134
  {
    assert forall k | 1 <= k < 11 :: s[k] == s[1..21][k - 1];
    hide Edge;
    assert DecimalBuf.Decimal(s, 1, 6, 801) == 17976 by {
      assert DecimalBuf.Decimal(s, 1, 3, 801) == 17 by { assert DecimalBuf.Decimal(s, 1, 2, 801) == 1; }
      assert DecimalBuf.Decimal(s, 1, 4, 801) == 179;
      assert DecimalBuf.Decimal(s, 1, 5, 801) == 1797;
    }
    assert DecimalBuf.Decimal(s, 1, 7, 801) == 179769;
    assert DecimalBuf.Decimal(s, 1, 8, 801) == 1797693;
    assert DecimalBuf.Decimal(s, 1, 9, 801) == 17976931;
    assert DecimalBuf.Decimal(s, 1, 10, 801) == 179769313;
  }

  lemma NextTenDigits(s: seq<byte>)
    requires Edge(s)
    ensures DecimalBuf.Digits(s, 11, 21, 801) && DecimalBuf.Decimal(s, 11, 20, 801) == 862315806
    ensures DecimalBuf.Decimal(s, 11, 21, 801) == 8623158069
  {
    assert forall k | 11 <= k < 21 :: s[k] == s[1..21][k - 1];
    hide Edge;
    assert DecimalBuf.Decimal(s, 11, 16, 801) == 86231 by {
      assert DecimalBuf.Decimal(s, 11, 13, 801) == 86 by { assert DecimalBuf.Decimal(s, 11, 12, 801) == 8; }
      assert DecimalBuf.Decimal(s, 11, 14, 801) == 862;
      assert DecimalBuf.Decimal(s, 11, 15, 801) == 8623;
    }
    assert DecimalBuf.Decimal(s, 11, 17, 801) == 862315;
    assert DecimalBuf.Decimal(s, 11, 18, 801) == 8623158;
    assert DecimalBuf.Decimal(s, 11, 19, 801) == 86231580;
  }

  lemma EdgeDigits(s: seq<byte>)
    requires Edge(s)
    ensures DecimalBuf.Digits(s, 1, 803, 801) && DecimalBuf.Digits(s, 1, 20, 801)
    ensures DecimalBuf.Decimal(s, 1, 20, 801) == EDGE_BELOW - 1
    ensures DecimalBuf.Decimal(s, 1, 803, 801) == 10 * EDGE_BELOW * Pow(10, 781) - 1
  {
    FirstTenDigits(s);
    NextTenDigits(s);
    Nines(s, 21, 803, 801);
    HeadDigits(s);
    Pow10Exact(9);
    Pow10Exact(10);
    assert DecimalBuf.Digits(s, 1, 803, 801) && DecimalBuf.Digits(s, 1, 21, 801) && DecimalBuf.Digits(s, 1, 20, 801);
    hide Edge, Pow, DecimalBuf.Decimal, DecimalBuf.Digits;
    DecimalBuf.DecimalSplit(s, 1, 11, 20, 801);
    DecimalBuf.DecimalSplit(s, 1, 11, 21, 801);
    DecimalBuf.DecimalSplit(s, 1, 21, 803, 801);
  }

  /** With the exponent -491 it is at the edge. */
  lemma EdgeIsThere(s: seq<byte>)
    requires Edge(s) && Whole(s, EdgeParts(808))
    ensures AtTheEdge(s, EdgeParts(808)) && Literal(s, EdgeParts(808)) == -491 && FirstDigit(s, 1, 803) == 1
  {
    var n := EdgeParts(808);
    EdgeRuns(s);
    EdgeLiteral(s);
    EdgeDigits(s);
    assert At(s, 21) == s[21] == 57 && s[20] == s[1..21][19] == 57;
    hide Edge, Whole, Literal, LiteralLength, DecimalBuf.Decimal, RunEnd;
    assert FirstDigit(s, 1, 803) == 1;
    assert DecimalBuf.Count(20, 803, 801) == 782;
    hide FirstDigit;
    assert DecimalExponent(s, n) == EDGE_EXP;
    assert RoundedWord(s, n) == EDGE_BELOW;
    assert PointDropped(s, n);
  }

  lemma EdgeLiteral(s: seq<byte>)
    requires Edge(s) && Whole(s, EdgeParts(808))
    ensures LiteralLength(s, EdgeParts(808)) == 3 && Literal(s, EdgeParts(808)) == -491
  {
    assert At(s, 804) == 45 && At(s, 805) == 52 && At(s, 806) == 57 && At(s, 807) == 49;
    hide Edge, Whole;
    assert SkipZeros(s, 805, 808) == 805;
    assert IntegerReader.Spelled(s, 805, 808) == 491 by {
      assert IntegerReader.Spelled(s, 805, 805) == 0;
      assert IntegerReader.Spelled(s, 805, 806) == 4;
      assert IntegerReader.Spelled(s, 805, 807) == 49;
    }
  }

  /** But it is below midway above the largest double. */
  lemma EdgeIsFinite(s: seq<byte>)
    requires Edge(s) && Whole(s, EdgeParts(808))
    ensures Worth(s, EdgeParts(808)) < Half(INFINITY - 1)
  {
    EdgeIsThere(s);
    EdgeDigits(s);
    hide Edge, Whole, Literal, LiteralLength, FirstDigit, DecimalBuf.Decimal, Pow, Power, Half, AtTheEdge, DecimalBuf.Digits;
    assert Worth(s, EdgeParts(808)) == Times(10 * EDGE_BELOW * Pow(10, 781) - 1, Power(10, -492));
    EdgeBelow();
  }

  lemma EdgeBelow()
    ensures Times(10 * EDGE_BELOW * Pow(10, 781) - 1, Power(10, -492)) < Half(INFINITY - 1)
  {
    AroundLargest();
    PowerPositive(10, -492);
    PowerPositive(10, 290);
    hide Pow, Power, Half;
    TenScale(10 * EDGE_BELOW, -492, 781);
    TenScale(EDGE_BELOW, 289, 1);
    TenToOne();
    TimesMono(10 * EDGE_BELOW * Pow(10, 781) - 1, 10 * EDGE_BELOW * Pow(10, 781), Power(10, -492));
    TimesMono(2 * EDGE_BELOW, TWICEUPPER, Power(10, 290));
    TwiceWhole(EDGE_BELOW, Power(10, 290));
    hide Times;
  }

  lemma TwiceWhole(k: nat, w: real)
    ensures 2.0 * Times(k, w) == Times(2 * k, w)
  {
  }

  // ---------------------------------------------------------------------------------------
  // The documents
  // ---------------------------------------------------------------------------------------

  /** `[`, the number, and what follows its exponent so far. */
  function EdgeText(rest: seq<byte>): (s: seq<byte>)
    ensures Edge(s) && |s| == 808 + |rest| && s[0] == 91 && s[808..] == rest
  {
    [91] + HEAD + seq(780, _ => 57 as byte) + [46, 57, 101, 45, 52, 57, 49] + rest
  }

  lemma EdgePrefix(rest: seq<byte>)
    ensures EdgeText(rest)[..808] == EdgeText([])
  {
  }

  /** A finite number is taken for infinity, and `[`, the number and `]` is no document. */
  lemma FiniteRefused()
    ensures var s := EdgeText([93]);
            && NumberEnd(s, 1) == Some(808) && Refused(s, 1) && DocumentAt(s, 0).Err?
            && !RoundsTo(INFINITY, Worth(s, PartsAt(s, 1)))
  {
    var s := EdgeText([93]);
    assert At(s, 808) == s[808..][0] == 93;
    NumberThere(s);
    EdgeIsFinite(s);
    RoundsToInfinity(Worth(s, EdgeParts(808)));
    hide EdgeText, Edge, Whole, AtTheEdge, TooLarge, Worth, Half, RoundsTo, RunEnd, PartsOf;
    ArrayRefused(s);
  }

  lemma NumberThere(s: seq<byte>)
    requires Edge(s) && !IsDigit(At(s, 808))
    ensures NumberEnd(s, 1) == Some(808) && PartsAt(s, 1) == EdgeParts(808) && Refused(s, 1) && !IntegerText(s, 1)
    ensures At(s, 1) == 49
  {
    assert IsDigit(At(s, 805)) && IsDigit(At(s, 806)) && IsDigit(At(s, 807));
    RunEndAt(s, 805, 808);
    EdgeRuns(s);
    EdgeEnds(s, 808);
    EdgeIsThere(s);
    assert At(s, 801) == 46;
    hide Edge, RunEnd, Whole, AtTheEdge, TooLarge;
  }

  lemma ArrayRefused(s: seq<byte>)
    requires |s| > 1 && s[0] == 91 && At(s, 1) == 49 && Refused(s, 1) && !IntegerText(s, 1)
    ensures DocumentAt(s, 0).Err?
  {
    assert NumberAt(s, 1).None?;
    assert Skip(s, 1) == 1;
    hide NumberAt, Refused, IntegerText;
    assert PairValueAt(false, s, 1).Err?;
    assert ElementAt(false, s, 1).Err?;
    assert ContainerAt(false, s, 1).Err?;
  }

  /** A document of a number that is next to nothing, and a cut that leaves this one. */
  lemma FiniteBadCut()
    ensures var s := EdgeText([48, 93]); DocumentAt(s, 0).Ok? && BadCut(s, 0, 808)
  {
    var s := EdgeText([48, 93]);
    var v := EdgeText([]);
    TinyThere(s);
    NumberThere(v);
    EdgePrefix([48, 93]);
    hide EdgeText, Edge, Refused, NumberAt, PartsOf;
    NumberIsCut(s, 808, 809);
  }

  lemma NumberIsCut(s: seq<byte>, len: nat, e: nat)
    requires 1 < len < e <= |s| && At(s, 0) == 91 && At(s, 1) == 49
    requires NumberAt(s, 1).Some? && NumberAt(s, 1).value.1 == e && Refused(s[..len], 1)
    ensures BadCut(s, 0, len)
  {
    hide NumberAt, Refused;
    assert CutNumber(s, 1, len) == Some(1);
    assert CutNumber(s, 0, len) == Some(1);
  }

  lemma TinyThere(s: seq<byte>)
    requires s == EdgeText([48, 93])
    ensures DocumentAt(s, 0).Ok? && At(s, 0) == 91 && At(s, 1) == 49 && |s| == 810
    ensures NumberAt(s, 1).Some? && NumberAt(s, 1).value.1 == 809 && NumberAt(s, 1).value.0.Real?
  {
    assert At(s, 808) == s[808..][0] == 48 && At(s, 809) == s[808..][1] == 93;
    TinyNumber(s);
    EdgeRuns(s);
    assert At(s, 801) == 46;
    hide EdgeText, Edge, Whole, AtTheEdge, TooLarge, RunEnd, PartsOf;
    assert NumberAt(s, 1).Some? && NumberAt(s, 1).value.1 == 809 && NumberAt(s, 1).value.0.Real?;
    ArrayTaken(s, 809);
  }

  lemma TinyNumber(s: seq<byte>)
    requires Edge(s) && At(s, 808) == 48 && At(s, 809) == 93
    ensures NumberEnd(s, 1) == Some(809) && !Refused(s, 1)
  {
    assert IsDigit(At(s, 805)) && IsDigit(At(s, 806)) && IsDigit(At(s, 807)) && IsDigit(At(s, 808));
    RunEndAt(s, 805, 809);
    EdgeEnds(s, 809);
    TinyLiteral(s);
    EdgeRuns(s);
    assert FirstDigit(s, 1, 803) == 1;
    hide Edge, RunEnd, Whole, Literal, LiteralLength, FirstDigit, DecimalBuf.Decimal;
    assert DecimalExponent(s, EdgeParts(809)) < MIN_DECIMAL_EXP - 19;
  }

  lemma TinyLiteral(s: seq<byte>)
    requires Edge(s) && At(s, 808) == 48 && Whole(s, EdgeParts(809))
    ensures LiteralLength(s, EdgeParts(809)) == 4 && Literal(s, EdgeParts(809)) == -4910
  {
    assert At(s, 804) == 45 && At(s, 805) == 52 && At(s, 806) == 57 && At(s, 807) == 49;
    hide Edge, Whole;
    assert SkipZeros(s, 805, 809) == 805;
    assert IntegerReader.Spelled(s, 805, 809) == 4910 by {
      assert IntegerReader.Spelled(s, 805, 805) == 0;
      assert IntegerReader.Spelled(s, 805, 806) == 4;
      assert IntegerReader.Spelled(s, 805, 807) == 49;
      assert IntegerReader.Spelled(s, 805, 808) == 491;
    }
  }

  lemma ArrayTaken(s: seq<byte>, e: nat)
    requires 1 < e && |s| == e + 1 && s[0] == 91 && s[e] == 93 && At(s, 1) == 49
    requires NumberAt(s, 1).Some? && NumberAt(s, 1).value.1 == e
    ensures DocumentAt(s, 0).Ok?
  {
    hide NumberAt;
    assert Skip(s, 1) == 1 && Skip(s, e) == e && Skip(s, e + 1) == e + 1;
    assert RestAt(false, s, e) == Ok(Nil, e + 1);
    assert PairValueAt(false, s, 1).Ok?;
    assert ElementAt(false, s, 1).Ok?;
    assert ContainerAt(false, s, 1).Ok? && ContainerAt(false, s, 1).end == e + 1;
  }
}
