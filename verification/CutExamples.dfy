/** A valid document with a cut that leaves an infinite number, and a document of one. */
module CutExamples {
  import opened Bytes
  import opened IntegerReader
  import opened BigInt
  import opened DecimalBuf
  import opened JsonTree
  import opened JsonGrammar
  import opened NumberText
  import opened NumberTruncation
  import opened JsonCuts

  /** `[1`, four hundred zeros, and `e-300]`. */
  function Document(): (s: seq<byte>)
    ensures |s| == 408 && s[0] == 91 && s[1] == 49
    ensures s[402] == 101 && s[403] == 45 && s[404] == 51 && s[405] == 48 && s[406] == 48 && s[407] == 93
    ensures forall k | 2 <= k < 402 :: s[k] == 48
  {
    [91, 49] + seq(400, _ => 48 as byte) + [101, 45, 51, 48, 48, 93]
  }

  const PARTS := Parts(1, 402, 402, 407)

  lemma NumberInside()
    ensures NumberEnd(Document(), 1) == Some(407) && PartsOf(Document(), 1) == PARTS && !IntegerText(Document(), 1)
  {
    var s := Document();
    hide Document;
    RunEndAt(s, 1, 402);
    RunEndAt(s, 404, 407);
  }

  lemma SmallPowers()
    ensures Pow(10, 101) <= LIMIT
  {
    PowMono(2, 404, 970);
    TenBelowSixteen(101);
    PowTwoFour(101);
  }

  lemma {:induction false} TenBelowSixteen(n: nat)
    ensures Pow(10, n) <= Pow(16, n)
  {
    if n > 0 {
      TenBelowSixteen(n - 1);
    }
  }

  lemma {:induction false} PowTwoFour(n: nat)
    ensures Pow(16, n) == Pow(2, 4 * n)
  {
    if n > 0 {
      PowTwoFour(n - 1);
      PowAdd(2, 4 * (n - 1), 4);
      assert Pow(2, 4) == 16;
    }
  }

  lemma ThreeDigits(s: seq<byte>, i: nat, a: nat)
    requires i + 3 <= |s| && s[i] == 48 + a && s[i + 1] == 48 && s[i + 2] == 48 && 0 < a < 10
    ensures forall j | i <= j < i + 3 :: IsDigit(At(s, j))
    ensures SkipZeros(s, i, i + 3) == i && IntegerReader.Spelled(s, i, i + 3) == 100 * a
  {
    assert forall j | i <= j < i + 3 :: IsDigit(At(s, j));
    assert IntegerReader.Spelled(s, i, i) == 0;
    assert IntegerReader.Spelled(s, i, i + 1) == a;
    assert IntegerReader.Spelled(s, i, i + 2) == 10 * a;
  }

  lemma DocumentWhole()
    ensures Whole(Document(), PARTS)
  {
    hide Document, Whole;
    NumberInside();
    PartsWhole(Document(), 1);
  }

  lemma DocumentExponent()
    requires Whole(Document(), PARTS)
    ensures FirstDigit(Document(), 1, 402) == 1
    ensures LiteralLength(Document(), PARTS) == 3 && Literal(Document(), PARTS) == -300
  {
    hide Document, Whole, IntegerReader.Spelled;
    ThreeDigits(Document(), 404, 3);
  }

  lemma NumberIsFinite()
    ensures Whole(Document(), PARTS) && !TooLarge(Document(), PARTS) && !AtTheEdge(Document(), PARTS)
  {
    var s := Document();
    DocumentWhole();
    DocumentExponent();
    hide Document, Whole, Literal, LiteralLength, FirstDigit, Pow, Decimal;
    assert DecimalExponent(s, PARTS) == 82;
    assert Digits(s, 1, 402, 402) by { DigitsInside(); }
    DecimalBelow(s, 1, 402, 402);
    PowAdd(10, 101, 300);
    SmallPowers();
    TimesMono(Pow(10, 101), LIMIT, Pow(10, 300));
  }

  lemma DigitsInside()
    requires Whole(Document(), PARTS)
    ensures Digits(Document(), 1, 402, 402)
  {
  }

  lemma TimesMono(a: nat, b: nat, c: nat)
    requires a <= b
    ensures a * c <= b * c
  {
  }

  lemma DocumentReads()
    ensures var r := NumberAt(Document(), 1); r.Some? && r.value.1 == 407 && r.value.0.Real?
    ensures DocumentAt(Document(), 0).Ok?
  {
    var s := Document();
    NumberInside();
    NumberIsFinite();
    hide TooLarge, AtTheEdge, PartsOf, NumberEnd, IntegerText;
    hide Document;
    assert Skip(s, 1) == 1 && Skip(s, 407) == 407 && Skip(s, 408) == 408;
    assert RestAt(false, s, 407) == Ok(Nil, 408);
    assert PairValueAt(false, s, 1).Ok?;
    assert ElementAt(false, s, 1).Ok?;
    assert ContainerAt(false, s, 1).Ok? && ContainerAt(false, s, 1).end == 408;
  }

  lemma PrefixRefused(v: seq<byte>)
    requires v == Document()[..352]
    ensures Refused(v, 1)
  {
    RunEndAt(v, 1, 352);
    assert NumberEnd(v, 1) == Some(352) && PartsOf(v, 1) == Parts(1, 352, 352, 352);
    assert FirstDigit(v, 1, 352) == 1;
  }

  /** The document is valid, but the reader fails on it when it is cut after 352 bytes. */
  lemma ValidDocumentWithBadCut()
    ensures DocumentAt(Document(), 0).Ok? && Skip(Document(), 0) == 0 && BadCut(Document(), 0, 352)
  {
    var s := Document();
    DocumentReads();
    PrefixRefused(s[..352]);
    hide NumberAt, Refused, Document;
    assert CutNumber(s, 1, 352) == Some(1);
    assert CutNumber(s, 0, 352) == Some(1);
  }

  lemma HugeIsRefused(s: seq<byte>)
    requires s == [91, 49, 101, 52, 48, 48, 93]
    ensures Refused(s, 1) && !IntegerText(s, 1)
  {
    RunEndAt(s, 1, 2);
    RunEndAt(s, 3, 6);
    assert NumberEnd(s, 1) == Some(6) && PartsOf(s, 1) == Parts(1, 2, 2, 6);
    PartsWhole(s, 1);
    assert FirstDigit(s, 1, 2) == 1;
    ThreeDigits(s, 3, 4);
    assert DecimalExponent(s, Parts(1, 2, 2, 6)) == 400;
  }

  /** `[1e400]` is no document. */
  lemma LargeNumberRefused()
    ensures DocumentAt([91, 49, 101, 52, 48, 48, 93], 0).Err?
  {
    var s: seq<byte> := [91, 49, 101, 52, 48, 48, 93];
    HugeIsRefused(s);
    assert NumberAt(s, 1).None?;
    assert Skip(s, 1) == 1;
    hide NumberAt, Refused, IntegerText;
    assert PairValueAt(false, s, 1).Err?;
    assert ElementAt(false, s, 1).Err?;
    assert ContainerAt(false, s, 1).Err?;
  }
}
