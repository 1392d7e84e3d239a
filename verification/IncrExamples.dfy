/** What the incremental reader does with some texts: it waits for what cannot come, and does not wait for what can. */
module IncrExamples {
  import opened Bytes
  import opened Literals
  import opened IntegerReader
  import opened JsonString
  import opened JsonTree
  import opened JsonGrammar
  import opened JsonTape
  import opened NumberText
  import opened NumberPlace
  import opened NumberTruncation
  import opened JsonTruncation
  import opened ScalarCompletion
  import opened IncrSteps
  import opened IncrTexts
  import opened IncrReader
  import CutExamples

  /** An array cut in a value that is past help: the reader asks for more, and no text that begins so is one. */
  lemma WaitsInVain(v: seq<byte>)
    requires |v| > 1 && v[0] == '[' as int && Stuck(v, 1)
    ensures Pending(v, ValBegin, 1) && StuckAt(ValBegin, v, Skip(v, 1)) && forall s | CutOf(v, s) :: TextAt(s).Err?
  {
    var st := Frame(false, [], Bottom);
    StuckIsCut(v, 1);
    CutNoBracket(v, 1);
    NoSpace(v, 1);
    NoSpace(v, 0);
    RootBegins(v, 0, false);
    ScalarStays(v, ValBegin, st, 1);
    hide Stuck, Stays, Skip, Rooted, TextAt, CutScalar;
    RootedStays(Upto(v, 1), v, ValBegin, st, 1);
  }

  /** `["\udc` is no beginning of a document, since a low surrogate has to follow a high one. */
  lemma LoneLowWaits()
    ensures var v := Ascii("[\"\\udc");
            Pending(v, ValBegin, 1) && StuckAt(ValBegin, v, Skip(v, 1)) && forall s | CutOf(v, s) :: TextAt(s).Err?
  {
    var v := Ascii("[\"\\udc");
    assert v == [91, 34, 92, 117, 100, 99];
    assert PieceAt(v, 2).Bad?;
    assert StringAt(v, 2) == Fail(2);
    assert LoneLow(v, 2) by {
      LowIs(v[4], v[5]);
    }
    WaitsInVain(v);
  }

  /** `[1`, four hundred zeros and `e+`: every exponent that can follow leaves it infinite. */
  lemma PlusWaits()
    ensures var v := CutExamples.Document()[..402] + Ascii("e+");
            Pending(v, ValBegin, 1) && StuckAt(ValBegin, v, Skip(v, 1)) && forall s | CutOf(v, s) :: TextAt(s).Err?
  {
    var v := CutExamples.Document()[..402] + Ascii("e+");
    DigitsThenPlus(v);
    hide PlusStuck, CutExamples.Document;
    assert v[0] == 91 && v[1] == 49;
    WaitsInVain(v);
  }

  lemma DigitsThenPlus(v: seq<byte>)
    requires v == CutExamples.Document()[..402] + Ascii("e+")
    ensures PlusStuck(v, 1) && |v| == 404
  {
    hide CutExamples.Document;
    assert Ascii("e+") == [101, 43];
    var w := v + [ZERO];
    RunEndIs(v, 1, 402);
    RunEndIs(w, 1, 402);
    RunEndIs(v, 404, 404);
    RunEndIs(w, 404, 405);
    hide RunEnd;
    assert NumberEnd(v, 1).None? && NumberError(v, 1) == 404;
    assert NumberEnd(w, 1) == Some(405) && PartsOf(w, 1) == Parts(1, 402, 402, 405);
    TooLargeWithZero(w);
  }

  lemma TooLargeWithZero(w: seq<byte>)
    requires |w| == 405 && NumberEnd(w, 1) == Some(405) && PartsOf(w, 1) == Parts(1, 402, 402, 405)
    requires w[1] == 49 && w[403] == 43 && w[404] == ZERO
    ensures Refused(w, 1)
  {
    var n := Parts(1, 402, 402, 405);
    RefusedIs(w, 1);
    hide PartsOf, NumberEnd;
    ZeroExponent(w, n);
    assert FirstDigit(w, 1, 402) == 1;
    hide Whole, Literal, LiteralLength, FirstDigit, AtTheEdge, Refused;
    assert DecimalExponent(w, n) == 382;
    TooLargeIs(w, n);
  }

  /** A number alone, of which the first digit comes first, is read as that digit. */
  lemma SingleNumberEndsEarly()
    ensures var s := Ascii("12");
            && TextAt(s) == Ok(Leaf(Int(false, 12)), 2) && !HasRoot(s)
            && Growing([1, 2], |s|) && FirstText(s, [1, 2], 0)
            && TextAt(Part(s, [1, 2], 0)) == Ok(Leaf(Int(false, 1)), 1)
  {
    var s := Ascii("12");
    assert s[..1] == Ascii("1");
  }
}
