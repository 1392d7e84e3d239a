/** Numbers cut short: what a prefix of a text makes of the number that the text has. */
module NumberTruncation {
  import opened Bytes
  import opened Integers
  import opened IntegerReader
  import BigInt
  import DecimalBuf
  import opened JsonTree
  import opened JsonGrammar
  import opened NumberText
  import opened NumberPlace

  /** Where reading the number at `i` fails: where its text does, or at its start if it is refused. */
  function NumberError(v: seq<byte>, i: nat): nat {
    var q := i + Sign(v, i);
    var e := RunEnd(v, q);
    if NumberEnd(v, i).Some? then i
    else if q == e || (At(v, q) == ZERO && e > q + 1) then q
    else
      match FractionEnd(v, e)
      case None => e + 1
      case Some(f) => ExponentStart(v, f)
  }

  // A prefix and the whole.

  predicate CutOf(v: seq<byte>, s: seq<byte>) {
    |v| <= |s| && v == s[..|v|]
  }

  lemma AtCut(v: seq<byte>, s: seq<byte>, i: nat)
    requires CutOf(v, s)
    ensures At(v, i) == if i < |v| then At(s, i) else 0
    ensures i < |v| ==> v[i] == s[i] == At(s, i)
  {
  }

  lemma {:induction false} RunEndCut(v: seq<byte>, s: seq<byte>, i: nat)
    requires CutOf(v, s)
    ensures RunEnd(v, i) < |v| ==> RunEnd(s, i) == RunEnd(v, i)
    ensures i <= |v| ==> RunEnd(v, i) <= |v| && RunEnd(v, i) <= RunEnd(s, i)
    ensures i > |v| ==> RunEnd(v, i) == i
    decreases |v| - i
  {
    AtCut(v, s, i);
    if IsDigit(At(v, i)) {
      RunEndCut(v, s, i + 1);
    }
  }

  lemma SignCut(v: seq<byte>, s: seq<byte>, i: nat)
    requires CutOf(v, s) && i < |v|
    ensures Sign(v, i) == Sign(s, i)
  {
    AtCut(v, s, i);
  }

  lemma FractionCut(v: seq<byte>, s: seq<byte>, e: nat)
    requires CutOf(v, s) && e <= |v|
    ensures FractionEnd(v, e).Some? ==> FractionEnd(v, e).value <= |v|
    ensures FractionEnd(v, e).Some? && FractionEnd(v, e).value < |v| ==> FractionEnd(s, e) == FractionEnd(v, e)
    ensures FractionEnd(v, e).None? && FractionEnd(s, e).Some? ==> e + 1 >= |v|
  {
    AtCut(v, s, e);
    RunEndCut(v, s, e + 1);
    AtCut(v, s, e + 1);
  }

  lemma ExponentCut(v: seq<byte>, s: seq<byte>, f: nat)
    requires CutOf(v, s) && f <= |v|
    ensures ExponentEnd(v, f).Some? ==> ExponentEnd(v, f).value <= |v|
    ensures ExponentEnd(v, f).Some? && ExponentEnd(v, f).value < |v| ==> ExponentEnd(s, f) == ExponentEnd(v, f)
    ensures ExponentEnd(v, f).None? && ExponentEnd(s, f).Some? ==>
              ExponentStart(v, f) >= |v|
  {
    AtCut(v, s, f);
    AtCut(v, s, f + 1);
    var g := ExponentStart(v, f);
    AtCut(v, s, g);
    RunEndCut(v, s, g);
  }

  lemma {:induction false} RunEndSeen(v: seq<byte>, s: seq<byte>, i: nat)
    requires CutOf(v, s) && i <= |v| && RunEnd(s, i) <= |v|
    ensures RunEnd(v, i) == RunEnd(s, i)
    decreases |v| - i
  {
    AtCut(v, s, i);
    if IsDigit(At(s, i)) {
      RunEndSeen(v, s, i + 1);
    }
  }

  // The parts of a number in a prefix and in the whole.

  /** The same parts, read from the prefix and from the whole. */
  ghost predicate SameParts(v: seq<byte>, s: seq<byte>, i: nat) {
    && Sign(v, i) == Sign(s, i) && NumberEnd(v, i).Some? && NumberEnd(s, i) == NumberEnd(v, i)
    && PartsOf(v, i) == PartsOf(s, i)
  }

  lemma SamePartsRefused(v: seq<byte>, s: seq<byte>, i: nat)
    requires CutOf(v, s) && SameParts(v, s, i)
    ensures Refused(v, i) == Refused(s, i)
  {
    var n := PartsAt(v, i);
    assert Holds(s, 0, v) && Moved(n, 0) == n;
    TooLargeHeld(v, s, 0, n);
    EdgeHeld(v, s, 0, n);
    hide TooLarge, AtTheEdge, Whole;
  }

  /** The same sign, digits, and kind of byte behind them. */
  ghost predicate SameDigits(v: seq<byte>, s: seq<byte>, i: nat) {
    var q := i + Sign(v, i);
    var e := RunEnd(v, q);
    && Sign(v, i) == Sign(s, i) && RunEnd(s, q) == e && At(s, q) == At(v, q) && IsFp(At(s, e)) == IsFp(At(v, e))
    && IntegerReader.Spelled(v, q, e) == IntegerReader.Spelled(s, q, e)
  }

  lemma IntegerSame(v: seq<byte>, s: seq<byte>, i: nat)
    requires SameDigits(v, s, i)
    ensures IntegerText(s, i) == IntegerText(v, i) && FitsWord(s, i) == FitsWord(v, i)
    ensures FitsWord(v, i) ==> Stored(s, i) == Stored(v, i)
  {
    hide RunEnd, IntegerReader.Spelled;
  }

  lemma DigitsSame(v: seq<byte>, s: seq<byte>, i: nat)
    requires CutOf(v, s) && SameParts(v, s, i) && NumberEnd(v, i).value <= |v|
    requires var e := RunEnd(v, i + Sign(v, i)); RunEnd(s, i + Sign(v, i)) == e && IsFp(At(v, e)) == IsFp(At(s, e))
    ensures SameDigits(v, s, i)
  {
    var n := PartsOf(v, i);
    PartsWhole(v, i);
    AtCut(v, s, n.q);
    assert Holds(s, 0, v);
    SpelledHeld(v, s, 0, n.q, n.e);
    hide RunEnd, NumberEnd, IntegerReader.Spelled;
  }

  lemma SameNumber(v: seq<byte>, s: seq<byte>, i: nat)
    requires CutOf(v, s) && SameParts(v, s, i) && NumberEnd(v, i).value <= |v| && i < |v|
    requires var e := RunEnd(v, i + Sign(v, i)); RunEnd(s, i + Sign(v, i)) == e && IsFp(At(v, e)) == IsFp(At(s, e))
    ensures NumberAt(s, i) == NumberAt(v, i)
  {
    SamePartsRefused(v, s, i);
    DigitsSame(v, s, i);
    IntegerSame(v, s, i);
    assert v[i..NumberEnd(v, i).value] == s[i..NumberEnd(v, i).value];
    assert TextOf(v, i) == TextOf(s, i);
    hide RunEnd, Refused, NumberEnd, PartsOf, IntegerText, FitsWord, Stored;
  }

  /** A number that ends before the prefix does ends there in the whole text. */
  lemma PartsCut(v: seq<byte>, s: seq<byte>, i: nat)
    requires CutOf(v, s) && i < |v| && NumberEnd(v, i).Some? && NumberEnd(v, i).value < |v|
    ensures SameParts(v, s, i) && RunEnd(s, i + Sign(v, i)) == RunEnd(v, i + Sign(v, i))
    ensures At(v, RunEnd(v, i + Sign(v, i))) == At(s, RunEnd(v, i + Sign(v, i)))
  {
    hide RunEnd, FractionEnd, ExponentEnd, Whole;
    var q := i + Sign(v, i);
    var e := RunEnd(v, q);
    SignCut(v, s, i);
    PartsEnd(v, i);
    RunEndCut(v, s, q);
    AtCut(v, s, q);
    AtCut(v, s, e);
    FractionCut(v, s, e);
    ExponentCut(v, s, FractionEnd(v, e).value);
  }

  lemma FractionSeen(v: seq<byte>, s: seq<byte>, e: nat)
    requires CutOf(v, s) && e <= |v| && FractionEnd(s, e).Some? && FractionEnd(s, e).value <= |v|
    ensures FractionEnd(v, e) == FractionEnd(s, e)
  {
    AtCut(v, s, e);
    if e < FractionEnd(s, e).value {
      RunEndSeen(v, s, e + 1);
    }
  }

  /** A number that ends in the prefix is all of it in the prefix. */
  lemma PartsSeen(v: seq<byte>, s: seq<byte>, i: nat)
    requires CutOf(v, s) && i < |v| && NumberEnd(s, i).Some? && NumberEnd(s, i).value <= |v|
    ensures SameParts(v, s, i) && RunEnd(s, i + Sign(v, i)) == RunEnd(v, i + Sign(v, i))
  {
    var q := i + Sign(s, i);
    var e := RunEnd(s, q);
    SignCut(v, s, i);
    PartsWhole(s, i);
    RunEndSeen(v, s, q);
    AtCut(v, s, q);
    FractionSeen(v, s, e);
    ExponentSeen(v, s, FractionEnd(s, e).value);
    hide RunEnd, ExponentEnd, FractionEnd, Whole;
    assert ExponentEnd(s, FractionEnd(s, e).value) == NumberEnd(s, i);
    EndFrom(v, i, PartsOf(s, i));
  }

  lemma ExponentSeen(v: seq<byte>, s: seq<byte>, f: nat)
    requires CutOf(v, s) && f <= |v| && ExponentEnd(s, f).Some? && ExponentEnd(s, f).value <= |v|
    ensures ExponentEnd(v, f) == ExponentEnd(s, f)
  {
    AtCut(v, s, f);
    AtCut(v, s, f + 1);
    if f < ExponentEnd(s, f).value {
      RunEndSeen(v, s, ExponentStart(s, f));
    }
  }

  /** A number that ends inside the prefix is the number of the whole text. */
  lemma NumberCut(v: seq<byte>, s: seq<byte>, i: nat)
    requires CutOf(v, s) && i < |v| && NumberAt(v, i).Some? && NumberAt(v, i).value.1 < |v|
    ensures NumberAt(s, i) == NumberAt(v, i)
  {
    NumberEndOf(v, i);
    PartsCut(v, s, i);
    SameNumber(v, s, i);
  }

  /** A number of the whole text that lies in the prefix is read from the prefix. */
  lemma NumberSeen(v: seq<byte>, s: seq<byte>, i: nat)
    requires CutOf(v, s) && i < |v| && NumberAt(s, i).Some? && NumberAt(s, i).value.1 <= |v|
    ensures NumberAt(v, i) == NumberAt(s, i)
  {
    NumberEndOf(s, i);
    PartsSeen(v, s, i);
    PartsWhole(s, i);
    AtCut(v, s, RunEnd(s, i + Sign(s, i)));
    SeenPoint(v, s, i);
    SameNumber(v, s, i);
  }

  lemma SeenPoint(v: seq<byte>, s: seq<byte>, i: nat)
    requires CutOf(v, s) && NumberEnd(s, i).Some? && NumberEnd(s, i).value <= |v|
    ensures var e := RunEnd(s, i + Sign(s, i)); IsFp(At(v, e)) == IsFp(At(s, e))
  {
    var e := RunEnd(s, i + Sign(s, i));
    PartsWhole(s, i);
    AtCut(v, s, e);
    hide RunEnd;
  }

  /** A number of the whole text that cannot be read from the prefix fails at its end, or is too large so far. */
  lemma NumberCutShort(v: seq<byte>, s: seq<byte>, i: nat)
    requires CutOf(v, s) && i < |v| && NumberAt(v, i).None? && NumberAt(s, i).Some?
    ensures NumberError(v, i) >= |v| <==> !Refused(v, i)
  {
    NumberNone(v, i);
    NumberEndOf(s, i);
    if NumberEnd(v, i).None? {
      TextCutShort(v, s, i);
    }
    hide NumberAt, RunEnd, FractionEnd, ExponentEnd;
  }

  lemma TextCutShort(v: seq<byte>, s: seq<byte>, i: nat)
    requires CutOf(v, s) && i < |v| && NumberEnd(v, i).None? && NumberEnd(s, i).Some?
    ensures NumberError(v, i) >= |v|
  {
    var q := i + Sign(v, i);
    var e := RunEnd(v, q);
    SignCut(v, s, i);
    RunEndCut(v, s, q);
    AtCut(v, s, q);
    if q < |v| {
      DigitsCut(v, s, i);
      FractionCut(v, s, e);
      FractionExponentCut(v, s, i);
    }
  }

  /** Digits that are right in the whole text are right in the prefix, as far as they go. */
  lemma DigitsCut(v: seq<byte>, s: seq<byte>, i: nat)
    requires CutOf(v, s) && i < |v| && NumberEnd(s, i).Some? && i + Sign(v, i) < |v| && Sign(v, i) == Sign(s, i)
    ensures var q := i + Sign(v, i); var e := RunEnd(v, q);
            q < e <= |v| && !(At(v, q) == ZERO && e > q + 1) && (e < |v| ==> RunEnd(s, q) == e)
    ensures var e := RunEnd(s, i + Sign(s, i));
            FractionEnd(s, e).Some? && ExponentEnd(s, FractionEnd(s, e).value).Some?
  {
    var q := i + Sign(v, i);
    RunEndCut(v, s, q);
    AtCut(v, s, q);
    hide FractionEnd, ExponentEnd;
  }

  lemma FractionExponentCut(v: seq<byte>, s: seq<byte>, i: nat)
    requires CutOf(v, s) && i < |v| && i + Sign(v, i) < |v|
    requires NumberEnd(v, i).None?
    requires var q := i + Sign(v, i); var e := RunEnd(v, q);
             && Sign(s, i) == Sign(v, i) && q < e <= |v| && !(At(v, q) == ZERO && e > q + 1)
             && (e < |v| ==> RunEnd(s, q) == e)
    requires var e := RunEnd(s, i + Sign(s, i));
             FractionEnd(s, e).Some? && ExponentEnd(s, FractionEnd(s, e).value).Some?
    ensures NumberError(v, i) >= |v|
  {
    hide RunEnd, FractionEnd, ExponentEnd;
    var q := i + Sign(v, i);
    var e := RunEnd(v, q);
    FractionCut(v, s, e);
    if e == |v| {
      NothingAfter(v, e);
    } else if FractionEnd(v, e).Some? {
      var f := FractionEnd(v, e).value;
      ExponentCut(v, s, f);
      if f == |v| {
        NothingAfter(v, f);
      }
    }
  }

  lemma NothingAfter(v: seq<byte>, e: nat)
    requires e == |v|
    ensures FractionEnd(v, e) == Some(e) && ExponentEnd(v, e) == Some(e)
  {
  }

  lemma NumberEndOf(s: seq<byte>, i: nat)
    requires NumberAt(s, i).Some?
    ensures NumberEnd(s, i).Some? && NumberEnd(s, i).value == NumberAt(s, i).value.1
    ensures !Refused(s, i)
  {
    if IntegerText(s, i) && FitsWord(s, i) {
      WordIsTaken(s, i);
      IntegerEnds(s, i);
    }
    hide Refused, RunEnd, FractionEnd, ExponentEnd;
  }

  lemma NumberNone(v: seq<byte>, i: nat)
    requires NumberAt(v, i).None?
    ensures NumberEnd(v, i).Some? <==> Refused(v, i)
  {
    if NumberEnd(v, i).Some? {
      PartsWhole(v, i);
    }
    hide RunEnd, FractionEnd, ExponentEnd, TooLarge;
  }
}
