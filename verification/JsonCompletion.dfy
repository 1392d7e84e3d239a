/** What a text that breaks off inside a document needs to become one. */
module JsonCompletion {
  import opened Bytes
  import opened JsonString
  import opened JsonTree
  import opened JsonGrammar
  import opened JsonTape
  import opened NumberPlace
  import opened NumberSyntax
  import opened NumberTruncation
  import opened JsonTruncation
  import opened ScalarCompletion

  /** The brackets that close all the containers still open. */
  function Closers(st: Stack): seq<byte> {
    match st
    case Bottom => []
    case Frame(obj, _, below) => [Close(obj)] + Closers(below)
  }

  /** What makes a document of a text that ends at a label. */
  function Ending(mode: Mode, st: Stack): seq<byte> {
    match mode
    case ValEnd => Closers(st)
    case ValBegin | PairBegin => NULL + Closers(st)
    case KeyEnd => [COLON] + (NULL + Closers(st))
    case KeyBegin => [QUOTE, QUOTE] + ([COLON] + (NULL + Closers(st)))
  }

  /** The document ends with the text. */
  ghost predicate Ends(r: Parsed<Json>, s: seq<byte>) {
    r.Ok? && r.end == |s|
  }

  lemma ClosersHold(s: seq<byte>, i: nat, st: Stack)
    requires st.Frame? && Holds(s, i, Closers(st))
    ensures At(s, i) == Close(st.obj) && i < |s| && Holds(s, i + 1, Closers(st.below))
  {
    HoldsParts(s, i, [Close(st.obj)], Closers(st.below));
    FirstHeld(s, i, Closers(st));
  }

  lemma {:induction false} ClosersClose(st: Stack, s: seq<byte>, i: nat)
    requires ModeFits(ValEnd, st) && Holds(s, i, Closers(st)) && i + |Closers(st)| == |s|
    ensures Ends(Outcome(ValEnd, st, s, i), s)
    decreases |Closers(st)|
  {
    hide Outcome, Plug, Holds;
    ClosersHold(s, i, st);
    CloseStep(ValEnd, st, s, i);
    CloseOutcome(st, s, i + 1);
    if st.below.Frame? {
      ClosersGrown(st.below, ValueOf(st));
      ClosersClose(Grown(st.below, ValueOf(st)), s, i + 1);
    }
  }

  lemma ClosersGrown(st: Stack, v: Json)
    requires st.Frame?
    ensures Closers(Grown(st, v)) == Closers(st)
  {
  }

  lemma NullReads(s: seq<byte>, i: nat)
    requires Holds(s, i, NULL)
    ensures ScalarAt(s, i) == Some((Null, i + 4)) && !IsSpace(At(s, i))
  {
    FirstHeld(s, i, NULL);
    hide Holds, NumberAt, KeyAt;
  }

  lemma NullThenClosers(mode: Mode, st: Stack, s: seq<byte>, i: nat)
    requires ModeFits(mode, st) && TakesValue(mode) && i <= |s| && Holds(s, i, NULL + Closers(st))
    requires i + |NULL + Closers(st)| == |s|
    ensures Ends(Outcome(mode, st, s, i), s)
  {
    hide Outcome, ScalarAt, Holds;
    HoldsParts(s, i, NULL, Closers(st));
    NullReads(s, i);
    ScalarStep(mode, st, s, i);
    ClosersGrown(st, Leaf(Null));
    ClosersClose(Grown(st, Leaf(Null)), s, i + 4);
  }

  lemma ColonThenNull(st: Stack, s: seq<byte>, i: nat)
    requires ModeFits(KeyEnd, st) && i <= |s| && Holds(s, i, Ending(KeyEnd, st)) && i + |Ending(KeyEnd, st)| == |s|
    ensures Ends(Outcome(KeyEnd, st, s, i), s)
  {
    hide Outcome, Holds, Closers;
    HoldsParts(s, i, [COLON], NULL + Closers(st));
    FirstHeld(s, i, [COLON]);
    ColonStep(st, s, i);
    NullThenClosers(PairBegin, st, s, i + 1);
  }

  lemma EmptyKey(s: seq<byte>, i: nat)
    requires Holds(s, i, [QUOTE, QUOTE])
    ensures KeyAt(s, i) == Some((Str([]), i + 2))
  {
    AtHeld([QUOTE, QUOTE], s, i, 0);
    AtHeld([QUOTE, QUOTE], s, i, 1);
    QuoteEnds(s, i + 1);
    hide StringAt;
  }

  lemma KeyThenColon(st: Stack, s: seq<byte>, i: nat)
    requires ModeFits(KeyBegin, st) && i <= |s| && Holds(s, i, Ending(KeyBegin, st)) && i + |Ending(KeyBegin, st)| == |s|
    ensures Ends(Outcome(KeyBegin, st, s, i), s)
  {
    hide Outcome, Holds, Closers, KeyAt;
    var key: seq<byte> := [QUOTE, QUOTE];
    HoldsParts(s, i, key, Ending(KeyEnd, st));
    EmptyKey(s, i);
    KeyStep(st, s, i);
    ClosersGrown(st, Leaf(Str([])));
    ColonThenNull(Grown(st, Leaf(Str([]))), s, i + 2);
  }

  /** The ending makes a document of what is there. */
  lemma EndingEnds(mode: Mode, st: Stack, s: seq<byte>, i: nat)
    requires ModeFits(mode, st) && i <= |s| && Holds(s, i, Ending(mode, st)) && i + |Ending(mode, st)| == |s|
    ensures Ends(Outcome(mode, st, s, i), s)
  {
    match mode {
      case ValEnd => ClosersClose(st, s, i);
      case ValBegin => NullThenClosers(mode, st, s, i);
      case PairBegin => NullThenClosers(mode, st, s, i);
      case KeyEnd => ColonThenNull(st, s, i);
      case KeyBegin => KeyThenColon(st, s, i);
    }
  }

  lemma BehindHeld(u: seq<byte>, w: seq<byte>)
    ensures Holds(u + w, |u|, w) && CutOf(u, u + w)
  {
  }

  lemma CloserEndsNumber(st: Stack, s: seq<byte>, i: nat)
    requires st.Frame? && Holds(s, i, Closers(st))
    ensures EndsNumber(At(s, i))
  {
    ClosersHold(s, i, st);
  }

  /** A value that is cut, completed, and all the brackets. */
  lemma ScalarEnds(mode: Mode, st: Stack, v: seq<byte>, i: nat)
    requires ModeFits(mode, st) && TakesValue(mode) && CutScalar(v, i) && !Stuck(v, i) && !IsSpace(At(v, i))
    ensures var s := v + FillScalar(v, i) + Closers(st); CutOf(v, s) && Ends(Outcome(mode, st, s, i), s)
  {
    var u := v + FillScalar(v, i);
    var s := u + Closers(st);
    BehindHeld(u, Closers(st));
    CutFront(v, FillScalar(v, i), s);
    AtCut(v, s, i);
    CloserEndsNumber(st, s, |u|);
    ScalarCompletes(v, s, i);
    hide Outcome, ScalarAt, CutScalar, Stuck, Closers, FillScalar, EndsNumber, Holds;
    ScalarStep(mode, st, s, i);
    var a := ScalarAt(s, i).value.0;
    ClosersGrown(st, Leaf(a));
    ClosersClose(Grown(st, Leaf(a)), s, |u|);
  }

  /** A key that is cut, completed, a value for it, and all the brackets. */
  lemma KeyEnds(st: Stack, v: seq<byte>, i: nat)
    requires ModeFits(KeyBegin, st) && i < |v| && v[i] == QUOTE && KeyAt(v, i).None? && ScalarTruncated(v, i)
    requires !Stuck(v, i)
    ensures var s := v + FillScalar(v, i) + Ending(KeyEnd, st); CutOf(v, s) && Ends(Outcome(KeyBegin, st, s, i), s)
  {
    var u := v + FillScalar(v, i);
    var s := u + Ending(KeyEnd, st);
    BehindHeld(u, Ending(KeyEnd, st));
    CutFront(v, FillScalar(v, i), s);
    CutFront(u, Ending(KeyEnd, st), s);
    QuotedCompletes(v, s, i);
    hide Outcome, KeyAt, ScalarTruncated, Stuck, Closers, FillScalar, Holds;
    KeyStep(st, s, i);
    var a := KeyAt(s, i).value.0;
    ClosersGrown(st, Leaf(a));
    ColonThenNull(Grown(st, Leaf(a)), s, |u|);
  }
}
