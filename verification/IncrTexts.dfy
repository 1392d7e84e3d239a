/** What the bytes that the incremental reader has say of the whole text. */
module IncrTexts {
  import opened Bytes
  import opened JsonTree
  import opened JsonGrammar
  import opened JsonTape
  import opened JsonReader
  import opened JsonString
  import opened JsonTruncation
  import opened NumberSyntax
  import opened NumberTruncation
  import opened JsonCuts
  import opened ScalarCompletion
  import opened JsonCompletion
  import opened IncrSteps

  // ---------------------------------------------------------------------------------------
  // What a call may answer
  // ---------------------------------------------------------------------------------------

  /** No text that begins with `v` is one, unless `v` ends at a bad cut of it. */
  ghost predicate Lost(v: seq<byte>) {
    forall s | CutOf(v, s) :: TextAt(s).Err? || BadCut(s, 0, |v|)
  }

  /** Then no value is cut and past help at the label where the reader stands, unless the root is already closed. */
  ghost predicate Decided(v: seq<byte>, mode: Mode, cur: nat) {
    StuckAt(mode, v, Skip(v, cur)) ==> HasRoot(v) && RootOf(v).Ok?
  }

  /**
    `v` is no text, and at no bad cut. One that begins with it can be a text if and only if the value that is cut,
    the one next after the position `cur` of the label, is not stuck.
   */
  ghost predicate Pending(v: seq<byte>, mode: Mode, cur: nat) {
    && TextAt(v).Err?
    && (forall s | CutOf(v, s) :: !BadCut(s, 0, |v|))
    && if StuckAt(mode, v, Skip(v, cur)) then forall s | CutOf(v, s) :: TextAt(s).Err?
       else exists s :: CutOf(v, s) && TextAt(s).Ok?
  }

  /** `v` is a text; if its root is a container, what follows can only be spaces, and nothing of it can be badly cut. */
  ghost predicate Settled(v: seq<byte>) {
    && TextAt(v).Ok?
    && (HasRoot(v) ==>
          forall s | CutOf(v, s) && TextAt(s).Ok? ::
            TextAt(s) == TextAt(v) && forall l | |v| <= l <= |s| :: !BadCut(s, 0, l))
  }

  // ---------------------------------------------------------------------------------------
  // Containers
  // ---------------------------------------------------------------------------------------

  /** The root, after spaces, is a container. */
  predicate HasRoot(s: seq<byte>) {
    var start := Skip(s, 0);
    At(s, start) == Open(true) || At(s, start) == Open(false)
  }

  ghost function RootOf(s: seq<byte>): (r: Parsed<Json>)
    requires HasRoot(s)
    ensures r.Ok? ==> r.end <= |s|
  {
    ContainerAt(At(s, Skip(s, 0)) == Open(true), s, Skip(s, 0) + 1)
  }

  lemma TextOfRoot(s: seq<byte>)
    requires HasRoot(s)
    ensures RootOf(s).Err? ==> TextAt(s).Err?
    ensures RootOf(s).Ok? ==> TextAt(s) == if Skip(s, RootOf(s).end) < |s| then Err else RootOf(s)
  {
    hide ContainerAt, Skip;
  }

  /** Every text that begins with `w` has a container at its root, and is the document read from `cur`. */
  ghost predicate Rooted(w: seq<byte>, mode: Mode, st: Stack, cur: nat) {
    && ModeFits(mode, st) && cur <= |w| <= cur + 1
    && forall s | CutOf(w, s) :: HasRoot(s) && RootOf(s) == Outcome(mode, st, s, cur) && Passed(s, 0, cur)
  }

  lemma CutTrans(u: seq<byte>, v: seq<byte>, s: seq<byte>)
    requires CutOf(u, v) && CutOf(v, s)
    ensures CutOf(u, s)
  {
    assert s[..|u|] == s[..|v|][..|u|];
  }

  lemma RootedNext(w: seq<byte>, v: seq<byte>, mode: Mode, st: Stack, cur: nat, next: Mode, there: Stack, j: nat)
    requires Rooted(w, mode, st, cur) && CutOf(w, v) && Leads(v, mode, st, cur, next, there, j) && cur < j
    ensures Rooted(Upto(v, j), next, there, j) && CutOf(Upto(v, j), v)
  {
    var u := Upto(v, j);
    assert w == u[..|w|];
    hide Outcome, Passed, ModeFits, HasRoot, RootOf;
    forall s | CutOf(u, s)
      ensures HasRoot(s) && RootOf(s) == Outcome(next, there, s, j) && Passed(s, 0, j)
    {
      CutTrans(w, u, s);
      PassedTrans(s, 0, cur, j);
    }
  }

  lemma RootedDead(w: seq<byte>, v: seq<byte>, mode: Mode, st: Stack, cur: nat)
    requires Rooted(w, mode, st, cur) && CutOf(w, v) && Dead(v, mode, st, cur)
    ensures Lost(v) && Decided(v, mode, cur)
  {
    hide Outcome, Passed, ModeFits, HasRoot, RootOf, BadCut, TextAt, StuckAt, Skip;
    forall s | CutOf(v, s)
      ensures TextAt(s).Err? || BadCut(s, 0, |v|)
    {
      CutTrans(w, v, s);
      TextOfRoot(s);
      PassedBad(s, 0, cur, |v|);
    }
  }

  lemma EndsIsText(s: seq<byte>)
    requires HasRoot(s) && Ends(RootOf(s), s)
    ensures TextAt(s).Ok?
  {
    TextOfRoot(s);
    EndOfText(s, |s|);
    hide TextAt, RootOf, HasRoot, Skip;
  }

  lemma RootedStays(w: seq<byte>, v: seq<byte>, mode: Mode, st: Stack, cur: nat)
    requires Rooted(w, mode, st, cur) && CutOf(w, v) && Stays(v, mode, st, cur)
    ensures Pending(v, mode, cur)
  {
    hide Outcome, Passed, ModeFits, HasRoot, RootOf, BadCut, TextAt, StuckAt, Skip, Ends;
    forall s | CutOf(v, s)
      ensures HasRoot(s) && RootOf(s) == Outcome(mode, st, s, cur) && BadCut(s, 0, |v|) == BadCut(s, cur, |v|)
      ensures RootOf(s).Err? ==> TextAt(s).Err?
      ensures Ends(RootOf(s), s) ==> TextAt(s).Ok?
    {
      CutTrans(w, v, s);
      TextOfRoot(s);
      PassedBad(s, 0, cur, |v|);
      if Ends(RootOf(s), s) {
        EndsIsText(s);
      }
    }
    assert CutOf(v, v);
  }

  /** The root is closed at `j`. */
  ghost predicate RootClosed(v: seq<byte>, t: Json, j: nat) {
    && j <= |v|
    && forall s | CutOf(v, s) :: HasRoot(s) && RootOf(s) == Ok(t, j) && Passed(s, 0, j)
  }

  lemma RootedFinishes(w: seq<byte>, v: seq<byte>, mode: Mode, st: Stack, cur: nat, t: Json, j: nat)
    requires Rooted(w, mode, st, cur) && CutOf(w, v) && Finishes(v, mode, st, cur, t, j)
    ensures RootClosed(v, t, j)
  {
    hide Outcome, Passed, ModeFits, HasRoot, RootOf;
    forall s | CutOf(v, s)
      ensures HasRoot(s) && RootOf(s) == Ok(t, j) && Passed(s, 0, j)
    {
      CutTrans(w, v, s);
      AllUpto(v, s, j);
      PassedTrans(s, 0, cur, j);
    }
  }

  /** Spaces of the prefix, and what stands behind them if it does. */
  lemma {:induction false} SkipCut(v: seq<byte>, s: seq<byte>, i: nat)
    requires CutOf(v, s) && i <= |v|
    ensures Skip(v, i) <= |v| <= |s| && (Skip(v, i) < |v| ==> Skip(s, i) == Skip(v, i) && At(s, Skip(s, i)) == At(v, Skip(v, i)))
    ensures forall k | i <= k < Skip(v, i) :: IsSpace(At(s, k))
    decreases |v| - i
  {
    AtCut(v, s, i);
    if IsSpace(At(v, i)) {
      SkipCut(v, s, i + 1);
    }
  }

  /** Something behind the root. */
  lemma GarbageLost(v: seq<byte>, t: Json, j: nat, mode: Mode)
    requires RootClosed(v, t, j) && Skip(v, j) < |v|
    ensures Lost(v) && Decided(v, mode, j)
  {
    assert CutOf(v, v);
    hide HasRoot, RootOf, TextAt, Skip, Passed, BadCut;
    forall s | CutOf(v, s)
      ensures TextAt(s).Err?
    {
      TextOfRoot(s);
      SkipCut(v, s, j);
    }
  }

  lemma {:induction false} SpacesToEnd(s: seq<byte>, i: nat)
    requires i <= |s| && Skip(s, i) >= |s|
    ensures forall k | i <= k < |s| :: IsSpace(At(s, k))
    decreases |s| - i
  {
    if i < |s| {
      SpacesToEnd(s, i + 1);
    }
  }

  lemma NoCutNoBad(s: seq<byte>, p: nat, len: nat)
    requires len <= |s| && CutNumber(s, p, len) == None
    ensures !BadCut(s, p, len)
  {
  }

  /** Behind the root of a document there is no number to cut. */
  lemma NothingBehind(s: seq<byte>, j: nat, len: nat)
    requires j <= len <= |s| && Passed(s, 0, j) && Skip(s, j) >= |s|
    ensures !BadCut(s, 0, len)
  {
    hide BadCut, Skip, CutNumber;
    SpacesToEnd(s, j);
    NothingCut(s, j, len);
    NoCutNoBad(s, j, len);
    PassedBad(s, 0, j, len);
  }

  lemma RootSettled(v: seq<byte>, t: Json, j: nat)
    requires RootClosed(v, t, j) && Skip(v, j) >= |v|
    ensures Settled(v) && TextAt(v) == Ok(t, j)
  {
    assert CutOf(v, v);
    TextOfRoot(v);
    hide HasRoot, RootOf, TextAt, Skip, Passed, BadCut;
    forall s | CutOf(v, s) && TextAt(s).Ok?
      ensures TextAt(s) == Ok(t, j) && forall l | |v| <= l <= |s| :: !BadCut(s, 0, l)
    {
      TextOfRoot(s);
      forall l | |v| <= l <= |s|
        ensures !BadCut(s, 0, l)
      {
        NothingBehind(s, j, l);
      }
    }
  }

  /** The root's opening bracket. */
  lemma RootBegins(v: seq<byte>, i: nat, obj: bool)
    requires i == Skip(v, 0) && i < |v| && v[i] == Open(obj)
    ensures Rooted(Upto(v, i + 1), Inside(obj), Frame(obj, [], Bottom), i + 1) && CutOf(Upto(v, i + 1), v)
  {
    var u := Upto(v, i + 1);
    var st := Frame(obj, [], Bottom);
    assert CutOf(v[..i + 1], u);
    hide Outcome, ContainerAt, Passed, Skip;
    forall s | CutOf(u, s)
      ensures HasRoot(s) && RootOf(s) == Outcome(Inside(obj), st, s, i + 1) && Passed(s, 0, i + 1)
    {
      CutTrans(v[..i + 1], u, s);
      RootStarts(v, s, i);
      RootOutcome(obj, s, i + 1);
    }
  }

  lemma RootStarts(v: seq<byte>, s: seq<byte>, i: nat)
    requires i == Skip(v, 0) && i < |v| && (v[i] == Open(true) || v[i] == Open(false)) && CutOf(v[..i + 1], s)
    ensures Skip(s, 0) == i && At(s, i) == v[i] && i < |s| && Passed(s, 0, i + 1)
  {
    var w := v[..i + 1];
    SkipSeen(w, v, 0);
    SkipCut(w, s, 0);
    AtCut(w, s, i);
    PassedPlain(s, 0, i + 1);
    hide Skip, Passed;
  }

  lemma {:induction false} SkipSeen(v: seq<byte>, s: seq<byte>, i: nat)
    requires CutOf(v, s) && i <= |v| && Skip(s, i) <= |v|
    ensures Skip(v, i) == Skip(s, i)
    decreases |v| - i
  {
    AtCut(v, s, i);
    if IsSpace(At(s, i)) {
      SkipSeen(v, s, i + 1);
    }
  }

  // ---------------------------------------------------------------------------------------
  // Values of one slot
  // ---------------------------------------------------------------------------------------

  /** The value begins at `i`, and it is no container. */
  ghost predicate SingleFrom(v: seq<byte>, i: nat) {
    i == Skip(v, 0) && i < |v| && v[i] != Open(true) && v[i] != Open(false)
  }

  lemma SingleText(v: seq<byte>, s: seq<byte>, i: nat)
    requires SingleFrom(v, i) && CutOf(v, s)
    ensures TextAt(s) == SingleAt(s, i) && At(s, i) == v[i] && Passed(s, 0, i) && !IsSpace(v[i])
  {
    SkipCut(v, s, 0);
    PassedPlain(s, 0, i);
    hide Skip, Passed, SingleAt;
  }

  lemma SingleEnds(s: seq<byte>, i: nat)
    ensures SingleAt(s, i).Ok? <==> ScalarAt(s, i).Some? && Skip(s, ScalarAt(s, i).value.1) >= |s|
    ensures SingleAt(s, i).Ok? ==> SingleAt(s, i) == Ok(Leaf(ScalarAt(s, i).value.0), ScalarAt(s, i).value.1)
  {
  }

  /**
    A part that is a text stands for the same value, read as far, if and only if the value lies in it. Only numbers
    can be otherwise: their digits may go on, and the reader does not wait for that at the root.
   */
  lemma SingleKeptExactly(v: seq<byte>, s: seq<byte>)
    requires CutOf(v, s) && TextAt(v).Ok? && TextAt(s).Ok? && !HasRoot(s)
    ensures TextAt(v) == TextAt(s) <==> TextAt(s).end <= |v|
    ensures !StartsNumber(At(s, Skip(s, 0))) ==> TextAt(v) == TextAt(s)
  {
    var i := Skip(v, 0);
    TextFrom(v);
    SkipCut(v, s, 0);
    SingleText(v, v, i);
    SingleText(v, s, i);
    SingleEnds(v, i);
    SingleEnds(s, i);
    hide TextAt, ScalarAt, Skip;
    ScalarCut(v, s, i);
    if ScalarAt(s, i).value.1 <= |v| {
      ScalarSeen(v, s, i);
    }
  }

  lemma TextFrom(v: seq<byte>)
    requires TextAt(v).Ok?
    ensures Skip(v, 0) < |v| && (!HasRoot(v) ==> SingleFrom(v, Skip(v, 0)))
  {
    assert At(v, |v|) == 0;
    if Skip(v, 0) >= |v| {
      NothingYet(v);
    }
  }

  /** No value there, and none that is cut. */
  lemma SingleLost(v: seq<byte>, i: nat)
    requires SingleFrom(v, i) && ScalarAt(v, i).None? && !ScalarTruncated(v, i)
    ensures Lost(v) && Decided(v, ValBegin, i)
  {
    SingleText(v, v, i);
    NotStuck(v, i);
    hide TextAt, SingleAt, BadCut, ScalarAt, ScalarTruncated, SingleFrom, Skip, Stuck;
    assert i < |v| by {
      SingleInside(v, i);
    }
    forall s | CutOf(v, s)
      ensures TextAt(s).Err? || BadCut(s, 0, |v|)
    {
      SingleText(v, s, i);
      SingleEnds(s, i);
      if ScalarAt(s, i).Some? {
        OnlyBadCut(v, s, i);
        PassedBad(s, 0, i, |v|);
      }
    }
  }

  lemma SingleInside(v: seq<byte>, i: nat)
    requires SingleFrom(v, i)
    ensures i < |v| && Skip(v, i) == i
  {
    NoSpace(v, i);
  }

  /** A value with something behind it. */
  lemma SingleGarbage(v: seq<byte>, i: nat)
    requires SingleFrom(v, i) && ScalarAt(v, i).Some? && Skip(v, ScalarAt(v, i).value.1) < |v|
    ensures Lost(v) && Decided(v, ValBegin, i)
  {
    hide TextAt, SingleAt, BadCut, ScalarAt, SingleFrom, Skip, Stuck;
    SingleInside(v, i);
    if Stuck(v, i) {
      StuckIsCut(v, i);
    }
    var e := ScalarAt(v, i).value.1;
    forall s | CutOf(v, s)
      ensures TextAt(s).Err?
    {
      SingleText(v, s, i);
      SingleEnds(s, i);
      ScalarCut(v, s, i);
      SkipCut(v, s, e);
    }
  }

  lemma SingleSettled(v: seq<byte>, i: nat)
    requires SingleFrom(v, i) && ScalarAt(v, i).Some? && Skip(v, ScalarAt(v, i).value.1) >= |v|
    ensures Settled(v) && TextAt(v).v == Leaf(ScalarAt(v, i).value.0)
  {
    assert CutOf(v, v);
    SingleText(v, v, i);
    SingleEnds(v, i);
    assert !HasRoot(v);
    hide TextAt, SingleAt, BadCut, ScalarAt, Skip;
  }

  lemma SingleCompletes(v: seq<byte>, i: nat)
    requires SingleFrom(v, i) && CutScalar(v, i) && !Stuck(v, i)
    ensures var s := v + FillScalar(v, i); CutOf(v, s) && TextAt(s).Ok?
  {
    SingleInside(v, i);
    var s := v + FillScalar(v, i);
    assert CutOf(v, s) && CutOf(s, s);
    EndsThere(s);
    ScalarCompletes(v, s, i);
    SingleText(v, s, i);
    SingleEnds(s, i);
    EndOfText(s, |s|);
    hide TextAt, SingleAt, ScalarAt, Skip, FillScalar, CutScalar, Stuck, SingleFrom;
  }

  /** The value is cut. */
  lemma SingleStays(v: seq<byte>, i: nat, cur: nat)
    requires SingleFrom(v, i) && ScalarAt(v, i).None? && ScalarTruncated(v, i) && Skip(v, cur) == i
    ensures Pending(v, ValBegin, cur)
  {
    SingleInside(v, i);
    assert CutScalar(v, i);
    hide TextAt, SingleAt, BadCut, ScalarAt, ScalarTruncated, SingleFrom, Stuck, CutScalar, Skip, FillScalar;
    forall s | CutOf(v, s)
      ensures !BadCut(s, 0, |v|) && TextAt(s) == SingleAt(s, i)
    {
      SingleText(v, s, i);
      ShortScalar(v, s, i);
      PassedBad(s, 0, i, |v|);
    }
    assert CutOf(v, v);
    SingleEnds(v, i);
    if Stuck(v, i) {
      forall s | CutOf(v, s)
        ensures TextAt(s).Err?
      {
        ScalarHopeless(v, s, i);
        SingleEnds(s, i);
      }
    } else {
      SingleCompletes(v, i);
    }
  }

  /** Nothing but spaces yet. */
  lemma SpacesPending(v: seq<byte>, mode: Mode, cur: nat)
    requires Skip(v, 0) >= |v| && Skip(v, cur) >= |v|
    ensures Pending(v, mode, cur)
  {
    var s := v + NULL;
    assert CutOf(v, s);
    SpacesThenNull(v);
    NothingYet(v);
    hide TextAt, BadCut, Skip, Stuck;
    forall s | CutOf(v, s)
      ensures !BadCut(s, 0, |v|)
    {
      SkipCut(v, s, 0);
      NothingCut(s, 0, |v|);
      NoCutNoBad(s, 0, |v|);
    }
    assert !Stuck(v, Skip(v, cur)) by {
      NotStuckBeyond(v, Skip(v, cur));
    }
  }

  lemma NotStuckBeyond(v: seq<byte>, i: nat)
    requires i >= |v|
    ensures !Stuck(v, i)
  {
  }

  lemma NothingYet(v: seq<byte>)
    requires Skip(v, 0) >= |v|
    ensures TextAt(v).Err?
  {
    assert At(v, Skip(v, 0)) == 0;
  }

  lemma SpacesThenNull(v: seq<byte>)
    requires Skip(v, 0) >= |v|
    ensures TextAt(v + NULL).Ok?
  {
    var s := v + NULL;
    BehindHeld(v, NULL);
    NullReads(s, |v|);
    assert CutOf(v, s);
    SkipCut(v, s, 0);
    SkipsThere(s, |v|);
    EndOfText(s, |s|);
    SingleEnds(s, |v|);
    FirstHeld(s, |v|, NULL);
    hide ScalarAt, SingleAt, Skip, Holds;
  }

  lemma {:induction false} SkipsFrom(s: seq<byte>, i: nat, j: nat)
    requires i <= j && (forall k | i <= k < j :: IsSpace(At(s, k))) && !IsSpace(At(s, j))
    ensures Skip(s, i) == j
    decreases j - i
  {
    if i < j {
      SkipsFrom(s, i + 1, j);
    }
  }

  lemma SkipsThere(s: seq<byte>, j: nat)
    requires (forall k | 0 <= k < j :: IsSpace(At(s, k))) && !IsSpace(At(s, j))
    ensures Skip(s, 0) == j
  {
    SkipsFrom(s, 0, j);
  }
}
