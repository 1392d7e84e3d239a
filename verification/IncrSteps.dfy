/**
  The steps of the incremental reader on the bytes it has, and what each means for every text that begins
  with them.
 */
module IncrSteps {
  import opened Bytes
  import opened JsonTree
  import opened JsonGrammar
  import opened JsonTape
  import opened JsonString
  import opened JsonTruncation
  import opened NumberText
  import opened NumberTruncation
  import opened JsonCuts
  import opened JsonReader
  import opened ScalarCompletion
  import opened JsonCompletion

  /** The bytes before `j`, and the one there. */
  function Upto(v: seq<byte>, j: nat): seq<byte>
    requires j <= |v|
  {
    v[..if j < |v| then j + 1 else j]
  }

  /** Whatever follows, the document read from `i` is the one read from `j`. */
  ghost predicate Leads(v: seq<byte>, mode: Mode, st: Stack, i: nat, next: Mode, there: Stack, j: nat) {
    && ModeFits(mode, st) && ModeFits(next, there) && i <= j <= |v|
    && forall s | CutOf(Upto(v, j), s) :: Outcome(mode, st, s, i) == Outcome(next, there, s, j) && Passed(s, i, j)
  }

  /** Whatever follows, the document is `t`, and ends at `j`. */
  ghost predicate Finishes(v: seq<byte>, mode: Mode, st: Stack, i: nat, t: Json, j: nat) {
    && ModeFits(mode, st) && i <= j <= |v|
    && forall s | CutOf(Upto(v, j), s) :: Outcome(mode, st, s, i) == Ok(t, j) && Passed(s, i, j)
  }

  /** A value, or a key, that is cut where the reader takes one, and is past help. */
  predicate StuckAt(mode: Mode, v: seq<byte>, i: nat) {
    Stuck(v, i) && (TakesValue(mode) || (mode.KeyBegin? && v[i] == QUOTE))
  }

  /** Whatever follows, there is no document, unless the bytes end at a bad cut; and no value is cut and past help. */
  ghost predicate Dead(v: seq<byte>, mode: Mode, st: Stack, i: nat) {
    && ModeFits(mode, st) && i <= |v|
    && (forall s | CutOf(v, s) :: Outcome(mode, st, s, i).Err? || BadCut(s, i, |v|))
    && !StuckAt(mode, v, Skip(v, i))
  }

  /** No document yet and no bad cut; something can follow that makes one if and only if the value cut is not stuck. */
  ghost predicate Stays(v: seq<byte>, mode: Mode, st: Stack, i: nat) {
    && ModeFits(mode, st) && i <= |v|
    && Outcome(mode, st, v, i).Err?
    && (forall s | CutOf(v, s) :: !BadCut(s, i, |v|))
    && if StuckAt(mode, v, Skip(v, i)) then forall s | CutOf(v, s) :: Outcome(mode, st, s, i).Err?
       else exists s :: CutOf(v, s) && Ends(Outcome(mode, st, s, i), s)
  }

  lemma UptoCut(v: seq<byte>, s: seq<byte>, i: nat, j: nat)
    requires i <= j <= |v| && CutOf(Upto(v, j), s)
    ensures CutOf(Upto(v, i), s) && j <= |s|
  {
    assert Upto(v, i) == Upto(v, j)[..|Upto(v, i)|];
  }

  lemma AllUpto(v: seq<byte>, s: seq<byte>, j: nat)
    requires j <= |v| && CutOf(v, s)
    ensures CutOf(Upto(v, j), s)
  {
    assert Upto(v, j) == v[..|Upto(v, j)|];
  }

  lemma LeadsTrans(v: seq<byte>, mode: Mode, st: Stack, i: nat, m: Mode, mid: Stack, j: nat, next: Mode, there: Stack, k: nat)
    requires Leads(v, mode, st, i, m, mid, j) && Leads(v, m, mid, j, next, there, k)
    ensures Leads(v, mode, st, i, next, there, k)
  {
    hide Outcome, Passed, ModeFits;
    forall s | CutOf(Upto(v, k), s)
      ensures Outcome(mode, st, s, i) == Outcome(next, there, s, k) && Passed(s, i, k)
    {
      UptoCut(v, s, j, k);
      PassedTrans(s, i, j, k);
    }
  }

  lemma LeadsFinishes(v: seq<byte>, mode: Mode, st: Stack, i: nat, m: Mode, mid: Stack, j: nat, t: Json, k: nat)
    requires Leads(v, mode, st, i, m, mid, j) && Finishes(v, m, mid, j, t, k)
    ensures Finishes(v, mode, st, i, t, k)
  {
    hide Outcome, Passed, ModeFits;
    forall s | CutOf(Upto(v, k), s)
      ensures Outcome(mode, st, s, i) == Ok(t, k) && Passed(s, i, k)
    {
      UptoCut(v, s, j, k);
      PassedTrans(s, i, j, k);
    }
  }

  lemma LeadsDead(v: seq<byte>, mode: Mode, st: Stack, i: nat, mid: Stack, j: nat)
    requires Leads(v, mode, st, i, mode, mid, j) && Dead(v, mode, mid, j) && Skip(v, i) == Skip(v, j)
    ensures Dead(v, mode, st, i)
  {
    hide Outcome, Passed, ModeFits, BadCut, StuckAt, Skip;
    forall s | CutOf(v, s)
      ensures Outcome(mode, st, s, i).Err? || BadCut(s, i, |v|)
    {
      AllUpto(v, s, j);
      PassedBad(s, i, j, |v|);
    }
  }

  lemma LeadsStays(v: seq<byte>, mode: Mode, st: Stack, i: nat, mid: Stack, j: nat)
    requires Leads(v, mode, st, i, mode, mid, j) && Stays(v, mode, mid, j) && Skip(v, i) == Skip(v, j)
    ensures Stays(v, mode, st, i)
  {
    hide Outcome, Passed, ModeFits, BadCut, StuckAt, Skip, Ends;
    forall s | CutOf(v, s)
      ensures Outcome(mode, st, s, i) == Outcome(mode, mid, s, j) && BadCut(s, i, |v|) == BadCut(s, j, |v|)
    {
      AllUpto(v, s, j);
      PassedBad(s, i, j, |v|);
    }
    assert CutOf(v, v);
  }

  // ---------------------------------------------------------------------------------------
  // Steps that go on
  // ---------------------------------------------------------------------------------------

  lemma UptoAt(v: seq<byte>, s: seq<byte>, i: nat, j: nat)
    requires i <= j <= |v| && i < |v| && CutOf(Upto(v, j), s) && (i < j || j < |v|)
    ensures At(s, i) == At(v, i) && i < |s|
  {
    AtCut(Upto(v, j), s, i);
  }

  lemma SpaceLeads(v: seq<byte>, mode: Mode, st: Stack, i: nat)
    requires ModeFits(mode, st) && i < |v| && IsSpace(At(v, i))
    ensures Leads(v, mode, st, i, mode, st, i + 1)
  {
    hide Outcome, ModeFits, Passed;
    forall s | CutOf(Upto(v, i + 1), s)
      ensures Outcome(mode, st, s, i) == Outcome(mode, st, s, i + 1) && Passed(s, i, i + 1)
    {
      UptoAt(v, s, i, i + 1);
      SpaceStep(mode, st, s, i);
      PassedByte(s, i);
    }
  }

  lemma NowhereLeads(v: seq<byte>, mode: Mode, st: Stack, i: nat)
    requires ModeFits(mode, st) && i <= |v|
    ensures Leads(v, mode, st, i, mode, st, i)
  {
    hide Outcome, ModeFits, CutNumber;
    forall s | CutOf(Upto(v, i), s)
      ensures Passed(s, i, i)
    {
    }
  }

  lemma {:induction false} SpacesLead(v: seq<byte>, mode: Mode, st: Stack, i: nat)
    requires ModeFits(mode, st) && i <= |v|
    ensures Leads(v, mode, st, i, mode, st, Skip(v, i)) && Skip(v, Skip(v, i)) == Skip(v, i)
    decreases |v| - i
  {
    NoSpace(v, Skip(v, i));
    hide Leads, ModeFits;
    if IsSpace(At(v, i)) {
      SpaceLeads(v, mode, st, i);
      SpacesLead(v, mode, st, i + 1);
      LeadsTrans(v, mode, st, i, mode, st, i + 1, mode, st, Skip(v, i));
    } else {
      NowhereLeads(v, mode, st, i);
    }
  }

  lemma OpenLeads(v: seq<byte>, mode: Mode, st: Stack, i: nat, obj: bool)
    requires ModeFits(mode, st) && TakesValue(mode) && i < |v| && At(v, i) == Open(obj)
    ensures Leads(v, mode, st, i, Inside(obj), Frame(obj, [], st), i + 1)
  {
    hide Outcome, Passed;
    var there := Frame(obj, [], st);
    forall s | CutOf(Upto(v, i + 1), s)
      ensures Outcome(mode, st, s, i) == Outcome(Inside(obj), there, s, i + 1) && Passed(s, i, i + 1)
    {
      UptoAt(v, s, i, i + 1);
      OpenStep(mode, st, s, i, obj);
      PassedByte(s, i);
    }
  }

  /** A value that the bytes hold, and one more if it is a number. */
  lemma ScalarHere(v: seq<byte>, s: seq<byte>, i: nat)
    requires i < |v| && ScalarAt(v, i).Some? && (StartsNumber(At(v, i)) ==> ScalarAt(v, i).value.1 < |v|)
    requires CutOf(Upto(v, ScalarAt(v, i).value.1), s)
    ensures ScalarAt(s, i) == ScalarAt(v, i) && At(s, i) == At(v, i)
  {
    var e := ScalarAt(v, i).value.1;
    var w := Upto(v, e);
    UptoAt(v, s, i, e);
    AtCut(w, v, i);
    ScalarSeen(w, v, i);
    hide ScalarAt;
    ScalarCut(w, s, i);
  }

  lemma WordSeen(v: seq<byte>, s: seq<byte>, i: nat, word: seq<byte>)
    requires CutOf(v, s) && Holds(s, i, word) && i + |word| <= |v|
    ensures Holds(v, i, word)
  {
    assert v[i..i + |word|] == s[i..i + |word|];
  }

  lemma ScalarSeen(v: seq<byte>, s: seq<byte>, i: nat)
    requires CutOf(v, s) && i < |v| && ScalarAt(s, i).Some? && ScalarAt(s, i).value.1 <= |v|
    ensures ScalarAt(v, i) == ScalarAt(s, i)
  {
    AtCut(v, s, i);
    hide NumberAt, KeyAt, Holds;
    if StartsNumber(At(s, i)) {
      NumberSeen(v, s, i);
    } else if At(s, i) == QUOTE {
      KeySeen(v, s, i);
    } else if At(s, i) == TRUE[0] {
      WordSeen(v, s, i, TRUE);
    } else if At(s, i) == FALSE[0] {
      WordSeen(v, s, i, FALSE);
    } else {
      WordSeen(v, s, i, NULL);
    }
  }

  lemma ScalarLeads(v: seq<byte>, mode: Mode, st: Stack, i: nat)
    requires ModeFits(mode, st) && TakesValue(mode) && i < |v| && !IsSpace(At(v, i)) && ScalarAt(v, i).Some?
    requires StartsNumber(At(v, i)) ==> ScalarAt(v, i).value.1 < |v|
    ensures var (a, e) := ScalarAt(v, i).value; Leads(v, mode, st, i, ValEnd, Grown(st, Leaf(a)), e)
  {
    hide Outcome, Passed, ScalarAt;
    var (a, e) := ScalarAt(v, i).value;
    var there := Grown(st, Leaf(a));
    forall s | CutOf(Upto(v, e), s)
      ensures Outcome(mode, st, s, i) == Outcome(ValEnd, there, s, e) && Passed(s, i, e)
    {
      ScalarHere(v, s, i);
      ScalarStep(mode, st, s, i);
      PassedScalar(s, i);
    }
  }

  lemma KeyIsScalar(s: seq<byte>, i: nat)
    requires At(s, i) == QUOTE
    ensures ScalarAt(s, i) == KeyAt(s, i)
  {
  }

  lemma KeyLeads(v: seq<byte>, st: Stack, i: nat)
    requires ModeFits(KeyBegin, st) && i < |v| && KeyAt(v, i).Some?
    ensures var (k, e) := KeyAt(v, i).value; Leads(v, KeyBegin, st, i, KeyEnd, Grown(st, Leaf(k)), e)
  {
    KeyIsScalar(v, i);
    hide Outcome, Passed, ScalarAt;
    var (k, e) := KeyAt(v, i).value;
    var there := Grown(st, Leaf(k));
    hide KeyAt;
    forall s | CutOf(Upto(v, e), s)
      ensures Outcome(KeyBegin, st, s, i) == Outcome(KeyEnd, there, s, e) && Passed(s, i, e)
    {
      ScalarHere(v, s, i);
      KeyIsScalar(s, i);
      KeyStep(st, s, i);
      PassedKey(s, i);
    }
  }

  lemma ColonLeads(v: seq<byte>, st: Stack, i: nat)
    requires ModeFits(KeyEnd, st) && i < |v| && At(v, i) == COLON
    ensures Leads(v, KeyEnd, st, i, PairBegin, st, i + 1)
  {
    hide Outcome, Passed;
    forall s | CutOf(Upto(v, i + 1), s)
      ensures Outcome(KeyEnd, st, s, i) == Outcome(PairBegin, st, s, i + 1) && Passed(s, i, i + 1)
    {
      UptoAt(v, s, i, i + 1);
      ColonStep(st, s, i);
      PassedByte(s, i);
    }
  }

  lemma CommaLeads(v: seq<byte>, st: Stack, i: nat)
    requires ModeFits(ValEnd, st) && i < |v| && At(v, i) == COMMA
    ensures Leads(v, ValEnd, st, i, Inside(st.obj), st, i + 1)
  {
    hide Outcome, Passed;
    forall s | CutOf(Upto(v, i + 1), s)
      ensures Outcome(ValEnd, st, s, i) == Outcome(Inside(st.obj), st, s, i + 1) && Passed(s, i, i + 1)
    {
      UptoAt(v, s, i, i + 1);
      CommaStep(st, s, i);
      PassedByte(s, i);
    }
  }

  predicate Closes(v: seq<byte>, mode: Mode, st: Stack, i: nat) {
    && ModeFits(mode, st) && i < |v| && v[i] == Close(st.obj)
    && (mode.ValEnd? || ((mode.ValBegin? || mode.KeyBegin?) && st.kids == []))
  }

  lemma CloseLeads(v: seq<byte>, mode: Mode, st: Stack, i: nat)
    requires Closes(v, mode, st, i)
    ensures st.below.Frame? ==> Leads(v, mode, st, i, ValEnd, Grown(st.below, ValueOf(st)), i + 1)
    ensures st.below.Bottom? ==> Finishes(v, mode, st, i, ValueOf(st), i + 1)
  {
    hide Outcome, Passed, Plug;
    var there := if st.below.Frame? then Grown(st.below, ValueOf(st)) else st;
    forall s | CutOf(Upto(v, i + 1), s)
      ensures st.below.Frame? ==> Outcome(mode, st, s, i) == Outcome(ValEnd, there, s, i + 1)
      ensures st.below.Bottom? ==> Outcome(mode, st, s, i) == Ok(ValueOf(st), i + 1)
      ensures Passed(s, i, i + 1)
    {
      UptoAt(v, s, i, i + 1);
      CloseStep(mode, st, s, i);
      CloseOutcome(st, s, i + 1);
      PassedByte(s, i);
    }
  }

  // ---------------------------------------------------------------------------------------
  // Steps that fail
  // ---------------------------------------------------------------------------------------

  /** No value begins here, and no bracket stands here that could. */
  ghost predicate NoValue(v: seq<byte>, mode: Mode, st: Stack, i: nat) {
    && ModeFits(mode, st) && TakesValue(mode) && i < |v| && !IsSpace(v[i])
    && v[i] != Open(true) && v[i] != Open(false) && !Closes(v, mode, st, i) && ScalarAt(v, i).None?
  }

  lemma NotStuck(v: seq<byte>, i: nat)
    requires !IsSpace(At(v, i)) && !ScalarTruncated(v, i)
    ensures Skip(v, i) == i && !Stuck(v, i)
  {
    NoSpace(v, i);
    hide Skip, Stuck, ScalarTruncated;
    if Stuck(v, i) {
      StuckIsCut(v, i);
    }
  }

  lemma ValueDead(v: seq<byte>, mode: Mode, st: Stack, i: nat)
    requires NoValue(v, mode, st, i) && !ScalarTruncated(v, i)
    ensures Dead(v, mode, st, i)
  {
    NotStuck(v, i);
    hide Outcome, BadCut, ScalarAt, ScalarTruncated, Skip;
    forall s | CutOf(v, s)
      ensures Outcome(mode, st, s, i).Err? || BadCut(s, i, |v|)
    {
      AtCut(v, s, i);
      if ScalarAt(s, i).None? {
        ValueFails(mode, st, s, i);
      } else {
        OnlyBadCut(v, s, i);
      }
    }
  }

  lemma KeyDead(v: seq<byte>, st: Stack, i: nat)
    requires ModeFits(KeyBegin, st) && i < |v| && !IsSpace(v[i]) && KeyAt(v, i).None? && !Closes(v, KeyBegin, st, i)
    requires !(v[i] == QUOTE && ScalarTruncated(v, i))
    ensures Dead(v, KeyBegin, st, i)
  {
    if v[i] == QUOTE {
      NotStuck(v, i);
    }
    NoSpace(v, i);
    hide Outcome, BadCut, KeyAt, ScalarTruncated, Skip, Stuck;
    forall s | CutOf(v, s)
      ensures Outcome(KeyBegin, st, s, i).Err?
    {
      AtCut(v, s, i);
      KeyCut(v, s, i);
      KeyQuoted(s, i);
      KeyFails(st, s, i);
    }
  }

  lemma KeyQuoted(s: seq<byte>, i: nat)
    ensures KeyAt(s, i).Some? ==> At(s, i) == QUOTE
  {
  }

  lemma ColonDead(v: seq<byte>, st: Stack, i: nat)
    requires ModeFits(KeyEnd, st) && i < |v| && !IsSpace(v[i]) && v[i] != COLON
    ensures Dead(v, KeyEnd, st, i)
  {
    hide Outcome, BadCut;
    forall s | CutOf(v, s)
      ensures Outcome(KeyEnd, st, s, i).Err?
    {
      AtCut(v, s, i);
      ColonStep(st, s, i);
    }
  }

  lemma EndDead(v: seq<byte>, st: Stack, i: nat)
    requires ModeFits(ValEnd, st) && i < |v| && !IsSpace(v[i]) && v[i] != COMMA && v[i] != Close(st.obj)
    ensures Dead(v, ValEnd, st, i)
  {
    hide Outcome, BadCut;
    forall s | CutOf(v, s)
      ensures Outcome(ValEnd, st, s, i).Err?
    {
      AtCut(v, s, i);
      CommaStep(st, s, i);
    }
  }

  // ---------------------------------------------------------------------------------------
  // Steps that wait
  // ---------------------------------------------------------------------------------------

  lemma RestFails(obj: bool, s: seq<byte>)
    ensures RestAt(obj, s, |s|).Err? && PairValueAt(obj, s, |s|).Err? && AfterKeyAt(s, |s|).Err?
    ensures ElementAt(obj, s, |s|).Err?
  {
    EndOfText(s, |s|);
    hide Skip;
    assert At(s, |s|) == 0;
  }

  lemma EndFails(mode: Mode, st: Stack, s: seq<byte>)
    requires ModeFits(mode, st)
    ensures Outcome(mode, st, s, |s|).Err?
  {
    EndOfText(s, |s|);
    hide Skip;
    assert At(s, |s|) == 0;
    RestFails(st.obj, s);
    if mode.ValBegin? || mode.KeyBegin? {
      assert FirstAt(st.obj, s, |s|) == ElementAt(st.obj, s, |s|);
    }
  }

  lemma NoCutAtEnd(s: seq<byte>, len: nat)
    requires len <= |s|
    ensures !BadCut(s, len, len)
  {
  }

  /** At a label, with nothing left. */
  lemma LabelStays(v: seq<byte>, mode: Mode, st: Stack)
    requires ModeFits(mode, st)
    ensures Stays(v, mode, st, |v|)
  {
    var s := v + Ending(mode, st);
    BehindHeld(v, Ending(mode, st));
    EndingEnds(mode, st, s, |v|);
    EndFails(mode, st, v);
    EndOfText(v, |v|);
    hide Outcome, ModeFits, BadCut, Ending, Ends, Skip;
    forall s | CutOf(v, s)
      ensures !BadCut(s, |v|, |v|)
    {
      NoCutAtEnd(s, |v|);
    }
  }

  /** A number up to the very end cannot be followed by anything. */
  lemma LastNumber(mode: Mode, st: Stack, s: seq<byte>, i: nat)
    requires ModeFits(mode, st) && TakesValue(mode) && i <= |s| && !IsSpace(At(s, i))
    requires ScalarAt(s, i).Some? && ScalarAt(s, i).value.1 == |s|
    ensures Outcome(mode, st, s, i).Err?
  {
    ScalarStep(mode, st, s, i);
    var a := ScalarAt(s, i).value.0;
    hide ScalarAt, Outcome;
    EndFails(ValEnd, Grown(st, Leaf(a)), s);
  }

  lemma CutNoBracket(v: seq<byte>, i: nat)
    requires CutScalar(v, i)
    ensures i < |v| && !IsSpace(v[i]) && v[i] != Open(true) && v[i] != Open(false) && v[i] != Close(true) && v[i] != Close(false)
  {
    hide NumberAt, KeyAt, NumberError, StringAt, StringTruncated, TruncatedLiteral;
  }

  lemma CutNotWhole(v: seq<byte>, mode: Mode, st: Stack, i: nat)
    requires ModeFits(mode, st) && TakesValue(mode) && CutScalar(v, i)
    ensures Outcome(mode, st, v, i).Err?
  {
    CutNoBracket(v, i);
    hide Outcome, ScalarAt, ScalarTruncated;
    if ScalarAt(v, i).Some? {
      LastNumber(mode, st, v, i);
    } else {
      ValueFails(mode, st, v, i);
    }
  }

  /** In the middle of a value, or behind a number. */
  lemma ScalarStays(v: seq<byte>, mode: Mode, st: Stack, i: nat)
    requires ModeFits(mode, st) && TakesValue(mode) && CutScalar(v, i)
    ensures Stays(v, mode, st, i)
  {
    CutNoBracket(v, i);
    CutNotWhole(v, mode, st, i);
    NoSpace(v, i);
    forall s | CutOf(v, s)
      ensures !BadCut(s, i, |v|)
    {
      ShortScalar(v, s, i);
    }
    hide Outcome, BadCut, ScalarAt, ScalarTruncated, Stuck, Skip, CutScalar, Ends;
    if Stuck(v, i) {
      StuckFails(v, mode, st, i);
    } else {
      ScalarEnds(mode, st, v, i);
    }
  }

  lemma StuckFails(v: seq<byte>, mode: Mode, st: Stack, i: nat)
    requires ModeFits(mode, st) && TakesValue(mode) && CutScalar(v, i) && Stuck(v, i)
    ensures forall s | CutOf(v, s) :: Outcome(mode, st, s, i).Err?
  {
    CutNoBracket(v, i);
    hide Outcome, ScalarAt, KeyAt, Stuck, CutScalar;
    forall s | CutOf(v, s)
      ensures Outcome(mode, st, s, i).Err?
    {
      AtCut(v, s, i);
      ScalarHopeless(v, s, i);
      ValueFails(mode, st, s, i);
    }
  }

  /** In the middle of a key. */
  lemma KeyStays(v: seq<byte>, st: Stack, i: nat)
    requires ModeFits(KeyBegin, st) && i < |v| && v[i] == QUOTE && KeyAt(v, i).None? && ScalarTruncated(v, i)
    ensures Stays(v, KeyBegin, st, i)
  {
    NoSpace(v, i);
    hide Outcome, BadCut, KeyAt, ScalarTruncated, Stuck, Skip, Ends;
    KeyFails(st, v, i);
    forall s | CutOf(v, s)
      ensures !BadCut(s, i, |v|)
    {
      ShortKey(v, s, i);
    }
    if Stuck(v, i) {
      forall s | CutOf(v, s)
        ensures Outcome(KeyBegin, st, s, i).Err?
      {
        AtCut(v, s, i);
        ScalarHopeless(v, s, i);
        KeyFails(st, s, i);
      }
    } else {
      KeyEnds(st, v, i);
    }
  }
}
