/** Where a text may be cut: the number a cut falls in, and which cuts the incremental reader cannot take. */
module JsonCuts {
  import opened Bytes
  import opened Word64
  import opened IntegerReader
  import opened JsonString
  import opened JsonTree
  import opened JsonGrammar
  import opened NumberText
  import opened NumberPlace
  import opened NumberTruncation
  import opened JsonTruncation

  /** The number that a cut after `len` bytes falls in, going from `p` over strings and numbers whole. */
  ghost function CutNumber(s: seq<byte>, p: nat, len: nat): (c: Option<nat>)
    ensures c.Some? ==> p <= c.value < len
    decreases |s| - p
  {
    if p >= len || p >= |s| then None
    else if StartsNumber(At(s, p)) then
      match NumberAt(s, p)
      case None => None
      case Some(r) => if len < r.1 then Some(p) else CutNumber(s, r.1, len)
    else if At(s, p) == QUOTE then
      match KeyAt(s, p)
      case None => None
      case Some(r) => CutNumber(s, r.1, len)
    else CutNumber(s, p + 1, len)
  }

  /** The part before the cut is itself a whole number, and one that the reader refuses. */
  ghost predicate BadCut(s: seq<byte>, p: nat, len: nat)
    requires len <= |s|
  {
    var c := CutNumber(s, p, len);
    c.Some? && Refused(s[..len], c.value)
  }

  // What lies between two positions holds no cut beyond it.

  ghost predicate Passed(s: seq<byte>, p: nat, q: nat) {
    p <= q && forall len | q <= len <= |s| :: CutNumber(s, p, len) == CutNumber(s, q, len)
  }

  lemma PassedTrans(s: seq<byte>, p: nat, q: nat, r: nat)
    requires Passed(s, p, q) && Passed(s, q, r)
    ensures Passed(s, p, r)
  {
    hide CutNumber;
    forall len | r <= len <= |s| ensures CutNumber(s, p, len) == CutNumber(s, r, len) {
      assert CutNumber(s, q, len) == CutNumber(s, r, len);
    }
  }

  lemma PassedBad(s: seq<byte>, p: nat, q: nat, len: nat)
    requires Passed(s, p, q) && q <= len <= |s|
    ensures BadCut(s, p, len) == BadCut(s, q, len)
  {
    hide CutNumber, Refused;
  }

  /** A byte that begins neither a number nor a string. */
  predicate Plain(b: byte) {
    !StartsNumber(b) && b != QUOTE
  }

  lemma PassedByte(s: seq<byte>, p: nat)
    requires p < |s| && Plain(At(s, p))
    ensures Passed(s, p, p + 1)
  {
  }

  lemma {:induction false} PassedPlain(s: seq<byte>, p: nat, q: nat)
    requires p <= q <= |s| && forall k | p <= k < q :: Plain(At(s, k))
    ensures Passed(s, p, q)
    decreases q - p
  {
    if p < q {
      PassedByte(s, p);
      PassedPlain(s, p + 1, q);
      PassedTrans(s, p, p + 1, q);
    }
  }

  lemma NothingCut(s: seq<byte>, p: nat, len: nat)
    requires len <= |s| && forall k | p <= k < len :: Plain(At(s, k))
    ensures CutNumber(s, p, len) == None
  {
    if p < len {
      PassedPlain(s, p, len);
      assert CutNumber(s, p, len) == CutNumber(s, len, len);
    }
  }

  lemma PassedKey(s: seq<byte>, p: nat)
    requires KeyAt(s, p).Some?
    ensures Passed(s, p, KeyAt(s, p).value.1)
  {
    assert At(s, p) == QUOTE && p < |s|;
    hide KeyAt, NumberAt;
  }

  lemma PassedWord(s: seq<byte>, p: nat, w: seq<byte>)
    requires Holds(s, p, w) && forall k | 0 <= k < |w| :: Plain(w[k])
    ensures Passed(s, p, p + |w|)
  {
    forall k | p <= k < p + |w| ensures Plain(At(s, k)) {
      assert s[p..p + |w|][k - p] == s[k];
    }
    PassedPlain(s, p, p + |w|);
  }

  lemma PassedScalar(s: seq<byte>, p: nat)
    requires ScalarAt(s, p).Some?
    ensures Passed(s, p, ScalarAt(s, p).value.1)
  {
    hide NumberAt, KeyAt, Passed;
    if StartsNumber(At(s, p)) {
      PassedNumber(s, p);
    } else if At(s, p) == QUOTE {
      PassedKey(s, p);
    } else if At(s, p) == TRUE[0] {
      PassedWord(s, p, TRUE);
    } else if At(s, p) == FALSE[0] {
      PassedWord(s, p, FALSE);
    } else {
      PassedWord(s, p, NULL);
    }
  }

  lemma PassedNumber(s: seq<byte>, p: nat)
    requires StartsNumber(At(s, p)) && NumberAt(s, p).Some?
    ensures Passed(s, p, NumberAt(s, p).value.1)
  {
    assert p < |s|;
    hide NumberAt, KeyAt;
  }

  // What a prefix that asks for more says of its cut.

  lemma ShortNumber(v: seq<byte>, s: seq<byte>, i: nat)
    requires CutOf(v, s) && i < |v| && StartsNumber(At(v, i)) && !Refused(v, i)
    requires NumberAt(v, i).Some? ==> NumberAt(v, i).value.1 >= |v|
    ensures !BadCut(s, i, |v|)
  {
    AtCut(v, s, i);
    if NumberAt(s, i).Some? && NumberAt(s, i).value.1 <= |v| {
      NumberSeen(v, s, i);
    }
    hide NumberAt, Refused, KeyAt;
  }

  lemma ShortKey(v: seq<byte>, s: seq<byte>, i: nat)
    requires CutOf(v, s) && i < |v| && At(v, i) == QUOTE && KeyAt(v, i).None?
    ensures !BadCut(s, i, |v|)
  {
    AtCut(v, s, i);
    if KeyAt(s, i).Some? && KeyAt(s, i).value.1 <= |v| {
      KeySeen(v, s, i);
    }
    hide NumberAt, Refused, KeyAt;
  }

  lemma ShortWord(v: seq<byte>, s: seq<byte>, i: nat, word: seq<byte>)
    requires CutOf(v, s) && TruncatedWord(v, i, word) && forall k | 0 <= k < |word| :: Plain(word[k])
    ensures !BadCut(s, i, |v|)
  {
    forall k | i <= k < |v| ensures Plain(At(s, k)) {
      AtCut(v, s, k);
      assert v[i..][k - i] == word[..|v| - i][k - i];
    }
    NothingCut(s, i, |v|);
  }

  /** A value that the prefix cuts short is at no bad cut. */
  lemma ShortScalar(v: seq<byte>, s: seq<byte>, i: nat)
    requires CutOf(v, s) && i < |v|
    requires if ScalarAt(v, i).Some? then StartsNumber(At(v, i)) && ScalarAt(v, i).value.1 >= |v| else ScalarTruncated(v, i)
    ensures !BadCut(s, i, |v|)
  {
    hide BadCut, NumberAt, KeyAt;
    if StartsNumber(At(v, i)) {
      if NumberAt(v, i).Some? {
        NumberEndOf(v, i);
      }
      ShortNumber(v, s, i);
    } else if At(v, i) == QUOTE {
      ShortKey(v, s, i);
    } else if TruncatedWord(v, i, TRUE) {
      ShortWord(v, s, i, TRUE);
    } else if TruncatedWord(v, i, FALSE) {
      ShortWord(v, s, i, FALSE);
    } else {
      ShortWord(v, s, i, NULL);
    }
  }

  /** A value that only the prefix lacks, and that is not cut short, is a number at a bad cut. */
  lemma OnlyBadCut(v: seq<byte>, s: seq<byte>, i: nat)
    requires CutOf(v, s) && i < |v| && ScalarAt(v, i).None? && !ScalarTruncated(v, i) && ScalarAt(s, i).Some?
    ensures BadCut(s, i, |v|)
  {
    ScalarCut(v, s, i);
    AtCut(v, s, i);
    if NumberAt(s, i).value.1 <= |v| {
      NumberSeen(v, s, i);
    }
    hide NumberAt, Refused, KeyAt, ScalarTruncated;
  }

  // Documents without real numbers can be cut anywhere.

  predicate WithoutReals(j: Json) {
    match j
    case Leaf(a) => !a.Real?
    case Node(_, kids) => NoneReal(kids)
  }

  predicate NoneReal(f: Forest) {
    match f
    case Nil => true
    case Cons(h, t) => WithoutReals(h) && NoneReal(t)
  }

  /** From `p` to `q`, and no bad cut on the way. */
  ghost predicate Clear(s: seq<byte>, p: nat, q: nat) {
    q <= |s| && Passed(s, p, q) && forall len | p <= len <= q :: !BadCut(s, p, len)
  }

  lemma ClearTrans(s: seq<byte>, p: nat, q: nat, r: nat)
    requires Clear(s, p, q) && Clear(s, q, r)
    ensures Clear(s, p, r)
  {
    PassedTrans(s, p, q, r);
    hide BadCut, CutNumber;
    forall len | p <= len <= r ensures !BadCut(s, p, len) {
      if q <= len {
        PassedBad(s, p, q, len);
      }
    }
  }

  lemma ClearPlain(s: seq<byte>, p: nat, q: nat)
    requires p <= q <= |s| && forall k | p <= k < q :: Plain(At(s, k))
    ensures Clear(s, p, q)
  {
    PassedPlain(s, p, q);
    forall len | p <= len <= q ensures !BadCut(s, p, len) {
      NothingCut(s, p, len);
    }
  }

  lemma {:induction false} ClearSpaces(s: seq<byte>, p: nat)
    requires p <= |s|
    ensures Clear(s, p, Skip(s, p))
    decreases |s| - p
  {
    hide Clear;
    if IsSpace(At(s, p)) {
      ClearPlain(s, p, p + 1);
      ClearSpaces(s, p + 1);
      ClearTrans(s, p, p + 1, Skip(s, p));
    } else {
      ClearPlain(s, p, p);
    }
  }

  /** A part of an integer that fits a word fits one. */
  lemma IntegerPart(v: seq<byte>, s: seq<byte>, i: nat)
    requires CutOf(v, s) && i < |v| && IntegerText(s, i) && FitsWord(s, i)
    ensures !Refused(v, i)
  {
    var q := i + Sign(s, i);
    SignCut(v, s, i);
    if q < |v| {
      RunEndCut(v, s, q);
      AtCut(v, s, q);
      PartFits(v, s, i, q);
      hide Refused, RunEnd;
      WordIsTaken(v, i);
    } else {
      AtCut(v, s, q);
    }
  }

  /** As far as it goes, it is an integer of a word. */
  lemma PartFits(v: seq<byte>, s: seq<byte>, i: nat, q: nat)
    requires CutOf(v, s) && i < |v| && IntegerText(s, i) && FitsWord(s, i)
    requires q == i + Sign(s, i) == i + Sign(v, i) < |v| && RunEnd(v, q) <= |v| && RunEnd(v, q) <= RunEnd(s, q)
    requires RunEnd(v, q) < |v| ==> RunEnd(s, q) == RunEnd(v, q)
    ensures IntegerText(v, i) && Magnitude(v, i) < WORD
  {
    hide RunEnd, IntegerReader.Spelled;
    var e := RunEnd(v, q);
    AtCut(v, s, q);
    AtCut(v, s, e);
    assert Holds(s, 0, v);
    SpelledHeld(v, s, 0, q, e);
    SpelledGrows(s, q, e, RunEnd(s, q));
  }

  lemma ClearNumber(s: seq<byte>, p: nat)
    requires StartsNumber(At(s, p)) && NumberAt(s, p).Some? && !NumberAt(s, p).value.0.Real?
    ensures Clear(s, p, NumberAt(s, p).value.1)
  {
    PassedNumber(s, p);
    var e := NumberAt(s, p).value.1;
    forall len | p <= len <= e ensures !BadCut(s, p, len) {
      if p < len {
        IntegerPart(s[..len], s, p);
      }
      hide NumberAt, Refused;
    }
    hide NumberAt, Passed, BadCut;
  }

  lemma ClearKey(s: seq<byte>, p: nat)
    requires KeyAt(s, p).Some?
    ensures Clear(s, p, KeyAt(s, p).value.1)
  {
    PassedKey(s, p);
    assert At(s, p) == QUOTE;
    hide KeyAt, NumberAt, Refused, Passed;
  }

  lemma ClearWord(s: seq<byte>, p: nat, w: seq<byte>)
    requires Holds(s, p, w) && forall k | 0 <= k < |w| :: Plain(w[k])
    ensures Clear(s, p, p + |w|)
  {
    forall k | p <= k < p + |w| ensures Plain(At(s, k)) {
      assert s[p..p + |w|][k - p] == s[k];
    }
    ClearPlain(s, p, p + |w|);
  }

  lemma ClearScalar(s: seq<byte>, p: nat)
    requires ScalarAt(s, p).Some? && !ScalarAt(s, p).value.0.Real?
    ensures Clear(s, p, ScalarAt(s, p).value.1)
  {
    hide NumberAt, KeyAt, Clear;
    if StartsNumber(At(s, p)) {
      ClearNumber(s, p);
    } else if At(s, p) == QUOTE {
      ClearKey(s, p);
    } else if At(s, p) == TRUE[0] {
      ClearWord(s, p, TRUE);
    } else if At(s, p) == FALSE[0] {
      ClearWord(s, p, FALSE);
    } else {
      ClearWord(s, p, NULL);
    }
  }

  lemma SkipThenByte(s: seq<byte>, p: nat)
    requires p <= |s| && Skip(s, p) < |s| && Plain(At(s, Skip(s, p)))
    ensures Clear(s, p, Skip(s, p) + 1)
  {
    var j := Skip(s, p);
    ClearSpaces(s, p);
    ClearPlain(s, j, j + 1);
    ClearTrans(s, p, j, j + 1);
    hide Clear, Skip;
  }

  lemma {:induction false} ClearContainer(obj: bool, s: seq<byte>, i: nat)
    requires i <= |s| && ContainerAt(obj, s, i).Ok? && WithoutReals(ContainerAt(obj, s, i).v)
    ensures Clear(s, i, ContainerAt(obj, s, i).end)
    decreases |s| - i, 3
  {
    hide Clear;
    if At(s, Skip(s, i)) == Close(obj) {
      SkipThenByte(s, i);
    } else {
      ClearElement(obj, s, i);
    }
  }

  lemma {:induction false} ClearElement(obj: bool, s: seq<byte>, i: nat)
    requires i <= |s| && ElementAt(obj, s, i).Ok? && NoneReal(ElementAt(obj, s, i).v)
    ensures Clear(s, i, ElementAt(obj, s, i).end)
    decreases |s| - i, 1
  {
    hide Clear, KeyAt, Skip;
    if obj {
      var j := Skip(s, i);
      var e := KeyAt(s, j).value.1;
      ClearSpaces(s, i);
      ClearKey(s, j);
      ClearTrans(s, i, j, e);
      var k := Skip(s, e);
      SkipThenByte(s, e);
      ClearTrans(s, i, e, k + 1);
      ClearPair(true, s, k + 1);
      ClearTrans(s, i, k + 1, ElementAt(obj, s, i).end);
    } else {
      ClearPair(false, s, i);
    }
  }

  lemma {:induction false} ClearPair(obj: bool, s: seq<byte>, i: nat)
    requires i <= |s| && PairValueAt(obj, s, i).Ok? && NoneReal(PairValueAt(obj, s, i).v)
    ensures Clear(s, i, PairValueAt(obj, s, i).end)
    decreases |s| - i, 0
  {
    hide Clear, ScalarAt, Skip;
    var j := Skip(s, i);
    var end := PairValueAt(obj, s, i).end;
    if At(s, j) == Open(true) || At(s, j) == Open(false) {
      var inner := ContainerAt(At(s, j) == Open(true), s, j + 1);
      SkipThenByte(s, i);
      ClearContainer(At(s, j) == Open(true), s, j + 1);
      ClearTrans(s, i, j + 1, inner.end);
      ClearRest(obj, s, inner.end);
      ClearTrans(s, i, inner.end, end);
    } else {
      var e := ScalarAt(s, j).value.1;
      ClearSpaces(s, i);
      ClearScalar(s, j);
      ClearTrans(s, i, j, e);
      ClearRest(obj, s, e);
      ClearTrans(s, i, e, end);
    }
  }

  lemma {:induction false} ClearRest(obj: bool, s: seq<byte>, i: nat)
    requires i <= |s| && RestAt(obj, s, i).Ok? && NoneReal(RestAt(obj, s, i).v)
    ensures Clear(s, i, RestAt(obj, s, i).end)
    decreases |s| - i, 4
  {
    hide Clear, Skip;
    var j := Skip(s, i);
    SkipThenByte(s, i);
    if At(s, j) == COMMA {
      ClearElement(obj, s, j + 1);
      ClearTrans(s, i, j + 1, RestAt(obj, s, i).end);
    }
  }

  /** No cut of a document without real numbers is bad. */
  lemma DocumentClear(s: seq<byte>, len: nat)
    requires var d := DocumentAt(s, Skip(s, 0)); d.Ok? && WithoutReals(d.v)
    requires len <= |s|
    ensures !BadCut(s, 0, len)
  {
    var i := Skip(s, 0);
    var obj := At(s, i) == Open(true);
    var e := ContainerAt(obj, s, i + 1).end;
    SkipThenByte(s, 0);
    ClearContainer(obj, s, i + 1);
    ClearTrans(s, 0, i + 1, e);
    ClearSpaces(s, e);
    ClearTrans(s, 0, e, |s|);
    hide Passed, BadCut, ContainerAt, Skip;
  }
}
