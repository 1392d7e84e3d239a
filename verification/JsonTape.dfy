/**
  The reader's state between two characters: the containers still open, what the rest of the text makes of
  them, and the tape that holds them, each open container pointing back at its parent.
 */
module JsonTape {
  import opened Bytes
  import opened JsonTree
  import opened JsonGrammar

  /** The open containers, innermost first, each with the children it has so far. */
  datatype Stack = Bottom | Frame(obj: bool, kids: seq<Json>, below: Stack)

  function Grown(st: Stack, v: Json): Stack
    requires st.Frame?
  {
    st.(kids := st.kids + [v])
  }

  /** The document, when `r` is what remains of the innermost container. */
  ghost function Plug(st: Stack, r: Parsed<Forest>, s: seq<byte>): Parsed<Json>
    requires st.Frame? && (r.Ok? ==> r.end <= |s|)
    decreases st
  {
    match r
    case Err => Err
    case Ok(f, e) =>
      var t := Node(st.obj, Attach(st.kids, f));
      if st.below.Bottom? then Ok(t, e)
      else
        assert st.below < st;
        Plug(st.below, Then(t, RestAt(st.below.obj, s, e)), s)
  }

  lemma PlugThen(st: Stack, v: Json, r: Parsed<Forest>, s: seq<byte>)
    requires st.Frame? && (r.Ok? ==> r.end <= |s|)
    ensures Plug(st, Then(v, r), s) == Plug(Grown(st, v), r, s)
  {
    if r.Ok? {
      AttachSnoc(st.kids, v, r.v);
    }
  }

  /** A container read, and what follows it in the one around it. */
  ghost function AfterContainer(st: Stack, r: Parsed<Json>, s: seq<byte>): (q: Parsed<Forest>)
    requires st.Frame? && (r.Ok? ==> r.end <= |s|)
    ensures q.Ok? ==> q.end <= |s|
  {
    match r
    case Err => Err
    case Ok(v, e) => Then(v, RestAt(st.obj, s, e))
  }

  /** A container and what follows it, or the container alone on top of the others. */
  lemma PlugOpen(st: Stack, obj: bool, s: seq<byte>, i: nat)
    requires st.Frame? && i <= |s|
    ensures Plug(Frame(obj, [], st), FirstAt(obj, s, i), s)
         == Plug(st, AfterContainer(st, ContainerAt(obj, s, i), s), s)
  {
    hide FirstAt, RestAt;
  }

  lemma PlugClose(st: Stack, s: seq<byte>, e: nat)
    requires st.Frame? && st.below.Frame? && e <= |s|
    ensures Plug(st, Ok(Nil, e), s)
         == Plug(Grown(st.below, Node(st.obj, Attach(st.kids, Nil))), RestAt(st.below.obj, s, e), s)
  {
    PlugThen(st.below, Node(st.obj, Attach(st.kids, Nil)), RestAt(st.below.obj, s, e), s);
  }

  datatype Mode = ValBegin | ValEnd | KeyBegin | KeyEnd | PairBegin

  predicate ModeFits(mode: Mode, st: Stack) {
    && st.Frame?
    && (mode.ValBegin? ==> !st.obj)
    && (mode.KeyBegin? || mode.KeyEnd? || mode.PairBegin? ==> st.obj)
    && (mode.ValEnd? || mode.KeyEnd? || mode.PairBegin? ==> st.kids != [])
  }

  /** What the text from `i` on holds for the innermost container, at each label of the reader. */
  ghost function Remainder(mode: Mode, st: Stack, s: seq<byte>, i: nat): (r: Parsed<Forest>)
    requires ModeFits(mode, st) && i <= |s|
    ensures r.Ok? ==> r.end <= |s|
  {
    match mode
    case ValBegin | KeyBegin => if st.kids == [] then FirstAt(st.obj, s, i) else ElementAt(st.obj, s, i)
    case ValEnd => RestAt(st.obj, s, i)
    case KeyEnd => AfterKeyAt(s, i)
    case PairBegin => PairValueAt(true, s, i)
  }

  lemma SpaceBeforeElement(obj: bool, s: seq<byte>, i: nat)
    requires i < |s| && IsSpace(At(s, i))
    ensures PairValueAt(obj, s, i) == PairValueAt(obj, s, i + 1)
    ensures ElementAt(obj, s, i) == ElementAt(obj, s, i + 1)
  {
    SkipOne(s, i);
  }

  lemma SpaceBeforeFirst(obj: bool, s: seq<byte>, i: nat)
    requires i < |s| && IsSpace(At(s, i))
    ensures FirstAt(obj, s, i) == FirstAt(obj, s, i + 1)
  {
    SkipOne(s, i);
    SpaceBeforeElement(obj, s, i);
    hide ElementAt, Skip;
  }

  lemma SpacePasses(mode: Mode, st: Stack, s: seq<byte>, i: nat)
    requires ModeFits(mode, st) && i <= |s| && IsSpace(At(s, i))
    ensures i < |s| && Remainder(mode, st, s, i) == Remainder(mode, st, s, i + 1)
  {
    SkipOne(s, i);
    SpaceBeforeFirst(st.obj, s, i);
    SpaceBeforeElement(st.obj, s, i);
    hide ElementAt, FirstAt, PairValueAt, Skip;
  }

  /** The document when the reader stands at `i`, at the given label. */
  ghost function Outcome(mode: Mode, st: Stack, s: seq<byte>, i: nat): Parsed<Json>
    requires ModeFits(mode, st) && i <= |s|
  {
    Plug(st, Remainder(mode, st, s, i), s)
  }

  lemma SpaceStep(mode: Mode, st: Stack, s: seq<byte>, i: nat)
    requires ModeFits(mode, st) && i <= |s| && IsSpace(At(s, i))
    ensures i < |s| && Outcome(mode, st, s, i) == Outcome(mode, st, s, i + 1)
  {
    SpacePasses(mode, st, s, i);
  }

  lemma NoSpace(s: seq<byte>, i: nat)
    requires !IsSpace(At(s, i))
    ensures Skip(s, i) == i
  {
  }

  predicate TakesValue(mode: Mode) {
    mode.ValBegin? || mode.PairBegin?
  }

  lemma ValueRemainder(mode: Mode, st: Stack, s: seq<byte>, i: nat)
    requires ModeFits(mode, st) && TakesValue(mode) && i <= |s| && !IsSpace(At(s, i))
    ensures mode.ValBegin? && st.kids == [] && At(s, i) == Close(false) ==>
              Remainder(mode, st, s, i) == Ok(Nil, i + 1)
    ensures !(mode.ValBegin? && st.kids == [] && At(s, i) == Close(false)) ==>
              Remainder(mode, st, s, i) == PairValueAt(st.obj, s, i)
  {
    NoSpace(s, i);
    assert ElementAt(false, s, i) == PairValueAt(false, s, i);
    hide PairValueAt, ElementAt;
  }

  lemma OpensAndScalars(s: seq<byte>, i: nat)
    ensures ScalarAt(s, i).Some? ==>
              At(s, i) != Open(true) && At(s, i) != Open(false) && At(s, i) != Close(true) && At(s, i) != Close(false)
  {
  }

  lemma ScalarStep(mode: Mode, st: Stack, s: seq<byte>, i: nat)
    requires ModeFits(mode, st) && TakesValue(mode) && i <= |s| && !IsSpace(At(s, i)) && ScalarAt(s, i).Some?
    ensures var (a, e) := ScalarAt(s, i).value;
            Outcome(mode, st, s, i) == Outcome(ValEnd, Grown(st, Leaf(a)), s, e)
  {
    var (a, e) := ScalarAt(s, i).value;
    OpensAndScalars(s, i);
    ValueRemainder(mode, st, s, i);
    NoSpace(s, i);
    assert PairValueAt(st.obj, s, i) == Then(Leaf(a), RestAt(st.obj, s, e));
    hide Remainder, PairValueAt, RestAt, ScalarAt, Plug, Skip;
    PlugThen(st, Leaf(a), RestAt(st.obj, s, e), s);
    EndRemainder(Grown(st, Leaf(a)), s, e);
  }

  lemma EndRemainder(st: Stack, s: seq<byte>, i: nat)
    requires st.Frame? && st.kids != [] && i <= |s|
    ensures Remainder(ValEnd, st, s, i) == RestAt(st.obj, s, i)
  {
  }

  function Inside(obj: bool): Mode {
    if obj then KeyBegin else ValBegin
  }

  lemma OpenStep(mode: Mode, st: Stack, s: seq<byte>, i: nat, obj: bool)
    requires ModeFits(mode, st) && TakesValue(mode) && i < |s| && At(s, i) == Open(obj)
    ensures Outcome(mode, st, s, i) == Outcome(Inside(obj), Frame(obj, [], st), s, i + 1)
  {
    ValueRemainder(mode, st, s, i);
    NoSpace(s, i);
    var c := ContainerAt(obj, s, i + 1);
    assert PairValueAt(st.obj, s, i) == AfterContainer(st, c, s);
    assert Remainder(Inside(obj), Frame(obj, [], st), s, i + 1) == FirstAt(obj, s, i + 1);
    hide Remainder, PairValueAt, RestAt, ContainerAt, FirstAt, Plug, Skip;
    PlugOpen(st, obj, s, i + 1);
  }

  lemma ValueFails(mode: Mode, st: Stack, s: seq<byte>, i: nat)
    requires ModeFits(mode, st) && TakesValue(mode) && i <= |s| && !IsSpace(At(s, i))
    requires At(s, i) != Open(true) && At(s, i) != Open(false) && ScalarAt(s, i).None?
    requires !(mode.ValBegin? && st.kids == [] && At(s, i) == Close(false))
    ensures Outcome(mode, st, s, i).Err?
  {
    ValueRemainder(mode, st, s, i);
    NoSpace(s, i);
    hide Remainder, ScalarAt, Skip;
  }

  /** The closing bracket, right after the opening one or after a value. */
  lemma CloseStep(mode: Mode, st: Stack, s: seq<byte>, i: nat)
    requires ModeFits(mode, st) && i <= |s| && At(s, i) == Close(st.obj)
    requires mode.ValEnd? || ((mode.ValBegin? || mode.KeyBegin?) && st.kids == [])
    ensures i < |s| && Outcome(mode, st, s, i) == Plug(st, Ok(Nil, i + 1), s)
  {
    NoSpace(s, i);
    hide Plug, Skip;
  }

  lemma KeyStep(st: Stack, s: seq<byte>, i: nat)
    requires ModeFits(KeyBegin, st) && i <= |s| && KeyAt(s, i).Some?
    ensures var (k, e) := KeyAt(s, i).value;
            Outcome(KeyBegin, st, s, i) == Outcome(KeyEnd, Grown(st, Leaf(k)), s, e)
  {
    var (k, e) := KeyAt(s, i).value;
    NoSpace(s, i);
    assert ElementAt(true, s, i) == Then(Leaf(k), AfterKeyAt(s, e));
    assert Remainder(KeyBegin, st, s, i) == ElementAt(true, s, i);
    assert Remainder(KeyEnd, Grown(st, Leaf(k)), s, e) == AfterKeyAt(s, e);
    hide Remainder, ElementAt, AfterKeyAt, Plug, Skip;
    PlugThen(st, Leaf(k), AfterKeyAt(s, e), s);
  }

  lemma KeyFails(st: Stack, s: seq<byte>, i: nat)
    requires ModeFits(KeyBegin, st) && i <= |s| && !IsSpace(At(s, i)) && KeyAt(s, i).None?
    requires !(st.kids == [] && At(s, i) == Close(true))
    ensures Outcome(KeyBegin, st, s, i).Err?
  {
    NoSpace(s, i);
    assert ElementAt(true, s, i).Err?;
    hide Skip;
  }

  lemma ColonStep(st: Stack, s: seq<byte>, i: nat)
    requires ModeFits(KeyEnd, st) && i <= |s| && !IsSpace(At(s, i))
    ensures At(s, i) == COLON ==> i < |s| && Outcome(KeyEnd, st, s, i) == Outcome(PairBegin, st, s, i + 1)
    ensures At(s, i) != COLON ==> Outcome(KeyEnd, st, s, i).Err?
  {
    NoSpace(s, i);
    hide PairValueAt, Skip;
  }

  lemma CommaStep(st: Stack, s: seq<byte>, i: nat)
    requires ModeFits(ValEnd, st) && i <= |s| && !IsSpace(At(s, i))
    ensures At(s, i) == COMMA ==> i < |s| && Outcome(ValEnd, st, s, i) == Outcome(Inside(st.obj), st, s, i + 1)
    ensures At(s, i) != COMMA && At(s, i) != Close(st.obj) ==> Outcome(ValEnd, st, s, i).Err?
  {
    NoSpace(s, i);
    hide ElementAt, Skip;
  }

  /** A closed container that is not the root goes to its parent; the root is the document. */
  lemma CloseOutcome(st: Stack, s: seq<byte>, e: nat)
    requires st.Frame? && e <= |s|
    ensures st.below.Bottom? ==> Plug(st, Ok(Nil, e), s) == Ok(ValueOf(st), e)
    ensures st.below.Frame? ==> Plug(st, Ok(Nil, e), s) == Outcome(ValEnd, Grown(st.below, ValueOf(st)), s, e)
  {
    if st.below.Frame? {
      PlugClose(st, s, e);
      hide Plug;
    }
  }

  // The tape.

  /** The slot of the innermost container. */
  function Base(st: Stack): nat {
    match st
    case Bottom => 0
    case Frame(_, _, below) => Extent(below)
  }

  function Extent(st: Stack): nat {
    match st
    case Bottom => 0
    case Frame(_, kids, below) => Extent(below) + 1 + |EncodeAll(kids)|
  }

  function ParentOffset(st: Stack): nat
    requires st.Frame?
  {
    if st.below.Bottom? then 0 else
      BaseBelow(st);
      Base(st) - Base(st.below)
  }

  lemma BaseBelow(st: Stack)
    requires st.Frame? && st.below.Frame?
    ensures Base(st.below) < Base(st)
  {
  }

  /** The slots of one open container and its children; the count of the innermost is kept elsewhere. */
  ghost predicate Opened(t: seq<Cell>, p: nat, ofs: nat, obj: bool, kids: seq<Json>, top: bool) {
    && |t| == p + 1 + |EncodeAll(kids)|
    && t[p].Head? && t[p].obj == obj && t[p].ofs == ofs
    && (top || t[p].len == |kids| + 1)
    && t[p + 1..] == EncodeAll(kids)
  }

  /** The tape of all the open containers. */
  ghost predicate Matches(t: seq<Cell>, st: Stack, top: bool)
    decreases st
  {
    match st
    case Bottom => t == []
    case Frame(obj, kids, below) =>
      && Opened(t, Base(st), ParentOffset(st), obj, kids, top)
      && Matches(t[..Base(st)], below, false)
  }

  lemma OpenedGrows(t: seq<Cell>, p: nat, ofs: nat, obj: bool, kids: seq<Json>, top: bool, v: Json)
    requires Opened(t, p, ofs, obj, kids, top)
    ensures Opened(t + Encode(v), p, ofs, obj, kids + [v], true) && (t + Encode(v))[..p] == t[..p]
  {
    EncodeAllSnoc(kids, v);
    hide Encode, EncodeAll;
    assert (t + Encode(v))[p + 1..] == t[p + 1..] + Encode(v);
  }

  lemma MatchesGrown(t: seq<Cell>, st: Stack, top: bool, v: Json)
    requires st.Frame? && Matches(t, st, top)
    ensures Matches(t + Encode(v), Grown(st, v), true)
  {
    OpenedGrows(t, Base(st), ParentOffset(st), st.obj, st.kids, top, v);
    hide Opened, Encode, EncodeAll;
  }

  lemma MatchesTop(t: seq<Cell>, st: Stack, top: bool)
    requires st.Frame? && Matches(t, st, top)
    ensures Base(st) < |t| && Opened(t, Base(st), ParentOffset(st), st.obj, st.kids, top)
    ensures t[Base(st)].Head? && t[Base(st)].obj == st.obj && t[Base(st)].ofs == ParentOffset(st)
    ensures !top ==> t[Base(st)].len == |st.kids| + 1
    ensures |t| == Extent(st)
  {
  }

  lemma MatchesLeaf(t: seq<Cell>, st: Stack, a: Atom)
    requires st.Frame? && Matches(t, st, true)
    ensures Matches(t + [Cell.Value(a)], Grown(st, Leaf(a)), true)
  {
    hide Matches;
    MatchesGrown(t, st, true, Leaf(a));
  }

  lemma CountSaved(t: seq<Cell>, st: Stack)
    requires st.Frame? && Matches(t, st, true)
    ensures Base(st) < |t| && t[Base(st)].Head?
    ensures Matches(t[Base(st) := t[Base(st)].(len := |st.kids| + 1)], st, false)
  {
    var p := Base(st);
    var u := t[p := t[p].(len := |st.kids| + 1)];
    assert u[..p] == t[..p] && u[p + 1..] == t[p + 1..];
    hide EncodeAll, Extent, ParentOffset;
  }

  lemma MatchesOpen(t: seq<Cell>, st: Stack, obj: bool, c: Cell)
    requires st.Frame? && Matches(t, st, true)
    requires c.Head? && c.obj == obj && c.ofs == |t| - Base(st)
    ensures var p := Base(st);
            p < |t| && t[p].Head? && Matches(t[p := t[p].(len := |st.kids| + 1)] + [c], Frame(obj, [], st), true)
  {
    MatchesTop(t, st, true);
    CountSaved(t, st);
    var p := Base(st);
    var u := t[p := t[p].(len := |st.kids| + 1)];
    MatchesOnTop(u, st, obj, c);
  }

  lemma MatchesOnTop(u: seq<Cell>, st: Stack, obj: bool, c: Cell)
    requires st.Frame? && Matches(u, st, false) && |u| == Extent(st)
    requires c.Head? && c.obj == obj && c.ofs == |u| - Base(st)
    ensures Matches(u + [c], Frame(obj, [], st), true)
  {
    var f := Frame(obj, [], st);
    assert Base(f) == |u| && ParentOffset(f) == c.ofs;
    assert (u + [c])[|u| + 1..] == EncodeAll([]);
    assert Opened(u + [c], |u|, c.ofs, obj, [], true);
    assert (u + [c])[..|u|] == u;
    hide Opened, EncodeAll, Extent;
  }

  /** The tape once the innermost container is closed. */
  function Closed(t: seq<Cell>, st: Stack): seq<Cell>
    requires st.Frame? && Base(st) < |t|
  {
    t[Base(st) := Head(st.obj, Length(st.obj, |st.kids|), |t| - Base(st))]
  }

  function ValueOf(st: Stack): Json
    requires st.Frame?
  {
    Node(st.obj, Attach(st.kids, Nil))
  }

  lemma EncodeClosed(obj: bool, kids: seq<Json>)
    ensures Encode(Node(obj, Attach(kids, Nil)))
         == [Head(obj, Length(obj, |kids|), 1 + |EncodeAll(kids)|)] + EncodeAll(kids)
  {
    EncodeAttach(kids, Nil);
    CountAttach(kids, Nil);
    assert EncodeAll(kids) + [] == EncodeAll(kids);
  }

  /** The slots of the closed container are those of its value. */
  lemma ClosedIsValue(t: seq<Cell>, st: Stack)
    requires st.Frame? && Matches(t, st, true)
    ensures Base(st) < |t| && Closed(t, st) == t[..Base(st)] + Encode(ValueOf(st))
  {
    MatchesTop(t, st, true);
    EncodeClosed(st.obj, st.kids);
    hide Matches, Encode, EncodeAll, Extent, Base, Opened, Attach;
    OpenedClosed(t, Base(st), ParentOffset(st), st.obj, st.kids);
  }

  lemma OpenedClosed(t: seq<Cell>, p: nat, ofs: nat, obj: bool, kids: seq<Json>)
    requires Opened(t, p, ofs, obj, kids, true)
    ensures var h := Head(obj, Length(obj, |kids|), |t| - p);
            |t| - p == 1 + |EncodeAll(kids)| && t[p := h] == t[..p] + ([h] + EncodeAll(kids))
  {
    hide EncodeAll;
    var h := Head(obj, Length(obj, |kids|), |t| - p);
    assert t[p := h] == t[..p] + ([h] + t[p + 1..]);
  }

  /** Its parent is the innermost again, with one child more. */
  lemma MatchesClose(t: seq<Cell>, st: Stack)
    requires st.Frame? && st.below.Frame? && Matches(t, st, true)
    ensures var q := Base(st.below);
            q < Base(st) < |t| && Closed(t, st)[q].Head? && Closed(t, st)[q].obj == st.below.obj
            && Closed(t, st)[q].len == |st.below.kids| + 1
            && Matches(Closed(t, st), Grown(st.below, ValueOf(st)), true)
  {
    ClosedIsValue(t, st);
    BaseBelow(st);
    var p := Base(st);
    assert Matches(t[..p], st.below, false);
    hide Matches, Encode, EncodeAll, Extent, Base;
    MatchesTop(t[..p], st.below, false);
    MatchesGrown(t[..p], st.below, false, ValueOf(st));
  }
}
