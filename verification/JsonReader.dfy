/** The two container readers, minify and pretty: a state machine that fills the tape. */
module JsonReader {
  import opened Bytes
  import opened Word64
  import opened IntegerReader
  import opened NumberText
  import opened NumberPlace
  import RealReader
  import Doubles
  import opened NumberValue
  import opened JsonString
  import opened JsonTree
  import opened JsonGrammar
  import opened JsonTape

  /** read_num: a number starting here. */
  method ReadNumber(s: seq<byte>, i: nat, tables: Tables) returns (r: Option<(Atom, nat)>)
    requires Filled(tables)
    ensures r == NumberAt(s, i)
  {
    hide NumberAt, RealReads, ReadRight;
    var n := ReadInteger(s, i);
    match n
    case Integer(neg, raw, end) =>
      IntegerIsTaken(s, i, n);
      return Some((Int(neg, raw), end));
    case Error =>
      NoNumber(s, i, n);
      return None;
    case Rounded(sig, end) =>
      RoundedIsTaken(s, i, n, tables.toDouble(sig));
      return Some((Atom.Real(Signed(true, tables.toDouble(sig))), end));
    case Real =>
      var x := RealReader.FindEnd(s, i);
      RealIsLeft(s, i, n);
      if x.None? {
        return None;
      }
      EndInside(s, i);
      var double := ReadReal(s, i, tables);
      if double.None? {
        return None;
      }
      BitsAre(s, i, double.value);
      return Some((Atom.Real(double.value), x.value));
  }

  lemma IntegerIsTaken(s: seq<byte>, i: nat, n: NumRead)
    requires ReadsAs(s, i, n) && n.Integer?
    ensures NumberAt(s, i) == Some((Int(n.negative, n.raw), n.end))
  {
  }

  lemma NoNumber(s: seq<byte>, i: nat, n: NumRead)
    requires ReadsAs(s, i, n) && n.Error?
    ensures NumberAt(s, i) == None
  {
  }

  /** What is left to the floating-point path is no integer of a word. */
  lemma RealIsLeft(s: seq<byte>, i: nat, n: NumRead)
    requires ReadsAs(s, i, n) && n.Real?
    ensures NumberAt(s, i) ==
              match NumberEnd(s, i)
              case None => None
              case Some(x) =>
                if x > |s| || Refused(s, i) then None else Some((Atom.Real(DoubleBits(TextOf(s, i))), x))
  {
    hide RunEnd, Refused, NumberEnd, TextOf;
  }

  /** A negative integer that only an unsigned word holds is read as the double the machine makes of it. */
  lemma RoundedIsTaken(s: seq<byte>, i: nat, n: NumRead, raw: nat)
    requires ReadsAs(s, i, n) && n.Rounded? && Doubles.RoundsTo(raw, n.sig as real)
    ensures NumberAt(s, i) == Some((Atom.Real(Signed(true, raw)), n.end)) && i <= n.end <= |s|
  {
    WordIsTaken(s, i);
    IntegerEnds(s, i);
    RunEndWithin(s, i + Sign(s, i));
    WordReads(s, i, raw);
    BitsAre(s, i, Signed(true, raw));
    hide Refused, RunEnd, Doubles.RoundsTo, RealReads, TextOf;
  }

  /** A value of one slot, by its first character. */
  method ReadScalar(s: seq<byte>, i: nat, tables: Tables) returns (r: Option<(Atom, nat)>)
    requires Filled(tables)
    ensures r == ScalarAt(s, i)
  {
    hide NumberAt, KeyAt, LiteralAt;
    var b := At(s, i);
    if StartsNumber(b) {
      r := ReadNumber(s, i, tables);
    } else if b == QUOTE {
      r := KeyAt(s, i);
    } else if b == TRUE[0] {
      r := LiteralAt(s, i, TRUE, Bool(true));
    } else if b == FALSE[0] {
      r := LiteralAt(s, i, FALSE, Bool(false));
    } else if b == NULL[0] {
      r := LiteralAt(s, i, NULL, Null);
    } else {
      r := None;
    }
  }

  /** Spaces, in the pretty reader two at a time first. */
  method SkipSpaces(s: seq<byte>, start: nat, pairs: bool, ghost mode: Mode, ghost st: Stack) returns (cur: nat)
    requires ModeFits(mode, st) && start <= |s|
    ensures start <= cur <= |s| && !IsSpace(At(s, cur)) && Outcome(mode, st, s, cur) == Outcome(mode, st, s, start)
  {
    hide Outcome, ModeFits;
    cur := start;
    if pairs {
      while At(s, cur) == SP && At(s, cur + 1) == SP
        invariant start <= cur <= |s| && Outcome(mode, st, s, cur) == Outcome(mode, st, s, start)
        decreases |s| - cur
      {
        SpaceStep(mode, st, s, cur);
        SpaceStep(mode, st, s, cur + 1);
        cur := cur + 2;
      }
    }
    while IsSpace(At(s, cur))
      invariant start <= cur <= |s| && Outcome(mode, st, s, cur) == Outcome(mode, st, s, start)
      decreases |s| - cur
    {
      SpaceStep(mode, st, s, cur);
      cur := cur + 1;
    }
  }

  /** A space the pretty reader expects after a bracket, a comma or a colon. */
  method SkipExpected(s: seq<byte>, start: nat, pretty: bool, space: byte, ghost mode: Mode, ghost st: Stack)
    returns (cur: nat)
    requires ModeFits(mode, st) && start <= |s| && IsSpace(space)
    ensures start <= cur <= |s| && Outcome(mode, st, s, cur) == Outcome(mode, st, s, start)
    ensures !pretty ==> cur == start
  {
    cur := start;
    if pretty && At(s, cur) == space {
      SpaceStep(mode, st, s, cur);
      cur := cur + 1;
    }
  }

  /** The last value of the tape stays this far from the end of the allocation. */
  predicate Padded(mode: Mode, val: nat, size: nat) {
    if mode.KeyEnd? || mode.PairBegin? then val + 3 <= size else val + 2 <= size
  }

  /** Where the machine goes: to a label, to an error, or to the end of the document. */
  datatype Step = Goto(mode: Mode) | Failed | Finished

  class TapeReader {
    var cells: array<Cell>
    const hdrLen: nat
    var val: nat
    var ctn: nat
    var ctnLen: nat
    ghost var stack: Stack

    predicate Room()
      reads this
    {
      hdrLen <= ctn <= val < cells.Length && 4 <= cells.Length
    }

    function Tape(): seq<Cell>
      requires Room()
      reads this, cells
    {
      cells[hdrLen..val + 1]
    }

    /** The tape holds the containers still open. */
    ghost predicate Holding()
      reads this, cells
    {
      && Room() && stack.Frame? && ctnLen == |stack.kids| && ctn == hdrLen + Base(stack)
      && Matches(Tape(), stack, true)
    }

    /** Allocation and the first slot. */
    constructor (hdrLen: nat, size: nat, obj: bool)
      requires hdrLen + 4 <= size
      ensures Holding() && fresh(cells) && cells.Length == size && val + 2 <= size
      ensures stack == Frame(obj, [], Bottom) && this.hdrLen == hdrLen
    {
      cells := new Cell[size](_ => Cell.Value(Null));
      this.hdrLen := hdrLen;
      val, ctn, ctnLen := hdrLen, hdrLen, 0;
      stack := Frame(obj, [], Bottom);
      new;
      cells[hdrLen] := Head(obj, 0, 0);
      RootAlone(Tape(), obj);
    }

    /** val_incr: one more slot, in a larger allocation when only the padding is left. */
    method ValIncr()
      requires Room() && val + 2 <= cells.Length
      modifies this`val, this`cells, cells
      ensures Room() && val == old(val) + 1 && val + 3 <= cells.Length
      ensures cells == old(cells) || fresh(cells)
      ensures cells[hdrLen..val] == old(Tape())
    {
      val := val + 1;
      if val >= cells.Length - 2 {
        var more := new Cell[cells.Length + cells.Length / 2](_ => Cell.Value(Null));
        forall k | 0 <= k < cells.Length {
          more[k] := cells[k];
        }
        cells := more;
      }
    }

    /** A value of one slot, checked for room or, after a key, not. */
    method Push(a: Atom, checked: bool)
      requires Holding() && val + 2 <= cells.Length && (!checked ==> val + 3 <= cells.Length)
      modifies this`val, this`cells, this`ctnLen, this`stack, cells
      ensures Holding() && stack == Grown(old(stack), Leaf(a))
      ensures cells == old(cells) || fresh(cells)
      ensures val + 2 <= cells.Length && (checked ==> val + 3 <= cells.Length)
    {
      ghost var t := Tape();
      MatchesLeaf(t, stack, a);
      hide Matches, Base;
      if checked {
        ValIncr();
      } else {
        val := val + 1;
      }
      ctnLen := ctnLen + 1;
      cells[val] := Cell.Value(a);
      stack := Grown(stack, Leaf(a));
      assert Tape() == t + [Cell.Value(a)];
      SameBase(old(stack), Leaf(a));
    }

    /** The slot of the innermost container. */
    method SetHead(c: Cell)
      requires Room()
      modifies cells
      ensures Room() && Tape() == old(Tape())[ctn - hdrLen := c]
    {
      ghost var t := Tape();
      cells[ctn] := c;
      assert Tape() == t[ctn - hdrLen := c];
    }

    /** A slot of its own for a new container. */
    method AddHead(c: Cell)
      requires Room() && val + 2 <= cells.Length
      modifies this`val, this`cells, cells
      ensures Room() && val + 3 <= cells.Length && Tape() == old(Tape()) + [c]
      ensures val == old(val) + 1 && (cells == old(cells) || fresh(cells))
    {
      ghost var t := Tape();
      ValIncr();
      cells[val] := c;
      assert Tape() == t + [c];
    }

    /** arr_begin and obj_begin: the count is saved in the container's slot, and a new slot points back at it. */
    method OpenContainer(obj: bool)
      requires Holding() && val + 2 <= cells.Length
      modifies this, cells
      ensures Holding() && stack == Frame(obj, [], old(stack))
      ensures cells == old(cells) || fresh(cells)
      ensures val + 3 <= cells.Length
    {
      ghost var t, st := Tape(), stack;
      MatchesTop(t, stack, true);
      MatchesOpen(t, stack, obj, Head(obj, 0, |t| - Base(stack)));
      FreshBase(obj, stack);
      hide Matches, Base, Extent, Opened;
      assert cells[ctn] == t[Base(stack)];
      SetHead(cells[ctn].(len := ctnLen + 1));
      AddHead(Head(obj, 0, val + 1 - ctn));
      Enter(Frame(obj, [], st));
    }

    /** The new container becomes the innermost. */
    method Enter(ghost st: Stack)
      requires Room() && st.Frame? && st.kids == [] && val == hdrLen + Base(st) && Matches(Tape(), st, true)
      modifies this`ctn, this`ctnLen, this`stack
      ensures Holding() && stack == st
    {
      hide Matches, Base;
      ctn := val;
      ctnLen := 0;
      stack := st;
    }

    /** The slot of the innermost container gets its final length and offset. */
    method SealHead() returns (parent: int)
      requires Holding()
      modifies cells
      ensures Room() && Base(stack) < |old(Tape())| && Tape() == Closed(old(Tape()), stack)
      ensures parent == ctn - ParentOffset(stack)
    {
      MatchesTop(Tape(), stack, true);
      hide Matches, Base, Extent, Opened, ParentOffset;
      assert cells[ctn] == Tape()[Base(stack)];
      parent := ctn - cells[ctn].ofs;
      SetHead(Head(cells[ctn].obj, Length(cells[ctn].obj, ctnLen), val - ctn + 1));
    }

    /** arr_end and obj_end: the slot gets its final length and offset, and the parent its count back. */
    method CloseContainer() returns (done: bool)
      requires Holding()
      modifies this`ctn, this`ctnLen, this`stack, cells
      ensures done <==> old(stack).below.Bottom?
      ensures done ==> Room() && Tape() == Encode(ValueOf(old(stack)))
      ensures !done ==> Holding() && stack == Grown(old(stack).below, ValueOf(old(stack)))
    {
      RootBase(stack);
      ClosedFacts(Tape(), stack);
      hide Matches, Base, Extent, Opened, Encode, ParentOffset;
      var parent := SealHead();
      done := ctn == parent;
      if !done {
        Reopen(parent, Grown(stack.below, ValueOf(stack)));
      }
    }

    /** The parent becomes the innermost container again, with the count it had saved. */
    method Reopen(parent: nat, ghost st: Stack)
      requires Room() && hdrLen <= parent <= val && st.Frame? && parent == hdrLen + Base(st)
      requires Matches(Tape(), st, true)
      requires Tape()[Base(st)].Head? && Tape()[Base(st)].len == |st.kids|
      modifies this`ctn, this`ctnLen, this`stack
      ensures Holding() && stack == st
    {
      hide Matches, Base;
      assert cells[parent] == Tape()[Base(st)];
      ctn := parent;
      ctnLen := cells[ctn].len;
      stack := st;
    }

    /** Standing at a label, with the document still the one the reader began with. */
    ghost predicate Ready(mode: Mode, s: seq<byte>, cur: nat, whole: Parsed<Json>)
      reads this, cells
    {
      && Holding() && ModeFits(mode, stack) && cur <= |s| && Padded(mode, val, cells.Length)
      && whole == Outcome(mode, stack, s, cur)
    }

    ghost predicate After(step: Step, s: seq<byte>, cur: nat, whole: Parsed<Json>)
      reads this, cells
    {
      match step
      case Goto(mode) => Ready(mode, s, cur, whole)
      case Failed => whole.Err?
      case Finished => Room() && whole.Ok? && whole.end == cur <= |s| && Tape() == Encode(whole.v)
    }

    /** A closing bracket has been read. */
    method EndContainer(s: seq<byte>, start: nat, pretty: bool, ghost whole: Parsed<Json>)
      returns (step: Step, cur: nat)
      requires Holding() && val + 2 <= cells.Length && start <= |s| && whole == Plug(stack, Ok(Nil, start), s)
      modifies this, cells
      ensures After(step, s, cur, whole) && (step.Goto? ==> cur >= start) && (!pretty ==> cur == start)
      ensures cells == old(cells) || fresh(cells)
    {
      CloseOutcome(stack, s, start);
      hide Plug, Outcome, Matches, Base, Encode;
      cur := start;
      var done := CloseContainer();
      if done {
        return Finished, cur;
      }
      EndFits(stack);
      cur := SkipExpected(s, cur, pretty, LF, ValEnd, stack);
      return Goto(ValEnd), cur;
    }

    /** An opening bracket has been read. */
    method BeginContainer(obj: bool, s: seq<byte>, start: nat, pretty: bool, ghost whole: Parsed<Json>)
      returns (step: Step, cur: nat)
      requires Holding() && val + 2 <= cells.Length && start <= |s|
      requires whole == Outcome(Inside(obj), Frame(obj, [], stack), s, start)
      modifies this, cells
      ensures After(step, s, cur, whole) && (step.Goto? ==> cur >= start) && (!pretty ==> cur == start)
      ensures cells == old(cells) || fresh(cells)
    {
      hide Outcome, Matches, Base;
      OpenContainer(obj);
      cur := SkipExpected(s, start, pretty, LF, Inside(obj), stack);
      return Goto(Inside(obj)), cur;
    }

    /** arr_val_begin and obj_val_begin. */
    method AtValue(mode: Mode, s: seq<byte>, start: nat, pretty: bool, tables: Tables, ghost whole: Parsed<Json>)
      returns (step: Step, cur: nat)
      requires Filled(tables) && Ready(mode, s, start, whole) && TakesValue(mode)
      modifies this, cells
      ensures After(step, s, cur, whole) && (step.Goto? ==> cur > start)
      ensures cells == old(cells) || fresh(cells)
    {
      hide Outcome, Matches, Base, Encode, ScalarAt, Plug, Filled;
      cur := SkipSpaces(s, start, pretty && mode.ValBegin?, mode, stack);
      var b := At(s, cur);
      if b == Open(true) || b == Open(false) {
        OpenStep(mode, stack, s, cur, b == Open(true));
        step, cur := BeginContainer(b == Open(true), s, cur + 1, pretty, whole);
        return;
      }
      var r := ReadScalar(s, cur, tables);
      if r.Some? {
        ScalarStep(mode, stack, s, cur);
        Push(r.value.0, mode.ValBegin?);
        return Goto(ValEnd), r.value.1;
      }
      if mode.ValBegin? && b == Close(false) && ctnLen == 0 {
        CloseStep(mode, stack, s, cur);
        step, cur := EndContainer(s, cur + 1, pretty, whole);
        return;
      }
      ValueFails(mode, stack, s, cur);
      return Failed, cur;
    }

    /** obj_key_begin. */
    method AtKey(s: seq<byte>, start: nat, pretty: bool, ghost whole: Parsed<Json>) returns (step: Step, cur: nat)
      requires Ready(KeyBegin, s, start, whole)
      modifies this, cells
      ensures After(step, s, cur, whole) && (step.Goto? ==> cur > start)
      ensures cells == old(cells) || fresh(cells)
    {
      hide Outcome, Matches, Base, Encode, KeyAt, Plug;
      cur := SkipSpaces(s, start, pretty, KeyBegin, stack);
      var k := KeyAt(s, cur);
      if k.Some? {
        KeyStep(stack, s, cur);
        Push(k.value.0, true);
        return Goto(KeyEnd), k.value.1;
      }
      if At(s, cur) == Close(true) && ctnLen == 0 {
        CloseStep(KeyBegin, stack, s, cur);
        step, cur := EndContainer(s, cur + 1, pretty, whole);
        return;
      }
      KeyFails(stack, s, cur);
      return Failed, cur;
    }

    /** obj_key_end. */
    method AtKeyEnd(s: seq<byte>, start: nat, pretty: bool, ghost whole: Parsed<Json>) returns (step: Step, cur: nat)
      requires Ready(KeyEnd, s, start, whole)
      ensures After(step, s, cur, whole) && (step.Goto? ==> cur > start)
    {
      hide Outcome, Matches, Base, Encode;
      cur := SkipSpaces(s, start, false, KeyEnd, stack);
      ColonStep(stack, s, cur);
      if At(s, cur) != COLON {
        return Failed, cur;
      }
      cur := SkipExpected(s, cur + 1, pretty, SP, PairBegin, stack);
      return Goto(PairBegin), cur;
    }

    /** Whether the container in hand is an object. */
    method InsideObject() returns (obj: bool)
      requires Holding()
      ensures obj == stack.obj
    {
      MatchesTop(Tape(), stack, true);
      assert cells[ctn] == Tape()[Base(stack)];
      obj := cells[ctn].obj;
    }

    /** arr_val_end and obj_val_end, by the type in the container's slot. */
    method AtValueEnd(s: seq<byte>, start: nat, pretty: bool, ghost whole: Parsed<Json>) returns (step: Step, cur: nat)
      requires Ready(ValEnd, s, start, whole)
      modifies this, cells
      ensures After(step, s, cur, whole) && (step.Goto? ==> cur > start)
      ensures cells == old(cells) || fresh(cells)
    {
      var obj := InsideObject();
      hide Outcome, Matches, Base, Encode, Plug, Opened, ParentOffset;
      cur := SkipSpaces(s, start, false, ValEnd, stack);
      CommaStep(stack, s, cur);
      if At(s, cur) == COMMA {
        cur := SkipExpected(s, cur + 1, pretty, LF, Inside(obj), stack);
        return Goto(Inside(obj)), cur;
      }
      if At(s, cur) == Close(obj) {
        CloseStep(ValEnd, stack, s, cur);
        step, cur := EndContainer(s, cur + 1, pretty, whole);
        return;
      }
      return Failed, cur;
    }
  }

  lemma EndFits(st: Stack)
    requires st.Frame? && st.kids != []
    ensures ModeFits(ValEnd, st)
  {
  }

  lemma RootOutcome(obj: bool, s: seq<byte>, i: nat)
    requires i <= |s|
    ensures Outcome(Inside(obj), Frame(obj, [], Bottom), s, i) == ContainerAt(obj, s, i)
  {
  }

  lemma EndOfText(s: seq<byte>, i: nat)
    requires i == |s|
    ensures Skip(s, i) == i
  {
  }

  /** read_root_minify and read_root_pretty: the tape of the document, or nothing if the text is not one. */
  method ReadRoot(s: seq<byte>, start: nat, pretty: bool, hdrLen: nat, tables: Tables) returns (r: Option<seq<Cell>>)
    requires Filled(tables)
    requires start < |s| && (At(s, start) == Open(true) || At(s, start) == Open(false))
    ensures r == match DocumentAt(s, start) case Err => None case Ok(t, _) => Some(Encode(t))
  {
    hide Outcome, Matches, Base, Encode, ContainerAt, Plug, Filled;
    var obj := At(s, start) == Open(true);
    ghost var whole := ContainerAt(obj, s, start + 1);
    var size: nat := hdrLen + (|s| - start) / (if pretty then 16 else 6) + 4;
    var rd := new TapeReader(hdrLen, size, obj);
    RootOutcome(obj, s, start + 1);
    var cur: nat := SkipExpected(s, start + 1, pretty, LF, Inside(obj), rd.stack);
    var step := Goto(Inside(obj));
    while step.Goto?
      invariant rd.After(step, s, cur, whole) && fresh(rd) && fresh(rd.cells)
      decreases step.Goto?, |s| - cur
    {
      match step.mode
      case ValBegin | PairBegin => step, cur := rd.AtValue(step.mode, s, cur, pretty, tables, whole);
      case KeyBegin => step, cur := rd.AtKey(s, cur, pretty, whole);
      case KeyEnd => step, cur := rd.AtKeyEnd(s, cur, pretty, whole);
      case ValEnd => step, cur := rd.AtValueEnd(s, cur, pretty, whole);
    }
    if step.Failed? {
      return None;
    }
    var tape := rd.Tape();
    while cur < |s| && IsSpace(At(s, cur))
      invariant cur <= |s| && Skip(s, cur) == Skip(s, whole.end)
      decreases |s| - cur
    {
      SkipOne(s, cur);
      cur := cur + 1;
    }
    if cur < |s| {
      NoSpace(s, cur);
      return None;
    }
    EndOfText(s, cur);
    return Some(tape);
  }

  lemma ClosedFacts(t: seq<Cell>, st: Stack)
    requires st.Frame? && Matches(t, st, true)
    ensures Base(st) < |t|
    ensures st.below.Bottom? ==> Closed(t, st) == Encode(ValueOf(st))
    ensures st.below.Frame? ==>
              && Base(st.below) < Base(st) && Base(Grown(st.below, ValueOf(st))) == Base(st.below)
              && Closed(t, st)[Base(st.below)].Head? && Closed(t, st)[Base(st.below)].len == |st.below.kids| + 1
              && Matches(Closed(t, st), Grown(st.below, ValueOf(st)), true)
  {
    ClosedIsValue(t, st);
    if st.below.Frame? {
      MatchesClose(t, st);
      SameBase(st.below, ValueOf(st));
    } else {
      assert t[..0] + Encode(ValueOf(st)) == Encode(ValueOf(st));
    }
  }

  lemma RootAlone(t: seq<Cell>, obj: bool)
    requires t == [Head(obj, 0, 0)]
    ensures Matches(t, Frame(obj, [], Bottom), true)
  {
    assert t[1..] == [];
    assert t[..0] == [];
  }

  lemma SameBase(st: Stack, v: Json)
    requires st.Frame?
    ensures Base(Grown(st, v)) == Base(st)
  {
  }

  lemma FreshBase(obj: bool, st: Stack)
    ensures Base(Frame(obj, [], st)) == Extent(st)
  {
  }

  lemma RootBase(st: Stack)
    requires st.Frame?
    ensures st.below.Bottom? ==> Base(st) == 0 && ParentOffset(st) == 0
    ensures st.below.Frame? ==> ParentOffset(st) == Base(st) - Base(st.below) > 0
  {
  }

  /** read_root_single: the slot of a value, or nothing if there is none or something behind it. */
  method ReadSingle(s: seq<byte>, start: nat, tables: Tables) returns (r: Option<seq<Cell>>)
    requires Filled(tables)
    ensures r == match SingleAt(s, start) case Err => None case Ok(t, _) => Some(Encode(t))
  {
    hide ScalarAt, Filled;
    var v := ReadScalar(s, start, tables);
    if v.None? {
      return None;
    }
    var cur := v.value.1;
    while IsSpace(At(s, cur))
      invariant cur <= |s| && Skip(s, cur) == Skip(s, v.value.1)
      decreases |s| - cur
    {
      cur := cur + 1;
    }
    if cur < |s| {
      return None;
    }
    return Some([Value(v.value.0)]);
  }

  /** yyjson_read_opts: spaces, and one of the three readers by the first bytes behind them. */
  method ReadText(s: seq<byte>, hdrLen: nat, tables: Tables) returns (r: Option<seq<Cell>>)
    requires Filled(tables)
    ensures r == match TextAt(s) case Err => None case Ok(t, _) => Some(Encode(t))
  {
    hide DocumentAt, SingleAt, Filled, Encode;
    var cur := 0;
    while IsSpace(At(s, cur))
      invariant cur <= |s| && Skip(s, cur) == Skip(s, 0)
      decreases |s| - cur
    {
      cur := cur + 1;
    }
    if cur >= |s| {
      NothingThere(s, cur);
      return None;
    }
    if At(s, cur) == Open(true) || At(s, cur) == Open(false) {
      r := ReadRoot(s, cur, IsSpace(At(s, cur + 1)) && IsSpace(At(s, cur + 2)), hdrLen, tables);
    } else {
      r := ReadSingle(s, cur, tables);
    }
  }

  lemma NothingThere(s: seq<byte>, i: nat)
    requires i >= |s|
    ensures SingleAt(s, i).Err?
  {
  }
}
