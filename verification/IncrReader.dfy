/**
  The incremental reader: called with more and more of the text, it stops at the last label it can come
  back to, and goes on from there the next time.
 */
module IncrReader {
  import opened Bytes
  import opened JsonTree
  import opened JsonGrammar
  import opened JsonTape
  import opened JsonReader
  import opened JsonString
  import opened JsonTruncation
  import opened NumberText
  import opened NumberValue
  import opened NumberTruncation
  import opened JsonCuts
  import opened ScalarCompletion
  import opened JsonCompletion
  import opened IncrSteps
  import opened IncrTexts

  /** Where a label leads: to another, to the end of the text so far, to an error, or to the end of the document. */
  datatype Turn = Next(mode: Mode) | Short | Wrong | Ended

  /** What a call answers; a length that is zero or beyond the buffer is no valid argument. */
  datatype Fed = More | Error | Doc(tape: seq<Cell>) | BadLength

  // ---------------------------------------------------------------------------------------
  // From label to label
  // ---------------------------------------------------------------------------------------

  /** The tape holds the open containers, and there is room for what the label needs. */
  ghost predicate Standing(rd: TapeReader, mode: Mode)
    reads rd, rd.cells
  {
    rd.Holding() && ModeFits(mode, rd.stack) && Padded(mode, rd.val, rd.cells.Length)
  }

  /** What a step from `mode` at `start` promises of every text that begins with `v`; `st` are the containers then open. */
  ghost predicate Turned(rd: TapeReader, turn: Turn, v: seq<byte>, mode: Mode, st: Stack, start: nat, cur: nat)
    reads rd, rd.cells
  {
    match turn
    case Next(next) => Standing(rd, next) && start < cur && Leads(v, mode, st, start, next, rd.stack, cur)
    case Short => Standing(rd, mode) && rd.stack == st && Stays(v, mode, st, start)
    case Wrong => Dead(v, mode, st, start)
    case Ended => st.Frame? && rd.Room() && rd.Tape() == Encode(ValueOf(st)) && Finishes(v, mode, st, start, ValueOf(st), cur)
  }

  method SkipPrefix(v: seq<byte>, start: nat) returns (cur: nat)
    requires start <= |v|
    ensures cur == Skip(v, start)
  {
    cur := start;
    while IsSpace(At(v, cur))
      invariant start <= cur <= |v| && Skip(v, cur) == Skip(v, start)
      decreases |v| - cur
    {
      SkipOne(v, cur);
      cur := cur + 1;
    }
    NoSpace(v, cur);
  }

  const NUMBER_LIMIT: nat := 1024

  /** check_maybe_truncated_number: whichever of its two ways out is taken, the reader asks for more. */
  method MaybeTruncatedNumber(v: seq<byte>, saved: nat, cur: nat) returns (short: Option<bool>)
    ensures short == if cur >= |v| then Some(true) else None
  {
    if cur >= |v| {
      if cur > saved + NUMBER_LIMIT {
        return Some(NumberErrorCut(v, cur));
      }
      return Some(true);
    }
    return None;
  }

  /** is_truncated_end for an invalid number, found at `pos`. */
  predicate NumberErrorCut(v: seq<byte>, pos: nat) {
    pos >= |v|
  }

  /** Nothing but spaces up to the end of the bytes. */
  lemma WaitsAtEnd(v: seq<byte>, mode: Mode, st: Stack, start: nat)
    requires ModeFits(mode, st) && start <= |v| == Skip(v, start)
    ensures Stays(v, mode, st, start)
  {
    SpacesLead(v, mode, st, start);
    LabelStays(v, mode, st);
    hide Skip, Stays, Leads, ModeFits;
    LeadsStays(v, mode, st, start, st, |v|);
  }

  /** A bracket that opens a container. */
  method TakeOpening(rd: TapeReader, v: seq<byte>, obj: bool, mode: Mode, start: nat, at: nat)
    requires Standing(rd, mode) && TakesValue(mode) && start <= at < |v| && v[at] == Open(obj)
    requires Leads(v, mode, rd.stack, start, mode, rd.stack, at)
    modifies rd, rd.cells
    ensures Turned(rd, Next(Inside(obj)), v, mode, old(rd.stack), start, at + 1)
    ensures rd.cells == old(rd.cells) || fresh(rd.cells)
  {
    hide Matches, Base, Leads;
    ghost var st := rd.stack;
    OpenLeads(v, mode, st, at, obj);
    LeadsTrans(v, mode, st, start, mode, st, at, Inside(obj), Frame(obj, [], st), at + 1);
    rd.OpenContainer(obj);
  }

  /** A bracket that closes one. */
  method TakeClosing(rd: TapeReader, v: seq<byte>, mode: Mode, start: nat, at: nat) returns (turn: Turn)
    requires Standing(rd, mode) && start <= at && Closes(v, mode, rd.stack, at)
    requires Leads(v, mode, rd.stack, start, mode, rd.stack, at)
    modifies rd, rd.cells
    ensures Turned(rd, turn, v, mode, old(rd.stack), start, at + 1)
    ensures rd.cells == old(rd.cells) || fresh(rd.cells)
  {
    hide Matches, Base, Leads, Encode, Finishes;
    ghost var st := rd.stack;
    CloseLeads(v, mode, st, at);
    var done := rd.CloseContainer();
    if done {
      LeadsFinishes(v, mode, st, start, mode, st, at, ValueOf(st), at + 1);
      return Ended;
    }
    EndFits(rd.stack);
    LeadsTrans(v, mode, st, start, mode, st, at, ValEnd, rd.stack, at + 1);
    return Next(ValEnd);
  }

  /** arr_val_begin and obj_val_begin. */
  method IncrValue(rd: TapeReader, mode: Mode, v: seq<byte>, start: nat, tables: Tables) returns (turn: Turn, cur: nat)
    requires Filled(tables)
    requires start < |v| && Standing(rd, mode) && TakesValue(mode)
    modifies rd, rd.cells
    ensures Turned(rd, turn, v, mode, old(rd.stack), start, cur)
    ensures rd.cells == old(rd.cells) || fresh(rd.cells)
  {
    hide Matches, Base, Encode, ScalarAt, ScalarTruncated, Leads, Stays, Dead, Finishes, Filled, Skip;
    ghost var st := rd.stack;
    SpacesLead(v, mode, st, start);
    cur := SkipPrefix(v, start);
    if cur == |v| {
      WaitsAtEnd(v, mode, st, start);
      return Short, cur;
    }
    var b := At(v, cur);
    if b == Open(true) || b == Open(false) {
      TakeOpening(rd, v, b == Open(true), mode, start, cur);
      return Next(Inside(b == Open(true))), cur + 1;
    }
    var r := ReadScalar(v, cur, tables);
    if r.Some? {
      if StartsNumber(b) {
        var short := MaybeTruncatedNumber(v, start, r.value.1);
        if short.Some? {
          ScalarStays(v, mode, st, cur);
          LeadsStays(v, mode, st, start, st, cur);
          return if short.value then Short else Wrong, cur;
        }
      }
      ScalarLeads(v, mode, st, cur);
      LeadsTrans(v, mode, st, start, mode, st, cur, ValEnd, Grown(st, Leaf(r.value.0)), r.value.1);
      rd.Push(r.value.0, mode.ValBegin?);
      return Next(ValEnd), r.value.1;
    }
    if mode.ValBegin? && b == Close(false) && rd.ctnLen == 0 {
      turn := TakeClosing(rd, v, mode, start, cur);
      return turn, cur + 1;
    }
    if ScalarTruncated(v, cur) {
      ScalarStays(v, mode, st, cur);
      LeadsStays(v, mode, st, start, st, cur);
      return Short, cur;
    }
    ValueDead(v, mode, st, cur);
    LeadsDead(v, mode, st, start, st, cur);
    return Wrong, cur;
  }

  /** obj_key_begin. */
  method IncrKey(rd: TapeReader, v: seq<byte>, start: nat) returns (turn: Turn, cur: nat)
    requires start < |v| && Standing(rd, KeyBegin)
    modifies rd, rd.cells
    ensures Turned(rd, turn, v, KeyBegin, old(rd.stack), start, cur)
    ensures rd.cells == old(rd.cells) || fresh(rd.cells)
  {
    hide Matches, Base, Encode, KeyAt, ScalarTruncated, Leads, Stays, Dead, Finishes, Skip;
    ghost var st := rd.stack;
    SpacesLead(v, KeyBegin, st, start);
    cur := SkipPrefix(v, start);
    if cur == |v| {
      WaitsAtEnd(v, KeyBegin, st, start);
      return Short, cur;
    }
    var k := KeyAt(v, cur);
    if k.Some? {
      KeyLeads(v, st, cur);
      LeadsTrans(v, KeyBegin, st, start, KeyBegin, st, cur, KeyEnd, Grown(st, Leaf(k.value.0)), k.value.1);
      rd.Push(k.value.0, true);
      return Next(KeyEnd), k.value.1;
    }
    if At(v, cur) == Close(true) && rd.ctnLen == 0 {
      turn := TakeClosing(rd, v, KeyBegin, start, cur);
      return turn, cur + 1;
    }
    if At(v, cur) == QUOTE && ScalarTruncated(v, cur) {
      KeyStays(v, st, cur);
      LeadsStays(v, KeyBegin, st, start, st, cur);
      return Short, cur;
    }
    KeyDead(v, st, cur);
    LeadsDead(v, KeyBegin, st, start, st, cur);
    return Wrong, cur;
  }

  /** obj_key_end. */
  method IncrKeyEnd(rd: TapeReader, v: seq<byte>, start: nat) returns (turn: Turn, cur: nat)
    requires start < |v| && Standing(rd, KeyEnd)
    ensures Turned(rd, turn, v, KeyEnd, rd.stack, start, cur)
  {
    hide Matches, Base, Encode, Leads, Stays, Dead, Finishes, Skip;
    SpacesLead(v, KeyEnd, rd.stack, start);
    cur := SkipPrefix(v, start);
    if cur == |v| {
      WaitsAtEnd(v, KeyEnd, rd.stack, start);
      return Short, cur;
    }
    if At(v, cur) != COLON {
      ColonDead(v, rd.stack, cur);
      LeadsDead(v, KeyEnd, rd.stack, start, rd.stack, cur);
      return Wrong, cur;
    }
    ColonLeads(v, rd.stack, cur);
    LeadsTrans(v, KeyEnd, rd.stack, start, KeyEnd, rd.stack, cur, PairBegin, rd.stack, cur + 1);
    return Next(PairBegin), cur + 1;
  }

  /** arr_val_end and obj_val_end. */
  method IncrValueEnd(rd: TapeReader, v: seq<byte>, start: nat) returns (turn: Turn, cur: nat)
    requires start < |v| && Standing(rd, ValEnd)
    modifies rd, rd.cells
    ensures Turned(rd, turn, v, ValEnd, old(rd.stack), start, cur)
    ensures rd.cells == old(rd.cells) || fresh(rd.cells)
  {
    var obj := rd.InsideObject();
    hide Matches, Base, Encode, Leads, Stays, Dead, Finishes, Skip;
    ghost var st := rd.stack;
    SpacesLead(v, ValEnd, st, start);
    cur := SkipPrefix(v, start);
    if cur == |v| {
      WaitsAtEnd(v, ValEnd, st, start);
      return Short, cur;
    }
    if At(v, cur) == COMMA {
      CommaLeads(v, st, cur);
      LeadsTrans(v, ValEnd, st, start, ValEnd, st, cur, Inside(obj), st, cur + 1);
      return Next(Inside(obj)), cur + 1;
    }
    if At(v, cur) == Close(obj) {
      turn := TakeClosing(rd, v, ValEnd, start, cur);
      return turn, cur + 1;
    }
    EndDead(v, st, cur);
    LeadsDead(v, ValEnd, st, start, st, cur);
    return Wrong, cur;
  }

  // ---------------------------------------------------------------------------------------
  // From call to call
  // ---------------------------------------------------------------------------------------

  lemma SpacesBefore(v: seq<byte>, cur: nat)
    requires cur <= |v| && forall k | 0 <= k < cur :: IsSpace(At(v, k))
    ensures Skip(v, cur) == Skip(v, 0)
  {
    SpacesUpTo(v, 0, cur);
  }

  lemma {:induction false} SpacesUpTo(v: seq<byte>, i: nat, cur: nat)
    requires i <= cur <= |v| && forall k | i <= k < cur :: IsSpace(At(v, k))
    ensures Skip(v, i) == Skip(v, cur)
    decreases cur - i
  {
    if i < cur {
      assert IsSpace(At(v, i));
      SpacesUpTo(v, i + 1, cur);
    }
  }

  /** The state between calls: in front of the root, or at a label inside it. `seen` is the part of the text it rests on. */
  class IncrState {
    var rd: TapeReader?
    var mode: Mode
    var cur: nat
    ghost var seen: seq<byte>

    ghost predicate Valid()
      reads this, rd, if rd == null then {} else {rd.cells}
    {
      if rd == null then mode.ValBegin? && cur == |seen| && forall k | 0 <= k < cur :: IsSpace(At(seen, k))
      else Standing(rd, mode) && Rooted(seen, mode, rd.stack, cur)
    }

    /** yyjson_incr_new. */
    constructor ()
      ensures Valid() && rd == null && seen == []
    {
      rd, mode, cur := null, ValBegin, 0;
      seen := [];
    }

    /** The label the reader stands at. */
    method Step(v: seq<byte>, tables: Tables) returns (turn: Turn, at: nat)
      requires Filled(tables)
      requires Valid() && rd != null && cur < |v|
      modifies rd, rd.cells
      ensures rd.cells == old(rd.cells) || fresh(rd.cells)
      ensures Turned(rd, turn, v, mode, old(rd.stack), cur, at)
    {
      hide Filled, Rooted, Turned, Standing;
      match mode {
        case ValBegin | PairBegin => turn, at := IncrValue(rd, mode, v, cur, tables);
        case KeyBegin => turn, at := IncrKey(rd, v, cur);
        case KeyEnd => turn, at := IncrKeyEnd(rd, v, cur);
        case ValEnd => turn, at := IncrValueEnd(rd, v, cur);
      }
    }

    /** From one label to the next; short of text, nothing is saved. */
    method Advance(v: seq<byte>, tables: Tables) returns (turn: Turn, ghost t: Json)
      requires Filled(tables)
      requires Valid() && rd != null && CutOf(seen, v) && cur < |v|
      modifies this`mode, this`cur, this`seen, rd, rd.cells
      ensures rd.cells == old(rd.cells) || fresh(rd.cells)
      ensures turn.Next? ==> Valid() && CutOf(seen, v) && old(cur) < cur <= |v|
      ensures turn.Short? ==> Valid() && cur == old(cur) && seen == old(seen) && Pending(v, mode, cur)
      ensures turn.Wrong? ==> Lost(v) && Decided(v, mode, cur) && cur == old(cur)
      ensures turn.Ended? ==> rd.Room() && rd.Tape() == Encode(t) && RootClosed(v, t, cur)
    {
      StandingFits(rd, mode);
      hide Encode, Standing, TapeReader.Room, TapeReader.Tape, Filled, Rooted, Pending, Lost, Decided, Leads, Stays, Dead, Finishes;
      hide RootClosed, CutOf, ModeFits;
      ghost var st := rd.stack;
      t := ValueOf(st);
      var at: nat;
      turn, at := Step(v, tables);
      match turn {
        case Next(next) =>
          LeadsWithin(v, mode, st, cur, next, rd.stack, at);
          RootedNext(seen, v, mode, st, cur, next, rd.stack, at);
          mode, cur, seen := next, at, Upto(v, at);
        case Short => RootedStays(seen, v, mode, st, cur);
        case Wrong => RootedDead(seen, v, mode, st, cur);
        case Ended =>
          RootedFinishes(seen, v, mode, st, cur, t, at);
          cur := at;
      }
    }

    /** At the last byte there is no label to leave. */
    lemma AtEnd(v: seq<byte>)
      requires Valid() && CutOf(seen, v) && cur == |v|
      ensures Pending(v, mode, cur)
    {
      hide Rooted, Stays, Pending;
      if rd == null {
        SeenSpaces(seen, v, cur);
        SpacesBefore(v, cur);
        SpacesPending(v, mode, cur);
      } else {
        LabelStays(v, mode, rd.stack);
        RootedStays(seen, v, mode, rd.stack, cur);
      }
    }

    /** So a call that brings nothing new waits too. */
    lemma NothingNew(s: seq<byte>, len: nat)
      requires Valid() && CutOf(seen, s) && len <= |s| && len <= cur
      ensures cur <= |seen| && (|seen| <= len ==> Pending(s[..len], mode, cur))
      ensures len == |s| ==> TextAt(s).Err?
    {
      hide Pending, Standing, TextAt, Skip;
      if |seen| <= len {
        SeenCut(seen, s[..len], s);
        AtEnd(s[..len]);
        PendingIsNone(s[..len], mode, cur);
        assert len == |s| ==> s[..len] == s;
      }
    }

    /** From label to label, until the text or the document ends; `last` says that no more of it will come. */
    method Run(v: seq<byte>, last: bool, tables: Tables) returns (r: Fed)
      requires Filled(tables)
      requires Valid() && rd != null && CutOf(seen, v) && cur <= |v|
      modifies this`mode, this`cur, this`seen, rd, rd.cells
      ensures rd.cells == old(rd.cells) || fresh(rd.cells)
      ensures !r.BadLength?
      ensures r.Doc? ==> Settled(v) && r.tape == Encode(TextAt(v).v)
      ensures r.Error? ==> (Lost(v) && Decided(v, mode, cur)) || (last && TextAt(v).Err?)
      ensures r.More? ==> !last && Valid() && CutOf(seen, v) && cur <= |v| && Pending(v, mode, cur)
    {
      hide Encode, Standing, Filled, Rooted, Lost, Decided, RootClosed, TextAt, CutOf;
      var turn: Turn := Next(mode);
      ghost var t: Json := Leaf(Null);
      while turn.Next? && cur < |v|
        invariant rd.cells == old(rd.cells) || fresh(rd.cells)
        invariant cur <= |v| && (turn.Next? ==> Valid() && CutOf(seen, v))
        invariant turn.Short? ==> Valid() && CutOf(seen, v) && Pending(v, mode, cur)
        invariant turn.Wrong? ==> Lost(v) && Decided(v, mode, cur)
        invariant turn.Ended? ==> rd.Room() && rd.Tape() == Encode(t) && RootClosed(v, t, cur)
        decreases turn.Next?, |v| - cur
      {
        turn, t := Advance(v, tables);
        if turn.Ended? {
          ClosedWithin(v, t, cur);
        }
      }
      assert turn.Short? ==> Pending(v, mode, cur);
      match turn {
        case Wrong =>
          return Error;
        case Ended =>
          var p := SkipPrefix(v, cur);
          if p < |v| {
            GarbageLost(v, t, cur, mode);
            return Error;
          }
          RootSettled(v, t, cur);
          return Doc(rd.Tape());
        case _ =>
          if turn.Next? {
            AtEnd(v);
          }
          return if last then Error else More;
      }
    }

    /** A root of one slot, at `at`. */
    method Single(v: seq<byte>, at: nat, last: bool, tables: Tables) returns (r: Fed)
      requires Filled(tables)
      requires SingleFrom(v, at) && (forall k | 0 <= k < at :: IsSpace(At(v, k))) && rd == null && mode.ValBegin?
      modifies this`cur, this`seen
      ensures !r.BadLength?
      ensures r.Doc? ==> Settled(v) && r.tape == Encode(TextAt(v).v)
      ensures r.Error? ==> (Lost(v) && Decided(v, mode, cur)) || (last && TextAt(v).Err?)
      ensures r.More? ==> !last && Valid() && CutOf(seen, v) && cur <= |v| && Pending(v, mode, cur)
    {
      SingleInside(v, at);
      cur := at;
      seen := v[..at];
      assert forall k | 0 <= k < at :: At(seen, k) == At(v, k);
      hide Filled, Lost, Decided, TextAt, ScalarAt, ScalarTruncated, SingleFrom;
      var a := ReadScalar(v, at, tables);
      if a.Some? {
        var p := SkipPrefix(v, a.value.1);
        if p < |v| {
          SingleGarbage(v, at);
          return Error;
        }
        SingleSettled(v, at);
        return Doc([Cell.Value(a.value.0)]);
      }
      if ScalarTruncated(v, at) {
        SingleStays(v, at, at);
        return if last then Error else More;
      }
      SingleLost(v, at);
      return Error;
    }

    /** doc_begin: spaces, and the root's opening bracket or a value of one slot. */
    method Begin(v: seq<byte>, size: nat, last: bool, tables: Tables) returns (r: Fed)
      requires Filled(tables)
      requires Valid() && rd == null && CutOf(seen, v)
      modifies this
      ensures !r.BadLength?
      ensures r.Doc? ==> Settled(v) && r.tape == Encode(TextAt(v).v)
      ensures r.Error? ==> (Lost(v) && Decided(v, mode, cur)) || (last && TextAt(v).Err?)
      ensures r.More? ==> !last && Valid() && CutOf(seen, v) && cur <= |v| && Pending(v, mode, cur)
      ensures rd != null ==> fresh(rd) && fresh(rd.cells)
    {
      hide Lost, Decided, TextAt, Standing, Rooted, Filled, Pending;
      SeenSpaces(seen, v, cur);
      SpacesBefore(v, cur);
      SkipCut(v, v, 0);
      var at := SkipPrefix(v, cur);
      if at >= |v| {
        SpacesPending(v, mode, cur);
        PendingIsNone(v, mode, cur);
        return if last then Error else More;
      }
      if v[at] != Open(true) && v[at] != Open(false) {
        r := Single(v, at, last, tables);
        return;
      }
      var obj := v[at] == Open(true);
      RootBegins(v, at, obj);
      rd := new TapeReader(4, 4 + size / 6 + 4, obj);
      mode, cur, seen := Inside(obj), at + 1, Upto(v, at + 1);
      BeginsStanding(rd, obj);
      r := Run(v, last, tables);
    }

    /** yyjson_incr_read: as far as the first `len` bytes go, of which those already read have not changed. */
    method Feed(s: seq<byte>, len: nat, tables: Tables) returns (r: Fed)
      requires Filled(tables)
      requires Valid() && CutOf(seen, s)
      modifies this, rd, if rd == null then {} else {rd.cells}
      ensures r.BadLength? <==> len == 0 || len > |s|
      ensures r.Doc? ==> Settled(s[..len]) && r.tape == Encode(TextAt(s[..len]).v)
      ensures r.Error? ==> (Lost(s[..len]) && Decided(s[..len], mode, cur)) || (len == |s| && TextAt(s).Err?)
      ensures r.More? || r.BadLength? ==> Valid() && CutOf(seen, s)
      ensures r.More? ==> len < |s| && (|seen| <= len || seen == old(seen))
      ensures r.More? && |old(seen)| <= len ==> |seen| <= len && Pending(s[..len], mode, cur)
      ensures rd != null ==>
                (rd == old(rd) || fresh(rd)) && (fresh(rd.cells) || (old(rd) != null && rd.cells == old(rd.cells)))
    {
      if len == 0 || len > |s| {
        return BadLength;
      }
      hide Lost, Decided, TextAt, Standing, Rooted, Filled, Pending, Settled, Encode;
      var v := s[..len];
      var last := len == |s|;
      assert last ==> v == s;
      if cur >= len {
        NothingNew(s, len);
        return if last then Error else More;
      }
      SeenCut(seen, v, s);
      if rd == null {
        r := Begin(v, |s|, last, tables);
      } else {
        r := Run(v, last, tables);
      }
    }
  }

  lemma PendingIsNone(v: seq<byte>, mode: Mode, cur: nat)
    requires Pending(v, mode, cur)
    ensures TextAt(v).Err?
  {
  }

  lemma SeenCut(seen: seq<byte>, v: seq<byte>, s: seq<byte>)
    requires CutOf(seen, s) && CutOf(v, s) && |seen| <= |v|
    ensures CutOf(seen, v)
  {
  }

  lemma SeenSpaces(seen: seq<byte>, v: seq<byte>, cur: nat)
    requires CutOf(seen, v) && cur == |seen| && forall k | 0 <= k < cur :: IsSpace(At(seen, k))
    ensures forall k | 0 <= k < cur :: IsSpace(At(v, k))
  {
    forall k | 0 <= k < cur
      ensures IsSpace(At(v, k))
    {
      AtCut(seen, v, k);
    }
  }

  lemma LeadsWithin(v: seq<byte>, mode: Mode, st: Stack, i: nat, next: Mode, there: Stack, j: nat)
    requires Leads(v, mode, st, i, next, there, j)
    ensures j <= |v|
  {
  }

  lemma ClosedWithin(v: seq<byte>, t: Json, j: nat)
    requires RootClosed(v, t, j)
    ensures j <= |v|
  {
  }

  lemma StandingFits(rd: TapeReader, mode: Mode)
    requires Standing(rd, mode)
    ensures rd.stack.Frame?
  {
  }

  lemma BeginsStanding(rd: TapeReader, obj: bool)
    requires rd.Holding() && rd.stack == Frame(obj, [], Bottom) && rd.val + 2 <= rd.cells.Length
    ensures Standing(rd, Inside(obj))
  {
  }

  // ---------------------------------------------------------------------------------------
  // Whole runs
  // ---------------------------------------------------------------------------------------

  /** Lengths that never shrink, from more than nothing up to the whole text. */
  predicate Growing(lens: seq<nat>, size: nat) {
    && lens != [] && lens[0] > 0 && lens[|lens| - 1] == size
    && (forall k | 0 <= k < |lens| :: lens[k] <= size)
    && (forall k | 0 < k < |lens| :: lens[k - 1] <= lens[k])
  }

  lemma {:induction false} GrowingFrom(lens: seq<nat>, size: nat, k: nat, j: nat)
    requires Growing(lens, size) && k <= j < |lens|
    ensures 0 < lens[k] <= lens[j]
    decreases j
  {
    if k < j {
      GrowingFrom(lens, size, k, j - 1);
    } else if k > 0 {
      GrowingFrom(lens, size, k - 1, k - 1);
    }
  }

  /** The part of the text that call `k` has. */
  function Part(s: seq<byte>, lens: seq<nat>, k: nat): seq<byte>
    requires Growing(lens, |s|) && k < |lens|
  {
    s[..lens[k]]
  }

  lemma PartsCut(s: seq<byte>, lens: seq<nat>, k: nat, j: nat)
    requires Growing(lens, |s|) && k <= j < |lens|
    ensures CutOf(Part(s, lens, k), Part(s, lens, j)) && CutOf(Part(s, lens, j), s) && |Part(s, lens, j)| == lens[j]
    ensures lens[j] == |s| ==> Part(s, lens, j) == s
  {
    GrowingFrom(lens, |s|, k, j);
  }

  /** The first part that is a text, with no call before it at a bad cut of that. */
  ghost predicate FirstText(s: seq<byte>, lens: seq<nat>, k: nat)
    requires Growing(lens, |s|) && k < |lens|
  {
    var v := Part(s, lens, k);
    TextAt(v).Ok? && forall j | 0 <= j < k :: TextAt(Part(s, lens, j)).Err? && lens[j] <= |v| && !BadCut(v, 0, lens[j])
  }

  /** Nothing is cut at the end of the text itself. */
  lemma WholeUncut(s: seq<byte>)
    ensures !BadCut(s, 0, |s|)
  {
    WholeUncutFrom(s, 0);
  }

  lemma {:induction false} WholeUncutFrom(s: seq<byte>, p: nat)
    ensures CutNumber(s, p, |s|) == None
    decreases |s| - p
  {
    if p < |s| {
      if StartsNumber(At(s, p)) {
        if NumberAt(s, p).Some? {
          WholeUncutFrom(s, NumberAt(s, p).value.1);
        }
      } else if At(s, p) == QUOTE {
        if KeyAt(s, p).Some? {
          WholeUncutFrom(s, KeyAt(s, p).value.1);
        }
      } else {
        WholeUncutFrom(s, p + 1);
      }
    }
    hide NumberAt, KeyAt;
  }

  /** After a call that asks for more, no part so far is the first text, and none of their cuts is bad. */
  ghost predicate Waiting(s: seq<byte>, lens: seq<nat>, k: nat)
    requires Growing(lens, |s|) && k <= |lens|
  {
    forall j | 0 <= j < k ::
      TextAt(Part(s, lens, j)).Err? && forall u | CutOf(Part(s, lens, j), u) :: !BadCut(u, 0, lens[j])
  }

  lemma WaitsOn(s: seq<byte>, lens: seq<nat>, k: nat, mode: Mode, cur: nat)
    requires Growing(lens, |s|) && k < |lens| && Waiting(s, lens, k) && Pending(Part(s, lens, k), mode, cur)
    ensures Waiting(s, lens, k + 1)
  {
    PartsCut(s, lens, k, k);
    hide TextAt, BadCut, StuckAt, Skip, Growing;
  }

  lemma TextFirst(s: seq<byte>, lens: seq<nat>, k: nat)
    requires Growing(lens, |s|) && k < |lens| && Waiting(s, lens, k) && Settled(Part(s, lens, k))
    ensures FirstText(s, lens, k)
    ensures forall j | 0 <= j < |lens| && FirstText(s, lens, j) :: j == k
  {
    hide TextAt, BadCut, HasRoot;
    var v := Part(s, lens, k);
    forall j | 0 <= j < k
      ensures TextAt(Part(s, lens, j)).Err? && lens[j] <= |v| && !BadCut(v, 0, lens[j])
    {
      PartsCut(s, lens, j, k);
    }
    hide Part, Growing;
  }

  lemma NeverText(s: seq<byte>, lens: seq<nat>, k: nat)
    requires Growing(lens, |s|) && k < |lens| && Waiting(s, lens, k)
    requires Lost(Part(s, lens, k)) || (lens[k] == |s| && TextAt(s).Err?)
    ensures forall j | 0 <= j < |lens| :: !FirstText(s, lens, j)
  {
    hide TextAt, BadCut;
    var v := Part(s, lens, k);
    PartsCut(s, lens, k, k);
    WholeUncut(v);
    assert TextAt(v).Err?;
    forall j | k < j < |lens|
      ensures !FirstText(s, lens, j)
    {
      PartsCut(s, lens, k, j);
      GrowingFrom(lens, |s|, k, j);
    }
    hide Growing, Part;
  }

  /** Fed all the lengths, one after the other, until a call does not ask for more. */
  ghost predicate FedRight(s: seq<byte>, lens: seq<nat>, r: Fed)
    requires Growing(lens, |s|)
  {
    && (forall k | 0 <= k < |lens| && FirstText(s, lens, k) :: r == Doc(Encode(TextAt(Part(s, lens, k)).v)))
    && ((forall k | 0 <= k < |lens| :: !FirstText(s, lens, k)) ==> r == Error)
  }

  /** A document in parts: its tape, or an error if and only if one of the lengths is a bad cut. */
  ghost predicate DocumentRight(s: seq<byte>, lens: seq<nat>, r: Fed)
    requires Growing(lens, |s|) && TextAt(s).Ok?
  {
    r == if forall k | 0 <= k < |lens| :: !BadCut(s, 0, lens[k]) then Doc(Encode(TextAt(s).v)) else Error
  }

  lemma TextHasBytes(v: seq<byte>)
    requires TextAt(v).Ok?
    ensures Skip(v, 0) < |v|
  {
    if Skip(v, 0) >= |v| {
      NothingYet(v);
    }
    hide TextAt;
  }

  lemma PartHasRoot(v: seq<byte>, s: seq<byte>)
    requires CutOf(v, s) && HasRoot(s) && TextAt(v).Ok?
    ensures HasRoot(v)
  {
    TextHasBytes(v);
    SkipCut(v, s, 0);
    hide Skip, TextAt;
  }

  lemma DocumentFound(s: seq<byte>, lens: seq<nat>, k: nat)
    requires Growing(lens, |s|) && k < |lens| && Waiting(s, lens, k) && Settled(Part(s, lens, k))
    requires HasRoot(s) && TextAt(s).Ok?
    ensures TextAt(s) == TextAt(Part(s, lens, k)) && forall j | 0 <= j < |lens| :: !BadCut(s, 0, lens[j])
  {
    var v := Part(s, lens, k);
    PartsCut(s, lens, k, k);
    PartHasRoot(v, s);
    hide TextAt, BadCut, HasRoot;
    forall j | 0 <= j < |lens|
      ensures !BadCut(s, 0, lens[j])
    {
      PartsCut(s, lens, j, j);
      if k <= j {
        GrowingFrom(lens, |s|, k, j);
      }
    }
  }

  lemma DocumentLost(s: seq<byte>, lens: seq<nat>, k: nat)
    requires Growing(lens, |s|) && k < |lens| && TextAt(s).Ok?
    requires Lost(Part(s, lens, k)) || (lens[k] == |s| && TextAt(s).Err?)
    ensures BadCut(s, 0, lens[k])
  {
    hide TextAt, BadCut;
    PartsCut(s, lens, k, k);
  }

  /**
    Main result: whatever the text is and however it comes, the reader gives the tape of the first part that is
    a text, if no call before it ends at a bad cut, and an error if there is none. A document comes out whole if
    and only if none of the lengths is a bad cut of it.
   */
  method FeedAll(s: seq<byte>, lens: seq<nat>, tables: Tables) returns (r: Fed)
    requires Filled(tables)
    requires Growing(lens, |s|)
    ensures FedRight(s, lens, r)
    ensures HasRoot(s) && TextAt(s).Ok? ==> DocumentRight(s, lens, r)
  {
    hide Encode, TextAt, HasRoot, BadCut, Filled, FirstText, Waiting, Pending, Lost, Settled;
    var state := new IncrState();
    var k := 0;
    NothingWaits(s, lens);
    r := More;
    while r.More?
      invariant 0 <= k <= |lens| && (r.More? ==> k < |lens| && state.Valid() && CutOf(state.seen, s) && Waiting(s, lens, k))
      invariant r.More? && k > 0 ==> |state.seen| <= lens[k - 1]
      invariant r.More? && k == 0 ==> state.seen == []
      invariant !r.More? ==> FedRight(s, lens, r) && (HasRoot(s) && TextAt(s).Ok? ==> DocumentRight(s, lens, r))
      invariant fresh(state) && (state.rd != null ==> fresh(state.rd) && fresh(state.rd.cells))
      decreases |lens| - k, r.More?
    {
      GrowingFrom(lens, |s|, k, k);
      PartsCut(s, lens, k, k);
      r := state.Feed(s, lens[k], tables);
      match r {
        case Doc(_) =>
          TextFirst(s, lens, k);
          if HasRoot(s) && TextAt(s).Ok? {
            DocumentFound(s, lens, k);
          }
        case Error =>
          NeverText(s, lens, k);
          if TextAt(s).Ok? {
            DocumentLost(s, lens, k);
          }
        case More =>
          WaitsOn(s, lens, k, state.mode, state.cur);
        case BadLength =>
      }
      k := k + 1;
    }
  }

  lemma NothingWaits(s: seq<byte>, lens: seq<nat>)
    requires Growing(lens, |s|)
    ensures Waiting(s, lens, 0) && CutOf([], s)
  {
  }
}
