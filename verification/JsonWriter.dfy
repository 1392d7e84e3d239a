/**
  The minify writer: the text grows up from the bottom of one buffer, and the containers still open are
  kept as words that grow down from its top.
 */
module JsonWriter {
  import opened Bytes
  import opened Word64
  import opened Utf8
  import opened Integers
  import opened JsonString
  import opened StringWriter
  import opened JsonTree
  import opened JsonGrammar
  import opened JsonText

  /** The bytes of a word in memory, least significant first. */
  function WordBytes(x: nat, k: nat): (s: seq<byte>)
    ensures |s| == k
  {
    if k == 0 then [] else [x % 256] + WordBytes(x / 256, k - 1)
  }

  function FromBytes(s: seq<byte>): nat {
    if s == [] then 0 else s[0] + 256 * FromBytes(s[1..])
  }

  function Bytes256(k: nat): nat {
    if k == 0 then 1 else 256 * Bytes256(k - 1)
  }

  lemma {:induction false} WordRestored(x: nat, k: nat)
    requires x < Bytes256(k)
    ensures FromBytes(WordBytes(x, k)) == x
  {
    if k > 0 {
      WordRestored(x / 256, k - 1);
      assert WordBytes(x, k)[1..] == WordBytes(x / 256, k - 1);
    }
  }

  lemma EightBytes()
    ensures Bytes256(8) == WORD
  {
    assert Bytes256(4) == 256 * Bytes256(3) && Bytes256(3) == 256 * Bytes256(2) && Bytes256(2) == 256 * Bytes256(1);
    assert Bytes256(6) == 256 * Bytes256(5) && Bytes256(5) == 256 * Bytes256(4);
    assert Bytes256(8) == 256 * Bytes256(7) && Bytes256(7) == 256 * Bytes256(6);
  }

  /** yyjson_write_ctx_set: the count with the current child still in it, and the kind. */
  function Saved(count: nat, obj: bool): (s: seq<byte>)
    ensures |s| == 8
  {
    WordBytes(2 * count + if obj then 1 else 0, 8)
  }

  lemma SavedRestored(count: nat, obj: bool)
    requires 2 * count + 1 < WORD
    ensures FromBytes(Saved(count, obj)) / 2 == count
    ensures (FromBytes(Saved(count, obj)) % 2 == 1) == obj
  {
    EightBytes();
    WordRestored(2 * count + if obj then 1 else 0, 8);
  }

  /** The words of all the open containers. */
  function Contexts(todo: Todo): seq<byte> {
    match todo
    case Bottom => []
    case Frame(obj, rest, below) => Saved(Count(rest) + 1, obj) + Contexts(below)
  }

  lemma FirstEight(tail: seq<byte>, word: seq<byte>, rest: seq<byte>)
    requires tail == word + rest && |word| == 8
    ensures |tail| >= 8 && tail[..8] == word && tail[8..] == rest
  {
  }

  class Buffer {
    var buf: array<byte>
    var cur: nat
    var ctx: nat

    /** The text is at the bottom, the contexts are at the top, and more than `slack` bytes are between them. */
    ghost predicate Holding(out: seq<byte>, todo: Todo, slack: nat)
      reads this, buf
    {
      && cur == |out| && cur + slack < ctx <= buf.Length
      && buf[..cur] == out && buf[ctx..] == Contexts(todo)
    }

    constructor (size: nat)
      requires size >= 64
      ensures Holding([], Bottom, 63) && fresh(buf)
    {
      buf := new byte[size](_ => 0);
      cur, ctx := 0, size;
    }

    /** incr_len: room for `ext` bytes, in a larger buffer with the contexts moved to its top if need be. */
    method Reserve(ext: nat, ghost out: seq<byte>, ghost todo: Todo)
      requires Holding(out, todo, 0)
      modifies this`buf, this`ctx
      ensures Holding(out, todo, ext)
      ensures buf == old(buf) || fresh(buf)
    {
      hide Contexts;
      if cur + ext >= ctx {
        var inc: nat := if buf.Length / 2 > ext then buf.Length / 2 else ext;
        inc := (inc + 7) / 8 * 8;
        Enlarge(inc);
      }
    }

    /** The reallocation: the whole buffer kept, and the contexts once more at the new top. */
    method Enlarge(inc: nat)
      requires cur <= ctx <= buf.Length
      modifies this`buf, this`ctx
      ensures fresh(buf) && buf.Length == old(buf.Length) + inc && ctx == old(ctx) + inc
      ensures buf[..cur] == old(buf[..cur]) && buf[ctx..] == old(buf[ctx..])
    {
      var more := new byte[buf.Length + inc](_ => 0);
      ghost var zeros := more[..];
      Put(more, 0, buf[..]);
      ghost var kept := more[..];
      Put(more, ctx + inc, buf[ctx..]);
      Moved(zeros, kept, more[..], buf[..], cur, ctx, inc);
      buf := more;
      ctx := ctx + inc;
    }

    /** Bytes written at the cursor, of which the first `k` count. */
    method Emit(s: seq<byte>, k: nat, ghost out: seq<byte>, ghost todo: Todo, ghost slack: nat)
      requires Holding(out, todo, slack) && k <= |s| <= slack
      modifies this`cur, buf
      ensures Holding(out + s[..k], todo, slack - k)
    {
      hide Contexts;
      Put(buf, cur, s);
      cur := cur + k;
      assert buf[..cur] == out + s[..k];
    }

    /** What another writer put at the cursor. */
    method Advance(end: nat, ghost was: seq<byte>, ghost s: seq<byte>, ghost limit: nat,
                   ghost out: seq<byte>, ghost todo: Todo, ghost slack: nat)
      requires |was| == buf.Length && cur == |out| && cur + slack < ctx <= buf.Length
      requires was[..cur] == out && was[ctx..] == Contexts(todo)
      requires Wrote(was, buf[..], cur, s, limit) && limit <= cur + slack && end == cur + |s| && |s| <= slack
      modifies this`cur
      ensures Holding(out + s, todo, slack - |s|)
    {
      hide Contexts;
      assert buf[..][limit..] == was[limit..];
      assert buf[ctx..] == buf[..][limit..][ctx - limit..] == was[limit..][ctx - limit..] == was[ctx..];
      cur := end;
    }

    /** yyjson_write_ctx_set(--ctx, ...). */
    method PushContext(count: nat, obj: bool, ghost out: seq<byte>, ghost rest: Forest, ghost todo: Todo, ghost slack: nat)
      requires Holding(out, todo, slack) && slack >= 8 && count == Count(rest) + 1
      modifies this`ctx, buf
      ensures Holding(out, Frame(obj, rest, todo), slack - 8)
    {
      var word := Saved(count, obj);
      hide Saved;
      ctx := ctx - 8;
      Put(buf, ctx, word);
      assert buf[ctx..] == word + Contexts(todo);
    }

    /** yyjson_write_ctx_get(ctx++, ...). */
    method PopContext(ghost out: seq<byte>, ghost o: bool, ghost rest: Forest, ghost below: Todo, ghost slack: nat)
      returns (count: nat, obj: bool)
      requires Holding(out, Frame(o, rest, below), slack) && 2 * Count(rest) + 3 < WORD
      modifies this`ctx
      ensures Holding(out, below, slack + 8) && count == Count(rest) + 1 && obj == o
    {
      ghost var word := Saved(Count(rest) + 1, o);
      SavedRestored(Count(rest) + 1, o);
      ghost var tail := buf[ctx..];
      assert tail == word + Contexts(below);
      hide Saved, Contexts, FromBytes;
      FirstEight(tail, word, Contexts(below));
      assert buf[ctx..ctx + 8] == tail[..8] && buf[ctx + 8..] == tail[8..];
      var tag := FromBytes(buf[ctx..ctx + 8]);
      ctx := ctx + 8;
      return tag / 2, tag % 2 == 1;
    }

    /** The last mark becomes the closing bracket, and a comma follows. */
    method ShutContainer(obj: bool, ghost out: seq<byte>, ghost todo: Todo, ghost slack: nat)
      requires Holding(out, todo, slack) && out != [] && slack > 0
      modifies this`cur, buf
      ensures Holding(Shut(out, obj), todo, slack - 1)
    {
      hide Contexts;
      assert buf[cur - 1] == out[|out| - 1];
      buf[cur - 1] := Close(obj);
      buf[cur] := COMMA;
      cur := cur + 1;
      assert buf[..cur] == Shut(out, obj);
    }

    /** doc_end: the last comma gives way to the terminator. */
    method Finish(ghost text: seq<byte>) returns (s: seq<byte>)
      requires Holding(text + [COMMA], Bottom, 0)
      modifies this`cur, buf
      ensures cur < buf.Length && s == text == buf[..cur] && buf[cur] == 0
    {
      assert buf[..cur - 1] == buf[..cur][..|text|] == text;
      cur := cur - 1;
      buf[cur] := 0;
      s := buf[..cur];
    }

    /** write_num, for integers. */
    method WriteInt(neg: bool, raw: u64, ghost out: seq<byte>, ghost todo: Todo, ghost t: Table)
      requires Holding(out, todo, 40)
      modifies this`cur, buf
      ensures Holding(out + AtomText(t, Int(neg, raw)), todo, 19)
    {
      hide Contexts, Wrote, AtomText;
      ghost var was := buf[..];
      var end := WriteNumber(buf, cur, neg, raw, t);
      Advance(end, was, AtomText(t, Int(neg, raw)), cur + 21, out, todo, 40);
    }
  }

  /** A minus sign if need be, and the digits of the magnitude. */
  method WriteNumber(buf: array<byte>, pos: nat, neg: bool, raw: u64, ghost t: Table) returns (end: nat)
    requires pos + 21 <= buf.Length
    modifies buf
    ensures end == pos + |AtomText(t, Int(neg, raw))| <= pos + 21
    ensures Wrote(old(buf[..]), buf[..], pos, AtomText(t, Int(neg, raw)), pos + 21)
  {
    hide Wrote, Numeral;
    ghost var was := buf[..];
    var sign := neg && 2 * raw >= WORD;
    buf[pos] := MINUS;
    ghost var mid := buf[..];
    end := WriteU64(if sign then (WORD - 1 - raw + 1) % WORD else raw, buf, if sign then pos + 1 else pos);
    SignAndDigits(was, mid, buf[..], pos, neg, raw, t);
  }

  lemma Moved(zeros: seq<byte>, kept: seq<byte>, now: seq<byte>, was: seq<byte>, cur: nat, ctx: nat, inc: nat)
    requires cur <= ctx <= |was| && |zeros| == |was| + inc
    requires kept == Patched(zeros, 0, was) && now == Patched(kept, ctx + inc, was[ctx..])
    ensures now[..cur] == was[..cur] && now[ctx + inc..] == was[ctx..]
  {
  }

  lemma SignAndDigits(was: seq<byte>, mid: seq<byte>, now: seq<byte>, cur: nat, neg: bool, raw: u64, t: Table)
    requires cur + 21 <= |was| && mid == was[cur := MINUS]
    requires var sign := IsNegative(neg, raw);
             Wrote(mid, now, if sign then cur + 1 else cur, Numeral(if sign then (WORD - raw) % WORD else raw),
                   if sign then cur + 21 else cur + 20)
    ensures Wrote(was, now, cur, AtomText(t, Int(neg, raw)), cur + 21)
    ensures |AtomText(t, Int(neg, raw))| <= 21
  {
    hide Numeral;
    if IsNegative(neg, raw) {
      OneByte(was, cur, MINUS, cur + 1);
      WroteThen(was, mid, now, cur, [MINUS], Numeral(WORD - raw), cur + 1, cur + 21);
    } else {
      var s := Numeral(raw);
      assert now[..cur + |s|] == mid[..cur] + s == was[..cur] + s;
      WroteWider(mid, now, cur, s, cur + 20, cur + 21);
      assert mid[cur + 21..] == was[cur + 21..];
    }
  }

  // The whole writer.

  /** No real numbers, and a value for every key. */
  predicate Exact(j: Json) {
    match j
    case Leaf(a) => !a.Real?
    case Node(obj, kids) => (obj ==> Count(kids) % 2 == 0) && ExactForest(kids)
  }

  predicate ExactForest(f: Forest) {
    match f
    case Nil => true
    case Cons(h, rest) => Exact(h) && ExactForest(rest)
  }

  predicate ExactTodo(todo: Todo) {
    match todo
    case Bottom => true
    case Frame(_, r, below) => ExactForest(r) && ExactTodo(below)
  }

  /** All strings are well-formed UTF-8. */
  predicate Writable(j: Json) {
    match j
    case Leaf(Str(bytes)) => WellFormed(bytes)
    case Leaf(_) => true
    case Node(_, kids) => WritableForest(kids)
  }

  predicate WritableForest(f: Forest) {
    match f
    case Nil => true
    case Cons(h, rest) => Writable(h) && WritableForest(rest)
  }

  predicate WritableTodo(todo: Todo) {
    match todo
    case Bottom => true
    case Frame(_, r, below) => WritableForest(r) && WritableTodo(below)
  }

  /** The counts kept in the contexts fit their words. */
  predicate Small(todo: Todo) {
    match todo
    case Bottom => true
    case Frame(_, r, below) => 2 * Count(r) + 3 < WORD && Small(below)
  }

  lemma {:induction false} CountBelow(f: Forest)
    ensures Count(f) <= |EncodeForest(f)|
  {
    match f
    case Nil =>
    case Cons(_, rest) => CountBelow(rest);
  }

  lemma FirstChild(f: Forest)
    requires f.Cons?
    ensures ExactForest(f) <==> Exact(f.head) && ExactForest(f.tail)
    ensures f.head.Leaf? ==> Exact(f.head) == !f.head.atom.Real?
    ensures f.head.Node? ==> Exact(f.head) == (ExactForest(f.head.kids) && (f.head.obj ==> Count(f.head.kids) % 2 == 0))
    ensures WritableForest(f) <==> Writable(f.head) && WritableForest(f.tail)
    ensures f.head.Leaf? ==> Writable(f.head) == (f.head.atom.Str? ==> WellFormed(f.head.atom.bytes))
    ensures f.head.Node? ==> Writable(f.head) == WritableForest(f.head.kids)
  {
    hide WellFormed;
  }

  /** The writer stands before the children `rest` of the innermost container. */
  ghost predicate Standing(t: Table, whole: Json, tape: seq<Cell>, val: nat, out: seq<byte>, obj: bool, rest: Forest,
                           todo: Todo)
  {
    && out != [] && val <= |tape| && 2 * |tape| + 3 < WORD
    && tape[val..] == EncodeForest(rest) + Ahead(todo)
    && Complete(t, out, obj, rest, todo) == Minified(t, whole) + [COMMA]
    && ExactForest(rest) && ExactTodo(todo) && Small(todo)
    && Writable(whole) == (WritableForest(rest) && WritableTodo(todo))
  }

  /** The slots a container's children begin: its length, doubled for an object. */
  function Doubled(c: Cell): nat
    requires c.Head?
  {
    if c.obj then c.len * 2 else c.len
  }

  lemma StandingBegins(t: Table, whole: Json, tape: seq<Cell>)
    requires whole.Node? && whole.kids.Cons? && tape == Encode(whole) && Exact(whole) && 2 * |tape| + 3 < WORD
    ensures tape != [] && tape[0].Head? && tape[0].obj == whole.obj && Doubled(tape[0]) == Count(whole.kids)
    ensures Standing(t, whole, tape, 1, [Open(whole.obj)], whole.obj, whole.kids, Bottom)
  {
    CompleteRoot(t, whole);
    assert tape[1..] == EncodeForest(whole.kids) + [];
  }

  /** After a value of one slot and its mark. */
  lemma StandingLeaf(t: Table, whole: Json, tape: seq<Cell>, val: nat, out: seq<byte>, obj: bool, f: Forest, todo: Todo)
    requires f.Cons? && f.head.Leaf? && Standing(t, whole, tape, val, out, obj, f, todo)
    ensures val < |tape| && tape[val] == Cell.Value(f.head.atom) && !f.head.atom.Real?
    ensures f.head.atom.Str? && !WellFormed(f.head.atom.bytes) ==> !Writable(whole)
    ensures !f.head.atom.Str? || WellFormed(f.head.atom.bytes) ==>
              Standing(t, whole, tape, val + 1, out + (AtomText(t, f.head.atom) + [Mark(obj, f)]), obj, f.tail, todo)
  {
    FirstChild(f);
    AheadLeaf(f, todo);
    CompleteChild(t, out, obj, f, todo);
    hide Encode, EncodeForest, Complete, Ahead, AtomText, Mark;
    assert tape[val..][0] == tape[val] && tape[val..][1..] == tape[val + 1..];
  }

  /** After an empty container and its comma. */
  lemma StandingEmpty(t: Table, whole: Json, tape: seq<Cell>, val: nat, out: seq<byte>, obj: bool, f: Forest, todo: Todo)
    requires f.Cons? && f.head.Node? && f.head.kids.Nil? && Standing(t, whole, tape, val, out, obj, f, todo)
    ensures val < |tape| && tape[val] == Head(f.head.obj, 0, 1)
    ensures Standing(t, whole, tape, val + 1, out + [Open(f.head.obj), Close(f.head.obj), COMMA], obj, f.tail, todo)
  {
    FirstChild(f);
    AheadOpen(f, obj, todo);
    CompleteChild(t, out, obj, f, todo);
    assert [] + Ahead(Frame(obj, f.tail, todo)) == Ahead(Frame(obj, f.tail, todo));
    assert Minified(t, f.head) + [Mark(obj, f)] == [Open(f.head.obj), Close(f.head.obj), COMMA];
    hide Encode, EncodeForest, Complete, Minified, Mark;
    assert tape[val..][0] == tape[val] && tape[val..][1..] == tape[val + 1..];
  }

  /** Inside a container that is not empty. */
  lemma StandingOpen(t: Table, whole: Json, tape: seq<Cell>, val: nat, out: seq<byte>, obj: bool, f: Forest, todo: Todo)
    requires f.Cons? && f.head.Node? && f.head.kids.Cons? && Standing(t, whole, tape, val, out, obj, f, todo)
    ensures val < |tape|
    ensures tape[val].Head? && tape[val].obj == f.head.obj && Doubled(tape[val]) == Count(f.head.kids)
    ensures Standing(t, whole, tape, val + 1, out + [Open(f.head.obj)], f.head.obj, f.head.kids, Frame(obj, f.tail, todo))
  {
    FirstChild(f);
    AheadOpen(f, obj, todo);
    CompleteOpen(t, out, obj, f, todo);
    CountBelow(f);
    assert |EncodeForest(f)| <= |tape[val..]|;
    hide Encode, EncodeForest, Complete, Ahead;
    assert tape[val..][0] == tape[val] && tape[val..][1..] == tape[val + 1..];
  }

  /** After a container is shut. */
  lemma StandingShut(t: Table, whole: Json, tape: seq<Cell>, val: nat, out: seq<byte>, obj: bool, todo: Todo)
    requires Standing(t, whole, tape, val, out, obj, Nil, todo)
    ensures todo.Bottom? ==> Shut(out, obj) == Minified(t, whole) + [COMMA] && Writable(whole)
    ensures todo.Frame? ==>
              2 * Count(todo.rest) + 3 < WORD
              && Standing(t, whole, tape, val, Shut(out, obj), todo.obj, todo.rest, todo.below)
  {
    match todo
    case Bottom => CompleteEnd(t, out, obj);
    case Frame(o, r, below) =>
      CompleteShut(t, out, obj, o, r, below);
      assert [] + Ahead(todo) == Ahead(todo);
  }

  lemma ContextsLength(todo: Todo)
    ensures |Contexts(todo)| == 0 <==> todo.Bottom?
  {
  }

  const NULL8: seq<byte> := [110, 117, 108, 108, 44, 10, 0, 0]
  const TRUE8: seq<byte> := [116, 114, 117, 101, 44, 10, 0, 0]
  const FALSE8: seq<byte> := [102, 97, 108, 115, 101, 44, 10, 0]

  lemma LiteralTexts(t: Table)
    ensures NULL8[..5] == AtomText(t, Null) + [COMMA] && TRUE8[..5] == AtomText(t, Bool(true)) + [COMMA]
    ensures FALSE8[..6] == AtomText(t, Bool(false)) + [COMMA]
  {
  }

  /** A value of one slot and its mark; false when it is a string that is not well formed. */
  method WriteLeaf(b: Buffer, a: Atom, mark: byte, t: Table, ghost out: seq<byte>, ghost todo: Todo) returns (ok: bool)
    requires b.Holding(out, todo, 7) && !a.Real? && (mark != COMMA ==> a.Str?)
    modifies b, b.buf
    ensures b.buf == old(b.buf) || fresh(b.buf)
    ensures ok <==> (a.Str? ==> WellFormed(a.bytes))
    ensures ok ==> b.Holding(out + (AtomText(t, a) + [mark]), todo, 7)
  {
    match a
    case Str(bytes) =>
      ok := WriteString(b, bytes, mark, t, out, todo);
    case Int(neg, raw) =>
      hide Contexts, AtomText;
      b.Reserve(40, out, todo);
      b.WriteInt(neg, raw, out, todo, t);
      b.Emit([mark], 1, out + AtomText(t, a), todo, 19);
      assert out + AtomText(t, a) + [mark] == out + (AtomText(t, a) + [mark]);
      ok := true;
    case Bool(v) =>
      LiteralTexts(t);
      hide Contexts;
      b.Reserve(16, out, todo);
      b.Emit(if v then TRUE8 else FALSE8, if v then 5 else 6, out, todo, 16);
      ok := true;
    case Null =>
      LiteralTexts(t);
      hide Contexts;
      b.Reserve(16, out, todo);
      b.Emit(NULL8, 5, out, todo, 16);
      ok := true;
  }

  method WriteString(b: Buffer, bytes: seq<byte>, mark: byte, t: Table, ghost out: seq<byte>, ghost todo: Todo)
    returns (ok: bool)
    requires b.Holding(out, todo, 7)
    modifies b, b.buf
    ensures b.buf == old(b.buf) || fresh(b.buf)
    ensures ok <==> WellFormed(bytes)
    ensures ok ==> b.Holding(out + (AtomText(t, Str(bytes)) + [mark]), todo, 7)
  {
    hide Contexts, Escaped, WellFormed, Wrote;
    b.Reserve(|bytes| * 6 + 16, out, todo);
    ghost var was := b.buf[..];
    var end := WriteStr(b.buf, b.cur, bytes, t);
    if end.None? {
      return false;
    }
    EscapedLength(t, bytes, 0);
    ghost var s := AtomText(t, Str(bytes));
    b.Advance(end.value, was, s, b.cur + |bytes| * 6 + 2, out, todo, |bytes| * 6 + 16);
    b.Emit([mark], 1, out + s, todo, 7 + 1);
    assert out + s + [mark] == out + (s + [mark]);
    return true;
  }

  /** The ctn_end loop: containers without children left are shut, and their parents' counts taken back. */
  method CloseAll(b: Buffer, t: Table, ghost whole: Json, tape: seq<Cell>, val: nat, kind: bool, ghost before: seq<byte>,
                  ghost around: Todo)
    returns (done: bool, count: nat, obj: bool, ghost out: seq<byte>, ghost rest: Forest, ghost todo: Todo)
    requires b.Holding(before, around, 7) && Standing(t, whole, tape, val, before, kind, Nil, around)
    modifies b, b.buf
    ensures b.buf == old(b.buf)
    ensures done ==> Writable(whole) && out == Minified(t, whole) + [COMMA] && b.Holding(out, Bottom, 0)
    ensures !done ==>
              && rest.Cons? && count == Count(rest) && b.Holding(out, todo, 7)
              && Standing(t, whole, tape, val, out, obj, rest, todo)
  {
    hide Contexts, Complete, Writable, EncodeForest;
    out, todo, obj, rest := before, around, kind, Nil;
    count := 0;
    while count == 0
      invariant b.buf == old(b.buf) && count == Count(rest)
      invariant b.Holding(out, todo, 7) && Standing(t, whole, tape, val, out, obj, rest, todo)
      decreases todo, count == 0
    {
      StandingShut(t, whole, tape, val, out, obj, todo);
      b.ShutContainer(obj, out, todo, 7);
      out := Shut(out, obj);
      ContextsLength(todo);
      if b.ctx >= b.buf.Length {
        return true, 0, obj, out, rest, todo;
      }
      count, obj := b.PopContext(out, todo.obj, todo.rest, todo.below, 6);
      count := count - 1;
      rest, todo := todo.rest, todo.below;
    }
    done := false;
  }

  /** yyjson_write_minify: the text of the tape's value, unless some string is not well formed. */
  method WriteMinify(tape: seq<Cell>, t: Table, ghost whole: Json) returns (r: Option<seq<byte>>)
    requires whole.Node? && whole.kids.Cons? && tape == Encode(whole) && Exact(whole) && 2 * |tape| + 3 < WORD
    ensures r.Some? <==> Writable(whole)
    ensures r.Some? ==> r.value == Minified(t, whole)
  {
    StandingBegins(t, whole, tape);
    hide Contexts, Encode, EncodeForest, Complete, Ahead, Minified, Standing, Writable, Exact;
    var b := new Buffer((|tape| * 18 + 64 + 7) / 8 * 8);
    var obj := tape[0].obj;
    var count: nat := Doubled(tape[0]);
    b.Emit([Open(obj)], 1, [], Bottom, 63);
    var val: nat := 1;
    ghost var out, rest, todo := [Open(obj)], whole.kids, Bottom;
    assert [] + [Open(obj)][..1] == [Open(obj)];
    var turn := More;
    while turn.More?
      invariant fresh(b) && fresh(b.buf)
      invariant turn.More? ==>
        && rest.Cons? && count == Count(rest) && b.Holding(out, todo, 7)
        && Standing(t, whole, tape, val, out, obj, rest, todo)
      invariant turn.Ended? ==> Writable(whole) && b.Holding(Minified(t, whole) + [COMMA], Bottom, 0)
      invariant turn.IllFormed? ==> !Writable(whole)
      decreases turn.More?, |tape| - val
    {
      turn, count, obj, out, rest, todo := WriteNext(b, tape, val, count, obj, t, whole, out, rest, todo);
      val := val + 1;
    }
    if turn.IllFormed? {
      return None;
    }
    var s := b.Finish(Minified(t, whole));
    return Some(s);
  }

  datatype Turn = More | Ended | IllFormed

  /** One slot, and the closing brackets it may bring on. */
  method WriteNext(b: Buffer, tape: seq<Cell>, val: nat, count: nat, obj: bool, t: Table, ghost whole: Json,
                   ghost out: seq<byte>, ghost f: Forest, ghost todo: Todo)
    returns (turn: Turn, count': nat, obj': bool, ghost out': seq<byte>, ghost f': Forest, ghost todo': Todo)
    requires f.Cons? && count == Count(f) && b.Holding(out, todo, 7)
    requires Standing(t, whole, tape, val, out, obj, f, todo)
    modifies b, b.buf
    ensures b.buf == old(b.buf) || fresh(b.buf)
    ensures turn.More? ==>
              && val < |tape| && f'.Cons? && count' == Count(f') && b.Holding(out', todo', 7)
              && Standing(t, whole, tape, val + 1, out', obj', f', todo')
    ensures turn.Ended? ==> Writable(whole) && b.Holding(Minified(t, whole) + [COMMA], Bottom, 0)
    ensures turn.IllFormed? ==> !Writable(whole)
  {
    hide Contexts, Encode, EncodeForest, Complete, Ahead, Minified, Standing, Writable, Exact;
    var ok: bool;
    ok, count', obj', out', f', todo' := WriteOne(b, tape, val, count, obj, t, whole, out, f, todo);
    if !ok {
      turn := IllFormed;
      return;
    }
    StandingWithin(t, whole, tape, val + 1, out', obj', f', todo');
    turn := More;
    if count' == 0 {
      var done: bool;
      done, count', obj', out', f', todo' := CloseAll(b, t, whole, tape, val + 1, obj', out', todo');
      turn := if done then Ended else More;
    }
  }

  lemma StandingWithin(t: Table, whole: Json, tape: seq<Cell>, val: nat, out: seq<byte>, obj: bool, rest: Forest,
                       todo: Todo)
    requires Standing(t, whole, tape, val, out, obj, rest, todo)
    ensures val <= |tape| && (Count(rest) == 0 ==> rest == Nil)
  {
  }

  /** One slot: a value with its mark, an empty container, or the beginning of one that is not. */
  method WriteOne(b: Buffer, tape: seq<Cell>, val: nat, count: nat, obj: bool, t: Table, ghost whole: Json,
                  ghost out: seq<byte>, ghost f: Forest, ghost todo: Todo)
    returns (ok: bool, count': nat, obj': bool, ghost out': seq<byte>, ghost f': Forest, ghost todo': Todo)
    requires f.Cons? && count == Count(f) && b.Holding(out, todo, 7)
    requires Standing(t, whole, tape, val, out, obj, f, todo)
    modifies b, b.buf
    ensures b.buf == old(b.buf) || fresh(b.buf)
    ensures !ok ==> !Writable(whole)
    ensures ok ==>
              && count' == Count(f') && b.Holding(out', todo', 7)
              && Standing(t, whole, tape, val + 1, out', obj', f', todo')
  {
    hide Contexts, Encode, EncodeForest, Complete, Ahead, Minified, Standing, Writable, Exact, AtomText;
    count', obj', out', f', todo' := count - 1, obj, out, f.tail, todo;
    if f.head.Leaf? {
      StandingLeaf(t, whole, tape, val, out, obj, f, todo);
    } else if f.head.kids.Nil? {
      StandingEmpty(t, whole, tape, val, out, obj, f, todo);
    } else {
      StandingOpen(t, whole, tape, val, out, obj, f, todo);
    }
    match tape[val]
    case Value(a) =>
      var mark := if obj && count % 2 == 0 && a.Str? then COLON else COMMA;
      ok := WriteLeaf(b, a, mark, t, out, todo);
      out' := out + (AtomText(t, a) + [mark]);
    case Head(o, len, _) =>
      ok := true;
      b.Reserve(16, out, todo);
      if len == 0 {
        out' := out + [Open(o), Close(o), COMMA];
        b.Emit([Open(o), Close(o), COMMA], 3, out, todo, 16);
      } else {
        b.PushContext(count, obj, out, f.tail, todo, 16);
        out', f', todo' := out + [Open(o)], f.head.kids, Frame(obj, f.tail, todo);
        b.Emit([Open(o)], 1, out, todo', 8);
        count', obj' := Doubled(tape[val]), o;
      }
  }

  // ---------------------------------------------------------------------------------------
  // Values of one slot
  // ---------------------------------------------------------------------------------------

  /** Eight bytes of which the first few count, as the literals are written. */
  method WriteWord(buf: array<byte>, word: seq<byte>)
    requires |word| == 8 <= buf.Length
    modifies buf
    ensures buf[..8] == word
  {
    var k := 0;
    while k < 8
      invariant k <= 8 && buf[..k] == word[..k]
    {
      buf[k] := word[k];
      k := k + 1;
    }
    assert word[..8] == word;
  }

  /** The text ends with a zero in place of what was written behind it. */
  method EndText(buf: array<byte>, end: nat) returns (s: seq<byte>)
    requires end < buf.Length
    modifies buf
    ensures s == old(buf[..end]) == buf[..end] && buf[end] == 0
  {
    buf[end] := 0;
    s := buf[..end];
    assert buf[..end] == old(buf[..end]);
  }

  lemma WroteFirst(was: seq<byte>, now: seq<byte>, s: seq<byte>, limit: nat)
    requires Wrote(was, now, 0, s, limit)
    ensures |s| <= limit <= |now| && now[..|s|] == s
  {
  }

  /** One slot is a leaf, or a container without children. */
  lemma SingleIs(c: Cell, whole: Json)
    requires [c] == Encode(whole)
    ensures match c case Value(a) => whole == Leaf(a) case Head(obj, _, _) => whole == Node(obj, Nil)
  {
    assert Encode(whole)[0] == c;
    if whole.Node? {
      NoSlots(whole.kids);
    }
  }

  lemma NoSlots(f: Forest)
    ensures EncodeForest(f) == [] ==> f.Nil?
  {
    assert f.Cons? ==> |Encode(f.head)| > 0;
  }

  lemma WordTexts(t: Table)
    ensures NULL8[..4] == AtomText(t, Null) && TRUE8[..4] == AtomText(t, Bool(true)) && FALSE8[..5] == AtomText(t, Bool(false))
  {
  }

  /** yyjson_write_single: a value of one slot, an empty container among them. */
  method WriteSingle(c: Cell, t: Table, ghost whole: Json) returns (r: Option<seq<byte>>)
    requires [c] == Encode(whole) && Exact(whole)
    ensures r.Some? <==> Writable(whole)
    ensures r.Some? ==> r.value == Minified(t, whole)
  {
    WordTexts(t);
    SingleIs(c, whole);
    hide Encode, EncodeForest, Wrote, Escaped, WellFormed, Numeral;
    var buf: array<byte>;
    var s: seq<byte>;
    match c {
      case Head(obj, _, _) =>
        buf := new byte[4];
        buf[0], buf[1] := Open(obj), Close(obj);
        s := EndText(buf, 2);
      case Value(Str(bytes)) =>
        buf := new byte[|bytes| * 6 + 4];
        ghost var was := buf[..];
        var end := WriteStr(buf, 0, bytes, t);
        if end.None? {
          return None;
        }
        EscapedLength(t, bytes, 0);
        WroteFirst(was, buf[..], AtomText(t, Str(bytes)), |bytes| * 6 + 2);
        s := EndText(buf, end.value);
      case Value(Int(neg, raw)) =>
        buf := new byte[42];
        ghost var was := buf[..];
        var end := WriteNumber(buf, 0, neg, raw, t);
        WroteFirst(was, buf[..], AtomText(t, Int(neg, raw)), 21);
        s := EndText(buf, end);
      case Value(Bool(v)) =>
        buf := new byte[8];
        WriteWord(buf, if v then TRUE8 else FALSE8);
        s := EndText(buf, if v then 4 else 5);
      case Value(Null) =>
        buf := new byte[8];
        WriteWord(buf, NULL8);
        s := EndText(buf, 4);
    }
    return Some(s);
  }

  /** yyjson_val_write_opts without flags: a value of one slot is written on its own. */
  method WriteValue(tape: seq<Cell>, t: Table, ghost whole: Json) returns (r: Option<seq<byte>>)
    requires tape == Encode(whole) && Exact(whole) && 2 * |tape| + 3 < WORD
    ensures r.Some? <==> Writable(whole)
    ensures r.Some? ==> r.value == Minified(t, whole)
  {
    RootSlot(tape, whole);
    hide Encode, Exact, Writable, Minified;
    if tape[0].Value? || tape[0].len == 0 {
      r := WriteSingle(tape[0], t, whole);
    } else {
      r := WriteMinify(tape, t, whole);
    }
  }

  lemma RootSlot(tape: seq<Cell>, whole: Json)
    requires tape == Encode(whole) && Exact(whole)
    ensures if tape[0].Value? || tape[0].len == 0 then tape == [tape[0]] else whole.Node? && whole.kids.Cons?
  {
    if whole.Node? && whole.kids.Cons? {
      CountBelow(whole.kids);
    }
  }
}
