/** The minified text of a value, and how the writer gets to it one slot at a time. */
module JsonText {
  import opened Bytes
  import opened Word64
  import opened Integers
  import opened JsonString
  import opened JsonTree
  import opened JsonGrammar

  /** The text between the quotes; nothing for ill-formed bytes, which the writer refuses. */
  function Content(t: Table, bytes: seq<byte>): seq<byte> {
    match Escaped(t, bytes, 0)
    case None => []
    case Some(e) => e
  }

  predicate IsNegative(negative: bool, raw: u64) {
    negative && 2 * raw >= WORD
  }

  /** The text of a value of one slot. Real numbers are never printed here. */
  function AtomText(t: Table, a: Atom): (s: seq<byte>) {
    match a
    case Null => NULL
    case Bool(true) => TRUE
    case Bool(false) => FALSE
    case Int(neg, raw) => if IsNegative(neg, raw) then [MINUS] + Numeral(WORD - raw) else Numeral(raw)
    case Real(_) => []
    case Str(bytes) => [QUOTE] + Content(t, bytes) + [QUOTE]
  }

  /** The mark after a child: a colon after the string in a key's place, and else a comma. */
  function Mark(obj: bool, f: Forest): byte
    requires f.Cons?
  {
    if obj && Count(f) % 2 == 0 && f.head.Leaf? && f.head.atom.Str? then COLON else COMMA
  }

  function Minified(t: Table, j: Json): (s: seq<byte>)
    decreases j
  {
    match j
    case Leaf(a) => AtomText(t, a)
    case Node(obj, Nil) => [Open(obj), Close(obj)]
    case Node(obj, kids) =>
      var items := Items(t, obj, kids);
      [Open(obj)] + items[..|items| - 1] + [Close(obj)]
  }

  /** The children, each followed by its mark. */
  function Items(t: Table, obj: bool, f: Forest): (s: seq<byte>)
    ensures f.Cons? ==> |s| > 0
    decreases f
  {
    match f
    case Nil => []
    case Cons(h, rest) => Minified(t, h) + [Mark(obj, f)] + Items(t, obj, rest)
  }

  /** The containers still open around the current one, with the children not yet written. */
  datatype Todo = Bottom | Frame(obj: bool, rest: Forest, below: Todo)

  /** The mark after the last child becomes the closing bracket, and a comma follows. */
  function Shut(out: seq<byte>, obj: bool): seq<byte>
    requires out != []
  {
    out[..|out| - 1] + [Close(obj), COMMA]
  }

  /** The text in the end, and a comma, when `out` is written and these children remain. */
  function Complete(t: Table, out: seq<byte>, obj: bool, rest: Forest, todo: Todo): seq<byte>
    requires out != []
    decreases todo
  {
    var all := Shut(out + Items(t, obj, rest), obj);
    match todo
    case Bottom => all
    case Frame(o, r, below) => Complete(t, all, o, r, below)
  }

  lemma CompleteChild(t: Table, out: seq<byte>, obj: bool, f: Forest, todo: Todo)
    requires out != [] && f.Cons?
    ensures Complete(t, out, obj, f, todo)
         == Complete(t, out + (Minified(t, f.head) + [Mark(obj, f)]), obj, f.tail, todo)
  {
    hide Minified, Shut;
    assert out + Items(t, obj, f) == out + (Minified(t, f.head) + [Mark(obj, f)]) + Items(t, obj, f.tail);
  }

  lemma CompleteOpen(t: Table, out: seq<byte>, obj: bool, f: Forest, todo: Todo)
    requires out != [] && f.Cons? && f.head.Node? && f.head.kids.Cons?
    ensures Complete(t, out, obj, f, todo)
         == Complete(t, out + [Open(f.head.obj)], f.head.obj, f.head.kids, Frame(obj, f.tail, todo))
  {
    var (o, kids) := (f.head.obj, f.head.kids);
    var items := Items(t, o, kids);
    hide Items;
    assert Shut(out + [Open(o)] + items, o) == out + (Minified(t, f.head) + [COMMA]);
    CompleteChild(t, out, obj, f, todo);
  }

  lemma CompleteShut(t: Table, out: seq<byte>, obj: bool, o: bool, r: Forest, below: Todo)
    requires out != []
    ensures Complete(t, out, obj, Nil, Frame(o, r, below)) == Complete(t, Shut(out, obj), o, r, below)
  {
    assert out + [] == out;
  }

  lemma CompleteEnd(t: Table, out: seq<byte>, obj: bool)
    requires out != []
    ensures Complete(t, out, obj, Nil, Bottom) == Shut(out, obj)
  {
    assert out + [] == out;
  }

  lemma CompleteRoot(t: Table, j: Json)
    requires j.Node? && j.kids.Cons?
    ensures Complete(t, [Open(j.obj)], j.obj, j.kids, Bottom) == Minified(t, j) + [COMMA]
  {
    var items := Items(t, j.obj, j.kids);
    hide Items;
    assert Shut([Open(j.obj)] + items, j.obj) == Minified(t, j) + [COMMA];
  }

  // The slots still to visit.

  function Ahead(todo: Todo): seq<Cell> {
    match todo
    case Bottom => []
    case Frame(_, r, below) => EncodeForest(r) + Ahead(below)
  }

  function Depth(todo: Todo): nat {
    match todo
    case Bottom => 0
    case Frame(_, _, below) => 1 + Depth(below)
  }

  lemma AheadChild(f: Forest, todo: Todo)
    requires f.Cons?
    ensures EncodeForest(f) + Ahead(todo) == Encode(f.head) + (EncodeForest(f.tail) + Ahead(todo))
  {
  }

  lemma AheadOpen(f: Forest, obj: bool, todo: Todo)
    requires f.Cons? && f.head.Node?
    ensures var ahead := EncodeForest(f) + Ahead(todo);
            && ahead != [] && ahead[0] == Head(f.head.obj, Length(f.head.obj, Count(f.head.kids)), 1 + |EncodeForest(f.head.kids)|)
            && ahead[1..] == EncodeForest(f.head.kids) + Ahead(Frame(obj, f.tail, todo))
  {
    var c := Encode(f.head);
    assert c[1..] == EncodeForest(f.head.kids);
    hide Encode, EncodeForest;
    AheadChild(f, todo);
    assert (c + (EncodeForest(f.tail) + Ahead(todo)))[1..] == c[1..] + (EncodeForest(f.tail) + Ahead(todo));
  }

  lemma AheadLeaf(f: Forest, todo: Todo)
    requires f.Cons? && f.head.Leaf?
    ensures var ahead := EncodeForest(f) + Ahead(todo);
            ahead != [] && ahead[0] == Cell.Value(f.head.atom) && ahead[1..] == EncodeForest(f.tail) + Ahead(todo)
  {
    hide EncodeForest;
    AheadChild(f, todo);
    assert ([Cell.Value(f.head.atom)] + (EncodeForest(f.tail) + Ahead(todo)))[1..] == EncodeForest(f.tail) + Ahead(todo);
  }
}
