/**
  JSON values as trees, and the flat tape that holds one: every value takes one slot, a container's slot
  comes before those of its children and says how many there are and how far the next value is.
 */
module JsonTree {
  import opened Bytes
  import opened Word64

  /** A value that takes one slot. A real is kept as the bits of its double. */
  datatype Atom =
    | Null
    | Bool(b: bool)
    | Int(negative: bool, raw: u64)
    | Real(bits: u64)
    | Str(bytes: seq<byte>)

  /** A container's children in order; those of an object are its keys and values in turn. */
  datatype Json = Leaf(atom: Atom) | Node(obj: bool, kids: Forest)
  datatype Forest = Nil | Cons(head: Json, tail: Forest)

  datatype Cell = Value(atom: Atom) | Head(obj: bool, len: nat, ofs: nat)

  function Count(f: Forest): nat {
    match f
    case Nil => 0
    case Cons(_, t) => 1 + Count(t)
  }

  /** What a container's slot says of its length: the elements of an array, the pairs of an object. */
  function Length(obj: bool, kids: nat): nat {
    if obj then kids / 2 else kids
  }

  /** The slots of a value, in preorder. */
  function Encode(t: Json): (c: seq<Cell>)
    ensures c != []
  {
    match t
    case Leaf(a) => [Value(a)]
    case Node(obj, kids) =>
      [Head(obj, Length(obj, Count(kids)), 1 + |EncodeForest(kids)|)] + EncodeForest(kids)
  }

  function EncodeForest(f: Forest): seq<Cell> {
    match f
    case Nil => []
    case Cons(h, t) => Encode(h) + EncodeForest(t)
  }

  /** Keys are strings, and every key has a value. */
  predicate Shaped(t: Json) {
    match t
    case Leaf(_) => true
    case Node(true, kids) => ShapedPairs(kids)
    case Node(false, kids) => ShapedItems(kids)
  }

  predicate ShapedItems(f: Forest) {
    match f
    case Nil => true
    case Cons(h, t) => Shaped(h) && ShapedItems(t)
  }

  predicate ShapedPairs(f: Forest) {
    match f
    case Nil => true
    case Cons(k, Nil) => false
    case Cons(k, Cons(v, t)) => k.Leaf? && k.atom.Str? && Shaped(v) && ShapedPairs(t)
  }

  // Children read so far, as a sequence.

  function Attach(kids: seq<Json>, f: Forest): Forest {
    if kids == [] then f else Cons(kids[0], Attach(kids[1..], f))
  }

  function EncodeAll(kids: seq<Json>): seq<Cell> {
    if kids == [] then [] else EncodeAll(kids[..|kids| - 1]) + Encode(kids[|kids| - 1])
  }

  lemma {:induction false} AttachSnoc(kids: seq<Json>, t: Json, f: Forest)
    ensures Attach(kids + [t], f) == Attach(kids, Cons(t, f))
  {
    if kids == [] {
      assert [t][1..] == [];
    } else {
      assert (kids + [t])[1..] == kids[1..] + [t];
      AttachSnoc(kids[1..], t, f);
    }
  }

  lemma {:induction false} CountAttach(kids: seq<Json>, f: Forest)
    ensures Count(Attach(kids, f)) == |kids| + Count(f)
  {
    if kids != [] {
      CountAttach(kids[1..], f);
    }
  }

  lemma EncodeAllSnoc(kids: seq<Json>, t: Json)
    ensures EncodeAll(kids + [t]) == EncodeAll(kids) + Encode(t)
  {
    assert (kids + [t])[..|kids|] == kids;
  }

  lemma {:induction false} EncodeAttach(kids: seq<Json>, f: Forest)
    ensures EncodeForest(Attach(kids, f)) == EncodeAll(kids) + EncodeForest(f)
    decreases |kids|
  {
    if kids == [] {
      assert [] + EncodeForest(f) == EncodeForest(f);
    } else {
      var front, last := kids[..|kids| - 1], kids[|kids| - 1];
      assert kids == front + [last];
      AttachSnoc(front, last, f);
      EncodeAttach(front, Cons(last, f));
      assert EncodeAll(front) + (Encode(last) + EncodeForest(f)) == EncodeAll(front) + Encode(last) + EncodeForest(f);
    }
  }

  // The tape determines the value.

  /** No two values have the same tape. */
  lemma {:induction false} EncodeUnique(t: Json, u: Json, x: seq<Cell>, y: seq<Cell>)
    requires Encode(t) + x == Encode(u) + y && Shaped(t) && Shaped(u)
    ensures t == u && x == y
    decreases t, 1
  {
    assert (Encode(t) + x)[0] == Encode(t)[0] && (Encode(u) + y)[0] == Encode(u)[0];
    if t.Leaf? {
      assert (Encode(t) + x)[1..] == x && (Encode(u) + y)[1..] == y;
    } else {
      assert u.Node?;
      assert (Encode(t) + x)[1..] == EncodeForest(t.kids) + x;
      assert (Encode(u) + y)[1..] == EncodeForest(u.kids) + y;
      SameCount(t, u);
      ShapedKids(t.obj, t.kids);
      ShapedKids(u.obj, u.kids);
      ForestUnique(t.kids, u.kids, x, y);
    }
  }

  lemma {:induction false} PairsEven(f: Forest)
    requires ShapedPairs(f)
    ensures Count(f) % 2 == 0
    decreases f
  {
    match f
    case Nil =>
    case Cons(_, Nil) =>
    case Cons(_, Cons(_, t)) => PairsEven(t);
  }

  lemma SameCount(t: Json, u: Json)
    requires t.Node? && u.Node? && t.obj == u.obj && Shaped(t) && Shaped(u)
    requires Length(t.obj, Count(t.kids)) == Length(u.obj, Count(u.kids))
    ensures Count(t.kids) == Count(u.kids)
  {
    if t.obj {
      PairsEven(t.kids);
      PairsEven(u.kids);
    }
  }

  predicate AllShaped(f: Forest) {
    match f
    case Nil => true
    case Cons(h, t) => Shaped(h) && AllShaped(t)
  }

  lemma {:induction false} ShapedKids(obj: bool, f: Forest)
    requires if obj then ShapedPairs(f) else ShapedItems(f)
    ensures AllShaped(f)
    decreases f
  {
    match f
    case Nil =>
    case Cons(h, t) =>
      if obj {
        ShapedKids(obj, t.tail);
      } else {
        ShapedKids(obj, t);
      }
  }

  lemma {:induction false} ForestUnique(f: Forest, g: Forest, x: seq<Cell>, y: seq<Cell>)
    requires EncodeForest(f) + x == EncodeForest(g) + y && Count(f) == Count(g)
    requires AllShaped(f) && AllShaped(g)
    ensures f == g && x == y
    decreases f, 0
  {
    match f
    case Nil =>
      assert [] + x == x && [] + y == y;
    case Cons(h, t) =>
      assert EncodeForest(f) + x == Encode(h) + (EncodeForest(t) + x);
      assert EncodeForest(g) + y == Encode(g.head) + (EncodeForest(g.tail) + y);
      EncodeUnique(h, g.head, EncodeForest(t) + x, EncodeForest(g.tail) + y);
      ForestUnique(t, g.tail, x, y);
  }
}
