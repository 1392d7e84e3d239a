/**
  Mutable documents: the children of a container form a circular list, and the container points at its last
  child, or at its last key. The links are indices into a pool of values.
 */
module MutTree {
  import opened Bytes
  import opened JsonTree

  datatype Tag = Single(atom: Atom) | Container(obj: bool, len: nat)

  datatype MutVal = MutVal(tag: Tag, ptr: nat, next: nat)

  function Prefix(f: Forest, n: nat): Forest {
    if n == 0 || f.Nil? then Nil else Cons(f.head, Prefix(f.tail, n - 1))
  }

  function Suffix(f: Forest, n: nat): Forest {
    if n == 0 || f.Nil? then f else Suffix(f.tail, n - 1)
  }

  function Append(f: Forest, g: Forest): Forest {
    match f
    case Nil => g
    case Cons(h, t) => Cons(h, Append(t, g))
  }

  lemma {:induction false} SplitForest(f: Forest, n: nat)
    ensures Append(Prefix(f, n), Suffix(f, n)) == f
    ensures |EncodeForest(f)| == |EncodeForest(Prefix(f, n))| + |EncodeForest(Suffix(f, n))|
    ensures n <= Count(f) ==> Count(Prefix(f, n)) == n && Count(Suffix(f, n)) == Count(f) - n
  {
    if n > 0 && f.Cons? {
      SplitForest(f.tail, n - 1);
    }
  }

  /** How many children the pointer of a container leaves to the end: the last one, or the last pair. */
  function Group(obj: bool): nat {
    if obj then 2 else 1
  }

  /** The child after the last. */
  function First(pool: seq<MutVal>, obj: bool, last: nat): nat
    requires last < |pool|
  {
    var next := pool[last].next;
    if obj && next < |pool| then pool[next].next else next
  }

  function TagOf(j: Json): Tag {
    match j
    case Leaf(a) => Single(a)
    case Node(obj, kids) => Container(obj, Length(obj, Count(kids)))
  }

  /** The value at `i` of the pool is `j`. */
  ghost predicate Represents(pool: seq<MutVal>, i: nat, j: Json)
    decreases |Encode(j)|, 0
  {
    && i < |pool| && pool[i].tag == TagOf(j)
    && (j.Node? && j.kids.Cons? ==>
         Count(j.kids) >= Group(j.obj)
         && var n := Count(j.kids) - Group(j.obj);
            SplitForest(j.kids, n);
            var last := pool[i].ptr;
            && last < |pool|
            && Chain(pool, Suffix(j.kids, n), last, First(pool, j.obj, last))
            && Chain(pool, Prefix(j.kids, n), First(pool, j.obj, last), last))
  }

  /** The values from `p` on, each the next of the one before, are those of `f`, and `stop` comes after them. */
  ghost predicate Chain(pool: seq<MutVal>, f: Forest, p: nat, stop: nat)
    decreases |EncodeForest(f)|, 1
  {
    match f
    case Nil => p == stop
    case Cons(h, t) => Represents(pool, p, h) && Chain(pool, t, pool[p].next, stop)
  }

  lemma {:induction false} ChainJoins(pool: seq<MutVal>, f: Forest, g: Forest, p: nat, m: nat, stop: nat)
    requires Chain(pool, f, p, m) && Chain(pool, g, m, stop)
    ensures Chain(pool, Append(f, g), p, stop)
    decreases f
  {
    if f.Cons? {
      ChainJoins(pool, f.tail, g, pool[p].next, m, stop);
    }
  }

  /** The bytes of the strings of a value, each with its terminator. */
  function StrBytes(j: Json): nat
    decreases j
  {
    match j
    case Leaf(Str(bytes)) => |bytes| + 1
    case Leaf(_) => 0
    case Node(_, kids) => StrBytesOf(kids)
  }

  function StrBytesOf(f: Forest): nat
    decreases f
  {
    match f
    case Nil => 0
    case Cons(h, t) => StrBytes(h) + StrBytesOf(t)
  }

  lemma {:induction false} AppendSums(f: Forest, g: Forest)
    ensures StrBytesOf(Append(f, g)) == StrBytesOf(f) + StrBytesOf(g)
    ensures |EncodeForest(Append(f, g))| == |EncodeForest(f)| + |EncodeForest(g)|
    ensures Count(Append(f, g)) == Count(f) + Count(g)
    decreases f
  {
    if f.Cons? {
      AppendSums(f.tail, g);
    }
  }

  /** From the first child on, and from the pointed-to child on, the list goes round once. */
  lemma Circles(pool: seq<MutVal>, i: nat, j: Json)
    requires Represents(pool, i, j) && j.Node? && j.kids.Cons?
    ensures var last := pool[i].ptr; var n := Count(j.kids) - Group(j.obj);
            && Count(j.kids) >= Group(j.obj) && last < |pool| && (j.obj ==> pool[last].next < |pool|)
            && Chain(pool, j.kids, First(pool, j.obj, last), First(pool, j.obj, last))
            && Chain(pool, Append(Suffix(j.kids, n), Prefix(j.kids, n)), last, last)
  {
    var n := Count(j.kids) - Group(j.obj);
    var last := pool[i].ptr;
    SplitForest(j.kids, n);
    var first := First(pool, j.obj, last);
    GroupEnds(pool, j.obj, Suffix(j.kids, n), last, first);
    ChainJoins(pool, Prefix(j.kids, n), Suffix(j.kids, n), first, last, first);
    ChainJoins(pool, Suffix(j.kids, n), Prefix(j.kids, n), last, first, last);
  }

  lemma LengthOf(j: Json)
    requires Shaped(j) && j.Node?
    ensures (if j.obj then Length(j.obj, Count(j.kids)) * 2 else Length(j.obj, Count(j.kids))) == Count(j.kids)
    ensures AllShaped(j.kids)
  {
    ShapedKids(j.obj, j.kids);
    if j.obj {
      PairsEven(j.kids);
    }
  }

  lemma {:induction false} RotatedShaped(f: Forest, g: Forest)
    requires AllShaped(Append(f, g))
    ensures AllShaped(f) && AllShaped(g)
    decreases f
  {
    if f.Cons? {
      RotatedShaped(f.tail, g);
    }
  }

  lemma {:induction false} AppendShaped(f: Forest, g: Forest)
    requires AllShaped(f) && AllShaped(g)
    ensures AllShaped(Append(f, g))
    decreases f
  {
    if f.Cons? {
      AppendShaped(f.tail, g);
    }
  }

  /** What the list from the pointed-to child on holds in all. */
  lemma RotatedSums(j: Json)
    requires Shaped(j) && j.Node? && Count(j.kids) >= Group(j.obj)
    ensures var n := Count(j.kids) - Group(j.obj); var f := Append(Suffix(j.kids, n), Prefix(j.kids, n));
            && AllShaped(f) && Count(f) == Count(j.kids)
            && |EncodeForest(f)| == |EncodeForest(j.kids)| && StrBytesOf(f) == StrBytesOf(j.kids)
  {
    var n := Count(j.kids) - Group(j.obj);
    SplitForest(j.kids, n);
    AppendSums(Prefix(j.kids, n), Suffix(j.kids, n));
    AppendSums(Suffix(j.kids, n), Prefix(j.kids, n));
    LengthOf(j);
    RotatedShaped(Prefix(j.kids, n), Suffix(j.kids, n));
    AppendShaped(Suffix(j.kids, n), Prefix(j.kids, n));
  }

  lemma SingleSums(a: Atom)
    ensures |Encode(Leaf(a))| == 1
    ensures StrBytes(Leaf(a)) == if a.Str? then |a.bytes| + 1 else 0
  {
  }

  /** yyjson_mut_stat: the slots and string bytes of a value, added to the totals. */
  method Stat(pool: array<MutVal>, i: nat, ghost j: Json, vals: nat, strs: nat) returns (vals': nat, strs': nat)
    requires Represents(pool[..], i, j) && Shaped(j)
    ensures vals' == vals + |Encode(j)| && strs' == strs + StrBytes(j)
    decreases |Encode(j)|, 0
  {
    vals', strs' := vals + 1, strs;
    match pool[i].tag
    case Container(obj, length) =>
      LengthOf(j);
      var child := pool[i].ptr;
      var len := if obj then length * 2 else length;
      vals' := vals' + len;
      if len > 0 {
        Circles(pool[..], i, j);
        RotatedSums(j);
        ghost var n := Count(j.kids) - Group(j.obj);
        vals', strs' := StatList(pool, child, Append(Suffix(j.kids, n), Prefix(j.kids, n)), child, len, vals', strs');
      } else {
        assert j.kids.Nil?;
      }
    case Single(a) =>
      SingleSums(a);
      if a.Str? {
        strs' := strs' + |a.bytes| + 1;
      }
  }

  /** The loop of yyjson_mut_stat: the slot of a child has been counted with the length. */
  method StatList(pool: array<MutVal>, start: nat, ghost f: Forest, ghost stop: nat, len: nat, vals: nat, strs: nat)
    returns (vals': nat, strs': nat)
    requires Chain(pool[..], f, start, stop) && AllShaped(f) && len == Count(f)
    ensures vals' == vals + |EncodeForest(f)| - Count(f) && strs' == strs + StrBytesOf(f)
    decreases |EncodeForest(f)|, 1
  {
    var child, k := start, 0;
    ghost var rest := f;
    vals', strs' := vals, strs;
    while k < len
      invariant k <= len && Count(rest) == len - k && |EncodeForest(rest)| <= |EncodeForest(f)|
      invariant Chain(pool[..], rest, child, stop) && AllShaped(rest)
      invariant vals' + |EncodeForest(rest)| - Count(rest) == vals + |EncodeForest(f)| - Count(f)
      invariant strs' + StrBytesOf(rest) == strs + StrBytesOf(f)
    {
      match pool[child].tag {
        case Single(a) =>
          SingleSums(a);
          if a.Str? {
            strs' := strs' + |a.bytes| + 1;
          }
        case Container(_, _) =>
          vals', strs' := Stat(pool, child, rest.head, vals', strs');
          vals' := vals' - 1;
      }
      child := pool[child].next;
      rest := rest.tail;
      k := k + 1;
    }
  }

  // Back to a tape.

  /** A string and its terminator in the string pool. */
  function Terminated(bytes: seq<byte>): seq<byte> {
    bytes + [0]
  }

  /** The strings of a value, one after another. */
  function Strings(j: Json): (s: seq<byte>)
    decreases j
  {
    match j
    case Leaf(Str(bytes)) => Terminated(bytes)
    case Leaf(_) => []
    case Node(_, kids) => StringsOf(kids)
  }

  function StringsOf(f: Forest): seq<byte>
    decreases f
  {
    match f
    case Nil => []
    case Cons(h, t) => Strings(h) + StringsOf(t)
  }

  lemma {:induction false} StringsLength(j: Json)
    ensures |Strings(j)| == StrBytes(j)
    decreases j, 1
  {
    if j.Node? {
      StringsOfLength(j.kids);
    }
  }

  /** A string somewhere in the tree, as a value or as a key. */
  predicate HasString(j: Json, bytes: seq<byte>)
    decreases j
  {
    match j
    case Leaf(a) => a == Str(bytes)
    case Node(_, kids) => ListHasString(kids, bytes)
  }

  predicate ListHasString(f: Forest, bytes: seq<byte>)
    decreases f
  {
    f.Cons? && (HasString(f.head, bytes) || ListHasString(f.tail, bytes))
  }

  /** Each of them stands in the text of the strings, with a zero byte behind it. */
  lemma {:induction false} StringsStand(j: Json, bytes: seq<byte>)
    requires HasString(j, bytes)
    ensures exists p: nat :: Holds(Strings(j), p, bytes + [0])
    decreases j
  {
    match j {
      case Leaf(a) =>
        assert Strings(j) == bytes + [0];
        assert Holds(Strings(j), 0, bytes + [0]);
      case Node(_, kids) =>
        ListStringsStand(kids, bytes);
        assert Strings(j) == StringsOf(kids);
    }
  }

  lemma {:induction false} ListStringsStand(f: Forest, bytes: seq<byte>)
    requires ListHasString(f, bytes)
    ensures exists p: nat :: Holds(StringsOf(f), p, bytes + [0])
    decreases f
  {
    var w := bytes + [0];
    if HasString(f.head, bytes) {
      StringsStand(f.head, bytes);
      var p: nat :| Holds(Strings(f.head), p, w);
      assert StringsOf(f)[p..p + |w|] == Strings(f.head)[p..p + |w|];
      assert Holds(StringsOf(f), p, w);
    } else {
      ListStringsStand(f.tail, bytes);
      var p: nat :| Holds(StringsOf(f.tail), p, w);
      var q := |Strings(f.head)| + p;
      assert StringsOf(f)[q..q + |w|] == StringsOf(f.tail)[p..p + |w|];
      assert Holds(StringsOf(f), q, w);
    }
  }

  lemma {:induction false} StringsOfLength(f: Forest)
    ensures |StringsOf(f)| == StrBytesOf(f)
    decreases f, 0
  {
    if f.Cons? {
      StringsLength(f.head);
      StringsOfLength(f.tail);
    }
  }

  /** `now` has `s` from `at` on, and is as it was before that. */
  ghost predicate Filled<T>(was: seq<T>, now: seq<T>, at: nat, s: seq<T>) {
    |now| == |was| && at + |s| <= |was| && now[..at + |s|] == was[..at] + s
  }

  lemma FilledThen<T>(s0: seq<T>, s1: seq<T>, s2: seq<T>, at: nat, a: seq<T>, b: seq<T>)
    requires Filled(s0, s1, at, a) && Filled(s1, s2, at + |a|, b)
    ensures Filled(s0, s2, at, a + b)
  {
    assert s0[..at] + a + b == s0[..at] + (a + b);
  }

  lemma FilledNothing<T>(s: seq<T>, at: nat)
    requires at <= |s|
    ensures Filled(s, s, at, [])
  {
  }

  lemma EncodeNode(obj: bool, kids: Forest)
    ensures Encode(Node(obj, kids))
         == [Head(obj, Length(obj, Count(kids)), |Encode(Node(obj, kids))|)] + EncodeForest(kids)
  {
  }

  /** A container's slot is filled in last, before the slots of its children. */
  lemma FilledHead(s0: seq<Cell>, s1: seq<Cell>, s2: seq<Cell>, at: nat, h: Cell, body: seq<Cell>)
    requires at < |s0| && |s1| == |s0| && at + 1 + |body| <= |s0|
    requires s1[..at + 1 + |body|] == s0[..at + 1] + body && s2 == s1[at := h]
    ensures Filled(s0, s2, at, [h] + body)
  {
    assert s2[..at + 1 + |body|] == s0[..at] + ([h] + body);
  }

  /** yyjson_imut_copy: the tape and the string pool of a value, in exactly the room counted for them. */
  method ImutCopy(pool: array<MutVal>, i: nat, ghost j: Json, vals: array<Cell>, at: nat, strs: array<byte>, strAt: nat)
    returns (end: nat, strEnd: nat)
    requires Represents(pool[..], i, j) && Shaped(j)
    requires at + |Encode(j)| <= vals.Length && strAt + StrBytes(j) <= strs.Length
    modifies vals, strs
    ensures pool[..] == old(pool[..])
    ensures end == at + |Encode(j)| && strEnd == strAt + StrBytes(j)
    ensures Filled(old(vals[..]), vals[..], at, Encode(j))
    ensures Filled(old(strs[..]), strs[..], strAt, Strings(j))
    decreases |Encode(j)|, 0
  {
    match pool[i].tag
    case Container(obj, length) =>
      LengthOf(j);
      var child, len := FirstOf(pool, i, j, obj, length);
      hide Represents, Chain, EncodeForest, StringsOf, StrBytesOf;
      end, strEnd := ImutCopyInto(pool, child, j.kids, child, len, vals, at, Head(obj, length, 0), strs, strAt);
      EncodeNode(j.obj, j.kids);
    case Single(a) =>
      SingleSums(a);
      end, strEnd := ImutCopySingle(a, vals, at, strs, strAt);
  }

  /** The first child of a container, and how many there are. */
  method FirstOf(pool: array<MutVal>, i: nat, ghost j: Json, obj: bool, length: nat) returns (child: nat, len: nat)
    requires Represents(pool[..], i, j) && Shaped(j) && pool[i].tag == Container(obj, length)
    ensures j.Node? && len == Count(j.kids) && (len > 0 ==> Chain(pool[..], j.kids, child, child))
  {
    LengthOf(j);
    CountSome(j.kids);
    child := pool[i].ptr;
    len := length;
    if obj {
      len := len * 2;
    }
    if len > 0 {
      Circles(pool[..], i, j);
      child := if obj then pool[pool[child].next].next else pool[child].next;
    }
  }

  /** A value of one slot: a string goes to the string pool. */
  method ImutCopySingle(a: Atom, vals: array<Cell>, at: nat, strs: array<byte>, strAt: nat)
    returns (end: nat, strEnd: nat)
    requires at < vals.Length && strAt + StrBytes(Leaf(a)) <= strs.Length
    modifies vals, strs
    ensures end == at + 1 && strEnd == strAt + StrBytes(Leaf(a))
    ensures Filled(old(vals[..]), vals[..], at, [Cell.Value(a)])
    ensures Filled(old(strs[..]), strs[..], strAt, Strings(Leaf(a)))
  {
    ghost var s0, t0 := vals[..], strs[..];
    vals[at] := Cell.Value(a);
    assert vals[..][..at + 1] == s0[..at] + [Cell.Value(a)];
    end, strEnd := at + 1, strAt;
    if a.Str? {
      Put(strs, strAt, Terminated(a.bytes));
      assert strs[..][..strAt + |a.bytes| + 1] == t0[..strAt] + Terminated(a.bytes);
      strEnd := strAt + |a.bytes| + 1;
    } else {
      FilledNothing(t0, strAt);
    }
  }

  /** A container: the children after its slot, and then the slot itself, with how far they reach. */
  method ImutCopyInto(pool: array<MutVal>, start: nat, ghost f: Forest, ghost stop: nat, len: nat,
                      vals: array<Cell>, at: nat, head: Cell, strs: array<byte>, strAt: nat)
    returns (end: nat, strEnd: nat)
    requires len > 0 ==> Chain(pool[..], f, start, stop)
    requires AllShaped(f) && len == Count(f) && head.Head?
    requires at + 1 + |EncodeForest(f)| <= vals.Length && strAt + StrBytesOf(f) <= strs.Length
    modifies vals, strs
    ensures pool[..] == old(pool[..])
    ensures end == at + 1 + |EncodeForest(f)| && strEnd == strAt + StrBytesOf(f)
    ensures Filled(old(vals[..]), vals[..], at, [head.(ofs := 1 + |EncodeForest(f)|)] + EncodeForest(f))
    ensures Filled(old(strs[..]), strs[..], strAt, StringsOf(f))
    decreases |EncodeForest(f)|, 2
  {
    ghost var s0, t0 := vals[..], strs[..];
    if len > 0 {
      end, strEnd := ImutCopyList(pool, start, f, stop, len, vals, at + 1, strs, strAt);
    } else {
      assert f.Nil?;
      end, strEnd := at + 1, strAt;
      FilledNothing(s0, at + 1);
      FilledNothing(t0, strAt);
    }
    ghost var s1 := vals[..];
    vals[at] := head.(ofs := end - at);
    FilledHead(s0, s1, vals[..], at, head.(ofs := end - at), EncodeForest(f));
  }

  /** The children of a container, from the first on. */
  method ImutCopyList(pool: array<MutVal>, start: nat, ghost f: Forest, ghost stop: nat, len: nat,
                      vals: array<Cell>, at: nat, strs: array<byte>, strAt: nat)
    returns (end: nat, strEnd: nat)
    requires Chain(pool[..], f, start, stop) && AllShaped(f) && len == Count(f)
    requires at + |EncodeForest(f)| <= vals.Length && strAt + StrBytesOf(f) <= strs.Length
    modifies vals, strs
    ensures pool[..] == old(pool[..])
    ensures end == at + |EncodeForest(f)| && strEnd == strAt + StrBytesOf(f)
    ensures Filled(old(vals[..]), vals[..], at, EncodeForest(f))
    ensures Filled(old(strs[..]), strs[..], strAt, StringsOf(f))
    decreases |EncodeForest(f)|, 1
  {
    end, strEnd := at, strAt;
    var child, k := start, 0;
    ghost var rest, done, text := f, [], [];
    FilledNothing(vals[..], at);
    FilledNothing(strs[..], strAt);
    while k < len
      invariant k <= len && Count(rest) == len - k && |EncodeForest(rest)| <= |EncodeForest(f)|
      invariant Chain(pool[..], rest, child, stop) && AllShaped(rest) && pool[..] == old(pool[..])
      invariant end == at + |done| && strEnd == strAt + |text|
      invariant done + EncodeForest(rest) == EncodeForest(f) && text + StringsOf(rest) == StringsOf(f)
      invariant Filled(old(vals[..]), vals[..], at, done) && Filled(old(strs[..]), strs[..], strAt, text)
    {
      ghost var s1, t1 := vals[..], strs[..];
      CopyRoom(rest, done, f, text);
      end, strEnd := ImutCopy(pool, child, rest.head, vals, end, strs, strEnd);
      FilledThen(old(vals[..]), s1, vals[..], at, done, Encode(rest.head));
      FilledThen(old(strs[..]), t1, strs[..], strAt, text, Strings(rest.head));
      done, text := done + Encode(rest.head), text + Strings(rest.head);
      child := pool[child].next;
      rest := rest.tail;
      k := k + 1;
    }
    assert rest.Nil?;
    assert done + [] == done && text + [] == text;
    StringsOfLength(f);
  }

  lemma CopyRoom(rest: Forest, done: seq<Cell>, f: Forest, text: seq<byte>)
    requires rest.Cons? && done + EncodeForest(rest) == EncodeForest(f) && text + StringsOf(rest) == StringsOf(f)
    ensures |done| + |Encode(rest.head)| <= |EncodeForest(f)| && |text| + StrBytes(rest.head) <= StrBytesOf(f)
    ensures done + Encode(rest.head) + EncodeForest(rest.tail) == EncodeForest(f)
    ensures text + Strings(rest.head) + StringsOf(rest.tail) == StringsOf(f)
    ensures |Strings(rest.head)| == StrBytes(rest.head)
  {
    StringsLength(rest.head);
    StringsOfLength(f);
    assert done + (Encode(rest.head) + EncodeForest(rest.tail)) == done + Encode(rest.head) + EncodeForest(rest.tail);
    assert text + (Strings(rest.head) + StringsOf(rest.tail)) == text + Strings(rest.head) + StringsOf(rest.tail);
  }

  // From a tape.

  /** The value whose slots begin at `i`. */
  function Sub(j: Json, i: nat): Json
    requires i < |Encode(j)|
    decreases j, 1
  {
    if i == 0 then j else SubIn(j.kids, i - 1)
  }

  function SubIn(f: Forest, i: nat): Json
    requires i < |EncodeForest(f)|
    decreases f, 0
  {
    var n := |Encode(f.head)|;
    if i < n then Sub(f.head, i) else SubIn(f.tail, i - n)
  }

  /** Where the list of a container goes after the value at `i`, the container being at zero. */
  function NextOf(j: Json, i: nat): nat
    requires 0 < i < |Encode(j)|
    decreases j, 1
  {
    NextIn(j.kids, i - 1, 1, 1)
  }

  /** The same for children that begin at `p`, of a list that begins at `first`. */
  function NextIn(f: Forest, i: nat, p: nat, first: nat): nat
    requires i < |EncodeForest(f)|
    decreases f, 0
  {
    var n := |Encode(f.head)|;
    if i == 0 then (if f.tail.Nil? then first else p + n)
    else if i < n then p + NextOf(f.head, i)
    else NextIn(f.tail, i - n, p + n, first)
  }

  /** What a container that starts at zero points at: its last child, or its last key. */
  function LastOf(obj: bool, f: Forest, p: nat): nat
    requires Count(f) >= Group(obj)
  {
    if Count(f) == Group(obj) then p else LastOf(obj, f.tail, p + |Encode(f.head)|)
  }

  lemma {:induction false} SubSlots(j: Json, i: nat)
    requires i < |Encode(j)|
    ensures var u := Sub(j, i); i + |Encode(u)| <= |Encode(j)| && Encode(j)[i..i + |Encode(u)|] == Encode(u)
    decreases j, 1
  {
    if i > 0 {
      SubInSlots(j.kids, i - 1);
      var u := Sub(j, i);
      assert Encode(j)[i..i + |Encode(u)|] == EncodeForest(j.kids)[i - 1..i - 1 + |Encode(u)|];
    } else {
      assert Encode(j)[0..|Encode(j)|] == Encode(j);
    }
  }

  lemma {:induction false} SubInSlots(f: Forest, i: nat)
    requires i < |EncodeForest(f)|
    ensures var u := SubIn(f, i);
            i + |Encode(u)| <= |EncodeForest(f)| && EncodeForest(f)[i..i + |Encode(u)|] == Encode(u)
    decreases f, 0
  {
    var n := |Encode(f.head)|;
    var u := SubIn(f, i);
    if i < n {
      SubSlots(f.head, i);
      assert EncodeForest(f)[i..i + |Encode(u)|] == Encode(f.head)[i..i + |Encode(u)|];
    } else {
      SubInSlots(f.tail, i - n);
      assert EncodeForest(f)[i..i + |Encode(u)|] == EncodeForest(f.tail)[i - n..i - n + |Encode(u)|];
    }
  }

  lemma {:induction false} SubShaped(j: Json, i: nat)
    requires i < |Encode(j)| && Shaped(j)
    ensures Shaped(Sub(j, i))
    decreases j, 1
  {
    if i > 0 {
      ShapedKids(j.obj, j.kids);
      SubInShaped(j.kids, i - 1);
    }
  }

  lemma {:induction false} SubInShaped(f: Forest, i: nat)
    requires i < |EncodeForest(f)| && AllShaped(f)
    ensures Shaped(SubIn(f, i))
    decreases f, 0
  {
    if i < |Encode(f.head)| {
      SubShaped(f.head, i);
    } else {
      SubInShaped(f.tail, i - |Encode(f.head)|);
    }
  }

  /** The list a value is on is that of the container closest around it. */
  lemma {:induction false} NextWithin(j: Json, i: nat, d: nat)
    requires i < |Encode(j)| && 0 < d < |Encode(Sub(j, i))|
    ensures i + d < |Encode(j)| && NextOf(j, i + d) == i + NextOf(Sub(j, i), d)
    decreases j, 1
  {
    SubSlots(j, i);
    if i > 0 {
      NextInWithin(j.kids, i - 1, d, 1, 1);
    }
  }

  lemma {:induction false} NextInWithin(f: Forest, i: nat, d: nat, p: nat, first: nat)
    requires i < |EncodeForest(f)| && 0 < d < |Encode(SubIn(f, i))|
    ensures i + d < |EncodeForest(f)| && NextIn(f, i + d, p, first) == p + i + NextOf(SubIn(f, i), d)
    decreases f, 0
  {
    SubInSlots(f, i);
    var n := |Encode(f.head)|;
    if i < n {
      SubSlots(f.head, i);
      NextWithin(f.head, i, d);
    } else {
      NextInWithin(f.tail, i - n, d, p + n, first);
    }
  }

  lemma {:induction false} SubWithin(j: Json, i: nat, d: nat)
    requires i < |Encode(j)| && d < |Encode(Sub(j, i))|
    ensures i + d < |Encode(j)| && Sub(j, i + d) == Sub(Sub(j, i), d)
    decreases j, 1
  {
    SubSlots(j, i);
    if i > 0 {
      SubInWithin(j.kids, i - 1, d);
    }
  }

  lemma {:induction false} SubInWithin(f: Forest, i: nat, d: nat)
    requires i < |EncodeForest(f)| && d < |Encode(SubIn(f, i))|
    ensures i + d < |EncodeForest(f)| && SubIn(f, i + d) == Sub(SubIn(f, i), d)
    decreases f, 0
  {
    SubInSlots(f, i);
    var n := |Encode(f.head)|;
    if i < n {
      SubSlots(f.head, i);
      SubWithin(f.head, i, d);
    } else {
      SubInWithin(f.tail, i - n, d);
    }
  }

  /** The children `rest` begin `p` after their container. */
  ghost predicate Aligned(kids: Forest, rest: Forest, p: nat) {
    && 1 <= p && p - 1 + |EncodeForest(rest)| == |EncodeForest(kids)|
    && (forall e | 0 <= e < |EncodeForest(rest)| :: NextIn(kids, p - 1 + e, 1, 1) == NextIn(rest, e, p, 1))
    && (forall e | 0 <= e < |EncodeForest(rest)| :: SubIn(kids, p - 1 + e) == SubIn(rest, e))
  }

  lemma AlignedBegins(kids: Forest)
    ensures Aligned(kids, kids, 1)
  {
  }

  lemma AlignedStep(kids: Forest, rest: Forest, p: nat)
    requires Aligned(kids, rest, p) && rest.Cons?
    ensures Aligned(kids, rest.tail, p + |Encode(rest.head)|)
  {
    var n := |Encode(rest.head)|;
    var q := p + n;
    forall e | 0 <= e < |EncodeForest(rest.tail)|
      ensures NextIn(kids, q - 1 + e, 1, 1) == NextIn(rest.tail, e, q, 1)
      ensures SubIn(kids, q - 1 + e) == SubIn(rest.tail, e)
    {
      assert NextIn(rest, n + e, p, 1) == NextIn(rest.tail, e, q, 1);
      assert SubIn(rest, n + e) == SubIn(rest.tail, e);
      assert p - 1 + (n + e) == q - 1 + e;
    }
    assert q - 1 + |EncodeForest(rest.tail)| == |EncodeForest(kids)|;
  }

  /** The first of the remaining children, in the whole value. */
  lemma ChildOf(t: Json, k: nat, rest: Forest, p: nat)
    requires k < |Encode(t)| && Sub(t, k).Node? && Aligned(Sub(t, k).kids, rest, p) && rest.Cons?
    ensures k + p < |Encode(t)| && Sub(t, k + p) == rest.head
    ensures NextOf(t, k + p) == k + if rest.tail.Nil? then 1 else p + |Encode(rest.head)|
  {
    var u := Sub(t, k);
    assert |Encode(rest.head)| >= 1;
    assert p < |Encode(u)|;
    SubWithin(t, k, p);
    NextWithin(t, k, p);
    assert Sub(u, p) == SubIn(u.kids, p - 1 + 0) == SubIn(rest, 0);
    assert NextOf(u, p) == NextIn(u.kids, p - 1 + 0, 1, 1) == NextIn(rest, 0, p, 1);
  }

  /** Its slot on the tape. */
  lemma ChildSlot(t: Json, k: nat, rest: Forest, p: nat)
    requires k < |Encode(t)| && Sub(t, k).Node? && Aligned(Sub(t, k).kids, rest, p) && rest.Cons?
    ensures k + p < |Encode(t)| && Encode(t)[k + p] == Encode(rest.head)[0]
  {
    ChildOf(t, k, rest, p);
    SubSlots(t, k + p);
    var e := Encode(rest.head);
    assert Encode(t)[k + p] == Encode(t)[k + p..k + p + |e|][0];
  }

  /** unsafe_yyjson_get_next, as a distance. */
  function Width(c: Cell): nat {
    if c.Head? then c.ofs else 1
  }

  lemma WidthOf(j: Json)
    ensures Width(Encode(j)[0]) == |Encode(j)|
  {
  }

  /** The children of `f`, the first being at `p`, are among those linked. */
  ghost predicate KidsIn(f: Forest, p: nat, done: set<nat>)
    decreases f
  {
    f.Cons? ==> p in done && KidsIn(f.tail, p + |Encode(f.head)|, done)
  }

  lemma {:induction false} KidsInMore(f: Forest, p: nat, done: set<nat>, more: set<nat>)
    requires KidsIn(f, p, done) && done <= more
    ensures KidsIn(f, p, more)
    decreases f
  {
    if f.Cons? {
      KidsInMore(f.tail, p + |Encode(f.head)|, done, more);
    }
  }

  /** The links made so far are those of the value. */
  ghost predicate Linked(pool: seq<MutVal>, base: nat, t: Json, done: set<nat>) {
    && base + |Encode(t)| <= |pool|
    && forall c | c in done :: 0 < c < |Encode(t)| && pool[base + c].next == base + NextOf(t, c)
  }

  /** The slot at `k` has been copied. */
  ghost predicate Copied(pool: seq<MutVal>, base: nat, t: Json, k: nat)
    requires k < |Encode(t)| && base + |Encode(t)| <= |pool|
  {
    var u := Sub(t, k);
    && pool[base + k].tag == TagOf(u)
    && (u.Node? && u.kids.Cons? ==>
         Count(u.kids) >= Group(u.obj) && pool[base + k].ptr == base + k + LastOf(u.obj, u.kids, 1))
  }

  /** Every slot before `i` has been copied, and its children linked. */
  ghost predicate CopiedTo(pool: seq<MutVal>, base: nat, t: Json, i: nat, done: set<nat>) {
    && i <= |Encode(t)| && Linked(pool, base, t, done)
    && (forall k | 0 <= k < i :: Copied(pool, base, t, k))
    && (forall k | 0 <= k < i :: Sub(t, k).Node? ==> KidsIn(Sub(t, k).kids, k + 1, done))
  }

  // The links make the list.

  lemma {:induction false} LastAligned(kids: Forest, rest: Forest, p: nat, obj: bool)
    requires Aligned(kids, rest, p) && Count(rest) >= Group(obj)
    ensures var n := Count(rest) - Group(obj);
            && Aligned(kids, Suffix(rest, n), LastOf(obj, rest, p))
            && LastOf(obj, rest, p) == p + |EncodeForest(Prefix(rest, n))|
    decreases rest
  {
    if Count(rest) > Group(obj) {
      AlignedStep(kids, rest, p);
      LastAligned(kids, rest.tail, p + |Encode(rest.head)|, obj);
    }
  }

  lemma {:induction false} KidsInSuffix(f: Forest, n: nat, p: nat, done: set<nat>)
    requires KidsIn(f, p, done) && n <= Count(f)
    ensures KidsIn(Suffix(f, n), p + |EncodeForest(Prefix(f, n))|, done)
    decreases f
  {
    if n > 0 {
      KidsInSuffix(f.tail, n - 1, p + |Encode(f.head)|, done);
    }
  }

  lemma AppendNil(f: Forest)
    ensures Append(f, Nil) == f
  {
  }

  lemma NodeFromChains(pool: seq<MutVal>, i: nat, j: Json, first: nat)
    requires i < |pool| && pool[i].tag == TagOf(j) && j.Node? && j.kids.Cons? && Count(j.kids) >= Group(j.obj)
    requires Chain(pool, Suffix(j.kids, Count(j.kids) - Group(j.obj)), pool[i].ptr, first)
    requires Chain(pool, Prefix(j.kids, Count(j.kids) - Group(j.obj)), first, pool[i].ptr)
    ensures Represents(pool, i, j)
  {
    var n := Count(j.kids) - Group(j.obj);
    SplitForest(j.kids, n);
    GroupEnds(pool, j.obj, Suffix(j.kids, n), pool[i].ptr, first);
  }

  /** Consecutive children of the container at `k` are on its list, which the last of them closes. */
  lemma {:induction false} ChainSub(pool: seq<MutVal>, base: nat, t: Json, k: nat, f: Forest, g: Forest, p: nat,
                                    done: set<nat>)
    requires CopiedTo(pool, base, t, |Encode(t)|, done) && k < |Encode(t)| && Sub(t, k).Node?
    requires Aligned(Sub(t, k).kids, Append(f, g), p) && KidsIn(Append(f, g), k + p, done)
    ensures Chain(pool, f, base + k + p, base + k + if f.Cons? && g.Nil? then 1 else p + |EncodeForest(f)|)
    decreases |EncodeForest(f)|, 1
  {
    if f.Cons? {
      var rest := Append(f, g);
      ChildOf(t, k, rest, p);
      AlignedStep(Sub(t, k).kids, rest, p);
      RepresentsSub(pool, base, t, k + p, done);
      var q := p + |Encode(f.head)|;
      assert k + p in done;
      assert pool[base + (k + p)].next == base + NextOf(t, k + p);
      if f.tail.Nil? && g.Nil? {
        assert rest.tail == Append(f.tail, g) == g && f.tail == Nil;
        assert Chain(pool, f.tail, base + k + 1, base + k + 1);
      } else {
        ChainSub(pool, base, t, k, f.tail, g, q, done);
        assert pool[base + (k + p)].next == base + k + q;
      }
    }
  }

  lemma {:induction false} RepresentsSub(pool: seq<MutVal>, base: nat, t: Json, k: nat, done: set<nat>)
    requires CopiedTo(pool, base, t, |Encode(t)|, done) && k < |Encode(t)|
    ensures Represents(pool, base + k, Sub(t, k))
    decreases |Encode(Sub(t, k))|, 0
  {
    var u := Sub(t, k);
    assert Copied(pool, base, t, k);
    if u.Node? && u.kids.Cons? {
      var n := Count(u.kids) - Group(u.obj);
      SplitForest(u.kids, n);
      AlignedBegins(u.kids);
      LastAligned(u.kids, u.kids, 1, u.obj);
      KidsInSuffix(u.kids, n, k + 1, done);
      AppendNil(Suffix(u.kids, n));
      hide Represents, Chain, KidsIn, Aligned, Linked, EncodeForest, Sub, SubIn;
      ChainSub(pool, base, t, k, Suffix(u.kids, n), Nil, LastOf(u.obj, u.kids, 1), done);
      ChainSub(pool, base, t, k, Prefix(u.kids, n), Suffix(u.kids, n), 1, done);
      assert Suffix(u.kids, n).Cons?;
      NodeFromChains(pool, base + k, u, base + k + 1);
    }
  }

  /** The last child, or the last pair, leads back to the first. */
  lemma GroupEnds(pool: seq<MutVal>, obj: bool, f: Forest, last: nat, first: nat)
    requires Count(f) == Group(obj) && Chain(pool, f, last, first)
    ensures last < |pool| && (obj ==> pool[last].next < |pool|) && First(pool, obj, last) == first
  {
    assert Count(f) == 1 + Count(f.tail);
    if obj {
      assert Count(f.tail) == 1 + Count(f.tail.tail);
      var m := pool[last].next;
      assert Chain(pool, f.tail, m, first);
      assert Represents(pool, m, f.tail.head) && Chain(pool, f.tail.tail, pool[m].next, first);
      assert f.tail.tail.Nil?;
    } else {
      assert f.tail.Nil?;
    }
  }

  // The copying pass.

  lemma NextsUnderway(pool: seq<MutVal>, base: nat, t: Json, i: nat, done: set<nat>, c: nat)
    requires CopiedTo(pool, base, t, i, done) && 0 < c < |Encode(t)|
    ensures CopiedTo(pool[base + c := pool[base + c].(next := base + NextOf(t, c))], base, t, i, done + {c})
  {
    var now := pool[base + c := pool[base + c].(next := base + NextOf(t, c))];
    forall k | 0 <= k < i
      ensures Copied(now, base, t, k)
      ensures Sub(t, k).Node? ==> KidsIn(Sub(t, k).kids, k + 1, done + {c})
    {
      assert Copied(pool, base, t, k);
      if Sub(t, k).Node? {
        KidsInMore(Sub(t, k).kids, k + 1, done, done + {c});
      }
    }
  }

  /** Setting the link of the first of the remaining children. */
  method Link(pool: array<MutVal>, base: nat, ghost t: Json, i: nat, ghost done: set<nat>, ghost rest: Forest,
              p: nat, next: nat)
    returns (ghost done': set<nat>)
    requires i < |Encode(t)| && CopiedTo(pool[..], base, t, i, done) && Sub(t, i).Node?
    requires Aligned(Sub(t, i).kids, rest, p) && rest.Cons?
    requires next == base + i + if rest.tail.Nil? then 1 else p + |Encode(rest.head)|
    requires base + i + p < pool.Length
    modifies pool
    ensures done' == done + {i + p} && CopiedTo(pool[..], base, t, i, done')
    ensures pool[..] == old(pool[..])[base + i + p := old(pool[base + i + p]).(next := next)]
    ensures pool[base + i].tag == old(pool[base + i].tag) && pool[base + i].ptr == old(pool[base + i].ptr)
  {
    ChildOf(t, i, rest, p);
    NextsUnderway(pool[..], base, t, i, done, i + p);
    pool[base + i + p] := pool[base + i + p].(next := next);
    done' := done + {i + p};
    assert base + i + p == base + (i + p);
  }

  /** The children of the container at `i` up to `p` have been linked. */
  ghost predicate LinkedUpTo(kids: Forest, rest: Forest, p: nat, i: nat, done: set<nat>) {
    && Aligned(kids, rest, p)
    && forall d: set<nat> {:trigger KidsIn(rest, i + p, d)} :: KidsIn(rest, i + p, d) && done <= d ==> KidsIn(kids, i + 1, d)
  }

  lemma LinkedBegins(kids: Forest, i: nat, done: set<nat>)
    ensures LinkedUpTo(kids, kids, 1, i, done)
  {
    AlignedBegins(kids);
  }

  lemma LinkedStep(kids: Forest, rest: Forest, p: nat, i: nat, done: set<nat>)
    requires LinkedUpTo(kids, rest, p, i, done) && rest.Cons?
    ensures LinkedUpTo(kids, rest.tail, p + |Encode(rest.head)|, i, done + {i + p})
  {
    AlignedStep(kids, rest, p);
    var q := p + |Encode(rest.head)|;
    forall d: set<nat> {:trigger KidsIn(rest.tail, i + q, d)} | KidsIn(rest.tail, i + q, d) && done + {i + p} <= d
      ensures KidsIn(kids, i + 1, d)
    {
      assert i + p in d;
      assert i + p + |Encode(rest.head)| == i + q;
      assert KidsIn(rest, i + p, d);
    }
  }

  lemma LinkedAll(kids: Forest, p: nat, i: nat, done: set<nat>)
    requires LinkedUpTo(kids, Nil, p, i, done)
    ensures KidsIn(kids, i + 1, done)
  {
    assert KidsIn(Nil, i + p, done);
  }

  /** A child's slot, and how far the next child is. */
  lemma ChildWidth(tape: seq<Cell>, t: Json, i: nat, rest: Forest, p: nat)
    requires tape == Encode(t) && i < |Encode(t)| && Sub(t, i).Node? && Aligned(Sub(t, i).kids, rest, p) && rest.Cons?
    ensures i + p < |tape| && Width(tape[i + p]) == |Encode(rest.head)|
  {
    ChildSlot(t, i, rest, p);
    WidthOf(rest.head);
  }

  /** The links of an array's children, and how far the last one is. */
  method LinkItems(tape: seq<Cell>, pool: array<MutVal>, base: nat, ghost t: Json, i: nat, ghost before: set<nat>, len: nat)
    returns (last: nat, ghost done: set<nat>)
    requires tape == Encode(t) && base + |tape| <= pool.Length && i < |tape|
    requires Sub(t, i).Node? && !Sub(t, i).obj && len == Count(Sub(t, i).kids) > 0
    requires CopiedTo(pool[..], base, t, i, before)
    modifies pool
    ensures CopiedTo(pool[..], base, t, i, done) && KidsIn(Sub(t, i).kids, i + 1, done)
    ensures last == LastOf(false, Sub(t, i).kids, 1)
    ensures pool[base + i].tag == old(pool[base + i].tag)
    ensures forall k | 0 <= k < base || base + |tape| <= k < pool.Length :: pool[k] == old(pool[k])
  {
    hide CopiedTo, Aligned, Encode, KidsIn, Sub;
    ghost var kids, rest := Sub(t, i).kids, Sub(t, i).kids;
    done := before;
    last := 1;
    var left := len;
    LinkedBegins(kids, i, done);
    while left > 1
      invariant 1 <= left == Count(rest) && LinkedUpTo(kids, rest, last, i, done)
      invariant CopiedTo(pool[..], base, t, i, done) && LastOf(false, kids, 1) == LastOf(false, rest, last)
      invariant pool[base + i].tag == old(pool[base + i].tag)
      invariant forall k | 0 <= k < base || base + |tape| <= k < pool.Length :: pool[k] == old(pool[k])
    {
      ChildWidth(tape, t, i, rest, last);
      var next := last + Width(tape[i + last]);
      LinkedStep(kids, rest, last, i, done);
      done := Link(pool, base, t, i, done, rest, last, base + i + next);
      last := next;
      rest := rest.tail;
      left := left - 1;
    }
    ChildWidth(tape, t, i, rest, last);
    LinkedStep(kids, rest, last, i, done);
    done := Link(pool, base, t, i, done, rest, last, base + i + 1);
    LinkedAll(kids, last + |Encode(rest.head)|, i, done);
  }

  /** The links of an object's keys and values, and how far the last key is. */
  method LinkPairs(tape: seq<Cell>, pool: array<MutVal>, base: nat, ghost t: Json, i: nat, ghost before: set<nat>, len: nat)
    returns (last: nat, ghost done: set<nat>)
    requires tape == Encode(t) && base + |tape| <= pool.Length && i < |tape|
    requires Sub(t, i).Node? && Sub(t, i).obj && 2 * len == Count(Sub(t, i).kids) > 0 && ShapedPairs(Sub(t, i).kids)
    requires CopiedTo(pool[..], base, t, i, before)
    modifies pool
    ensures CopiedTo(pool[..], base, t, i, done) && KidsIn(Sub(t, i).kids, i + 1, done)
    ensures last == LastOf(true, Sub(t, i).kids, 1)
    ensures pool[base + i].tag == old(pool[base + i].tag)
    ensures forall k | 0 <= k < base || base + |tape| <= k < pool.Length :: pool[k] == old(pool[k])
  {
    hide CopiedTo, Aligned, KidsIn, Sub;
    ghost var kids, rest := Sub(t, i).kids, Sub(t, i).kids;
    done := before;
    last := 1;
    var left := len;
    LinkedBegins(kids, i, done);
    while left > 1
      invariant 1 <= left && 2 * left == Count(rest) && ShapedPairs(rest) && LinkedUpTo(kids, rest, last, i, done)
      invariant CopiedTo(pool[..], base, t, i, done) && LastOf(true, kids, 1) == LastOf(true, rest, last)
      invariant pool[base + i].tag == old(pool[base + i].tag)
      invariant forall k | 0 <= k < base || base + |tape| <= k < pool.Length :: pool[k] == old(pool[k])
    {
      PairParts(rest, last);
      done := LinkPair(tape, pool, base, t, i, done, kids, rest, last, false);
      ghost var value := rest.tail;
      var next := last + 1 + Width(tape[i + last + 1]);
      last := next;
      rest := value.tail;
      left := left - 1;
    }
    PairParts(rest, last);
    done := LinkPair(tape, pool, base, t, i, done, kids, rest, last, true);
    LinkedAll(kids, last + 1 + |Encode(rest.tail.head)|, i, done);
  }

  lemma PairParts(f: Forest, p: nat)
    requires ShapedPairs(f) && f.Cons?
    ensures f.tail.Cons? && |Encode(f.head)| == 1 && ShapedPairs(f.tail.tail) && Count(f) == 2 + Count(f.tail.tail)
    ensures Count(f) > 2 ==> LastOf(true, f, p) == LastOf(true, f.tail.tail, p + 1 + |Encode(f.tail.head)|)
    ensures Count(f) == 2 ==> LastOf(true, f, p) == p && f.tail.tail.Nil?
  {
    PairsEven(f);
    if Count(f) > 2 {
      assert LastOf(true, f, p) == LastOf(true, f.tail, p + 1);
      assert Count(f.tail) > 2;
    }
  }

  /** One key and its value: the key leads to the value, and the value to the next key, or back to the first. */
  method LinkPair(tape: seq<Cell>, pool: array<MutVal>, base: nat, ghost t: Json, i: nat, ghost before: set<nat>,
                  ghost kids: Forest, ghost rest: Forest, key: nat, closing: bool)
    returns (ghost done: set<nat>)
    requires tape == Encode(t) && base + |tape| <= pool.Length && i < |tape|
    requires Sub(t, i).Node? && kids == Sub(t, i).kids && CopiedTo(pool[..], base, t, i, before)
    requires rest.Cons? && rest.tail.Cons? && |Encode(rest.head)| == 1 && closing == rest.tail.tail.Nil?
    requires LinkedUpTo(kids, rest, key, i, before)
    modifies pool
    ensures i + key + 1 < |tape| && Width(tape[i + key + 1]) == |Encode(rest.tail.head)|
    ensures CopiedTo(pool[..], base, t, i, done)
    ensures LinkedUpTo(kids, rest.tail.tail, key + 1 + |Encode(rest.tail.head)|, i, done)
    ensures pool[base + i].tag == old(pool[base + i].tag)
    ensures forall k | 0 <= k < base || base + |tape| <= k < pool.Length :: pool[k] == old(pool[k])
  {
    hide CopiedTo, Aligned, KidsIn, Sub, Encode;
    ChildWidth(tape, t, i, rest, key);
    LinkedStep(kids, rest, key, i, before);
    done := Link(pool, base, t, i, before, rest, key, base + i + key + 1);
    ChildWidth(tape, t, i, rest.tail, key + 1);
    LinkedStep(kids, rest.tail, key + 1, i, done);
    var next := if closing then 1 else key + 1 + Width(tape[i + key + 1]);
    done := Link(pool, base, t, i, done, rest.tail, key + 1, base + i + next);
  }

  lemma CopiedNothing(pool: seq<MutVal>, base: nat, t: Json)
    requires base + |Encode(t)| <= |pool|
    ensures CopiedTo(pool, base, t, 0, {})
  {
  }

  /** The slot at `i`, once its children are linked. */
  lemma CopiedOne(pool: seq<MutVal>, base: nat, t: Json, i: nat, done: set<nat>, v: MutVal)
    requires i < |Encode(t)| && CopiedTo(pool, base, t, i, done)
    requires Sub(t, i).Node? ==> KidsIn(Sub(t, i).kids, i + 1, done)
    requires v.next == pool[base + i].next && Copied(pool[base + i := v], base, t, i)
    ensures CopiedTo(pool[base + i := v], base, t, i + 1, done)
  {
    var now := pool[base + i := v];
    forall k | 0 <= k < i ensures Copied(now, base, t, k) {
      assert Copied(pool, base, t, k);
    }
  }

  /** The tag of the slot at `i`. */
  lemma SlotOf(tape: seq<Cell>, t: Json, i: nat)
    requires tape == Encode(t) && i < |tape|
    ensures match Sub(t, i)
            case Leaf(a) => tape[i] == Cell.Value(a)
            case Node(obj, kids) => tape[i] == Head(obj, Length(obj, Count(kids)), |Encode(Sub(t, i))|)
  {
    SubSlots(t, i);
    var e := Encode(Sub(t, i));
    assert tape[i] == tape[i..i + |e|][0] == e[0];
    EncodeFirst(Sub(t, i));
  }

  lemma EncodeFirst(j: Json)
    ensures Encode(j)[0] == match j
                            case Leaf(a) => Cell.Value(a)
                            case Node(obj, kids) => Head(obj, Length(obj, Count(kids)), |Encode(j)|)
  {
  }

  lemma CountSome(f: Forest)
    ensures Count(f) > 0 <==> f.Cons?
  {
  }

  /** One slot of the copying loop: its tag, its children's links, and its pointer. */
  method CopySlot(tape: seq<Cell>, pool: array<MutVal>, base: nat, ghost t: Json, i: nat, ghost before: set<nat>)
    returns (ghost done: set<nat>)
    requires tape == Encode(t) && Shaped(t) && base + |tape| <= pool.Length && i < |tape|
    requires CopiedTo(pool[..], base, t, i, before)
    modifies pool
    ensures CopiedTo(pool[..], base, t, i + 1, done)
    ensures forall k | 0 <= k < base || base + |tape| <= k < pool.Length :: pool[k] == old(pool[k])
  {
    hide CopiedTo, KidsIn, Sub, Encode;
    SlotOf(tape, t, i);
    SubShaped(t, i);
    ghost var u := Sub(t, i);
    done := before;
    var v: MutVal;
    match tape[i] {
      case Value(a) =>
        v := MutVal(Single(a), pool[base + i].ptr, pool[base + i].next);
      case Head(obj, len, _) =>
        LengthOf(u);
        CountSome(u.kids);
        var last := 0;
        if len > 0 {
          if obj {
            last, done := LinkPairs(tape, pool, base, t, i, before, len);
          } else {
            last, done := LinkItems(tape, pool, base, t, i, before, len);
          }
        } else {
          NoKids(u.kids, i + 1, done);
        }
        v := MutVal(Container(obj, len), base + i + last, pool[base + i].next);
    }
    CopiedOne(pool[..], base, t, i, done, v);
    ghost var was := pool[..];
    pool[base + i] := v;
    assert pool[..] == was[base + i := v];
  }

  lemma NoKids(f: Forest, p: nat, done: set<nat>)
    requires f.Nil?
    ensures KidsIn(f, p, done)
  {
  }

  /** yyjson_val_mut_copy: consecutive mutable values that represent what the tape does. */
  method ValMutCopy(tape: seq<Cell>, ghost t: Json, pool: array<MutVal>, base: nat)
    requires tape == Encode(t) && Shaped(t) && base + |tape| <= pool.Length
    modifies pool
    ensures Represents(pool[..], base, t)
    ensures forall k | 0 <= k < base || base + |tape| <= k < pool.Length :: pool[k] == old(pool[k])
  {
    hide CopiedTo, Represents, Encode;
    var n, i := Width(tape[0]), 0;
    WidthOf(t);
    ghost var done: set<nat> := {};
    CopiedNothing(pool[..], base, t);
    while i < n
      invariant 0 <= i <= n == |tape| && CopiedTo(pool[..], base, t, i, done)
      invariant forall k | 0 <= k < base || base + |tape| <= k < pool.Length :: pool[k] == old(pool[k])
    {
      done := CopySlot(tape, pool, base, t, i, done);
      i := i + 1;
    }
    RepresentsSub(pool[..], base, t, 0, done);
  }

  /** yyjson_mut_val_imut_copy: the room counted, and then the tape, in exactly that room. */
  method Freeze(pool: array<MutVal>, root: nat, ghost j: Json) returns (tape: seq<Cell>, strings: seq<byte>)
    requires Represents(pool[..], root, j) && Shaped(j)
    ensures tape == Encode(j) && strings == Strings(j)
  {
    var vals, strs := Stat(pool, root, j, 0, 0);
    var cells := new Cell[vals](_ => Cell.Value(Null));
    var text := new byte[strs](_ => 0);
    var end, strEnd := ImutCopy(pool, root, j, cells, 0, text, 0);
    StringsLength(j);
    assert cells[..][..|Encode(j)|] == cells[..] && text[..][..|Strings(j)|] == text[..];
    return cells[..], text[..];
  }

  /** There and back: the tape again, whatever it holds. */
  method ThawAndFreeze(tape: seq<Cell>, ghost t: Json) returns (again: seq<Cell>)
    requires tape == Encode(t) && Shaped(t)
    ensures again == tape
  {
    var pool := new MutVal[|tape|](_ => MutVal(Single(Null), 0, 0));
    ValMutCopy(tape, t, pool, 0);
    var strings;
    again, strings := Freeze(pool, 0, t);
  }
}
