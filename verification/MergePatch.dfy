/** JSON merge patch: the engine's two passes, and the algorithm of section 2 of RFC 7386. */
module MergePatch {
  import opened Bytes
  import opened JsonTree

  /** The value of a key: yyjson_obj_getn takes the first. */
  function Lookup(f: Forest, key: seq<byte>): (r: Option<Json>)
    requires ShapedPairs(f)
    ensures r.Some? ==> r.value < f && Shaped(r.value)
  {
    match f
    case Nil => None
    case Cons(k, Cons(v, t)) => if k.atom.bytes == key then Some(v) else Lookup(t, key)
  }

  /** The members of a value, none if it is no object. */
  function Members(orig: Option<Json>): (f: Forest)
    requires orig.Some? ==> Shaped(orig.value)
    ensures ShapedPairs(f)
  {
    if orig.Some? && orig.value.Node? && orig.value.obj then orig.value.kids else Nil
  }

  predicate IsObject(j: Json) {
    j.Node? && j.obj
  }

  /** The members the patch does not name. */
  function Untouched(f: Forest, patch: Forest): (r: Forest)
    requires ShapedPairs(f) && ShapedPairs(patch)
    ensures ShapedPairs(r)
  {
    match f
    case Nil => Nil
    case Cons(k, Cons(v, t)) =>
      if Lookup(patch, k.atom.bytes).None? then Cons(k, Cons(v, Untouched(t, patch))) else Untouched(t, patch)
  }

  function Join(f: Forest, g: Forest): (r: Forest)
    requires ShapedPairs(f) && ShapedPairs(g)
    ensures ShapedPairs(r)
  {
    match f
    case Nil => g
    case Cons(k, Cons(v, t)) => Cons(k, Cons(v, Join(t, g)))
  }

  /** What yyjson_merge_patch builds. */
  function Merge(orig: Option<Json>, patch: Json): (r: Json)
    requires Shaped(patch) && (orig.Some? ==> Shaped(orig.value))
    ensures Shaped(r) && (IsObject(patch) ==> IsObject(r))
    decreases patch, 1
  {
    if !IsObject(patch) then patch
    else Node(true, Join(Untouched(Members(orig), patch.kids), Merged(Members(orig), patch.kids)))
  }

  /** The members the patch sets, each merged with what was there. */
  function Merged(f: Forest, patch: Forest): (r: Forest)
    requires ShapedPairs(f) && ShapedPairs(patch)
    ensures ShapedPairs(r)
    decreases patch, 0
  {
    match patch
    case Nil => Nil
    case Cons(k, Cons(v, t)) =>
      if v == Leaf(Null) then Merged(f, t)
      else Cons(k, Cons(Merge(Lookup(f, k.atom.bytes), v), Merged(f, t)))
  }

  // The algorithm of the standard, which changes the target member by member.

  function Remove(f: Forest, key: seq<byte>): (r: Forest)
    requires ShapedPairs(f)
    ensures ShapedPairs(r)
  {
    match f
    case Nil => Nil
    case Cons(k, Cons(v, t)) => if k.atom.bytes == key then Remove(t, key) else Cons(k, Cons(v, Remove(t, key)))
  }

  /** The member's value replaced where it stands, or a member more at the end. */
  function Set(f: Forest, key: seq<byte>, v: Json): (r: Forest)
    requires ShapedPairs(f) && Shaped(v)
    ensures ShapedPairs(r)
  {
    match f
    case Nil => Cons(Leaf(Str(key)), Cons(v, Nil))
    case Cons(k, Cons(w, t)) => if k.atom.bytes == key then Cons(k, Cons(v, t)) else Cons(k, Cons(w, Set(t, key, v)))
  }

  function StandardMerge(target: Option<Json>, patch: Json): (r: Json)
    requires Shaped(patch) && (target.Some? ==> Shaped(target.value))
    ensures Shaped(r)
    decreases patch, 1
  {
    if patch.Node? && patch.obj then Node(true, StandardMembers(TargetMembers(target), patch.kids)) else patch
  }

  /** A target that is no object is taken for an empty one. */
  function TargetMembers(target: Option<Json>): (f: Forest)
    requires target.Some? ==> Shaped(target.value)
    ensures ShapedPairs(f)
  {
    match target
    case Some(Node(true, kids)) => kids
    case _ => Nil
  }

  function StandardMembers(target: Forest, patch: Forest): (r: Forest)
    requires ShapedPairs(target) && ShapedPairs(patch)
    ensures ShapedPairs(r)
    decreases patch, 0
  {
    match patch
    case Nil => target
    case Cons(k, Cons(v, t)) =>
      var key := k.atom.bytes;
      StandardMembers(if v == Leaf(Null) then Remove(target, key)
                      else Set(target, key, StandardMerge(Lookup(target, key), v)), t)
  }

  // Keys.

  /** No key twice. */
  predicate UniqueKeys(f: Forest)
    requires ShapedPairs(f)
  {
    match f
    case Nil => true
    case Cons(k, Cons(v, t)) => Lookup(t, k.atom.bytes).None? && UniqueKeys(t)
  }

  /** In no object anywhere inside. */
  predicate UniqueWithin(j: Json)
    requires Shaped(j)
    decreases j, 1
  {
    j.Node? && j.obj ==> UniqueKeys(j.kids) && UniqueBelow(j.kids)
  }

  predicate UniqueBelow(f: Forest)
    requires ShapedPairs(f)
    decreases f, 0
  {
    match f
    case Nil => true
    case Cons(k, Cons(v, t)) => UniqueWithin(v) && UniqueBelow(t)
  }

  lemma {:induction false} UniqueMember(f: Forest, key: seq<byte>)
    requires ShapedPairs(f) && UniqueBelow(f)
    ensures Lookup(f, key).Some? ==> UniqueWithin(Lookup(f, key).value)
    decreases f
  {
    match f
    case Nil =>
    case Cons(_, Cons(_, t)) => UniqueMember(t, key);
  }

  // What the two passes make of each key.

  lemma {:induction false} JoinLookup(f: Forest, g: Forest, key: seq<byte>)
    requires ShapedPairs(f) && ShapedPairs(g)
    ensures Lookup(Join(f, g), key) == if Lookup(f, key).Some? then Lookup(f, key) else Lookup(g, key)
    decreases f
  {
    match f
    case Nil =>
    case Cons(_, Cons(_, t)) => JoinLookup(t, g, key);
  }

  lemma {:induction false} UntouchedLookup(f: Forest, patch: Forest, key: seq<byte>)
    requires ShapedPairs(f) && ShapedPairs(patch)
    ensures Lookup(Untouched(f, patch), key) == if Lookup(patch, key).None? then Lookup(f, key) else None
    decreases f
  {
    match f
    case Nil =>
    case Cons(_, Cons(_, t)) => UntouchedLookup(t, patch, key);
  }

  /** What a merge makes of one member: what was there, nothing, or the merge of the two. */
  function MemberSpec(f: Forest, patch: Forest, key: seq<byte>): Option<Json>
    requires ShapedPairs(f) && ShapedPairs(patch)
  {
    match Lookup(patch, key)
    case None => None
    case Some(v) => if v == Leaf(Null) then None else Some(Merge(Lookup(f, key), v))
  }

  lemma {:induction false} MergedLookup(f: Forest, patch: Forest, key: seq<byte>)
    requires ShapedPairs(f) && ShapedPairs(patch) && UniqueKeys(patch)
    ensures Lookup(Merged(f, patch), key) == MemberSpec(f, patch, key)
    decreases patch
  {
    match patch
    case Nil =>
    case Cons(k, Cons(v, t)) =>
      MergedLookup(f, t, key);
      hide Merge;
  }

  /** Removed keys are absent, untouched keys survive, and the others hold the merged value. */
  lemma MergeLookup(orig: Option<Json>, patch: Json, key: seq<byte>)
    requires IsObject(patch) && Shaped(patch) && (orig.Some? ==> Shaped(orig.value)) && UniqueKeys(patch.kids)
    ensures Lookup(Merge(orig, patch).kids, key)
         == match Lookup(patch.kids, key)
            case None => Lookup(Members(orig), key)
            case Some(v) => if v == Leaf(Null) then None else Some(Merge(Lookup(Members(orig), key), v))
  {
    var f := Members(orig);
    JoinLookup(Untouched(f, patch.kids), Merged(f, patch.kids), key);
    UntouchedLookup(f, patch.kids, key);
    MergedLookup(f, patch.kids, key);
  }

  lemma {:induction false} JoinUnique(f: Forest, g: Forest)
    requires ShapedPairs(f) && ShapedPairs(g) && UniqueKeys(f) && UniqueKeys(g)
    requires forall key: seq<byte> :: Lookup(f, key).None? || Lookup(g, key).None?
    ensures UniqueKeys(Join(f, g))
    decreases f
  {
    match f
    case Nil =>
    case Cons(k, Cons(v, t)) =>
      forall key: seq<byte> ensures Lookup(t, key).None? || Lookup(g, key).None? {
        assert Lookup(t, key).Some? ==> Lookup(f, key).Some?;
      }
      JoinUnique(t, g);
      JoinLookup(t, g, k.atom.bytes);
      assert Lookup(f, k.atom.bytes).Some?;
  }

  lemma {:induction false} UntouchedUnique(f: Forest, patch: Forest)
    requires ShapedPairs(f) && ShapedPairs(patch) && UniqueKeys(f)
    ensures UniqueKeys(Untouched(f, patch))
    decreases f
  {
    match f
    case Nil =>
    case Cons(k, Cons(_, t)) =>
      UntouchedUnique(t, patch);
      UntouchedLookup(t, patch, k.atom.bytes);
  }

  lemma {:induction false} MergedUnique(f: Forest, patch: Forest)
    requires ShapedPairs(f) && ShapedPairs(patch) && UniqueKeys(patch)
    ensures UniqueKeys(Merged(f, patch))
    decreases patch
  {
    match patch
    case Nil =>
    case Cons(k, Cons(v, t)) =>
      MergedUnique(f, t);
      MergedLookup(f, t, k.atom.bytes);
      hide Merge;
  }

  /** Unique keys in, unique keys out. */
  lemma MergeUnique(orig: Option<Json>, patch: Json)
    requires IsObject(patch) && Shaped(patch) && (orig.Some? ==> Shaped(orig.value))
    requires UniqueKeys(patch.kids) && UniqueKeys(Members(orig))
    ensures UniqueKeys(Merge(orig, patch).kids)
  {
    var f := Members(orig);
    var u, m := Untouched(f, patch.kids), Merged(f, patch.kids);
    UntouchedUnique(f, patch.kids);
    MergedUnique(f, patch.kids);
    forall key: seq<byte> ensures Lookup(u, key).None? || Lookup(m, key).None? {
      UntouchedLookup(f, patch.kids, key);
      MergedLookup(f, patch.kids, key);
    }
    JoinUnique(u, m);
  }

  // The standard's algorithm, member by member.

  lemma {:induction false} RemoveLookup(f: Forest, key: seq<byte>, other: seq<byte>)
    requires ShapedPairs(f)
    ensures Lookup(Remove(f, key), other) == if key == other then None else Lookup(f, other)
    decreases f
  {
    match f
    case Nil =>
    case Cons(_, Cons(_, t)) => RemoveLookup(t, key, other);
  }

  lemma {:induction false} SetLookup(f: Forest, key: seq<byte>, v: Json, other: seq<byte>)
    requires ShapedPairs(f) && Shaped(v)
    ensures Lookup(Set(f, key, v), other) == if key == other then Some(v) else Lookup(f, other)
    decreases f
  {
    match f
    case Nil =>
    case Cons(_, Cons(_, t)) => SetLookup(t, key, v, other);
  }

  lemma {:induction false} StandardLookup(target: Forest, patch: Forest, key: seq<byte>)
    requires ShapedPairs(target) && ShapedPairs(patch) && UniqueKeys(patch)
    ensures Lookup(StandardMembers(target, patch), key)
         == match Lookup(patch, key)
            case None => Lookup(target, key)
            case Some(v) => if v == Leaf(Null) then None else Some(StandardMerge(Lookup(target, key), v))
    decreases patch
  {
    match patch
    case Nil =>
    case Cons(k, Cons(v, t)) =>
      var name := k.atom.bytes;
      hide StandardMerge;
      if v == Leaf(Null) {
        StandardLookup(Remove(target, name), t, key);
        RemoveLookup(target, name, key);
      } else {
        var w := StandardMerge(Lookup(target, name), v);
        StandardLookup(Set(target, name, w), t, key);
        SetLookup(target, name, w, key);
      }
  }

  /** Equal but for the order of members. */
  ghost predicate Same(a: Json, b: Json)
    requires Shaped(a) && Shaped(b)
    decreases a
  {
    if a.Node? && a.obj && b.Node? && b.obj then
      forall key: seq<byte> ::
        var x, y := Lookup(a.kids, key), Lookup(b.kids, key);
        x.Some? == y.Some? && (x.Some? ==> Same(x.value, y.value))
    else a == b
  }

  lemma {:induction false} SameReflexive(a: Json)
    requires Shaped(a)
    ensures Same(a, a)
    decreases a
  {
    if IsObject(a) {
      forall key: seq<byte> | Lookup(a.kids, key).Some? ensures Same(Lookup(a.kids, key).value, Lookup(a.kids, key).value) {
        SameReflexive(Lookup(a.kids, key).value);
      }
    }
  }

  /** The engine computes the standard's merge. */
  lemma {:induction false} MergeIsStandard(orig: Option<Json>, patch: Json)
    requires Shaped(patch) && (orig.Some? ==> Shaped(orig.value)) && UniqueWithin(patch)
    ensures Same(Merge(orig, patch), StandardMerge(orig, patch))
    decreases patch
  {
    if IsObject(patch) {
      var a, b := Merge(orig, patch), StandardMerge(orig, patch);
      var f := Members(orig);
      forall key: seq<byte>
        ensures var x, y := Lookup(a.kids, key), Lookup(b.kids, key);
                x.Some? == y.Some? && (x.Some? ==> Same(x.value, y.value))
      {
        MergeLookup(orig, patch, key);
        StandardLookup(f, patch.kids, key);
        var v := Lookup(patch.kids, key);
        if v.None? {
          if Lookup(f, key).Some? {
            SameReflexive(Lookup(f, key).value);
          }
        } else if v.value != Leaf(Null) {
          UniqueMember(patch.kids, key);
          MergeIsStandard(Lookup(f, key), v.value);
        }
      }
    } else {
      SameReflexive(patch);
    }
  }

  /** With a key twice it is another: the source takes both members over, the algorithm of the standard the later one. */
  lemma DuplicateKeysDiffer()
    ensures var a, one, two := Leaf(Str([97])), Leaf(Int(false, 1)), Leaf(Int(false, 2));
            var patch := Node(true, Cons(a, Cons(one, Cons(a, Cons(two, Nil)))));
            && Merge(None, patch) == patch && StandardMerge(None, patch) == Node(true, Cons(a, Cons(two, Nil)))
            && !Same(Merge(None, patch), StandardMerge(None, patch))
  {
    var a, one, two := Leaf(Str([97])), Leaf(Int(false, 1)), Leaf(Int(false, 2));
    var rest := Cons(a, Cons(two, Nil));
    var patch := Node(true, Cons(a, Cons(one, rest)));
    assert Merged(Nil, rest) == rest;
    assert Merge(None, patch) == patch;
    assert Set(Nil, [97], one) == Cons(a, Cons(one, Nil));
    assert StandardMembers(Cons(a, Cons(one, Nil)), rest) == rest;
    assert StandardMerge(None, patch) == Node(true, rest);
    assert Lookup(patch.kids, [97]) == Some(one) && Lookup(rest, [97]) == Some(two);
  }

  // Twice is once.

  lemma {:induction false} UntouchedAgain(f: Forest, m: Forest, patch: Forest)
    requires ShapedPairs(f) && ShapedPairs(m) && ShapedPairs(patch)
    requires forall key: seq<byte> :: Lookup(m, key).Some? ==> Lookup(patch, key).Some?
    requires UniqueKeys(m)
    ensures Untouched(Join(Untouched(f, patch), m), patch) == Untouched(f, patch)
    decreases f
  {
    match f
    case Nil => NothingUntouched(m, patch);
    case Cons(_, Cons(_, t)) => UntouchedAgain(t, m, patch);
  }

  lemma {:induction false} NothingUntouched(m: Forest, patch: Forest)
    requires ShapedPairs(m) && ShapedPairs(patch) && UniqueKeys(m)
    requires forall key: seq<byte> :: Lookup(m, key).Some? ==> Lookup(patch, key).Some?
    ensures Untouched(m, patch) == Nil
    decreases m
  {
    match m
    case Nil =>
    case Cons(k, Cons(_, t)) =>
      assert Lookup(m, k.atom.bytes).Some?;
      forall key: seq<byte> | Lookup(t, key).Some? ensures Lookup(patch, key).Some? {
        assert Lookup(m, key).Some?;
      }
      NothingUntouched(t, patch);
  }

  /** Merging each member again with what the first merge left changes nothing. */
  lemma {:induction false} MergedAgain(f: Forest, g: Forest, patch: Forest)
    requires ShapedPairs(f) && ShapedPairs(g) && ShapedPairs(patch) && UniqueBelow(patch) && UniqueKeys(patch)
    requires forall key: seq<byte> :: Lookup(patch, key).Some? ==> Lookup(g, key) == MemberSpec(f, patch, key)
    ensures Merged(g, patch) == Merged(f, patch)
    decreases patch, 0
  {
    match patch
    case Nil =>
    case Cons(k, Cons(v, t)) =>
      var name := k.atom.bytes;
      assert Lookup(patch, name) == Some(v);
      forall key: seq<byte> | Lookup(t, key).Some? ensures Lookup(g, key) == MemberSpec(f, t, key) {
        assert key != name;
        assert Lookup(patch, key) == Lookup(t, key);
      }
      MergedAgain(f, g, t);
      if v != Leaf(Null) {
        MergeTwice(Lookup(f, name), v);
      }
  }

  /** Applying the same patch again changes nothing. */
  lemma {:induction false} MergeTwice(orig: Option<Json>, patch: Json)
    requires Shaped(patch) && (orig.Some? ==> Shaped(orig.value)) && UniqueWithin(patch)
    ensures Merge(Some(Merge(orig, patch)), patch) == Merge(orig, patch)
    decreases patch, 1
  {
    if IsObject(patch) {
      var f := Members(orig);
      var u, m := Untouched(f, patch.kids), Merged(f, patch.kids);
      var g := Join(u, m);
      assert Members(Some(Merge(orig, patch))) == g;
      MergedUnique(f, patch.kids);
      forall key: seq<byte>
        ensures Lookup(m, key).Some? ==> Lookup(patch.kids, key).Some?
        ensures Lookup(patch.kids, key).Some? ==> Lookup(g, key) == MemberSpec(f, patch.kids, key)
      {
        MergedLookup(f, patch.kids, key);
        UntouchedLookup(f, patch.kids, key);
        JoinLookup(u, m, key);
      }
      UntouchedAgain(f, m, patch.kids);
      MergedAgain(f, g, patch.kids);
    }
  }

  // The builder.

  lemma AttachFew(kids: seq<Json>)
    requires |kids| < 2
    ensures Attach(kids, Nil) == if kids == [] then Nil else Cons(kids[0], Nil)
  {
  }

  lemma {:induction false} AttachJoin(kids: seq<Json>, f: Forest, g: Forest)
    requires ShapedPairs(f) && ShapedPairs(g) && Attach(kids, Nil) == f
    ensures Attach(kids, g) == Join(f, g)
    decreases |kids|
  {
    if |kids| >= 2 {
      assert kids[1..][1..] == kids[2..];
      assert Attach(kids, Nil) == Cons(kids[0], Cons(kids[1], Attach(kids[2..], Nil)));
      assert Attach(kids, g) == Cons(kids[0], Cons(kids[1], Attach(kids[2..], g)));
      AttachJoin(kids[2..], f.tail.tail, g);
    } else {
      AttachFew(kids);
    }
  }

  lemma AttachPair(kids: seq<Json>, k: Json, v: Json, f: Forest)
    ensures Attach(kids + [k, v], f) == Attach(kids, Cons(k, Cons(v, f)))
  {
    assert kids + [k, v] == kids + [k] + [v];
    AttachSnoc(kids + [k], v, f);
    AttachSnoc(kids, k, Cons(v, f));
  }

  lemma AttachNothing(f: Forest)
    ensures Attach([], f) == f
  {
  }

  /** yyjson_merge_patch: the members the patch leaves alone, and then those it sets, into a new object. */
  method Apply(orig: Option<Json>, patch: Json) returns (r: Json)
    requires Shaped(patch) && (orig.Some? ==> Shaped(orig.value))
    ensures r == Merge(orig, patch)
    decreases patch
  {
    if !IsObject(patch) {
      return patch;
    }
    var f := Members(orig);
    var builder: seq<Json> := [];
    var rest := f;
    AttachNothing(Untouched(f, patch.kids));
    while rest.Cons?
      invariant ShapedPairs(rest) && Attach(builder, Untouched(rest, patch.kids)) == Untouched(f, patch.kids)
      decreases rest
    {
      var key, value := rest.head, rest.tail.head;
      if Lookup(patch.kids, key.atom.bytes).None? {
        AttachPair(builder, key, value, Untouched(rest.tail.tail, patch.kids));
        builder := builder + [key, value];
      }
      rest := rest.tail.tail;
    }
    ghost var kept := Untouched(f, patch.kids);
    AttachJoin(builder, kept, Merged(f, patch.kids));
    rest := patch.kids;
    while rest.Cons?
      invariant ShapedPairs(rest) && (rest == patch.kids || rest < patch.kids)
      invariant Attach(builder, Merged(f, rest)) == Join(kept, Merged(f, patch.kids))
      decreases rest
    {
      var key, value := rest.head, rest.tail.head;
      if value != Leaf(Null) {
        var merged := Apply(Lookup(f, key.atom.bytes), value);
        AttachPair(builder, key, merged, Merged(f, rest.tail.tail));
        builder := builder + [key, merged];
      }
      rest := rest.tail.tail;
    }
    return Node(true, Attach(builder, Nil));
  }
}
