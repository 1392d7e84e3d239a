/**
  JSON texts as RFC 8259 writes them, and the values they stand for: spaces anywhere between tokens, the
  three names, numbers, strings, arrays and objects. The reader accepts exactly these texts, unless a number
  in them is refused as infinite, and gives the value each stands for.
*/
module JsonSyntax {
  import opened Bytes
  import opened Literals
  import opened JsonString
  import opened StringGrammar
  import opened IntegerReader
  import opened NumberText
  import opened NumberPlace
  import opened NumberSyntax
  import opened JsonTree
  import opened JsonGrammar

  // ---------------------------------------------------------------------------------------
  // Texts
  // ---------------------------------------------------------------------------------------

  /** A value as it is written; `gap` is what stands between the brackets of an empty group. */
  datatype Value =
    | NullName
    | TrueName
    | FalseName
    | Num(n: Number)
    | Quoted(items: seq<Item>)
    | Group(obj: bool, gap: seq<byte>, members: Members)

  /** A key, and the spaces before and behind its colon. */
  datatype Key = Key(items: seq<Item>, before: seq<byte>, behind: seq<byte>)

  datatype Members = NoMore | More(before: seq<byte>, key: Option<Key>, value: Value, behind: seq<byte>, rest: Members)

  predicate Spaces(w: seq<byte>) {
    forall k | 0 <= k < |w| :: w[k] in Ascii(" \t\n\r")
  }

  ghost predicate ValidValue(v: Value)
    decreases v, 0
  {
    match v
    case Num(n) => ValidNumber(n) && NumberAtom(n).Some?
    case Quoted(items) => ValidItems(items)
    case Group(obj, gap, members) => Spaces(gap) && ValidMembers(obj, members)
    case _ => true
  }

  ghost predicate ValidKey(k: Key) {
    ValidItems(k.items) && Spaces(k.before) && Spaces(k.behind)
  }

  /** The members of an object have keys, those of an array have none. */
  ghost predicate ValidMembers(obj: bool, ms: Members)
    decreases ms, 1
  {
    match ms
    case NoMore => true
    case More(before, key, value, behind, rest) =>
      && Spaces(before) && Spaces(behind) && key.Some? == obj && (obj ==> ValidKey(key.value))
      && ValidValue(value) && ValidMembers(obj, rest)
  }

  function OpenText(obj: bool): seq<byte> {
    if obj then Ascii("{") else Ascii("[")
  }

  function CloseText(obj: bool): seq<byte> {
    if obj then Ascii("}") else Ascii("]")
  }

  ghost function QuotedText(items: seq<Item>): seq<byte>
    requires ValidItems(items)
  {
    Ascii("\"") + (ItemsText(items) + Ascii("\""))
  }

  ghost function ValueText(v: Value): seq<byte>
    requires ValidValue(v)
    decreases v, 0
  {
    match v
    case NullName => Ascii("null")
    case TrueName => Ascii("true")
    case FalseName => Ascii("false")
    case Num(n) => NumText(n)
    case Quoted(items) => QuotedText(items)
    case Group(obj, gap, members) =>
      OpenText(obj) + ((if members.NoMore? then gap else MembersText(obj, members)) + CloseText(obj))
  }

  ghost function KeyText(k: Key): seq<byte>
    requires ValidKey(k)
  {
    QuotedText(k.items) + (k.before + (Ascii(":") + k.behind))
  }

  ghost function MemberText(obj: bool, ms: Members): seq<byte>
    requires ms.More? && ValidMembers(obj, ms)
    decreases ms, 1
  {
    (if obj then KeyText(ms.key.value) else []) + (ValueText(ms.value) + ms.behind)
  }

  ghost function MembersText(obj: bool, ms: Members): seq<byte>
    requires ValidMembers(obj, ms)
    decreases ms, 2
  {
    if ms.NoMore? then [] else ms.before + (MemberText(obj, ms) + RestText(obj, ms.rest))
  }

  ghost function RestText(obj: bool, ms: Members): seq<byte>
    requires ValidMembers(obj, ms)
    decreases ms, 3
  {
    if ms.NoMore? then [] else Ascii(",") + MembersText(obj, ms)
  }

  // ---------------------------------------------------------------------------------------
  // Values
  // ---------------------------------------------------------------------------------------

  ghost function Tree(v: Value): Json
    requires ValidValue(v)
    decreases v, 0
  {
    match v
    case NullName => Leaf(Null)
    case TrueName => Leaf(Bool(true))
    case FalseName => Leaf(Bool(false))
    case Num(n) => Leaf(NumberAtom(n).value)
    case Quoted(items) => Leaf(Str(ItemsMeaning(items)))
    case Group(obj, _, members) => Node(obj, Kids(obj, members))
  }

  ghost function Kids(obj: bool, ms: Members): Forest
    requires ValidMembers(obj, ms)
    decreases ms, 1
  {
    if ms.NoMore? then Nil
    else
      var more := Cons(Tree(ms.value), Kids(obj, ms.rest));
      if obj then Cons(Leaf(Str(ItemsMeaning(ms.key.value.items))), more) else more
  }

  /** How many members are written. */
  function MemberCount(ms: Members): nat {
    if ms.NoMore? then 0 else 1 + MemberCount(ms.rest)
  }

  lemma {:induction false} KidsCounted(obj: bool, ms: Members)
    requires ValidMembers(obj, ms)
    ensures Count(Kids(obj, ms)) == if obj then 2 * MemberCount(ms) else MemberCount(ms)
    decreases ms
  {
    hide ValidValue, ValidKey;
    if ms.More? {
      KidsCounted(obj, ms.rest);
    }
    hide Spaces, Tree, ItemsMeaning;
  }

  /** The first slot of a group says how many members its text has, and how many slots it takes. */
  lemma HeadCounts(v: Value)
    requires ValidValue(v) && v.Group?
    ensures Encode(Tree(v))[0] == Head(v.obj, MemberCount(v.members), |Encode(Tree(v))|)
  {
    KidsCounted(v.obj, v.members);
    hide Kids, ValidMembers, Count, EncodeForest;
  }

  // ---------------------------------------------------------------------------------------
  // Tokens
  // ---------------------------------------------------------------------------------------

  lemma SpaceIs(b: byte)
    ensures IsSpace(b) <==> b in Ascii(" \t\n\r")
  {
    var t := Ascii(" \t\n\r");
    assert t == [32, 9, 10, 13];
  }

  lemma {:induction false} SkipsSpaces(s: seq<byte>, i: nat, w: seq<byte>)
    requires Holds(s, i, w) && Spaces(w) && !IsSpace(At(s, i + |w|))
    ensures Skip(s, i) == i + |w|
    decreases |w|
  {
    if w != [] {
      FirstHeld(s, i, w);
      SpaceIs(w[0]);
      assert w == w[..1] + w[1..];
      HoldsParts(s, i, w[..1], w[1..]);
      SkipsSpaces(s, i + 1, w[1..]);
    }
  }

  lemma {:induction false} SpacesFound(s: seq<byte>, i: nat)
    requires i <= |s|
    ensures Skip(s, i) <= |s| && Spaces(s[i..Skip(s, i)]) && Holds(s, i, s[i..Skip(s, i)])
    decreases |s| - i
  {
    if IsSpace(At(s, i)) {
      SpacesFound(s, i + 1);
      SpaceIs(s[i]);
      var j := Skip(s, i);
      assert s[i..j] == [s[i]] + s[i + 1..j];
    }
  }

  lemma Brackets()
    ensures OpenText(true) == [123] && OpenText(false) == [91] && CloseText(true) == [125] && CloseText(false) == [93]
    ensures Ascii(",") == [44] && Ascii(":") == [58] && Ascii("\"") == [34]
    ensures Ascii("null") == NULL && Ascii("true") == TRUE && Ascii("false") == FALSE
  {
  }

  lemma OneByte(s: seq<byte>, i: nat, b: byte)
    ensures Holds(s, i, [b]) <==> i < |s| && At(s, i) == b
  {
    if i < |s| {
      assert s[i..i + 1] == [s[i]];
    }
  }

  /** How a value's text begins: by which the reader knows what it is. */
  predicate Begins(v: Value, b: byte) {
    match v
    case NullName => b == 'n' as int
    case TrueName => b == 't' as int
    case FalseName => b == 'f' as int
    case Num(_) => b == '-' as int || '0' as int <= b <= '9' as int
    case Quoted(_) => b == '"' as int
    case Group(obj, _, _) => b == if obj then '{' as int else '[' as int
  }

  lemma NumberBegins(n: Number)
    requires ValidNumber(n)
    ensures NumText(n) != [] && (NumText(n)[0] == '-' as int || '0' as int <= NumText(n)[0] <= '9' as int)
  {
    FirstDecimal(n.whole);
    hide AllDecimal, ValidScale, FractionText, ScaleText;
  }

  lemma ValueBegins(v: Value)
    requires ValidValue(v)
    ensures ValueText(v) != [] && Begins(v, ValueText(v)[0])
  {
    if v.Num? {
      NumberBegins(v.n);
    }
    hide NumText, ItemsText, MembersText, ValidNumber, NumberAtom, ValidItems, ValidMembers;
  }

  lemma ValueStarts(s: seq<byte>, i: nat, v: Value)
    requires ValidValue(v) && Holds(s, i, ValueText(v))
    ensures i < |s| && Begins(v, At(s, i)) && !IsSpace(At(s, i))
  {
    ValueBegins(v);
    FirstHeld(s, i, ValueText(v));
    hide Holds, ValidValue, ValueText;
  }

  // ---------------------------------------------------------------------------------------
  // Texts are read
  // ---------------------------------------------------------------------------------------

  /** A string, from its opening quote, also in a key's place. */
  lemma QuotedReads(s: seq<byte>, i: nat, items: seq<Item>)
    requires ValidItems(items) && Holds(s, i, QuotedText(items))
    ensures KeyAt(s, i) == Some((Str(ItemsMeaning(items)), i + |QuotedText(items)|))
  {
    hide ItemsText, ItemsMeaning, ValidItems, Holds, StringAt;
    Brackets();
    HoldsParts(s, i, Ascii("\""), ItemsText(items) + Ascii("\""));
    FirstHeld(s, i, Ascii("\""));
    StringReads(s, i + 1, items);
  }

  lemma NumberReads(s: seq<byte>, i: nat, n: Number)
    requires ValidNumber(n) && NumberAtom(n).Some?
    requires Holds(s, i, NumText(n)) && EndsNumber(At(s, i + |NumText(n)|))
    ensures NumberAt(s, i) == Some((NumberAtom(n).value, i + |NumText(n)|))
  {
    NumberRead(s, i, n);
    hide NumText, Holds, ValidNumber, Refused, NumberEnd, Fits, WordOf, DoubleBits, TextOf, RunEnd, IntegerText, FitsWord, Stored;
    NumberIsAt(s, i, n);
  }

  lemma NumberIsAt(s: seq<byte>, i: nat, n: Number)
    requires ValidNumber(n) && NumberAtom(n).Some? && NumberEnd(s, i) == Some(i + |NumText(n)|)
    requires Refused(s, i) == Refused(NumText(n), 0) && TextOf(s, i) == NumText(n)
    requires IntegerText(s, i) && FitsWord(s, i) <==> Fits(n)
    requires Fits(n) ==> Stored(s, i) == WordOf(n) && (Sign(s, i) == 1 <==> n.negative)
    ensures NumberAt(s, i) == Some((NumberAtom(n).value, i + |NumText(n)|))
  {
    EndInside(s, i);
    if Fits(n) {
      IntegerEnds(s, i);
    }
    hide NumText, ValidNumber, Refused, NumberEnd, Fits, WordOf, DoubleBits, TextOf, RunEnd, IntegerText, FitsWord, Stored;
  }

  lemma NameReads(s: seq<byte>, i: nat, v: Value)
    requires (v.NullName? || v.TrueName? || v.FalseName?) && Holds(s, i, ValueText(v))
    ensures ScalarAt(s, i) == Some((Tree(v).atom, i + |ValueText(v)|))
  {
    Brackets();
    FirstHeld(s, i, ValueText(v));
    hide Holds, NumberAt, KeyAt;
  }

  /** A value of one slot; what follows a number must not go on with it. */
  lemma ScalarReads(s: seq<byte>, i: nat, v: Value)
    requires ValidValue(v) && !v.Group? && Holds(s, i, ValueText(v)) && EndsNumber(At(s, i + |ValueText(v)|))
    ensures Tree(v).Leaf? && ScalarAt(s, i) == Some((Tree(v).atom, i + |ValueText(v)|))
  {
    hide Holds, KeyAt, NumberAt, ValidNumber, NumText, NumberAtom, ItemsText, ItemsMeaning, ValidItems, EndsNumber;
    ValueStarts(s, i, v);
    match v {
      case Num(n) => NumberReads(s, i, n);
      case Quoted(items) => QuotedReads(s, i, items);
      case NullName => NameReads(s, i, v);
      case TrueName => NameReads(s, i, v);
      case FalseName => NameReads(s, i, v);
      case Group(_, _, _) =>
    }
  }

  /** The text of the members from a value on: what stands behind it, the rest, and the closing bracket. */
  ghost function TailText(obj: bool, ms: Members): seq<byte>
    requires ms.More? && ValidMembers(obj, ms)
  {
    ms.behind + (RestText(obj, ms.rest) + CloseText(obj))
  }

  /** What follows a value ends it. */
  lemma TailEnds(s: seq<byte>, j: nat, obj: bool, ms: Members)
    requires ms.More? && ValidMembers(obj, ms) && Holds(s, j, TailText(obj, ms))
    ensures EndsNumber(At(s, j)) && j < |s|
  {
    Brackets();
    FirstHeld(s, j, TailText(obj, ms));
    if ms.behind != [] {
      assert TailText(obj, ms)[0] == ms.behind[0];
      SpaceIs(ms.behind[0]);
    } else {
      assert TailText(obj, ms)[0] == (RestText(obj, ms.rest) + CloseText(obj))[0];
      RestBegins(obj, ms.rest);
    }
    hide Holds, TailText, MembersText, ValidMembers;
  }

  lemma RestBegins(obj: bool, ms: Members)
    requires ValidMembers(obj, ms)
    ensures var w := RestText(obj, ms) + CloseText(obj);
            w != [] && w[0] == if ms.NoMore? then CloseText(obj)[0] else ',' as int
  {
    hide MembersText;
  }

  lemma RestStarts(s: seq<byte>, j: nat, obj: bool, ms: Members)
    requires ValidMembers(obj, ms) && Holds(s, j, RestText(obj, ms) + CloseText(obj))
    ensures !IsSpace(At(s, j)) && At(s, j) == if ms.NoMore? then Close(obj) else COMMA
  {
    Brackets();
    RestBegins(obj, ms);
    FirstHeld(s, j, RestText(obj, ms) + CloseText(obj));
    hide Holds, RestText, ValidMembers;
  }

  lemma RestIsMembers(obj: bool, ms: Members)
    requires ValidMembers(obj, ms) && ms.More?
    ensures RestText(obj, ms) + CloseText(obj) == Ascii(",") + (MembersText(obj, ms) + CloseText(obj))
  {
    hide MembersText;
  }

  /** Behind a value: spaces, and another member or the closing bracket. */
  lemma {:induction false} RestReads(obj: bool, s: seq<byte>, i: nat, behind: seq<byte>, ms: Members)
    requires Spaces(behind) && ValidMembers(obj, ms) && Holds(s, i, behind + (RestText(obj, ms) + CloseText(obj)))
    ensures i <= |s|
    ensures RestAt(obj, s, i) == Ok(Kids(obj, ms), i + |behind + (RestText(obj, ms) + CloseText(obj))|)
    decreases ms, 4
  {
    hide Holds, ElementAt, ValidMembers, Skip, Spaces, CloseText;
    var j := i + |behind|;
    HoldsParts(s, i, behind, RestText(obj, ms) + CloseText(obj));
    RestStarts(s, j, obj, ms);
    SkipsSpaces(s, i, behind);
    CloseLength(obj);
    InText(s, i, behind);
    if ms.More? {
      RestIsMembers(obj, ms);
      Brackets();
      HoldsParts(s, j, Ascii(","), MembersText(obj, ms) + CloseText(obj));
      hide RestText;
      MembersRead(obj, s, j + 1, ms);
    }
  }

  lemma InText(s: seq<byte>, i: nat, w: seq<byte>)
    requires Holds(s, i, w)
    ensures i + |w| <= |s|
  {
  }

  lemma CloseLength(obj: bool)
    ensures |CloseText(obj)| == |OpenText(obj)| == 1
  {
  }

  /** A value and what follows it. */
  lemma {:induction false} PairReads(obj: bool, s: seq<byte>, i: nat, gap: seq<byte>, ms: Members)
    requires ms.More? && ValidMembers(obj, ms) && Spaces(gap)
    requires Holds(s, i, gap + (ValueText(ms.value) + TailText(obj, ms)))
    ensures i <= |s|
    ensures PairValueAt(obj, s, i)
         == Ok(Cons(Tree(ms.value), Kids(obj, ms.rest)), i + |gap + (ValueText(ms.value) + TailText(obj, ms))|)
    decreases ms, 1
  {
    hide Holds, ContainerAt, RestAt, ScalarAt, Skip, Spaces, RestText, CloseText;
    var v, tail := ms.value, TailText(obj, ms);
    var j := i + |gap|;
    HoldsParts(s, i, gap, ValueText(v) + tail);
    HoldsParts(s, j, ValueText(v), tail);
    InText(s, i, gap);
    ValueStarts(s, j, v);
    SkipsSpaces(s, i, gap);
    TailEnds(s, j + |ValueText(v)|, obj, ms);
    RestReads(obj, s, j + |ValueText(v)|, ms.behind, ms.rest);
    if v.Group? {
      GroupReads(s, j, v);
    } else {
      ScalarReads(s, j, v);
    }
    hide ValueText, TailText, ValidMembers, Tree, Kids;
  }

  lemma MembersParts(obj: bool, ms: Members)
    requires ms.More? && ValidMembers(obj, ms)
    ensures MembersText(obj, ms) + CloseText(obj) ==
              if obj then ms.before + (KeyText(ms.key.value) + (ValueText(ms.value) + TailText(obj, ms)))
              else ms.before + (ValueText(ms.value) + TailText(obj, ms))
  {
    var k := if obj then KeyText(ms.key.value) else [];
    var v, b, r, c := ValueText(ms.value), ms.behind, RestText(obj, ms.rest), CloseText(obj);
    Reassociated(ms.before, k, v, b, r, c);
    if !obj {
      assert [] + (v + (b + (r + c))) == v + (b + (r + c));
    }
    hide KeyText, ValueText, RestText, CloseText;
  }

  lemma Reassociated(p: seq<byte>, k: seq<byte>, v: seq<byte>, b: seq<byte>, r: seq<byte>, c: seq<byte>)
    ensures p + ((k + (v + b)) + r) + c == p + (k + (v + (b + (r + c))))
  {
  }

  lemma KeyParts(k: Key, w: seq<byte>)
    requires ValidKey(k)
    ensures KeyText(k) + w == QuotedText(k.items) + (k.before + (Ascii(":") + (k.behind + w)))
  {
    hide QuotedText;
  }

  /** A member of an object: its key, the colon, and the value. */
  lemma {:induction false} KeyReads(s: seq<byte>, i: nat, ms: Members)
    requires ms.More? && ValidMembers(true, ms)
    requires Holds(s, i, KeyText(ms.key.value) + (ValueText(ms.value) + TailText(true, ms)))
    ensures i < |s| && !IsSpace(At(s, i))
    ensures var k, e := ms.key.value, i + |QuotedText(ms.key.value.items)|;
            && e <= |s| && KeyAt(s, i) == Some((Str(ItemsMeaning(k.items)), e))
            && AfterKeyAt(s, e) == Ok(Cons(Tree(ms.value), Kids(true, ms.rest)),
                                      i + |KeyText(k) + (ValueText(ms.value) + TailText(true, ms))|)
    decreases ms, 2
  {
    hide Holds, PairValueAt, Skip, Spaces, TailText, ItemsMeaning, KeyAt, Kids, Tree, QuotedText;
    var k, w := ms.key.value, ValueText(ms.value) + TailText(true, ms);
    var e := i + |QuotedText(k.items)|;
    var c := e + |k.before|;
    Brackets();
    KeyParts(k, w);
    HoldsParts(s, i, QuotedText(k.items), k.before + (Ascii(":") + (k.behind + w)));
    HoldsParts(s, e, k.before, Ascii(":") + (k.behind + w));
    HoldsParts(s, c, Ascii(":"), k.behind + w);
    InText(s, i, QuotedText(k.items));
    QuotedStarts(s, i, k.items);
    QuotedReads(s, i, k.items);
    FirstHeld(s, c, Ascii(":"));
    SkipsSpaces(s, e, k.before);
    PairReads(true, s, c + 1, k.behind, ms);
    hide ValueText, KeyText, ValidMembers, ValidKey;
  }

  lemma QuotedStarts(s: seq<byte>, i: nat, items: seq<Item>)
    requires ValidItems(items) && Holds(s, i, QuotedText(items))
    ensures i < |s| && At(s, i) == QUOTE && !IsSpace(At(s, i))
  {
    Brackets();
    FirstHeld(s, i, QuotedText(items));
    hide Holds, ItemsText, ValidItems;
  }

  /** The members up to the closing bracket. */
  lemma {:induction false} MembersRead(obj: bool, s: seq<byte>, i: nat, ms: Members)
    requires ms.More? && ValidMembers(obj, ms) && Holds(s, i, MembersText(obj, ms) + CloseText(obj))
    ensures i <= |s| && ElementAt(obj, s, i) == Ok(Kids(obj, ms), i + |MembersText(obj, ms) + CloseText(obj)|)
    decreases ms, 3
  {
    hide Holds, PairValueAt, AfterKeyAt, Skip, Spaces, TailText, ItemsMeaning, KeyAt, KeyText, ValueText, MembersText;
    var tail := ValueText(ms.value) + TailText(obj, ms);
    MembersParts(obj, ms);
    if obj {
      var k := ms.key.value;
      HoldsParts(s, i, ms.before, KeyText(k) + tail);
      InText(s, i, ms.before);
      KeyReads(s, i + |ms.before|, ms);
      SkipsSpaces(s, i, ms.before);
    } else {
      PairReads(obj, s, i, ms.before, ms);
    }
  }

  lemma MembersBegin(s: seq<byte>, i: nat, obj: bool, ms: Members)
    requires ms.More? && ValidMembers(obj, ms) && Holds(s, i, MembersText(obj, ms) + CloseText(obj))
    ensures i <= |s| && At(s, Skip(s, i)) != Close(obj)
  {
    hide Holds, Skip, TailText, KeyText, ValueText, MembersText, Spaces;
    var tail := ValueText(ms.value) + TailText(obj, ms);
    MembersParts(obj, ms);
    InText(s, i, MembersText(obj, ms) + CloseText(obj));
    if obj {
      var k := ms.key.value;
      HoldsParts(s, i, ms.before, KeyText(k) + tail);
      KeyBegins(s, i + |ms.before|, k, tail);
    } else {
      HoldsParts(s, i, ms.before, tail);
      HoldsParts(s, i + |ms.before|, ValueText(ms.value), TailText(obj, ms));
      ValueStarts(s, i + |ms.before|, ms.value);
    }
    SkipsSpaces(s, i, ms.before);
  }

  lemma KeyBegins(s: seq<byte>, i: nat, k: Key, w: seq<byte>)
    requires ValidKey(k) && Holds(s, i, KeyText(k) + w)
    ensures At(s, i) == QUOTE && !IsSpace(At(s, i))
  {
    KeyParts(k, w);
    HoldsParts(s, i, QuotedText(k.items), k.before + (Ascii(":") + (k.behind + w)));
    QuotedStarts(s, i, k.items);
    hide Holds;
  }

  /** An array or an object. */
  lemma {:induction false} GroupReads(s: seq<byte>, i: nat, v: Value)
    requires v.Group? && ValidValue(v) && Holds(s, i, ValueText(v))
    ensures i < |s| && At(s, i) == Open(v.obj)
    ensures ContainerAt(v.obj, s, i + 1) == Ok(Tree(v), i + |ValueText(v)|)
    decreases v, 4
  {
    hide Holds, ElementAt, Skip, Spaces, MembersText, Kids, ValidMembers;
    var obj, ms := v.obj, v.members;
    var body := (if ms.NoMore? then v.gap else MembersText(obj, ms)) + CloseText(obj);
    Brackets();
    HoldsParts(s, i, OpenText(obj), body);
    FirstHeld(s, i, OpenText(obj));
    if ms.NoMore? {
      HoldsParts(s, i + 1, v.gap, CloseText(obj));
      FirstHeld(s, i + 1 + |v.gap|, CloseText(obj));
      SkipsSpaces(s, i + 1, v.gap);
      NoKids(obj);
    } else {
      MembersBegin(s, i + 1, obj, ms);
      MembersRead(obj, s, i + 1, ms);
    }
  }

  lemma NoKids(obj: bool)
    ensures Kids(obj, NoMore) == Nil
  {
  }

  /** A whole text: a value, with spaces around it. */
  ghost predicate IsText(s: seq<byte>, before: seq<byte>, v: Value, behind: seq<byte>) {
    Spaces(before) && ValidValue(v) && Spaces(behind) && s == before + (ValueText(v) + behind)
  }

  lemma BehindText(s: seq<byte>, before: seq<byte>, v: Value, behind: seq<byte>)
    requires IsText(s, before, v, behind)
    ensures var i, e := |before|, |before| + |ValueText(v)|;
            && Holds(s, 0, before) && Holds(s, i, ValueText(v)) && Holds(s, e, behind)
            && |s| == e + |behind| && EndsNumber(At(s, e)) && Skip(s, e) == |s|
  {
    hide ValidValue, ValueText, Spaces, Holds;
    var e := |before| + |ValueText(v)|;
    WholeThere(s);
    HoldsParts(s, 0, before, ValueText(v) + behind);
    HoldsParts(s, |before|, ValueText(v), behind);
    SkipsSpaces(s, e, behind);
    if behind != [] {
      FirstHeld(s, e, behind);
      FirstSpace(behind);
    }
  }

  lemma WholeThere(s: seq<byte>)
    ensures Holds(s, 0, s)
  {
  }

  lemma FirstSpace(w: seq<byte>)
    requires w != [] && Spaces(w)
    ensures EndsNumber(w[0]) && IsSpace(w[0])
  {
    SpaceIs(w[0]);
  }

  /** A text is read as the value it stands for. */
  lemma TextReads(s: seq<byte>, before: seq<byte>, v: Value, behind: seq<byte>)
    requires IsText(s, before, v, behind)
    ensures TextAt(s) == Ok(Tree(v), |before| + |ValueText(v)|)
  {
    hide Holds, ContainerAt, ScalarAt, Skip, Spaces, ValueText, ValidMembers, ItemsMeaning, NumberAtom, Kids;
    BehindText(s, before, v, behind);
    var i := |before|;
    ValueStarts(s, i, v);
    SkipsSpaces(s, 0, before);
    if v.Group? {
      GroupReads(s, i, v);
    } else {
      ScalarReads(s, i, v);
    }
    hide IsText, ValidValue;
  }

  // ---------------------------------------------------------------------------------------
  // What is read is a text
  // ---------------------------------------------------------------------------------------

  lemma QuotedFound(s: seq<byte>, i: nat) returns (items: seq<Item>)
    requires KeyAt(s, i).Some?
    ensures ValidItems(items) && Holds(s, i, QuotedText(items)) && KeyAt(s, i).value.1 == i + |QuotedText(items)|
  {
    hide ItemsText, ItemsMeaning, ValidItems, StringAt, Holds;
    items := StringFound(s, i + 1);
    StringReads(s, i + 1, items);
    Brackets();
    OneByte(s, i, 34);
    HoldsParts(s, i, Ascii("\""), ItemsText(items) + Ascii("\""));
  }

  lemma NumFound(s: seq<byte>, i: nat) returns (n: Number)
    requires NumberAt(s, i).Some? && EndsNumber(At(s, NumberAt(s, i).value.1))
    ensures ValidNumber(n) && NumberAtom(n).Some? && Holds(s, i, NumText(n))
    ensures NumberAt(s, i).value.1 == i + |NumText(n)|
  {
    hide NumberAt, NumText, Holds, ValidNumber, Refused, NumberEnd, WordOf, DoubleBits, RunEnd, IntegerText, FitsWord, Stored;
    NumberHasEnd(s, i);
    n := NumberFound(s, i);
    NumberRead(s, i, n);
    NumberTaken(s, i);
    TakenHasAtom(n);
  }

  lemma TakenHasAtom(n: Number)
    requires ValidNumber(n) && (Fits(n) || !Refused(NumText(n), 0))
    ensures NumberAtom(n).Some?
  {
    hide ValidNumber, Fits, Refused, NumText, DoubleBits;
  }

  lemma NumberHasEnd(s: seq<byte>, i: nat)
    requires NumberAt(s, i).Some?
    ensures NumberEnd(s, i) == Some(NumberAt(s, i).value.1)
  {
    if IntegerText(s, i) {
      IntegerEnds(s, i);
    }
    hide RunEnd, Refused, DoubleBits, TextOf;
  }

  lemma NumberTaken(s: seq<byte>, i: nat)
    requires NumberAt(s, i).Some?
    ensures (IntegerText(s, i) && FitsWord(s, i)) || !Refused(s, i)
  {
    hide RunEnd, Refused, DoubleBits, TextOf, IntegerText, FitsWord;
  }

  /** A value of one slot that is read has been written so, if nothing goes on with it. */
  lemma ScalarFound(s: seq<byte>, i: nat) returns (v: Value)
    requires ScalarAt(s, i).Some? && EndsNumber(At(s, ScalarAt(s, i).value.1))
    ensures ValidValue(v) && !v.Group? && Holds(s, i, ValueText(v)) && ScalarAt(s, i).value.1 == i + |ValueText(v)|
  {
    hide KeyAt, NumberAt, Holds;
    Brackets();
    if StartsNumber(At(s, i)) {
      var n := NumFound(s, i);
      v := Num(n);
    } else if At(s, i) == QUOTE {
      var items := QuotedFound(s, i);
      v := Quoted(items);
    } else if At(s, i) == TRUE[0] {
      v := TrueName;
    } else if At(s, i) == FALSE[0] {
      v := FalseName;
    } else {
      v := NullName;
    }
    hide ItemsText, NumText, ValidNumber, NumberAtom, ValidItems;
  }

  lemma CloseThere(s: seq<byte>, j: nat, obj: bool)
    ensures Holds(s, j, CloseText(obj)) <==> j < |s| && At(s, j) == Close(obj)
    ensures Holds(s, j, OpenText(obj)) <==> j < |s| && At(s, j) == Open(obj)
  {
    Brackets();
    OneByte(s, j, Close(obj));
    OneByte(s, j, Open(obj));
  }

  /** What ends a value's neighbourhood: the first byte that is no space cannot go on with a number. */
  lemma RestEndsNumber(obj: bool, s: seq<byte>, i: nat)
    requires i <= |s| && RestAt(obj, s, i).Ok?
    ensures EndsNumber(At(s, i))
  {
    if IsSpace(At(s, i)) {
    } else {
      assert Skip(s, i) == i;
    }
    hide ElementAt;
  }

  /** Behind a value: spaces, and another member or the closing bracket. */
  lemma {:induction false} RestFound(obj: bool, s: seq<byte>, i: nat) returns (behind: seq<byte>, ms: Members)
    requires i <= |s| && RestAt(obj, s, i).Ok?
    ensures Spaces(behind) && ValidMembers(obj, ms)
    ensures Holds(s, i, behind + (RestText(obj, ms) + CloseText(obj)))
    decreases |s| - i, 4
  {
    hide Holds, Spaces, ElementAt, CloseText, MembersText, ValidMembers, Skip;
    var j := Skip(s, i);
    SpacesFound(s, i);
    behind := s[i..j];
    if At(s, j) == COMMA {
      ms := ElementFound(obj, s, j + 1);
      RestIsMembers(obj, ms);
      Brackets();
      OneByte(s, j, COMMA);
      HoldsParts(s, j, Ascii(","), MembersText(obj, ms) + CloseText(obj));
    } else {
      ms := NoMore;
      NoMembers(obj);
      CloseThere(s, j, obj);
    }
    hide RestText;
    HoldsParts(s, i, behind, RestText(obj, ms) + CloseText(obj));
  }

  lemma NoMembers(obj: bool)
    ensures ValidMembers(obj, NoMore) && RestText(obj, NoMore) + CloseText(obj) == CloseText(obj)
    ensures MembersText(obj, NoMore) == []
  {
  }

  /** A value, the spaces before it, and what follows it. */
  lemma {:induction false} PairFound(obj: bool, s: seq<byte>, i: nat)
    returns (gap: seq<byte>, v: Value, behind: seq<byte>, ms: Members)
    requires i <= |s| && PairValueAt(obj, s, i).Ok?
    ensures Spaces(gap) && ValidValue(v) && Spaces(behind) && ValidMembers(obj, ms)
    ensures Holds(s, i, gap + (ValueText(v) + (behind + (RestText(obj, ms) + CloseText(obj)))))
    decreases |s| - i, 0
  {
    hide Holds, Spaces, ContainerAt, RestAt, ScalarAt, CloseText, RestText, ValidMembers, Skip, ValueText, ValidValue;
    var j := Skip(s, i);
    SpacesFound(s, i);
    gap := s[i..j];
    var e;
    if At(s, j) == Open(true) || At(s, j) == Open(false) {
      var o := At(s, j) == Open(true);
      v := ContainerFound(o, s, j);
      e := ContainerAt(o, s, j + 1).end;
    } else {
      e := ScalarAt(s, j).value.1;
      RestEndsNumber(obj, s, e);
      v := ScalarFound(s, j);
    }
    behind, ms := RestFound(obj, s, e);
    HoldsParts(s, j, ValueText(v), behind + (RestText(obj, ms) + CloseText(obj)));
    HoldsParts(s, i, gap, ValueText(v) + (behind + (RestText(obj, ms) + CloseText(obj))));
  }

  lemma MembersFrom(obj: bool, before: seq<byte>, key: Option<Key>, v: Value, behind: seq<byte>, rest: Members)
    requires Spaces(before) && Spaces(behind) && key.Some? == obj && (obj ==> ValidKey(key.value))
    requires ValidValue(v) && ValidMembers(obj, rest)
    ensures var ms := More(before, key, v, behind, rest);
            && ValidMembers(obj, ms)
            && TailText(obj, ms) == behind + (RestText(obj, rest) + CloseText(obj))
            && MembersText(obj, ms) + CloseText(obj) ==
                 if obj then before + (KeyText(key.value) + (ValueText(v) + TailText(obj, ms)))
                 else before + (ValueText(v) + TailText(obj, ms))
  {
    MembersParts(obj, More(before, key, v, behind, rest));
  }

  /** A key's text, from its opening quote to what follows the colon. */
  lemma {:induction false} KeyFound(s: seq<byte>, i: nat)
    returns (k: Key, v: Value, behind: seq<byte>, ms: Members)
    requires i <= |s| && KeyAt(s, i).Some? && AfterKeyAt(s, KeyAt(s, i).value.1).Ok?
    ensures ValidKey(k) && ValidValue(v) && Spaces(behind) && ValidMembers(true, ms)
    ensures Holds(s, i, KeyText(k) + (ValueText(v) + (behind + (RestText(true, ms) + CloseText(true)))))
    decreases |s| - i, 0
  {
    hide Holds, Spaces, KeyAt, PairValueAt, CloseText, RestText, ValidMembers, Skip, ValueText, ValidValue, QuotedText, KeyText;
    var e := KeyAt(s, i).value.1;
    var c := Skip(s, e);
    var items := QuotedFound(s, i);
    SpacesFound(s, e);
    var gap;
    gap, v, behind, ms := PairFound(true, s, c + 1);
    k := Key(items, s[e..c], gap);
    var w := ValueText(v) + (behind + (RestText(true, ms) + CloseText(true)));
    Brackets();
    OneByte(s, c, COLON);
    HoldsParts(s, c, Ascii(":"), gap + w);
    HoldsParts(s, e, s[e..c], Ascii(":") + (gap + w));
    HoldsParts(s, i, QuotedText(items), s[e..c] + (Ascii(":") + (gap + w)));
    KeyParts(k, w);
  }

  /** The members up to the closing bracket. */
  lemma {:induction false} ElementFound(obj: bool, s: seq<byte>, i: nat) returns (ms: Members)
    requires i <= |s| && ElementAt(obj, s, i).Ok?
    ensures ms.More? && ValidMembers(obj, ms) && Holds(s, i, MembersText(obj, ms) + CloseText(obj))
    decreases |s| - i, 1
  {
    hide Holds, Spaces, KeyAt, PairValueAt, AfterKeyAt, CloseText, RestText, ValidMembers, Skip, ValueText, ValidValue;
    hide TailText, KeyText, MembersText, ValidKey;
    var v, behind, rest;
    if obj {
      var j := Skip(s, i);
      SpacesFound(s, i);
      var k;
      k, v, behind, rest := KeyFound(s, j);
      ms := More(s[i..j], Some(k), v, behind, rest);
      MembersFrom(obj, s[i..j], Some(k), v, behind, rest);
      HoldsParts(s, i, s[i..j], KeyText(k) + (ValueText(v) + TailText(obj, ms)));
    } else {
      var gap;
      gap, v, behind, rest := PairFound(false, s, i);
      ms := More(gap, None, v, behind, rest);
      MembersFrom(obj, gap, None, v, behind, rest);
    }
  }

  /** An array or an object, from its opening bracket. */
  lemma {:induction false} ContainerFound(obj: bool, s: seq<byte>, i: nat) returns (v: Value)
    requires i < |s| && At(s, i) == Open(obj) && ContainerAt(obj, s, i + 1).Ok?
    ensures v.Group? && v.obj == obj && ValidValue(v) && Holds(s, i, ValueText(v))
    ensures ContainerAt(obj, s, i + 1).end == i + |ValueText(v)|
    decreases |s| - i - 1, 3
  {
    hide Holds, Spaces, ElementAt, CloseText, OpenText, ValidMembers, Skip, MembersText;
    var j := Skip(s, i + 1);
    SpacesFound(s, i + 1);
    if At(s, j) == Close(obj) {
      v := Group(obj, s[i + 1..j], NoMore);
      NoMembers(obj);
      CloseThere(s, j, obj);
      HoldsParts(s, i + 1, s[i + 1..j], CloseText(obj));
    } else {
      var ms := ElementFound(obj, s, i + 1);
      v := Group(obj, [], ms);
      NoSpaces();
    }
    CloseThere(s, i, obj);
    GroupText(s, i, v);
    GroupReads(s, i, v);
  }

  lemma NoSpaces()
    ensures Spaces([])
  {
  }

  lemma GroupText(s: seq<byte>, i: nat, v: Value)
    requires v.Group? && ValidValue(v) && Holds(s, i, OpenText(v.obj))
    requires Holds(s, i + 1, (if v.members.NoMore? then v.gap else MembersText(v.obj, v.members)) + CloseText(v.obj))
    ensures Holds(s, i, ValueText(v))
  {
    var body := (if v.members.NoMore? then v.gap else MembersText(v.obj, v.members)) + CloseText(v.obj);
    HoldsParts(s, i, OpenText(v.obj), body);
    CloseLength(v.obj);
    hide Holds, MembersText, CloseText, OpenText, ValidMembers;
  }

  lemma RootFound(s: seq<byte>, i: nat) returns (v: Value)
    requires i == Skip(s, 0) && TextAt(s).Ok?
    ensures i <= |s| && ValidValue(v) && Holds(s, i, ValueText(v))
    ensures Skip(s, i + |ValueText(v)|) >= |s|
  {
    hide Holds, ContainerAt, ScalarAt, Skip, ValueText, ValidValue;
    SpacesFound(s, 0);
    if At(s, i) == Open(true) || At(s, i) == Open(false) {
      v := ContainerFound(At(s, i) == Open(true), s, i);
    } else {
      var e := ScalarAt(s, i).value.1;
      EndOrSpace(s, e);
      v := ScalarFound(s, i);
    }
  }

  lemma EndOrSpace(s: seq<byte>, e: nat)
    requires Skip(s, e) >= |s|
    ensures EndsNumber(At(s, e))
  {
    if !IsSpace(At(s, e)) {
      assert Skip(s, e) == e;
    }
  }

  /** A text that is accepted has been written so. */
  lemma TextFound(s: seq<byte>) returns (before: seq<byte>, v: Value, behind: seq<byte>)
    requires TextAt(s).Ok?
    ensures IsText(s, before, v, behind)
  {
    hide TextAt, Skip, ValueText, ValidValue, Spaces;
    var i := Skip(s, 0);
    SpacesFound(s, 0);
    v := RootFound(s, i);
    var e := i + |ValueText(v)|;
    SpacesFound(s, e);
    before, behind := s[0..i], s[e..|s|];
    assert s == s[0..i] + (s[i..e] + s[e..|s|]);
  }

  /** Main result: exactly the JSON texts are accepted, each as the value it stands for. */
  lemma ReadsExactlyTexts(s: seq<byte>, t: Json)
    ensures TextAt(s).Ok? && TextAt(s).v == t
       <==> exists before, v, behind :: IsText(s, before, v, behind) && Tree(v) == t
  {
    hide TextAt, Tree, ValueText, ValidValue, Spaces;
    if TextAt(s).Ok? {
      var before, v, behind := TextFound(s);
      TextReads(s, before, v, behind);
    }
    forall before, v, behind | IsText(s, before, v, behind)
      ensures TextAt(s).Ok? && TextAt(s).v == Tree(v)
    {
      TextReads(s, before, v, behind);
    }
  }
}
