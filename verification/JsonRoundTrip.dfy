/**
  What the writer prints is a JSON text without a space in it, each value in its shortest form, and the reader reads
  it back as the value it was printed from.
 */
module JsonRoundTrip {
  import opened Bytes
  import opened Word64
  import opened Integers
  import opened IntegerReader
  import opened Utf8
  import opened JsonString
  import opened JsonTree
  import opened JsonGrammar
  import opened StringGrammar
  import opened NumberSyntax
  import opened JsonSyntax
  import opened Literals
  import opened JsonText
  import opened JsonWriter

  /** The one change: a signed number that is not negative comes back unsigned. */
  function NormalAtom(a: Atom): Atom {
    match a
    case Int(neg, raw) => Int(IsNegative(neg, raw), raw)
    case _ => a
  }

  function Normal(j: Json): Json {
    match j
    case Leaf(a) => Leaf(NormalAtom(a))
    case Node(obj, kids) => Node(obj, NormalForest(kids))
  }

  function NormalForest(f: Forest): Forest {
    match f
    case Nil => Nil
    case Cons(h, rest) => Cons(Normal(h), NormalForest(rest))
  }

  predicate Printable(a: Atom) {
    !a.Real? && (a.Str? ==> WellFormed(a.bytes))
  }

  predicate PrintableForest(f: Forest) {
    ExactForest(f) && WritableForest(f) && AllShaped(f)
  }

  predicate PrintableJson(j: Json) {
    Exact(j) && Writable(j) && Shaped(j)
  }

  lemma PrintableParts(f: Forest)
    requires PrintableForest(f) && f.Cons?
    ensures PrintableJson(f.head) && PrintableForest(f.tail)
    ensures f.head.Leaf? ==> Printable(f.head.atom)
    ensures f.head.Node? ==> PrintableForest(f.head.kids)
    ensures f.head.Node? ==> if f.head.obj then ShapedPairs(f.head.kids) else ShapedItems(f.head.kids)
  {
    FirstChild(f);
    if f.head.Node? {
      ShapedKids(f.head.obj, f.head.kids);
    }
    hide WellFormed;
  }

  // ---------------------------------------------------------------------------------------
  // The text of a value, as the grammar has it
  // ---------------------------------------------------------------------------------------

  /** An integer in decimal, with no zero in front, and a minus only if it is negative. */
  function WrittenNumber(neg: bool, raw: u64): Number {
    if IsNegative(neg, raw) then Number(true, Numeral(WORD - raw), [], Unscaled)
    else Number(false, Numeral(raw), [], Unscaled)
  }

  /** A string: the items that the options call for. */
  ghost function WrittenString(t: Table, bytes: seq<byte>): seq<Item>
    requires WellFormed(bytes)
  {
    var us := ScalarsIn(bytes);
    WrittenItems(t, us)
  }

  ghost function ScalarsIn(bytes: seq<byte>): (us: seq<nat>)
    requires WellFormed(bytes)
    ensures Scalars(us) && Utf8All(us) == bytes
  {
    SomeScalars(bytes);
    var us :| Scalars(us) && Utf8All(us) == bytes; us
  }

  lemma SomeScalars(bytes: seq<byte>)
    requires WellFormed(bytes)
    ensures exists us :: Scalars(us) && Utf8All(us) == bytes
  {
    var us := ScalarsOf(bytes);
  }

  ghost function WrittenAtom(t: Table, a: Atom): Value
    requires Printable(a)
  {
    match a
    case Null => NullName
    case Bool(b) => if b then TrueName else FalseName
    case Int(neg, raw) => Num(WrittenNumber(neg, raw))
    case Str(bytes) => Quoted(WrittenString(t, bytes))
  }

  ghost function Written(t: Table, j: Json): Value
    requires PrintableJson(j)
    decreases j, 0
  {
    match j
    case Leaf(a) => WrittenAtom(t, a)
    case Node(obj, kids) =>
      ShapedKids(obj, kids);
      Group(obj, [], WrittenMembers(t, obj, kids))
  }

  ghost function WrittenMembers(t: Table, obj: bool, f: Forest): Members
    requires PrintableForest(f) && if obj then ShapedPairs(f) else ShapedItems(f)
    decreases f, 1
  {
    if f.Nil? then NoMore
    else
      PrintableParts(f);
      if obj then
        PrintableParts(f.tail);
        Members.More([], Some(Key(WrittenString(t, f.head.atom.bytes), [], [])), Written(t, f.tail.head), [],
             WrittenMembers(t, obj, f.tail.tail))
      else Members.More([], None, Written(t, f.head), [], WrittenMembers(t, obj, f.tail))
  }

  /** No spaces anywhere. */
  predicate Tight(v: Value)
    decreases v, 0
  {
    v.Group? ==> v.gap == [] && TightMembers(v.members)
  }

  predicate TightMembers(ms: Members)
    decreases ms, 1
  {
    ms.More? ==>
      && ms.before == [] && ms.behind == [] && Tight(ms.value) && TightMembers(ms.rest)
      && (ms.key.Some? ==> ms.key.value.before == [] && ms.key.value.behind == [])
  }

  lemma LastDigit(n: nat)
    ensures Numeral(n) == (if n < 10 then [] else Numeral(n / 10)) + [48 + n % 10] && n == 10 * (n / 10) + n % 10
  {
  }

  lemma {:induction false} NumeralDigits(n: nat)
    ensures AllDecimal(Numeral(n)) && DecimalNumber(Numeral(n)) == n
    decreases n
  {
    var d: byte := 48 + n % 10;
    LastDigit(n);
    DecimalRange(d);
    NoDigits();
    assert DecimalNumber([]) == 0;
    hide IsDecimal, DigitWorth, AllDecimal, DecimalNumber, Numeral;
    if n >= 10 {
      NumeralDigits(n / 10);
      OneMoreDigit(Numeral(n / 10), d);
    } else {
      OneMoreDigit([], d);
    }
  }

  lemma PlainText(negative: bool, whole: seq<byte>)
    ensures NumText(Number(negative, whole, [], Unscaled)) == if negative then [MINUS] + whole else whole
  {
    var n := Number(negative, whole, [], Unscaled);
    assert Ascii("-") == [MINUS];
    assert whole + (FractionText(n) + ScaleText(n.scale)) == whole;
  }

  lemma PlainAtom(negative: bool, whole: seq<byte>)
    requires whole != [] && AllDecimal(whole) && (whole[0] == ZERO ==> |whole| == 1)
    requires var d := DecimalNumber(whole); if negative then 0 < d && 2 * d <= WORD else d < WORD
    ensures var n, d := Number(negative, whole, [], Unscaled), DecimalNumber(whole);
            ValidNumber(n) && NumberAtom(n) == Some(Int(negative, if negative then WORD - d else d))
  {
    NoDigits();
    hide AllDecimal, DecimalNumber, NumText;
  }

  lemma NoDigits()
    ensures AllDecimal([])
  {
  }

  lemma ZeroAlone(n: nat)
    ensures Numeral(n)[0] == ZERO ==> |Numeral(n)| == 1
  {
    NoLeadingZero(n);
  }

  /** The number written stands for the word, signed only if it is negative. */
  lemma NumberWritten(t: Table, neg: bool, raw: u64)
    ensures var n := WrittenNumber(neg, raw);
            && ValidNumber(n) && NumberAtom(n) == Some(NormalAtom(Int(neg, raw)))
            && NumText(n) == AtomText(t, Int(neg, raw))
  {
    hide Numeral, AllDecimal, DecimalNumber, NumText, ValidNumber, NumberAtom;
    var negative := IsNegative(neg, raw);
    var m := if negative then WORD - raw else raw;
    NumeralDigits(m);
    ZeroAlone(m);
    PlainText(negative, Numeral(m));
    PlainAtom(negative, Numeral(m));
  }

  lemma StringWritten(t: Table, bytes: seq<byte>)
    requires WellFormed(bytes)
    ensures var xs := WrittenString(t, bytes);
            ValidItems(xs) && ItemsMeaning(xs) == bytes && QuotedText(xs) == AtomText(t, Str(bytes))
  {
    hide WellFormed, Escaped, ItemsText, ItemsMeaning, ValidItems, WrittenItems, Utf8All, Scalars;
    var us := ScalarsIn(bytes);
    assert bytes[0..] == bytes;
    TextWritten(t, us, bytes, 0);
    Brackets();
    assert [QUOTE] + Content(t, bytes) + [QUOTE] == [QUOTE] + (Content(t, bytes) + [QUOTE]);
  }

  lemma AtomWritten(t: Table, a: Atom)
    requires Printable(a)
    ensures var v := WrittenAtom(t, a);
            && !v.Group? && ValidValue(v) && ValueText(v) == AtomText(t, a) && Tree(v) == Leaf(NormalAtom(a))
  {
    match a {
      case Int(neg, raw) => NumberWritten(t, neg, raw);
      case Str(bytes) => StringWritten(t, bytes);
      case Null => Brackets();
      case Bool(b) => Brackets();
    }
    hide NumText, ValidNumber, NumberAtom, QuotedText, ItemsMeaning, WrittenString, WrittenNumber, WellFormed;
  }

  /** The children with the closing bracket in place of the last mark. */
  function Inner(t: Table, obj: bool, f: Forest): seq<byte>
    requires f.Cons?
  {
    Items(t, obj, f)[..|Items(t, obj, f)| - 1] + [Close(obj)]
  }

  lemma InnerSplits(t: Table, obj: bool, f: Forest)
    requires f.Cons?
    ensures f.tail.Nil? ==> Inner(t, obj, f) == Minified(t, f.head) + [Close(obj)]
    ensures f.tail.Cons? ==> Inner(t, obj, f) == Minified(t, f.head) + ([Mark(obj, f)] + Inner(t, obj, f.tail))
  {
    hide Minified, Mark;
    var head := Minified(t, f.head) + [Mark(obj, f)];
    assert Items(t, obj, f) == head + Items(t, obj, f.tail);
    if f.tail.Nil? {
      assert Items(t, obj, f.tail) == [];
      assert (head + [])[..|head| - 1] == Minified(t, f.head);
    } else {
      var rest := Items(t, obj, f.tail);
      assert (head + rest)[..|head + rest| - 1] == head + rest[..|rest| - 1];
      assert head + rest[..|rest| - 1] + [Close(obj)]
          == Minified(t, f.head) + ([Mark(obj, f)] + (rest[..|rest| - 1] + [Close(obj)]));
    }
  }

  lemma NodeText(t: Table, obj: bool, kids: Forest)
    ensures kids.Cons? ==> Minified(t, Node(obj, kids)) == [Open(obj)] + Inner(t, obj, kids)
    ensures kids.Nil? ==> Minified(t, Node(obj, kids)) == [Open(obj)] + [Close(obj)]
  {
    hide Items;
    if kids.Cons? {
      var items := Items(t, obj, kids);
      assert [Open(obj)] + items[..|items| - 1] + [Close(obj)] == [Open(obj)] + (items[..|items| - 1] + [Close(obj)]);
    }
  }

  lemma NormalCons(f: Forest)
    requires f.Cons?
    ensures NormalForest(f) == Cons(Normal(f.head), NormalForest(f.tail))
  {
  }

  lemma KeyMarks(f: Forest)
    requires ShapedPairs(f) && f.Cons?
    ensures f.head.Leaf? && f.head.atom.Str? && f.tail.Cons? && ShapedPairs(f.tail.tail)
    ensures Mark(true, f) == COLON && Mark(true, f.tail) == COMMA
  {
    PairsEven(f);
    PairsEven(f.tail.tail);
  }

  /** The text of the members from a value on. */
  lemma TailIs(t: Table, obj: bool, ms: Members, rest: seq<byte>)
    requires ms.More? && ValidMembers(obj, ms) && ms.behind == []
    requires ms.rest.More? ==> MembersText(obj, ms.rest) + CloseText(obj) == rest
    ensures TailText(obj, ms) == if ms.rest.More? then [COMMA] + rest else [Close(obj)]
  {
    Brackets();
    if ms.rest.More? {
      RestIsMembers(obj, ms.rest);
    } else {
      NoMembers(obj);
    }
    hide MembersText, RestText, ValidMembers;
    var w := RestText(obj, ms.rest) + CloseText(obj);
    assert [] + w == w;
  }

  lemma KeyTextIs(items: seq<Item>, w: seq<byte>)
    requires ValidItems(items) && ValidKey(Key(items, [], []))
    ensures KeyText(Key(items, [], [])) + w == QuotedText(items) + ([COLON] + w)
  {
    KeyParts(Key(items, [], []), w);
    Brackets();
    assert [] + w == w;
    assert [] + (Ascii(":") + w) == [COLON] + w;
    hide QuotedText, ValidItems;
  }

  lemma WrittenNode(t: Table, obj: bool, kids: Forest)
    requires PrintableJson(Node(obj, kids))
    ensures PrintableForest(kids) && (if obj then ShapedPairs(kids) else ShapedItems(kids))
    ensures Written(t, Node(obj, kids)) == Group(obj, [], WrittenMembers(t, obj, kids))
  {
    ShapedKids(obj, kids);
    hide WrittenMembers;
  }

  /** Main result: the writer's text is this text of the grammar, which stands for the value. */
  lemma {:induction false} MinifiedIsText(t: Table, j: Json)
    requires PrintableJson(j)
    ensures var v := Written(t, j);
            ValidValue(v) && ValueText(v) == Minified(t, j) && Tree(v) == Normal(j) && Tight(v)
    decreases j, 0
  {
    match j {
      case Leaf(a) => AtomWritten(t, a);
      case Node(obj, kids) =>
        WrittenNode(t, obj, kids);
        NodeText(t, obj, kids);
        Brackets();
        NoSpaces();
        hide WrittenMembers, Minified, ValidMembers, MembersText, Kids, NormalForest, Inner, Spaces;
        if kids.Cons? {
          MembersWritten(t, obj, kids);
        } else {
          NothingWritten(t, obj);
          assert [] + CloseText(obj) == CloseText(obj);
        }
    }
  }

  lemma NothingWritten(t: Table, obj: bool)
    ensures PrintableForest(Nil) && WrittenMembers(t, obj, Nil) == NoMore && ValidMembers(obj, NoMore)
    ensures Kids(obj, NoMore) == NormalForest(Nil)
  {
  }

  /** One more member of an array in front. */
  lemma ItemWrittenFirst(t: Table, v: Value, f: Forest, rest: Members)
    requires f.Cons? && ValidValue(v) && Tight(v) && ValueText(v) == Minified(t, f.head) && Tree(v) == Normal(f.head)
    requires ValidMembers(false, rest) && TightMembers(rest) && (rest.More? <==> f.tail.Cons?)
    requires Kids(false, rest) == NormalForest(f.tail)
    requires f.tail.Cons? ==> MembersText(false, rest) + CloseText(false) == Inner(t, false, f.tail)
    ensures var ms := Members.More([], None, v, [], rest);
            && ValidMembers(false, ms) && TightMembers(ms) && Kids(false, ms) == NormalForest(f)
            && MembersText(false, ms) + CloseText(false) == Inner(t, false, f)
  {
    var ms := Members.More([], None, v, [], rest);
    NoSpaces();
    assert ValidMembers(false, ms);
    MembersParts(false, ms);
    TailIs(t, false, ms, if f.tail.Cons? then Inner(t, false, f.tail) else []);
    InnerSplits(t, false, f);
    NormalCons(f);
    assert Mark(false, f) == COMMA;
    hide ValueText, Minified, Inner, TailText, MembersText, Mark, NormalForest, Normal, ValidValue, Spaces;
    var w := ValueText(v) + TailText(false, ms);
    assert [] + w == w;
  }

  /** One more member of an object in front. */
  lemma PairWrittenFirst(t: Table, items: seq<Item>, v: Value, f: Forest, rest: Members)
    requires f.Cons? && f.head.Leaf? && f.head.atom.Str? && f.tail.Cons?
    requires Mark(true, f) == COLON && Mark(true, f.tail) == COMMA
    requires ValidItems(items) && ItemsMeaning(items) == f.head.atom.bytes && QuotedText(items) == Minified(t, f.head)
    requires ValidValue(v) && Tight(v) && ValueText(v) == Minified(t, f.tail.head) && Tree(v) == Normal(f.tail.head)
    requires ValidMembers(true, rest) && TightMembers(rest) && (rest.More? <==> f.tail.tail.Cons?)
    requires Kids(true, rest) == NormalForest(f.tail.tail)
    requires f.tail.tail.Cons? ==> MembersText(true, rest) + CloseText(true) == Inner(t, true, f.tail.tail)
    ensures var ms := Members.More([], Some(Key(items, [], [])), v, [], rest);
            && ValidMembers(true, ms) && TightMembers(ms) && Kids(true, ms) == NormalForest(f)
            && MembersText(true, ms) + CloseText(true) == Inner(t, true, f)
  {
    var ms := Members.More([], Some(Key(items, [], [])), v, [], rest);
    NoSpaces();
    assert ValidMembers(true, ms);
    MembersParts(true, ms);
    TailIs(t, true, ms, if f.tail.tail.Cons? then Inner(t, true, f.tail.tail) else []);
    InnerSplits(t, true, f);
    InnerSplits(t, true, f.tail);
    NormalCons(f);
    NormalCons(f.tail);
    var w := ValueText(v) + TailText(true, ms);
    KeyTextIs(items, w);
    hide ValueText, Minified, Inner, TailText, MembersText, Mark, NormalForest, ValidValue, Spaces, ItemsMeaning, QuotedText;
    hide KeyText, ValidItems;
    assert [] + (KeyText(Key(items, [], [])) + w) == KeyText(Key(items, [], [])) + w;
  }

  lemma {:induction false} MembersWritten(t: Table, obj: bool, f: Forest)
    requires f.Cons? && PrintableForest(f) && if obj then ShapedPairs(f) else ShapedItems(f)
    ensures var ms := WrittenMembers(t, obj, f);
            && ms.More? && ValidMembers(obj, ms) && TightMembers(ms) && Kids(obj, ms) == NormalForest(f)
            && MembersText(obj, ms) + CloseText(obj) == Inner(t, obj, f)
    decreases f, 1
  {
    hide Minified, ValidMembers, MembersText, Kids, NormalForest, Inner, Spaces, ValueText, Tree, PrintableForest;
    hide PrintableJson, Written, Mark, WrittenString, TightMembers, Tight;
    PrintableParts(f);
    if obj {
      KeyMarks(f);
      PrintableParts(f.tail);
      KeyWritten(t, f.head);
      MinifiedIsText(t, f.tail.head);
      RestWritten(t, obj, f.tail.tail);
      if f.tail.tail.Cons? {
        MembersWritten(t, obj, f.tail.tail);
      }
      PairWrittenFirst(t, WrittenString(t, f.head.atom.bytes), Written(t, f.tail.head), f, WrittenMembers(t, obj, f.tail.tail));
    } else {
      MinifiedIsText(t, f.head);
      RestWritten(t, obj, f.tail);
      if f.tail.Cons? {
        MembersWritten(t, obj, f.tail);
      }
      ItemWrittenFirst(t, Written(t, f.head), f, WrittenMembers(t, obj, f.tail));
    }
  }

  lemma RestWritten(t: Table, obj: bool, f: Forest)
    requires PrintableForest(f) && if obj then ShapedPairs(f) else ShapedItems(f)
    ensures WrittenMembers(t, obj, f).More? <==> f.Cons?
    ensures f.Nil? ==> ValidMembers(obj, NoMore) && TightMembers(NoMore) && Kids(obj, NoMore) == NormalForest(Nil)
  {
  }

  lemma KeyWritten(t: Table, k: Json)
    requires k.Leaf? && k.atom.Str? && WellFormed(k.atom.bytes)
    ensures var xs := WrittenString(t, k.atom.bytes);
            ValidItems(xs) && ItemsMeaning(xs) == k.atom.bytes && QuotedText(xs) == Minified(t, k)
  {
    StringWritten(t, k.atom.bytes);
    hide WellFormed, WrittenString, ItemsMeaning, QuotedText, ValidItems;
  }

  // ---------------------------------------------------------------------------------------
  // Reading it back
  // ---------------------------------------------------------------------------------------

  /** Printing any value and reading it gives the value back. */
  lemma TextRoundTrip(t: Table, j: Json)
    requires PrintableJson(j)
    ensures TextAt(Minified(t, j)) == Ok(Normal(j), |Minified(t, j)|)
  {
    MinifiedIsText(t, j);
    var s := Minified(t, j);
    NoSpaces();
    assert s == [] + (s + []);
    assert IsText(s, [], Written(t, j), []);
    TextReads(s, [], Written(t, j), []);
    hide Minified, Written, TextAt, Tree, Normal, ValueText, ValidValue;
  }

  /** Printing a document and reading it gives the document back. */
  lemma DocumentRoundTrip(t: Table, j: Json)
    requires j.Node? && PrintableJson(j)
    ensures DocumentAt(Minified(t, j), 0) == Ok(Normal(j), |Minified(t, j)|)
  {
    TextRoundTrip(t, j);
    NodeBegins(t, j);
    hide Minified, DocumentAt;
  }

  lemma NodeBegins(t: Table, j: Json)
    requires j.Node?
    ensures var s := Minified(t, j); Skip(s, 0) == 0 && (At(s, 0) == Open(true) || At(s, 0) == Open(false))
  {
  }
}
