/**
  JSON strings as section 7 of RFC 8259 writes them: characters standing for themselves, the eight
  short escapes, unicode escapes and pairs of them, each with the code point it stands for. The reader
  accepts exactly these texts, and gives the UTF-8 (section 3 of RFC 3629) of what they stand for.
*/
module StringGrammar {
  import opened Bytes
  import opened Literals
  import opened Utf8
  import opened JsonString

  // ---------------------------------------------------------------------------------------
  // Texts
  // ---------------------------------------------------------------------------------------

  /** `digits` are the four of a unicode escape, `high` and `low` those of a surrogate pair. */
  datatype Item =
    | Plain(u: nat)
    | Short(letter: byte)
    | Unicode(digits: seq<byte>)
    | Pair(high: seq<byte>, low: seq<byte>)

  /** The letters of the short escapes, and in the same places the code points they stand for. */
  const SHORT_LETTERS := "\"\\/bfnrt"
  const SHORT_MEANINGS: seq<nat> := [0x22, 0x5C, 0x2F, 0x08, 0x0C, 0x0A, 0x0D, 0x09]

  /** The short escape with this letter stands for `u`. */
  predicate ShortIs(letter: byte, u: nat) {
    exists k | 0 <= k < 8 :: SHORT_LETTERS[k] as int == letter && SHORT_MEANINGS[k] == u
  }

  ghost predicate IsShort(letter: byte) {
    exists u :: ShortIs(letter, u)
  }

  predicate InRange(u: nat, low: nat, high: nat) {
    low <= u <= high
  }

  /** A code point that may stand for itself. */
  predicate IsPlain(u: nat) {
    && (InRange(u, 0x20, 0x21) || InRange(u, 0x23, 0x5B) || InRange(u, 0x5D, 0x10FFFF))
    && !InRange(u, 0xD800, 0xDFFF)
  }

  ghost predicate FourHex(ds: seq<byte>) {
    |ds| == 4 && AllHex(ds)
  }

  ghost predicate ValidItem(x: Item) {
    match x
    case Plain(u) => IsPlain(u)
    case Short(letter) => IsShort(letter)
    case Unicode(ds) => FourHex(ds) && !InRange(HexNumber(ds), 0xD800, 0xDFFF)
    case Pair(hs, ls) =>
      && FourHex(hs) && InRange(HexNumber(hs), 0xD800, 0xDBFF)
      && FourHex(ls) && InRange(HexNumber(ls), 0xDC00, 0xDFFF)
  }

  /** The code point an item stands for. */
  ghost function Meaning(x: Item): (u: nat)
    requires ValidItem(x)
    ensures u < 0x110000
  {
    match x
    case Plain(u) => u
    case Short(letter) =>
      var u :| ShortIs(letter, u); u
    case Unicode(ds) =>
      HexNumberBound(ds);
      HexNumber(ds)
    case Pair(hs, ls) => 0x10000 + (HexNumber(hs) - 0xD800) * 0x400 + (HexNumber(ls) - 0xDC00)
  }

  /** The bytes of a code point, by the table in section 3 of RFC 3629. */
  function Utf8Of(u: nat): (c: seq<byte>)
    requires u < 0x110000
    ensures 1 <= |c| <= 4
  {
    if u <= 0x7F then [u]
    else if u <= 0x7FF then [0xC0 + u / 64, 0x80 + u % 64]
    else if u <= 0xFFFF then [0xE0 + u / 4096, 0x80 + u / 64 % 64, 0x80 + u % 64]
    else [0xF0 + u / 262144, 0x80 + u / 4096 % 64, 0x80 + u / 64 % 64, 0x80 + u % 64]
  }

  ghost function ItemText(x: Item): (w: seq<byte>)
    requires ValidItem(x)
    ensures 1 <= |w| <= 12
  {
    match x
    case Plain(u) => Utf8Of(u)
    case Short(letter) => Ascii("\\") + [letter]
    case Unicode(ds) => Ascii("\\u") + ds
    case Pair(hs, ls) => Ascii("\\u") + hs + Ascii("\\u") + ls
  }

  ghost predicate ValidItems(xs: seq<Item>) {
    forall k | 0 <= k < |xs| :: ValidItem(xs[k])
  }

  ghost function ItemsText(xs: seq<Item>): seq<byte>
    requires ValidItems(xs)
  {
    if xs == [] then [] else ItemText(xs[0]) + ItemsText(xs[1..])
  }

  ghost function ItemsMeaning(xs: seq<Item>): seq<byte>
    requires ValidItems(xs)
  {
    if xs == [] then [] else Utf8Of(Meaning(xs[0])) + ItemsMeaning(xs[1..])
  }

  lemma HexNumberBound(ds: seq<byte>)
    requires FourHex(ds)
    ensures HexNumber(ds) < 0x10000
    ensures HexNumber(ds) == ((HexWorth(ds[0]) * 16 + HexWorth(ds[1])) * 16 + HexWorth(ds[2])) * 16 + HexWorth(ds[3])
  {
    hide HexWorth, IsHex;
    var c, b, a := ds[..3], ds[..2], ds[..1];
    assert c[..2] == b && b[..1] == a && a[..0] == [];
    HexNumberLast(ds);
    HexNumberLast(c);
    HexNumberLast(b);
    HexNumberLast(a);
    WorthBound(ds[0]);
    WorthBound(ds[1]);
    WorthBound(ds[2]);
    WorthBound(ds[3]);
  }

  lemma WorthBound(b: byte)
    requires IsHex(b)
    ensures HexWorth(b) < 16
  {
  }

  // ---------------------------------------------------------------------------------------
  // The reader's tables
  // ---------------------------------------------------------------------------------------

  /** The conversion table knows exactly the digits, and what they are worth. */
  lemma HexTable(b: byte)
    ensures HexValue(b) < 16 <==> IsHex(b)
    ensures IsHex(b) ==> HexWorth(b) == HexValue(b)
  {
    if HexValue(b) < 16 {
      HexDigitRange(b, HexValue(b));
      HexWorthIs(b, HexValue(b));
    }
    if IsHex(b) {
      HexDigitRange(b, HexWorth(b));
    }
  }

  /** Exactly the eight short escapes are known, and stand for what they should. */
  lemma ShortTable(letter: byte, u: nat)
    ensures (u < 256 && Unescaped(letter) == Some(u)) <==> ShortIs(letter, u)
  {
    assert SHORT_LETTERS[0] as int == 34 && SHORT_LETTERS[1] as int == 92 && SHORT_LETTERS[2] as int == 47;
    assert SHORT_LETTERS[3] as int == 98 && SHORT_LETTERS[4] as int == 102 && SHORT_LETTERS[5] as int == 110;
    assert SHORT_LETTERS[6] as int == 114 && SHORT_LETTERS[7] as int == 116;
  }

  lemma Utf8Table(u: nat)
    requires u < 0x110000
    ensures Encoded(u) == Utf8Of(u)
  {
    if 0x800 <= u {
      assert u / 64 / 64 == u / 4096 && u / 4096 / 64 == u / 262144;
    }
  }

  /** Four digits in a row, in whichever case. */
  lemma HexReads(s: seq<byte>, i: nat, ds: seq<byte>)
    requires FourHex(ds) && Holds(s, i, ds)
    ensures HexAt(s, i) == Some(HexNumber(ds))
  {
    HexNumberBound(ds);
    SameAt(s, i, ds, 0);
    SameAt(s, i, ds, 1);
    SameAt(s, i, ds, 2);
    SameAt(s, i, ds, 3);
    HexTable(ds[0]);
    HexTable(ds[1]);
    HexTable(ds[2]);
    HexTable(ds[3]);
    hide HexValue, HexWorth, IsHex, HexNumber;
  }

  lemma HexFound(s: seq<byte>, i: nat)
    requires HexAt(s, i).Some?
    ensures i + 4 <= |s| && FourHex(s[i..i + 4])
  {
    HexTable(At(s, i));
    HexTable(At(s, i + 1));
    HexTable(At(s, i + 2));
    HexTable(At(s, i + 3));
    var ds := s[i..i + 4];
    assert ds == [s[i], s[i + 1], s[i + 2], s[i + 3]];
    hide HexValue, HexWorth, IsHex;
  }

  // ---------------------------------------------------------------------------------------
  // One item
  // ---------------------------------------------------------------------------------------

  lemma PlainReads(s: seq<byte>, i: nat, u: nat)
    requires IsPlain(u) && Holds(s, i, Utf8Of(u))
    ensures PieceAt(s, i) == Chars(Utf8Of(u), |Utf8Of(u)|)
  {
    var c := Utf8Of(u);
    Utf8Table(u);
    CodePointEncoded(u);
    CharLengthLocal(s, i, c);
    SameAt(s, i, c, 0);
    PlainFirst(u);
    hide CharLength, Encoded, Utf8Of, IsPlain;
  }

  lemma PlainFirst(u: nat)
    requires IsPlain(u)
    ensures var b := Utf8Of(u)[0]; b != QUOTE && b != BACKSLASH && b >= 32
  {
  }

  lemma ShortReads(s: seq<byte>, i: nat, letter: byte, u: nat)
    requires ShortIs(letter, u) && Holds(s, i, Ascii("\\") + [letter])
    ensures u < 0x80 && PieceAt(s, i) == Chars([u], 2)
  {
    var w := Ascii("\\") + [letter];
    ShortTable(letter, u);
    SameAt(s, i, w, 0);
    SameAt(s, i, w, 1);
    assert w == [BACKSLASH, letter];
    hide ShortIs, UnicodeAt;
  }

  lemma EscapeParts(s: seq<byte>, i: nat, ds: seq<byte>)
    requires Holds(s, i, Ascii("\\u") + ds)
    ensures At(s, i) == BACKSLASH && At(s, i + 1) == LETTER_U && Holds(s, i + 2, ds)
  {
    HoldsParts(s, i, Ascii("\\u"), ds);
    SameAt(s, i, Ascii("\\u"), 0);
    SameAt(s, i, Ascii("\\u"), 1);
  }

  lemma UnicodeReads(s: seq<byte>, i: nat, ds: seq<byte>)
    requires ValidItem(Unicode(ds)) && Holds(s, i, Ascii("\\u") + ds)
    ensures PieceAt(s, i) == Chars(Utf8Of(Meaning(Unicode(ds))), 6)
  {
    EscapeParts(s, i, ds);
    HexReads(s, i + 2, ds);
    HexNumberBound(ds);
    Utf8Table(HexNumber(ds));
    hide HexAt, HexNumber, Encoded, Utf8Of, FourHex, Holds;
  }

  lemma PairReads(s: seq<byte>, i: nat, hs: seq<byte>, ls: seq<byte>)
    requires ValidItem(Pair(hs, ls)) && Holds(s, i, Ascii("\\u") + hs + Ascii("\\u") + ls)
    ensures PieceAt(s, i) == Chars(Utf8Of(Meaning(Pair(hs, ls))), 12)
  {
    TwoEscapes(s, i, hs, ls);
    EscapeParts(s, i, hs);
    EscapeParts(s, i + 6, ls);
    HexReads(s, i + 2, hs);
    HexReads(s, i + 8, ls);
    Utf8Table(Meaning(Pair(hs, ls)));
    hide HexAt, Encoded, Utf8Of, Holds, At;
    PairMeaning(hs, ls);
    hide ValidItem, Meaning, HexNumber;
  }

  lemma PairMeaning(hs: seq<byte>, ls: seq<byte>)
    requires ValidItem(Pair(hs, ls))
    ensures var hi, lo := HexNumber(hs), HexNumber(ls);
            hi / 2048 == 27 && HighSurrogate(hi) && LowSurrogate(lo) && Paired(hi, lo) == Meaning(Pair(hs, ls))
  {
    hide HexNumber, FourHex;
  }

  lemma TwoEscapes(s: seq<byte>, i: nat, hs: seq<byte>, ls: seq<byte>)
    requires |hs| == 4
    ensures Holds(s, i, Ascii("\\u") + hs + Ascii("\\u") + ls)
       <==> Holds(s, i, Ascii("\\u") + hs) && Holds(s, i + 6, Ascii("\\u") + ls)
  {
    assert Ascii("\\u") + hs + Ascii("\\u") + ls == (Ascii("\\u") + hs) + (Ascii("\\u") + ls);
    HoldsParts(s, i, Ascii("\\u") + hs, Ascii("\\u") + ls);
  }

  /** An item is read as the UTF-8 of what it stands for. */
  lemma ItemReads(s: seq<byte>, i: nat, x: Item)
    requires ValidItem(x) && Holds(s, i, ItemText(x))
    ensures PieceAt(s, i) == Chars(Utf8Of(Meaning(x)), |ItemText(x)|)
  {
    hide PieceAt, Holds;
    match x {
      case Plain(u) => PlainReads(s, i, u);
      case Short(letter) => ShortReads(s, i, letter, Meaning(x));
      case Unicode(ds) => UnicodeReads(s, i, ds);
      case Pair(hs, ls) => PairReads(s, i, hs, ls);
    }
  }

  lemma PlainFound(s: seq<byte>, i: nat) returns (u: nat)
    requires PieceAt(s, i).Chars? && At(s, i) != BACKSLASH
    ensures IsPlain(u) && Holds(s, i, Utf8Of(u))
  {
    var c := s[i..i + CharLength(s, i)];
    CharCut(s, i);
    EncodedCodePoint(c);
    u := CodePoint(c);
    Utf8Table(u);
    PlainCode(c, u);
    hide Encoded, Utf8Of, CodePoint;
  }

  lemma PlainCode(c: seq<byte>, u: nat)
    requires u < 0x110000 && !Surrogate(u) && c == Utf8Of(u)
    requires c[0] != QUOTE && c[0] != BACKSLASH && c[0] >= 32
    ensures IsPlain(u)
  {
  }

  lemma EscapeThere(s: seq<byte>, i: nat)
    requires At(s, i) == BACKSLASH && At(s, i + 1) == LETTER_U
    ensures Holds(s, i, Ascii("\\u"))
  {
    assert s[i..i + 2] == [s[i], s[i + 1]];
    assert Ascii("\\u") == [BACKSLASH, LETTER_U];
  }

  lemma EscapeFound(s: seq<byte>, i: nat) returns (ds: seq<byte>)
    requires At(s, i) == BACKSLASH && At(s, i + 1) == LETTER_U && HexAt(s, i + 2).Some?
    ensures FourHex(ds) && Holds(s, i, Ascii("\\u") + ds) && HexAt(s, i + 2) == Some(HexNumber(ds))
  {
    HexFound(s, i + 2);
    EscapeThere(s, i);
    ds := s[i + 2..i + 6];
    hide HexAt, FourHex, At;
    HexReads(s, i + 2, ds);
    HoldsParts(s, i, Ascii("\\u"), ds);
  }

  lemma UnicodeFound(s: seq<byte>, i: nat) returns (x: Item)
    requires At(s, i) == BACKSLASH && At(s, i + 1) == LETTER_U && UnicodeAt(s, i).Chars?
    ensures ValidItem(x) && Holds(s, i, ItemText(x))
  {
    var hs := EscapeFound(s, i);
    if HexNumber(hs) / 2048 != 27 {
      x := Unicode(hs);
    } else {
      var ls := EscapeFound(s, i + 6);
      x := Pair(hs, ls);
      TwoEscapes(s, i, hs, ls);
    }
    hide HexAt, HexNumber, Holds;
  }

  lemma ShortFound(s: seq<byte>, i: nat) returns (x: Item)
    requires At(s, i) == BACKSLASH && Unescaped(At(s, i + 1)).Some?
    ensures ValidItem(x) && Holds(s, i, ItemText(x))
  {
    x := Short(At(s, i + 1));
    ShortTable(At(s, i + 1), Unescaped(At(s, i + 1)).value);
    assert Ascii("\\") + [s[i + 1]] == [s[i], s[i + 1]] == s[i..i + 2];
    hide ShortIs, Unescaped;
  }

  /** What the reader takes for an item is one. */
  lemma ItemFound(s: seq<byte>, i: nat) returns (x: Item)
    requires PieceAt(s, i).Chars?
    ensures ValidItem(x) && Holds(s, i, ItemText(x))
  {
    if At(s, i) != BACKSLASH {
      var u := PlainFound(s, i);
      x := Plain(u);
    } else if At(s, i + 1) == LETTER_U {
      x := UnicodeFound(s, i);
    } else {
      x := ShortFound(s, i);
    }
  }

  // ---------------------------------------------------------------------------------------
  // Whole strings
  // ---------------------------------------------------------------------------------------

  lemma QuoteThere(s: seq<byte>, i: nat)
    ensures Holds(s, i, Ascii("\"")) <==> PieceAt(s, i).Quote?
  {
    if i < |s| {
      assert s[i..i + 1] == [s[i]];
    }
    assert Ascii("\"") == [QUOTE];
  }

  lemma TextParts(s: seq<byte>, i: nat, xs: seq<Item>, rest: seq<byte>)
    requires xs != [] && ValidItems(xs)
    ensures ValidItem(xs[0]) && ValidItems(xs[1..])
    ensures Holds(s, i, ItemsText(xs) + rest) <==>
              Holds(s, i, ItemText(xs[0])) && Holds(s, i + |ItemText(xs[0])|, ItemsText(xs[1..]) + rest)
  {
    hide ValidItem, ItemText, Holds;
    assert ItemsText(xs) + rest == ItemText(xs[0]) + (ItemsText(xs[1..]) + rest);
    HoldsParts(s, i, ItemText(xs[0]), ItemsText(xs[1..]) + rest);
  }

  /** The items of a string are read one after the other, as far as they go. */
  lemma {:induction false} ItemsRead(s: seq<byte>, i: nat, xs: seq<Item>)
    requires ValidItems(xs) && Holds(s, i, ItemsText(xs))
    ensures StringAt(s, i) == Prepend(ItemsMeaning(xs), StringAt(s, i + |ItemsText(xs)|))
    decreases |xs|
  {
    hide PieceAt, ItemText, ValidItem, Utf8Of, Holds, Prepend;
    if xs == [] {
      PrependNothing(StringAt(s, i));
    } else {
      var x, more := xs[0], xs[1..];
      assert ItemsText(xs) + [] == ItemsText(xs) && ItemsText(more) + [] == ItemsText(more);
      TextParts(s, i, xs, []);
      ItemReads(s, i, x);
      ItemsRead(s, i + |ItemText(x)|, more);
      PrependTwice(Utf8Of(Meaning(x)), ItemsMeaning(more), StringAt(s, i + |ItemsText(xs)|));
      ItemStep(s, i, Utf8Of(Meaning(x)), |ItemText(x)|);
      hide StringAt;
    }
  }

  lemma ItemStep(s: seq<byte>, i: nat, b: seq<byte>, n: nat)
    requires PieceAt(s, i) == Chars(b, n)
    ensures StringAt(s, i) == Prepend(b, StringAt(s, i + n))
  {
    hide PieceAt;
  }

  /** Every string is read as what it stands for. */
  lemma StringReads(s: seq<byte>, i: nat, xs: seq<Item>)
    requires ValidItems(xs) && Holds(s, i, ItemsText(xs) + Ascii("\""))
    ensures StringAt(s, i) == Done(ItemsMeaning(xs), i + |ItemsText(xs)| + 1)
  {
    hide ItemsText, ItemsMeaning, PieceAt, ValidItems;
    HoldsParts(s, i, ItemsText(xs), Ascii("\""));
    ItemsRead(s, i, xs);
    var j := i + |ItemsText(xs)|;
    QuoteThere(s, j);
    assert StringAt(s, j) == Done([], j + 1);
    assert ItemsMeaning(xs) + [] == ItemsMeaning(xs);
    hide StringAt, Holds;
  }

  /** What the reader accepts is a string. */
  lemma {:induction false} StringFound(s: seq<byte>, i: nat) returns (xs: seq<Item>)
    requires StringAt(s, i).Done?
    ensures ValidItems(xs) && Holds(s, i, ItemsText(xs) + Ascii("\""))
    decreases |s| - i
  {
    hide PieceAt, ItemText, ValidItem;
    if PieceAt(s, i).Quote? {
      xs := [];
      QuoteThere(s, i);
      assert [] + Ascii("\"") == Ascii("\"");
    } else {
      var x := ItemFound(s, i);
      ItemReads(s, i, x);
      var more := StringFound(s, i + |ItemText(x)|);
      xs := [x] + more;
      assert xs[1..] == more;
      TextParts(s, i, xs, Ascii("\""));
    }
  }

  /** Items from `i` up to `pos`, where neither another item nor the closing quote stands. */
  ghost predicate StringStops(s: seq<byte>, i: nat, pos: nat, xs: seq<Item>) {
    && ValidItems(xs) && Holds(s, i, ItemsText(xs)) && pos == i + |ItemsText(xs)|
    && !Holds(s, pos, Ascii("\"")) && forall x | ValidItem(x) :: !Holds(s, pos, ItemText(x))
  }

  lemma NoItem(s: seq<byte>, pos: nat)
    ensures PieceAt(s, pos).Bad? <==>
              !Holds(s, pos, Ascii("\"")) && forall x | ValidItem(x) :: !Holds(s, pos, ItemText(x))
  {
    hide PieceAt, Holds, ItemText, ValidItem;
    QuoteThere(s, pos);
    if PieceAt(s, pos).Chars? {
      var x := ItemFound(s, pos);
    } else {
      forall x | ValidItem(x)
        ensures !Holds(s, pos, ItemText(x))
      {
        if Holds(s, pos, ItemText(x)) {
          ItemReads(s, pos, x);
        }
      }
    }
  }

  /** The position of an error is where the items end and nothing that may follow stands. */
  lemma {:induction false} StringFailsAt(s: seq<byte>, i: nat) returns (xs: seq<Item>)
    requires i <= |s| && StringAt(s, i).Fail?
    ensures StringStops(s, i, StringAt(s, i).pos, xs)
    decreases |s| - i
  {
    hide PieceAt, ItemText, ValidItem;
    NoItem(s, i);
    if PieceAt(s, i).Bad? {
      xs := [];
    } else {
      var x := ItemFound(s, i);
      ItemReads(s, i, x);
      var more := StringFailsAt(s, i + |ItemText(x)|);
      xs := [x] + more;
      assert xs[1..] == more;
      assert ItemsText(xs) + [] == ItemsText(xs) && ItemsText(more) + [] == ItemsText(more);
      TextParts(s, i, xs, []);
    }
  }

  /** The text from `i` on is a string that stands for these bytes and ends before `end`. */
  ghost predicate IsString(s: seq<byte>, i: nat, bytes: seq<byte>, end: nat, xs: seq<Item>) {
    && ValidItems(xs) && Holds(s, i, ItemsText(xs) + Ascii("\""))
    && bytes == ItemsMeaning(xs) && end == i + |ItemsText(xs)| + 1
  }

  /** The reader accepts exactly the strings, as what they stand for. */
  lemma ReadsExactlyStrings(s: seq<byte>, i: nat, bytes: seq<byte>, end: nat)
    ensures StringAt(s, i) == Done(bytes, end) <==> exists xs :: IsString(s, i, bytes, end, xs)
  {
    hide StringAt, Holds, ItemsText, ItemsMeaning, ValidItems;
    if StringAt(s, i) == Done(bytes, end) {
      var xs := StringFound(s, i);
      StringReads(s, i, xs);
      assert IsString(s, i, bytes, end, xs);
    }
    forall xs | IsString(s, i, bytes, end, xs)
      ensures StringAt(s, i) == Done(bytes, end)
    {
      StringReads(s, i, xs);
    }
  }

  /** It fails exactly at the first position that no string goes past. */
  lemma FailsExactlyWhereItemsStop(s: seq<byte>, i: nat, pos: nat)
    requires i <= |s|
    ensures StringAt(s, i) == Fail(pos) <==> exists xs :: StringStops(s, i, pos, xs)
  {
    hide Holds, ItemsText, ItemsMeaning, ValidItems, PieceAt;
    if StringAt(s, i) == Fail(pos) {
      var xs := StringFailsAt(s, i);
    }
    forall xs | StringStops(s, i, pos, xs)
      ensures StringAt(s, i) == Fail(pos)
    {
      NoItem(s, pos);
      ItemsRead(s, i, xs);
    }
  }

  // ---------------------------------------------------------------------------------------
  // What is written
  // ---------------------------------------------------------------------------------------

  /** Four upper-case digits. */
  function UpperHex(u: nat): (ds: seq<byte>)
    requires u < 0x10000
    ensures |ds| == 4
  {
    [UpperDigit(u / 4096), UpperDigit(u / 256 % 16), UpperDigit(u / 16 % 16), UpperDigit(u % 16)]
  }

  function UpperDigit(d: nat): (b: byte)
    requires d < 16
    ensures HexDigitIs(b, d)
  {
    UpperAt(d);
    UPPER[d] as int
  }

  /** A short escape stands for `u`, and the table in force calls for it: the slash has its own option. */
  predicate HasShort(t: Table, u: nat) {
    u in SHORT_MEANINGS && (u == '/' as int ==> t.slash)
  }

  /** How a code point is written: shortly if it can be, else escaped if it must be, else as itself. */
  ghost function WrittenItem(t: Table, u: nat): Item
    requires u < 0x110000
  {
    if HasShort(t, u) then
      ShortMeaning(t, u);
      var letter :| ShortIs(letter, u); Short(letter)
    else if u < 0x20 || (t.unicode && 0x80 <= u) then
      if u < 0x10000 then Unicode(UpperHex(u))
      else Pair(UpperHex(0xD800 + (u - 0x10000) / 0x400), UpperHex(0xDC00 + (u - 0x10000) % 0x400))
    else Plain(u)
  }

  ghost predicate Scalars(us: seq<nat>) {
    forall k | 0 <= k < |us| :: us[k] < 0x110000 && !Surrogate(us[k])
  }

  ghost function Utf8All(us: seq<nat>): seq<byte>
    requires Scalars(us)
  {
    if us == [] then [] else Utf8Of(us[0]) + Utf8All(us[1..])
  }

  ghost function WrittenItems(t: Table, us: seq<nat>): (xs: seq<Item>)
    requires Scalars(us)
    ensures |xs| == |us|
  {
    if us == [] then [] else [WrittenItem(t, us[0])] + WrittenItems(t, us[1..])
  }

  lemma FourWorth(ds: seq<byte>, a: nat, b: nat, c: nat, d: nat)
    requires |ds| == 4 && HexDigitIs(ds[0], a) && HexDigitIs(ds[1], b) && HexDigitIs(ds[2], c) && HexDigitIs(ds[3], d)
    ensures FourHex(ds) && HexNumber(ds) == ((a * 16 + b) * 16 + c) * 16 + d
  {
    HexWorthIs(ds[0], a);
    HexWorthIs(ds[1], b);
    HexWorthIs(ds[2], c);
    HexWorthIs(ds[3], d);
    hide IsHex, HexWorth, HexDigitIs, HexNumber;
    assert forall k | 0 <= k < 4 :: IsHex(ds[k]);
    HexNumberBound(ds);
  }

  lemma UpperHexIs(u: nat)
    requires u < 0x10000
    ensures FourHex(UpperHex(u)) && HexNumber(UpperHex(u)) == u
  {
    hide UpperDigit, FourHex, HexNumber, HexDigitIs;
    FourWorth(UpperHex(u), u / 4096, u / 256 % 16, u / 16 % 16, u % 16);
    FourDigits(u);
  }

  lemma FourDigits(u: nat)
    ensures ((u / 4096 * 16 + u / 256 % 16) * 16 + u / 16 % 16) * 16 + u % 16 == u
  {
    assert u / 256 / 16 == u / 4096 && u / 16 / 16 == u / 256;
  }

  lemma ShortMeaning(t: Table, u: nat)
    requires HasShort(t, u)
    ensures exists letter :: ShortIs(letter, u)
  {
    var k :| 0 <= k < 8 && SHORT_MEANINGS[k] == u;
    assert SHORT_LETTERS[0] as int < 128 && SHORT_LETTERS[1] as int < 128 && SHORT_LETTERS[2] as int < 128;
    assert SHORT_LETTERS[3] as int < 128 && SHORT_LETTERS[4] as int < 128 && SHORT_LETTERS[5] as int < 128;
    assert SHORT_LETTERS[6] as int < 128 && SHORT_LETTERS[7] as int < 128;
    var letter: byte := SHORT_LETTERS[k] as int;
    assert ShortIs(letter, u);
  }

  lemma ShortWritten(t: Table, u: nat)
    requires HasShort(t, u)
    ensures u < 0x80 && EscapedChar(t, [u]) == ItemText(WrittenItem(t, u))
  {
    var letter := WrittenItem(t, u).letter;
    ShortTable(letter, u);
    assert Ascii("\\") + [letter] == [BACKSLASH, letter];
    hide ShortIs;
  }

  lemma EscapeDigits(u: nat)
    ensures u / 256 / 16 == u / 4096 && u % 256 / 16 == u / 16 % 16 && u % 256 % 16 == u % 16
  {
  }

  lemma EscapeIs(u: nat)
    requires u < 0x10000
    ensures EscapeOf(u) == Ascii("\\u") + UpperHex(u)
  {
    EscapeDigits(u);
    var (a, b, c, d) := (u / 4096, u / 256 % 16, u / 16 % 16, u % 16);
    HexDigitIsUpper(a);
    HexDigitIsUpper(b);
    HexDigitIsUpper(c);
    HexDigitIsUpper(d);
    hide HexDigit, UpperDigit;
    assert HexPair(u / 256) == [UpperDigit(a), UpperDigit(b)];
    assert HexPair(u % 256) == [UpperDigit(c), UpperDigit(d)];
    assert Ascii("\\u") == [BACKSLASH, LETTER_U];
  }

  lemma HexDigitIsUpper(d: nat)
    requires d < 16
    ensures HexDigit(d) == UpperDigit(d)
  {
    UpperAt(d);
  }

  /** What the tables say of a character's first byte. */
  lemma ClassOfFirst(t: Table, u: nat)
    requires u < 0x110000 && !Surrogate(u)
    ensures match ClassOf(t, Utf8Of(u)[0])
            case EscapeShort => HasShort(t, u)
            case EscapeUnicode => !HasShort(t, u) && (u < 0x20 || (t.unicode && 0x80 <= u))
            case Copy => !HasShort(t, u) && 0x20 <= u && (u < 0x80 || !t.unicode)
            case Invalid => false
  {
    assert SHORT_MEANINGS[0] == 34 && SHORT_MEANINGS[1] == 92 && SHORT_MEANINGS[2] == 47 && SHORT_MEANINGS[3] == 8;
    assert SHORT_MEANINGS[4] == 12 && SHORT_MEANINGS[5] == 10 && SHORT_MEANINGS[6] == 13 && SHORT_MEANINGS[7] == 9;
  }

  /** A character is written as the item that the options in force call for. */
  lemma CharacterWritten(t: Table, u: nat)
    requires u < 0x110000 && !Surrogate(u)
    ensures var c := Utf8Of(u);
            CharLength(c, 0) == |c| && ValidItem(WrittenItem(t, u)) && Meaning(WrittenItem(t, u)) == u
            && EscapedChar(t, c) == ItemText(WrittenItem(t, u))
  {
    CodePointEncoded(u);
    Utf8Table(u);
    ClassOfFirst(t, u);
    ItemWritten(t, u);
    hide CharLength, CodePoint, Encoded;
    match ClassOf(t, Utf8Of(u)[0]) {
      case EscapeShort => ShortWritten(t, u);
      case EscapeUnicode => UnicodeWritten(t, u);
      case Copy =>
      case Invalid =>
    }
  }

  lemma UnicodeWritten(t: Table, u: nat)
    requires u < 0x110000 && !Surrogate(u) && !HasShort(t, u) && (u < 0x20 || (t.unicode && 0x80 <= u))
    requires CharLength(Utf8Of(u), 0) == |Utf8Of(u)| && CodePoint(Utf8Of(u)) == u
    requires ClassOf(t, Utf8Of(u)[0]).EscapeUnicode? && ValidItem(WrittenItem(t, u))
    ensures EscapedChar(t, Utf8Of(u)) == ItemText(WrittenItem(t, u))
  {
    hide Utf8Of, CharLength, CodePoint, ClassOf, HasShort, EscapeOf, UpperHex;
    if u < 0x10000 {
      EscapeIs(u);
    } else {
      var hi, lo := 0xD800 + (u - 0x10000) / 0x400, 0xDC00 + (u - 0x10000) % 0x400;
      EscapeIs(hi);
      EscapeIs(lo);
      var b := Ascii("\\u");
      assert b + UpperHex(hi) + b + UpperHex(lo) == (b + UpperHex(hi)) + (b + UpperHex(lo));
    }
  }

  /** The item written stands for the code point. */
  lemma ItemWritten(t: Table, u: nat)
    requires u < 0x110000 && !Surrogate(u)
    ensures ValidItem(WrittenItem(t, u)) && Meaning(WrittenItem(t, u)) == u
  {
    if HasShort(t, u) {
      ShortMeaning(t, u);
      var x := WrittenItem(t, u);
      assert ShortIs(x.letter, u);
      ShortTable(x.letter, u);
      ShortTable(x.letter, Meaning(x));
      hide ShortIs;
    } else if u < 0x20 || (t.unicode && 0x80 <= u) {
      if u < 0x10000 {
        UpperHexIs(u);
      } else {
        UpperHexIs(0xD800 + (u - 0x10000) / 0x400);
        UpperHexIs(0xDC00 + (u - 0x10000) % 0x400);
      }
      hide HexNumber, FourHex, UpperHex;
    } else {
      PlainWritten(t, u);
    }
  }

  lemma PlainWritten(t: Table, u: nat)
    requires 0x20 <= u < 0x110000 && !Surrogate(u) && !HasShort(t, u)
    ensures IsPlain(u)
  {
    assert SHORT_MEANINGS[0] == 34 && SHORT_MEANINGS[1] == 92;
  }

  /** A text is written item by item, and stands for itself. */
  lemma {:induction false} TextWritten(t: Table, us: seq<nat>, s: seq<byte>, i: nat)
    requires Scalars(us) && i <= |s| && s[i..] == Utf8All(us)
    ensures ValidItems(WrittenItems(t, us)) && ItemsMeaning(WrittenItems(t, us)) == Utf8All(us)
    ensures Escaped(t, s, i) == Some(ItemsText(WrittenItems(t, us)))
    decreases |us|
  {
    hide WrittenItem, ItemText, ValidItem, Meaning, Utf8Of, EscapedChar, CharLength;
    if us != [] {
      var c := Utf8Of(us[0]);
      var xs, more := WrittenItems(t, us), WrittenItems(t, us[1..]);
      CharacterWritten(t, us[0]);
      FirstOf(s, i, c, Utf8All(us[1..]));
      TextWritten(t, us[1..], s, i + |c|);
      assert xs[1..] == more;
    }
  }

  lemma FirstOf(s: seq<byte>, i: nat, c: seq<byte>, rest: seq<byte>)
    requires i <= |s| && s[i..] == c + rest && 1 <= |c| == CharLength(c, 0)
    ensures i + |c| <= |s| && s[i..i + |c|] == c && s[i + |c|..] == rest && CharLength(s, i) == |c|
  {
    assert s[i..i + |c|] == s[i..][..|c|] && s[i + |c|..] == s[i..][|c|..];
    CharLengthLocal(s, i, c);
  }

  /** The well-formed texts are those of code points that are no surrogates. */
  lemma {:induction false} ScalarsOf(s: seq<byte>) returns (us: seq<nat>)
    requires WellFormed(s)
    ensures Scalars(us) && Utf8All(us) == s
    decreases |s|
  {
    if s == [] {
      us := [];
    } else {
      var n := CharLength(s, 0);
      var c := s[0..n];
      CharCut(s, 0);
      EncodedCodePoint(c);
      Utf8Table(CodePoint(c));
      hide CharLength, Encoded, CodePoint, Utf8Of;
      var more := ScalarsOf(s[n..]);
      us := [CodePoint(c)] + more;
      assert us[1..] == more && s == c + s[n..];
    }
  }

  lemma {:induction false} ScalarsWellFormed(us: seq<nat>)
    requires Scalars(us)
    ensures WellFormed(Utf8All(us))
    decreases |us|
  {
    if us != [] {
      CodePointEncoded(us[0]);
      Utf8Table(us[0]);
      hide CharLength, Encoded, CodePoint, Utf8Of;
      ScalarsWellFormed(us[1..]);
      WellFormedChar(Utf8Of(us[0]), Utf8All(us[1..]));
    }
  }

  /** Main result: what is written is read back unchanged, whichever of the four tables is used. */
  lemma RoundTrip(t: Table, text: seq<byte>, s: seq<byte>, j: nat)
    requires Escaped(t, text, 0).Some? && Holds(s, j, Escaped(t, text, 0).value + Ascii("\""))
    ensures StringAt(s, j) == Done(text, j + |Escaped(t, text, 0).value| + 1)
  {
    hide Escaped, StringAt, Holds, WellFormed, ItemsText, ItemsMeaning, Scalars, Utf8All, WrittenItems, ValidItems;
    assert text[0..] == text;
    EscapedIffWellFormed(t, text, 0);
    var us := ScalarsOf(text);
    TextWritten(t, us, text, 0);
    StringReads(s, j, WrittenItems(t, us));
  }
}
