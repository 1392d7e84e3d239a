/** JSON strings: what an escaped text stands for, how a text is escaped, and why the two undo each other. */
module JsonString {
  import opened Bytes
  import opened Utf8

  const QUOTE: byte := 34
  const SLASH: byte := 47
  const BACKSLASH: byte := 92
  const LETTER_U: byte := 117

  /** One element of a string: the closing quote, some bytes of content, or an error. */
  datatype Piece = Quote | Chars(bytes: seq<byte>, size: nat) | Bad

  /** hex_conv_table, with 16 for what is no hexadecimal digit. */
  function HexValue(b: byte): nat {
    if 48 <= b <= 57 then b - 48
    else if 65 <= b <= 70 then b - 55
    else if 97 <= b <= 102 then b - 87
    else 16
  }

  /** hex_load_4. */
  function HexAt(s: seq<byte>, i: nat): (h: Option<nat>)
    ensures h.Some? ==> h.value < 0x10000 && i + 4 <= |s|
  {
    var (a, b, c, d) := (HexValue(At(s, i)), HexValue(At(s, i + 1)), HexValue(At(s, i + 2)), HexValue(At(s, i + 3)));
    if a < 16 && b < 16 && c < 16 && d < 16 then Some(((a * 16 + b) * 16 + c) * 16 + d) else None
  }

  /** What a two-character escape stands for. */
  function Unescaped(letter: byte): Option<byte> {
    if letter == QUOTE || letter == BACKSLASH || letter == SLASH then Some(letter)
    else if letter == 98 then Some(8)
    else if letter == 102 then Some(12)
    else if letter == 110 then Some(10)
    else if letter == 114 then Some(13)
    else if letter == 116 then Some(9)
    else None
  }

  predicate HighSurrogate(u: nat) {
    u / 1024 == 54
  }

  predicate LowSurrogate(u: nat) {
    u / 1024 == 55
  }

  function Paired(hi: nat, lo: nat): (u: nat)
    requires HighSurrogate(hi) && LowSurrogate(lo)
    ensures 0x10000 <= u < 0x110000
  {
    (hi - 0xD800) * 1024 + (lo - 0xDC00) + 0x10000
  }

  /** A unicode escape, or two that make a surrogate pair. */
  function UnicodeAt(s: seq<byte>, i: nat): (p: Piece)
    ensures !p.Quote? && (p.Chars? ==> 1 <= |p.bytes| < p.size && i + p.size <= |s|)
  {
    var h := HexAt(s, i + 2);
    if h.None? then Bad
    else if h.value / 2048 != 27 then Chars(Encoded(h.value), 6)
    else if !HighSurrogate(h.value) then Bad
    else if At(s, i + 6) != BACKSLASH || At(s, i + 7) != LETTER_U then Bad
    else
      var l := HexAt(s, i + 8);
      if l.None? || !LowSurrogate(l.value) then Bad else Chars(Encoded(Paired(h.value, l.value)), 12)
  }

  /** The element of a string at `i`. */
  function PieceAt(s: seq<byte>, i: nat): (p: Piece)
    ensures p.Chars? ==> 1 <= |p.bytes| <= p.size && i + p.size <= |s|
  {
    var b := At(s, i);
    if b == QUOTE then Quote
    else if b == BACKSLASH then
      if At(s, i + 1) == LETTER_U then UnicodeAt(s, i)
      else
        var c := Unescaped(At(s, i + 1));
        if c.None? then Bad else Chars([c.value], 2)
    else if b < 32 || CharLength(s, i) == 0 then Bad
    else Chars(s[i..i + CharLength(s, i)], CharLength(s, i))
  }

  datatype Text = Done(bytes: seq<byte>, end: nat) | Fail(pos: nat)

  /** The string whose content begins at `i`: its bytes and where it ends, or where it goes wrong. */
  function StringAt(s: seq<byte>, i: nat): Text
    decreases |s| - i
  {
    match PieceAt(s, i)
    case Quote => Done([], i + 1)
    case Bad => Fail(i)
    case Chars(b, n) =>
      match StringAt(s, i + n)
      case Fail(pos) => Fail(pos)
      case Done(t, end) => Done(b + t, end)
  }

  /** A string read on, behind these bytes. */
  function Prepend(b: seq<byte>, t: Text): Text {
    match t
    case Fail(pos) => Fail(pos)
    case Done(rest, end) => Done(b + rest, end)
  }

  lemma PrependNothing(t: Text)
    ensures Prepend([], t) == t
  {
    if t.Done? {
      assert [] + t.bytes == t.bytes;
    }
  }

  lemma PrependTwice(a: seq<byte>, b: seq<byte>, t: Text)
    ensures Prepend(a, Prepend(b, t)) == Prepend(a + b, t)
  {
    if t.Done? {
      assert a + (b + t.bytes) == a + b + t.bytes;
    }
  }

  // Writing.

  function HexDigit(n: nat): byte
    requires n < 16
  {
    if n < 10 then 48 + n else 55 + n
  }

  /** Two characters of esc_hex_char_table. */
  function HexPair(n: nat): seq<byte>
    requires n < 256
  {
    [HexDigit(n / 16), HexDigit(n % 16)]
  }

  /** A unicode escape. */
  function EscapeOf(u: nat): (s: seq<byte>)
    requires u < 0x10000
    ensures |s| == 6
  {
    [BACKSLASH, LETTER_U] + HexPair(u / 256) + HexPair(u % 256)
  }

  /** The letter of esc_single_char_table. */
  function EscapeLetter(b: byte): byte {
    if b == 8 then 98 else if b == 12 then 102 else if b == 10 then 110
    else if b == 13 then 114 else if b == 9 then 116 else b
  }

  /** The four encode tables: which escapes are in force, and what each byte starts. */
  datatype Table = Table(unicode: bool, slash: bool)

  datatype Class = Copy | EscapeShort | EscapeUnicode | Invalid

  function ClassOf(t: Table, b: byte): Class {
    if b == 8 || b == 9 || b == 10 || b == 12 || b == 13 || b == QUOTE || b == BACKSLASH then EscapeShort
    else if b < 32 then EscapeUnicode
    else if b == SLASH then (if t.slash then EscapeShort else Copy)
    else if b < 128 then Copy
    else if b < 0xC0 || b >= 0xF8 then Invalid
    else if t.unicode then EscapeUnicode else Copy
  }

  /** One character as it is written. */
  function EscapedChar(t: Table, c: seq<byte>): (e: seq<byte>)
    requires 1 <= |c| == CharLength(c, 0)
    ensures 1 <= |e| <= 6 * |c|
  {
    match ClassOf(t, c[0])
    case EscapeShort => [BACKSLASH, EscapeLetter(c[0])]
    case EscapeUnicode =>
      EncodedCodePoint(c);
      var u := CodePoint(c);
      if u < 0x10000 then EscapeOf(u)
      else
        LongCharacter(c);
        EscapeOf((u - 0x10000) / 1024 + 0xD800) + EscapeOf((u - 0x10000) % 1024 + 0xDC00)
    case Copy | Invalid => c
  }

  lemma LongCharacter(c: seq<byte>)
    requires 1 <= |c| == CharLength(c, 0) && CodePoint(c) >= 0x10000
    ensures |c| == 4
  {
    EncodedCodePoint(c);
  }

  /** The text from `i` on as it is written between the quotes; nothing if it is not well formed. */
  function Escaped(t: Table, s: seq<byte>, i: nat): Option<seq<byte>>
    requires i <= |s|
    decreases |s| - i
  {
    if i == |s| then Some([])
    else if CharLength(s, i) == 0 then None
    else
      CharCut(s, i);
      match Escaped(t, s, i + CharLength(s, i))
      case None => None
      case Some(rest) => Some(EscapedChar(t, s[i..i + CharLength(s, i)]) + rest)
  }

  lemma {:induction false} EscapedLength(t: Table, s: seq<byte>, i: nat)
    requires i <= |s|
    ensures Escaped(t, s, i).Some? ==> |Escaped(t, s, i).value| <= 6 * (|s| - i)
    decreases |s| - i
  {
    if i < |s| && CharLength(s, i) > 0 {
      CharCut(s, i);
      EscapedLength(t, s, i + CharLength(s, i));
    }
  }

  /** Exactly the well-formed texts can be written. */
  lemma {:induction false} EscapedIffWellFormed(t: Table, s: seq<byte>, i: nat)
    requires i <= |s|
    ensures Escaped(t, s, i).Some? <==> WellFormed(s[i..])
    decreases |s| - i
  {
    if i < |s| {
      var n := CharLength(s, i);
      FromHere(s, i);
      if n > 0 {
        CharCut(s, i);
        EscapedIffWellFormed(t, s, i + n);
        assert s[i..][n..] == s[i + n..];
      }
    }
  }

  lemma FromHere(s: seq<byte>, i: nat)
    requires i < |s|
    ensures CharLength(s[i..], 0) == CharLength(s, i)
  {
    var r := s[i..];
    assert At(r, 0) == At(s, i) && At(r, 1) == At(s, i + 1) && At(r, 2) == At(s, i + 2) && At(r, 3) == At(s, i + 3);
  }

  lemma NothingWellFormed()
    ensures WellFormed([])
  {
  }

  lemma PieceIsCharacter(s: seq<byte>, i: nat)
    requires PieceAt(s, i).Chars?
    ensures var b := PieceAt(s, i).bytes; CharLength(b, 0) == |b|
  {
    var b := At(s, i);
    if b == BACKSLASH {
      if At(s, i + 1) == LETTER_U {
        var h := HexAt(s, i + 2);
        if h.value / 2048 != 27 {
          CodePointEncoded(h.value);
        } else {
          CodePointEncoded(Paired(h.value, HexAt(s, i + 8).value));
        }
      }
    } else {
      CharCut(s, i);
    }
  }

  /** What the reader accepts is well-formed UTF-8, escapes included. */
  lemma {:induction false} ReadsWellFormed(s: seq<byte>, i: nat)
    ensures StringAt(s, i).Done? ==> WellFormed(StringAt(s, i).bytes)
    decreases |s| - i
  {
    hide PieceAt, CharLength, WellFormed;
    NothingWellFormed();
    if PieceAt(s, i).Chars? {
      var b, n := PieceAt(s, i).bytes, PieceAt(s, i).size;
      PieceIsCharacter(s, i);
      ReadsWellFormed(s, i + n);
      if StringAt(s, i + n).Done? {
        WellFormedChar(b, StringAt(s, i + n).bytes);
      }
    }
  }
}
