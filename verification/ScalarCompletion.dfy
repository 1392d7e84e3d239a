/**
  What a string, a number or a name that breaks off needs to become whole, and the two ways in which it can be
  past help although the reader still asks for more.
 */
module ScalarCompletion {
  import opened Bytes
  import opened Literals
  import opened Integers
  import opened IntegerReader
  import opened Utf8
  import BigInt
  import opened Word64
  import DecimalBuf
  import FastFloat
  import LargestDouble
  import opened JsonString
  import opened JsonTree
  import opened JsonGrammar
  import opened NumberText
  import opened NumberValue
  import opened NumberPlace
  import opened NumberSyntax
  import opened NumberTruncation
  import opened JsonTruncation
  import opened StringGrammar

  // ---------------------------------------------------------------------------------------
  // Strings
  // ---------------------------------------------------------------------------------------

  /** An escape that begins as a low surrogate does, with no high one in front. */
  predicate LoneLow(v: seq<byte>, p: nat) {
    && p + 4 <= |v| && v[p] == '\\' as int && v[p + 1] == 'u' as int
    && v[p + 2] in Ascii("dD") && v[p + 3] in Ascii("cdefCDEF")
  }

  lemma LowIs(a: byte, b: byte)
    ensures a in Ascii("dD") <==> HexValue(a) == 13
    ensures b in Ascii("cdefCDEF") <==> 12 <= HexValue(b) < 16
  {
    assert Ascii("dD") == [100, 68];
    assert Ascii("cdefCDEF") == [99, 100, 101, 102, 67, 68, 69, 70];
  }

  /** Nothing behind it makes it a character. */
  lemma LoneLowIsBad(v: seq<byte>, s: seq<byte>, p: nat)
    requires CutOf(v, s) && LoneLow(v, p)
    ensures PieceAt(s, p).Bad?
  {
    LowIs(v[p + 2], v[p + 3]);
    AtCut(v, s, p);
    AtCut(v, s, p + 1);
    AtCut(v, s, p + 2);
    AtCut(v, s, p + 3);
    if HexAt(s, p + 2).Some? {
      HexDigitsOf(s, p + 2);
    }
    hide HexAt, HexValue, CharLength;
  }

  function FillUtf8(v: seq<byte>, p: nat): seq<byte>
    requires p < |v|
  {
    if |v| - p == 1 then
      if v[p] < 0xE0 then [0x80]
      else if v[p] == 0xE0 then [0xA0, 0x80]
      else if v[p] < 0xF0 then [0x80, 0x80]
      else if v[p] == 0xF0 then [0x90, 0x80, 0x80]
      else [0x80, 0x80, 0x80]
    else if |v| - p == 2 && v[p] >= 0xF0 then [0x80, 0x80]
    else [0x80]
  }

  lemma Utf8Completes(v: seq<byte>, s: seq<byte>, p: nat)
    requires p < |v| && TruncatedUtf8(v, p) && CutOf(v + FillUtf8(v, p), s)
    ensures v[p] != QUOTE && v[p] != BACKSLASH
    ensures PieceAt(s, p).Chars? && p + PieceAt(s, p).size == |v + FillUtf8(v, p)|
  {
    var w := v + FillUtf8(v, p);
    AtCut(w, s, p);
    AtCut(w, s, p + 1);
    AtCut(w, s, p + 2);
    AtCut(w, s, p + 3);
    MasksAreTheStandard(At(s, p), At(s, p + 1), At(s, p + 2), At(s, p + 3));
    hide IsSeq1, IsSeq2, IsSeq3, IsSeq4;
  }

  /** A low surrogate, written as an escape. */
  const LOW: seq<byte> := [92, 117, 68, 67, 48, 48]

  function Zeros(n: nat): (z: seq<byte>)
    ensures |z| == n && forall k | 0 <= k < n :: z[k] == ZERO
  {
    seq(n, _ => ZERO)
  }

  function FillEscape(v: seq<byte>, p: nat): seq<byte>
    requires p < |v| <= p + 11
  {
    var len := |v| - p;
    if len == 1 then [110]
    else if len <= 5 then
      var h := HexAt(v + Zeros(6 - len), p + 2);
      Zeros(6 - len) + if h.Some? && HighSurrogate(h.value) then LOW else []
    else LOW[len - 6..]
  }

  /** The digits of an escape, as far as they go, and zeros. */
  lemma HexFilled(v: seq<byte>, p: nat)
    requires p + 2 <= |v| <= p + 5 && TruncatedEscape(v, p) && !LoneLow(v, p) && v[p] == BACKSLASH
    ensures var h := HexAt(v + Zeros(6 - (|v| - p)), p + 2); h.Some? && !LowSurrogate(h.value)
  {
    var w := v + Zeros(6 - (|v| - p));
    forall k | p + 2 <= k < p + 6
      ensures At(w, k) == (if k < |v| then v[k] else ZERO) && HexValue(At(w, k)) < 16
    {
    }
    if |v| >= p + 4 {
      LowIs(v[p + 2], v[p + 3]);
    }
    assert HexValue(ZERO) == 0;
    hide HexValue;
    assert HexAt(w, p + 2).Some?;
    HexDigitsOf(w, p + 2);
  }

  lemma LowAt(s: seq<byte>, j: nat)
    requires HexValue(At(s, j)) == 13 && 12 <= HexValue(At(s, j + 1)) < 16
    requires HexValue(At(s, j + 2)) < 16 && HexValue(At(s, j + 3)) < 16
    ensures HexAt(s, j).Some? && LowSurrogate(HexAt(s, j).value)
  {
    hide HexValue;
    assert HexAt(s, j).Some?;
    HexDigitsOf(s, j);
  }

  /** What stands behind a high surrogate, as far as `v` goes, and the rest of a low one. */
  ghost predicate LowBehind(v: seq<byte>, s: seq<byte>, j: nat) {
    forall k | j <= k < j + 6 :: At(s, k) == if k < |v| then v[k] else LOW[k - j]
  }

  lemma LowReads(v: seq<byte>, s: seq<byte>, p: nat)
    requires p + 6 <= |v| <= p + 11 && v[p] == BACKSLASH && TruncatedEscape(v, p) && LowBehind(v, s, p + 6)
    ensures At(s, p + 6) == BACKSLASH && At(s, p + 7) == LETTER_U
    ensures HexAt(s, p + 8).Some? && LowSurrogate(HexAt(s, p + 8).value)
  {
    var j := p + 6;
    assert At(s, j) == BACKSLASH && At(s, j + 1) == LETTER_U;
    assert At(s, j + 2) == 100 || At(s, j + 2) == 68;
    assert 99 <= At(s, j + 3) <= 102 || 67 <= At(s, j + 3) <= 70;
    assert HexValue(At(s, j + 4)) < 16 && HexValue(At(s, j + 5)) < 16;
    LowAt(s, p + 8);
  }

  lemma LowWritten(s: seq<byte>, j: nat)
    requires LowBehind([], s, j)
    ensures At(s, j) == BACKSLASH && At(s, j + 1) == LETTER_U
    ensures HexAt(s, j + 2).Some? && LowSurrogate(HexAt(s, j + 2).value)
  {
    assert At(s, j) == LOW[0] && At(s, j + 1) == LOW[1] && At(s, j + 2) == LOW[2] && At(s, j + 3) == LOW[3];
    assert At(s, j + 4) == LOW[4] && At(s, j + 5) == LOW[5];
    LowAt(s, j + 2);
  }

  lemma PairReads(s: seq<byte>, p: nat)
    requires At(s, p) == BACKSLASH && At(s, p + 1) == LETTER_U
    requires HexAt(s, p + 2).Some? && HighSurrogate(HexAt(s, p + 2).value)
    requires At(s, p + 6) == BACKSLASH && At(s, p + 7) == LETTER_U
    requires HexAt(s, p + 8).Some? && LowSurrogate(HexAt(s, p + 8).value)
    ensures PieceAt(s, p).Chars? && PieceAt(s, p).size == 12
  {
    hide HexAt, Encoded;
  }

  lemma HighOf(v: seq<byte>, p: nat)
    requires p + 6 <= |v| && HexAt(v, p + 2).Some? && HexAt(v, p + 2).value / 2048 == 27 && v[p] == BACKSLASH
    requires v[p + 1] == LETTER_U && !LoneLow(v, p)
    ensures HighSurrogate(HexAt(v, p + 2).value)
  {
    LowIs(v[p + 2], v[p + 3]);
    HexDigitsOf(v, p + 2);
    hide HexAt, HexValue;
  }

  lemma LongEscapeCompletes(v: seq<byte>, s: seq<byte>, p: nat)
    requires p + 6 <= |v| <= p + 11 && v[p] == BACKSLASH && TruncatedEscape(v, p) && !LoneLow(v, p)
    requires CutOf(v + LOW[|v| - p - 6..], s)
    ensures PieceAt(s, p).Chars? && PieceAt(s, p).size == 12
  {
    var w := v + LOW[|v| - p - 6..];
    assert CutOf(v, s) by {
      assert s[..|v|] == w[..|v|] == v;
    }
    AtCut(v, s, p);
    AtCut(v, s, p + 1);
    HexCut(v, s, p + 2);
    HighOf(v, p);
    forall k | p + 6 <= k < p + 12
      ensures At(s, k) == if k < |v| then v[k] else LOW[k - p - 6]
    {
      AtCut(w, s, k);
    }
    LowReads(v, s, p);
    hide HexAt, HexValue, LoneLow;
    PairReads(s, p);
  }

  lemma ShortEscapeCompletes(v: seq<byte>, s: seq<byte>, p: nat)
    requires p + 2 <= |v| <= p + 5 && v[p] == BACKSLASH && TruncatedEscape(v, p) && !LoneLow(v, p)
    requires CutOf(v + FillEscape(v, p), s)
    ensures PieceAt(s, p).Chars? && p + PieceAt(s, p).size == |v + FillEscape(v, p)|
  {
    var z := v + Zeros(6 - (|v| - p));
    var w := v + FillEscape(v, p);
    HexFilled(v, p);
    var h := HexAt(z, p + 2).value;
    assert w == z + if HighSurrogate(h) then LOW else [];
    CutFront(z, if HighSurrogate(h) then LOW else [], s);
    AtCut(z, s, p);
    AtCut(z, s, p + 1);
    HexCut(z, s, p + 2);
    if HighSurrogate(h) {
      forall k | p + 6 <= k < p + 12
        ensures At(s, k) == LOW[k - p - 6]
      {
        AtCut(w, s, k);
      }
      LowWritten(s, p + 6);
      PairReads(s, p);
    }
    hide HexAt, HexValue, LoneLow, Encoded;
  }

  lemma CutFront(v: seq<byte>, t: seq<byte>, s: seq<byte>)
    requires CutOf(v + t, s)
    ensures CutOf(v, s)
  {
    assert s[..|v|] == (v + t)[..|v|] == v;
  }

  lemma EscapeCompletes(v: seq<byte>, s: seq<byte>, p: nat)
    requires p < |v| && v[p] == BACKSLASH && TruncatedEscape(v, p) && !LoneLow(v, p)
    requires |v| <= p + 11 && CutOf(v + FillEscape(v, p), s)
    ensures PieceAt(s, p).Chars? && p + PieceAt(s, p).size == |v + FillEscape(v, p)|
  {
    var len := |v| - p;
    if len == 1 {
      AtCut(v + [110], s, p);
      AtCut(v + [110], s, p + 1);
    } else if len <= 5 {
      ShortEscapeCompletes(v, s, p);
    } else {
      LongEscapeCompletes(v, s, p);
    }
    hide LoneLow, UnicodeAt, CharLength;
  }

  const HEX: seq<byte> := Ascii("0123456789abcdefABCDEF")

  /** A backslash, a u and four hexadecimal digits. */
  predicate UnicodeShape(x: seq<byte>) {
    |x| == 6 && x[0] == '\\' as int && x[1] == 'u' as int && forall k | 2 <= k < 6 :: x[k] in HEX
  }

  /** Two of them: any surrogate, high or low, and then a low one. */
  predicate SurrogatesShape(x: seq<byte>) {
    && |x| == 12 && UnicodeShape(x[..6]) && UnicodeShape(x[6..])
    && x[2] in Ascii("dD") && x[3] in Ascii("89abcdefABCDEF") && x[8] in Ascii("dD") && x[9] in Ascii("cdefCDEF")
  }

  lemma HexIs(b: byte)
    ensures b in HEX <==> HexValue(b) < 16
    ensures b in Ascii("89abcdefABCDEF") <==> 8 <= HexValue(b) < 16
  {
    assert HEX == [48, 49, 50, 51, 52, 53, 54, 55, 56, 57, 97, 98, 99, 100, 101, 102, 65, 66, 67, 68, 69, 70];
    assert Ascii("89abcdefABCDEF") == [56, 57, 97, 98, 99, 100, 101, 102, 65, 66, 67, 68, 69, 70];
  }

  ghost predicate EscapeShape(x: seq<byte>) {
    UnicodeShape(x) || SurrogatesShape(x)
  }

  /** `v` ends inside of `x`, which begins at `p`. */
  predicate EndsInside(v: seq<byte>, p: nat, x: seq<byte>) {
    p < |v| < p + |x| && v[p..] == x[..|v| - p]
  }

  lemma InsideAt(v: seq<byte>, p: nat, x: seq<byte>)
    requires EndsInside(v, p, x)
    ensures forall k | p <= k < |v| :: v[k] == x[k - p]
  {
    forall k | p <= k < |v|
      ensures v[k] == x[k - p]
    {
      assert v[p..][k - p] == v[k];
    }
  }

  lemma FrontInside(v: seq<byte>, p: nat, x: seq<byte>)
    requires EndsInside(v, p, x) && |v| < p + 6 <= p + |x|
    ensures EndsInside(v, p, x[..6])
  {
    assert x[..6][..|v| - p] == x[..|v| - p];
  }

  /** The first two digits are those of a surrogate. */
  lemma SurrogateDigits(v: seq<byte>, i: nat)
    requires HexAt(v, i).Some?
    ensures HexAt(v, i).value / 2048 == 27 <==> HexValue(At(v, i)) == 13 && HexValue(At(v, i + 1)) >= 8
  {
    hide HexValue;
  }

  lemma ShortShape(v: seq<byte>, p: nat, x: seq<byte>)
    requires UnicodeShape(x) && EndsInside(v, p, x)
    ensures TruncatedEscape(v, p)
  {
    InsideAt(v, p, x);
    if |v| - p > 1 {
      assert v[p + 1] == x[1];
    }
    forall k | p + 2 <= k < |v|
      ensures HexValue(v[k]) < 16
    {
      HexIs(x[k - p]);
    }
  }

  lemma LongShape(v: seq<byte>, p: nat, x: seq<byte>)
    requires SurrogatesShape(x) && EndsInside(v, p, x) && |v| >= p + 6
    ensures TruncatedEscape(v, p)
  {
    InsideAt(v, p, x);
    forall k | 0 <= k < |v| - p
      ensures At(v, p + k) == v[p + k] == x[k]
    {
      assert v[p + k] == x[p + k - p];
    }
    forall k | 2 <= k < 6
      ensures x[k] == x[..6][k] && HexValue(x[k]) < 16
    {
      HexIs(x[..6][k]);
    }
    forall k | 2 <= k < 6
      ensures x[6 + k] == x[6..][k] && HexValue(x[6 + k]) < 16
    {
      HexIs(x[6..][k]);
    }
    assert x[1] == x[..6][1] && x[6] == x[6..][0] && x[7] == x[6..][1];
    assert At(v, p + 2) == x[2] && At(v, p + 3) == x[3] && At(v, p + 4) == x[4] && At(v, p + 5) == x[5];
    assert HexValue(x[6 + 4]) < 16;
    LowIs(x[2], x[9]);
    LowIs(x[8], x[9]);
    HexIs(x[3]);
    assert HexAt(v, p + 2).Some?;
    SurrogateDigits(v, p + 2);
    hide HexAt;
    assert |v| - p > 9 ==> v[p + 9] == x[9];
    assert Ascii("cdefCDEF") == [99, 100, 101, 102, 67, 68, 69, 70];
    assert Ascii("dD") == [100, 68];
    hide HexValue, UnicodeShape;
  }

  /** The digits there are, and zeros. */
  lemma ShapeOfShort(v: seq<byte>, p: nat) returns (x: seq<byte>)
    requires p < |v| <= p + 5 && v[p] == BACKSLASH && TruncatedEscape(v, p)
    ensures UnicodeShape(x) && EndsInside(v, p, x)
  {
    var len := |v| - p;
    x := if len == 1 then v[p..] + [LETTER_U] + Zeros(4) else v[p..] + Zeros(6 - len);
    HexIs(ZERO);
    forall k | 2 <= k < 6
      ensures x[k] in HEX
    {
      HexIs(x[k]);
      if k < len {
        assert x[k] == v[p + k];
      }
    }
    hide HexValue;
  }

  lemma ShapeOfLong(v: seq<byte>, p: nat) returns (x: seq<byte>)
    requires p + 6 <= |v| <= p + 11 && v[p] == BACKSLASH && TruncatedEscape(v, p)
    ensures SurrogatesShape(x) && EndsInside(v, p, x)
  {
    var len := |v| - p;
    x := v[p..] + LOW[len - 6..];
    HexDigitsOf(v, p + 2);
    SurrogateDigits(v, p + 2);
    forall k | 2 <= k < 6
      ensures x[..6][k] in HEX
    {
      HexIs(x[..6][k]);
      assert x[..6][k] == v[p + k] == At(v, p + k);
    }
    forall k | 2 <= k < 6
      ensures x[6..][k] in HEX
    {
      HexIs(x[6..][k]);
      LowShape(v, p, x, 6 + k);
    }
    LowShape(v, p, x, 6);
    LowShape(v, p, x, 7);
    LowShape(v, p, x, 8);
    LowShape(v, p, x, 9);
    hide HexAt;
    assert x[2] == v[p + 2] && x[3] == v[p + 3];
    LowIs(x[2], x[9]);
    LowIs(x[8], x[9]);
    HexIs(x[3]);
    hide HexValue;
  }

  /** What stands in its second half, from the text or from the low surrogate put behind it. */
  lemma LowShape(v: seq<byte>, p: nat, x: seq<byte>, k: nat)
    requires p + 6 <= |v| <= p + 11 && v[p] == BACKSLASH && TruncatedEscape(v, p) && x == v[p..] + LOW[|v| - p - 6..]
    requires 6 <= k < 12
    ensures LowFits(k, x[k])
  {
    assert x[k] == if p + k < |v| then v[p + k] else LOW[k - 6];
    hide LowFits;
    if p + k < |v| {
      LowThere(v, p, k);
    } else {
      LowLetter(k);
    }
  }

  predicate LowFits(k: nat, b: byte) {
    && (k == 6 ==> b == BACKSLASH) && (k == 7 ==> b == LETTER_U)
    && (k == 8 ==> HexValue(b) == 13) && (k == 9 ==> 12 <= HexValue(b) < 16) && (k >= 8 ==> HexValue(b) < 16)
  }

  lemma LowThere(v: seq<byte>, p: nat, k: nat)
    requires p + 6 <= |v| <= p + 11 && TruncatedEscape(v, p) && 6 <= k && p + k < |v|
    ensures LowFits(k, v[p + k])
  {
    hide HexAt;
  }

  lemma LowLetter(k: nat)
    requires 6 <= k < 12
    ensures LowFits(k, LOW[k - 6])
  {
  }

  /** The reader takes an escape for cut, and waits, exactly if the text ends inside of one of these shapes. */
  lemma EscapeCutExactly(v: seq<byte>, p: nat)
    requires p < |v| && v[p] == BACKSLASH
    ensures TruncatedEscape(v, p) <==> exists x :: EscapeShape(x) && EndsInside(v, p, x)
  {
    if TruncatedEscape(v, p) {
      var x: seq<byte>;
      if |v| <= p + 5 {
        x := ShapeOfShort(v, p);
      } else {
        x := ShapeOfLong(v, p);
      }
      assert EscapeShape(x) && EndsInside(v, p, x);
    }
    forall x | EscapeShape(x) && EndsInside(v, p, x)
      ensures TruncatedEscape(v, p)
    {
      if UnicodeShape(x) {
        ShortShape(v, p, x);
      } else if |v| >= p + 6 {
        LongShape(v, p, x);
      } else {
        FrontInside(v, p, x);
        ShortShape(v, p, x[..6]);
      }
    }
  }

  /** What makes a string whole that fails at `p`. */
  function FillString(v: seq<byte>, p: nat): seq<byte> {
    (if p >= |v| then []
     else if v[p] == BACKSLASH then if |v| <= p + 11 then FillEscape(v, p) else []
     else FillUtf8(v, p))
    + [QUOTE]
  }

  lemma {:induction false} FailWithin(v: seq<byte>, i: nat)
    requires i <= |v| && StringAt(v, i).Fail?
    ensures StringAt(v, i).pos <= |v|
    decreases |v| - i
  {
    if PieceAt(v, i).Chars? {
      FailWithin(v, i + PieceAt(v, i).size);
    }
    hide PieceAt;
  }

  lemma QuoteEnds(s: seq<byte>, p: nat)
    requires At(s, p) == QUOTE
    ensures StringAt(s, p) == Done([], p + 1)
  {
  }

  lemma PieceThenQuote(s: seq<byte>, p: nat)
    requires PieceAt(s, p).Chars? && At(s, p + PieceAt(s, p).size) == QUOTE
    ensures StringAt(s, p).Done? && StringAt(s, p).end == p + PieceAt(s, p).size + 1
  {
    QuoteEnds(s, p + PieceAt(s, p).size);
    hide PieceAt;
  }

  /** The piece that is cut, made whole, and the quote. */
  lemma PieceCompletes(v: seq<byte>, s: seq<byte>, p: nat)
    requires p <= |v| && StringTruncated(v, p) && !LoneLow(v, p) && CutOf(v + FillString(v, p), s)
    ensures StringAt(s, p).Done? && StringAt(s, p).end == |v + FillString(v, p)|
  {
    var w := v + FillString(v, p);
    AtCut(w, s, |w| - 1);
    if p == |v| {
      QuoteEnds(s, p);
    } else {
      var fill := FillString(v, p)[..|FillString(v, p)| - 1];
      assert v + fill + [QUOTE] == w;
      CutFront(v + fill, [QUOTE], s);
      if v[p] == BACKSLASH {
        EscapeCompletes(v, s, p);
      } else {
        Utf8Completes(v, s, p);
      }
      PieceThenQuote(s, p);
    }
    hide PieceAt, StringAt, LoneLow, TruncatedEscape, TruncatedUtf8, FillEscape, FillUtf8;
  }

  /** A string cut short becomes whole, unless it is cut behind half of a lone low surrogate. */
  lemma StringCompletes(v: seq<byte>, s: seq<byte>, i: nat)
    requires i <= |v| && StringAt(v, i).Fail? && StringTruncated(v, StringAt(v, i).pos)
    requires !LoneLow(v, StringAt(v, i).pos) && CutOf(v + FillString(v, StringAt(v, i).pos), s)
    ensures StringAt(s, i).Done? && StringAt(s, i).end == |v + FillString(v, StringAt(v, i).pos)|
  {
    var p := StringAt(v, i).pos;
    FailWithin(v, i);
    CutFront(v, FillString(v, p), s);
    StringResumes(v, s, i);
    PieceCompletes(v, s, p);
    hide StringAt, StringTruncated, LoneLow, FillString, ReadSoFar;
  }

  /** And then it never does. */
  lemma StringHopeless(v: seq<byte>, s: seq<byte>, i: nat)
    requires CutOf(v, s) && StringAt(v, i).Fail? && LoneLow(v, StringAt(v, i).pos)
    ensures StringAt(s, i).Fail?
  {
    StringResumes(v, s, i);
    LoneLowIsBad(v, s, StringAt(v, i).pos);
    hide PieceAt, LoneLow, ReadSoFar;
  }

  // ---------------------------------------------------------------------------------------
  // Numbers
  // ---------------------------------------------------------------------------------------

  lemma NumberIsThere(s: seq<byte>, i: nat)
    requires NumberEnd(s, i).Some? && !Refused(s, i)
    ensures NumberAt(s, i).Some? && NumberAt(s, i).value.1 == NumberEnd(s, i).value
  {
    EndInside(s, i);
    if IntegerText(s, i) && FitsWord(s, i) {
      IntegerEnds(s, i);
    }
    hide RunEnd, NumberEnd, Refused, IntegerText, FitsWord, TextOf, Stored;
  }

  /** A number up to the end of `w` is one wherever it is followed by what it cannot go on with. */
  lemma NumberStays(w: seq<byte>, s: seq<byte>, i: nat)
    requires CutOf(w, s) && NumberEnd(w, i) == Some(|w|) && !Refused(w, i) && EndsNumber(At(s, |w|))
    ensures NumberAt(s, i).Some? && NumberAt(s, i).value.1 == |w|
  {
    hide NumberEnd, Refused, EndsNumber, ValidNumber, NumText, NumberAt, IntegerText, FitsWord, Stored, WordOf, Fits, TextOf;
    hide Holds;
    var n := NumberFound(w, i);
    HoldsCut(w, s, i, NumText(n));
    EndOfNumber(w);
    NumberRead(w, i, n);
    NumberRead(s, i, n);
    NumberIsThere(s, i);
  }

  lemma HoldsCut(w: seq<byte>, s: seq<byte>, i: nat, t: seq<byte>)
    requires CutOf(w, s) && Holds(w, i, t)
    ensures Holds(s, i, t)
  {
    assert s[i..i + |t|] == w[i..i + |t|];
  }

  lemma EndOfNumber(w: seq<byte>)
    ensures EndsNumber(At(w, |w|))
  {
  }

  /** Nineteen ones: an exponent that makes any number small, if it is negative. */
  function Ones(): (r: seq<byte>)
    ensures |r| == 19 && forall k | 0 <= k < 19 :: r[k] == 49
  {
    seq(19, _ => 49)
  }

  /** A number cut behind a plus in its exponent, and already refused with the exponent zero. */
  predicate PlusStuck(v: seq<byte>, i: nat) {
    v != [] && v[|v| - 1] == '+' as int && NumberEnd(v, i).None? && NumberError(v, i) >= |v| && Refused(v + [ZERO], i)
  }

  function FillNumber(v: seq<byte>, i: nat): seq<byte> {
    var q := i + Sign(v, i);
    var e := RunEnd(v, q);
    if q >= |v| then [ZERO]
    else
      match FractionEnd(v, e)
      case None => [ZERO, 101, MINUS] + Ones()
      case Some(f) => if At(v, f + 1) == 43 then [ZERO] else if At(v, f + 1) == MINUS then Ones() else [MINUS] + Ones()
  }

  lemma SignAlone(v: seq<byte>, i: nat)
    requires i < |v| && i + Sign(v, i) >= |v|
    ensures var w := v + [ZERO]; NumberEnd(w, i) == Some(|w|) && !Refused(w, i)
  {
    var w := v + [ZERO];
    var q := i + 1;
    assert At(w, i) == MINUS && At(w, q) == ZERO && At(w, q + 1) == 0;
    RunEndIs(w, q, q + 1);
    assert IntegerReader.Spelled(w, q, q) == 0;
    assert IntegerReader.Spelled(w, q, q + 1) == 0;
    hide RunEnd;
    assert IntegerText(w, i) && Magnitude(w, i) == 0;
    IntegerEnds(w, i);
    WordIsTaken(w, i);
  }

  /** The digits at `k` end the text. */
  predicate DigitsEnd(w: seq<byte>, k: nat) {
    k < |w| && forall j | k <= j < |w| :: IsDigit(At(w, j))
  }

  lemma ExponentIs(w: seq<byte>, f: nat)
    requires (At(w, f) == 69 || At(w, f) == 101) && (At(w, f + 1) == MINUS || At(w, f + 1) == 43) && DigitsEnd(w, f + 2)
    ensures ExponentEnd(w, f) == Some(|w|) && ExponentStart(w, f) == f + 2
  {
    RunEndIs(w, f + 2, |w|);
    hide RunEnd;
  }

  /** Such a number is not refused. */
  lemma SmallIsTaken(w: seq<byte>, i: nat, n: Parts)
    requires n.q == i + Sign(w, i) && RunEnd(w, n.q) == n.e && n.q < n.e && !(At(w, n.q) == ZERO && n.e > n.q + 1)
    requires FractionEnd(w, n.e) == Some(n.f) && (At(w, n.f) == 69 || At(w, n.f) == 101) && At(w, n.f + 1) == MINUS
    requires n.x == |w| == n.f + 21 && w[n.f + 2..] == Ones()
    ensures NumberEnd(w, i) == Some(|w|) && !Refused(w, i)
  {
    forall j | n.f + 2 <= j < |w|
      ensures At(w, j) == 49
    {
      assert w[j] == w[n.f + 2..][j - (n.f + 2)];
    }
    ExponentIs(w, n.f);
    EndFrom(w, i, n);
    hide RunEnd, FractionEnd, ExponentEnd, ExponentStart;
    PartsWhole(w, i);
    hide Whole, NumberEnd;
    assert SkipZeros(w, n.f + 2, n.x) == n.f + 2;
    assert LiteralLength(w, n) == 19;
    hide LiteralLength, PointDropped, DecimalExponent, RoundedWord, FirstDigit, Literal;
  }

  lemma OnesBehind(v: seq<byte>, t: seq<byte>)
    ensures var w := v + t + Ones(); w[|v| + |t|..] == Ones() && forall k | 0 <= k < |v| + |t| :: At(w, k) == At(v + t, k)
  {
  }

  lemma PointFound(v: seq<byte>, i: nat)
    requires i < |v| && NumberEnd(v, i).None? && NumberError(v, i) >= |v| && i + Sign(v, i) < |v|
    requires FractionEnd(v, RunEnd(v, i + Sign(v, i))).None?
    ensures var q := i + Sign(v, i);
            var e := RunEnd(v, q);
            |v| == e + 1 && At(v, e) == DOT && q < e && !(At(v, q) == ZERO && e > q + 1)
    ensures FillNumber(v, i) == [ZERO, 101, MINUS] + Ones()
  {
    hide RunEnd;
  }

  lemma ThreeBehind(v: seq<byte>, w: seq<byte>)
    requires CutOf(v + [ZERO, 101, MINUS], w) && v != [] && v[|v| - 1] == DOT
    ensures var e := |v| - 1;
            FractionEnd(w, e) == Some(e + 2) && At(w, e + 2) == 101 && At(w, e + 3) == MINUS
  {
    var u := v + [ZERO, 101, MINUS];
    AtCut(u, w, |v| - 1);
    AtCut(u, w, |v|);
    AtCut(u, w, |v| + 1);
    AtCut(u, w, |v| + 2);
    RunEndIs(w, |v|, |v| + 1);
  }

  /** Cut right behind the point. */
  lemma PointCompletes(v: seq<byte>, i: nat)
    requires i < |v| && NumberEnd(v, i).None? && NumberError(v, i) >= |v| && i + Sign(v, i) < |v|
    requires FractionEnd(v, RunEnd(v, i + Sign(v, i))).None?
    ensures var w := v + FillNumber(v, i); NumberEnd(w, i) == Some(|w|) && !Refused(w, i)
  {
    PointFound(v, i);
    hide RunEnd, NumberEnd, Refused, FillNumber, NumberError;
    var q := i + Sign(v, i);
    var e := RunEnd(v, q);
    var t := [ZERO, 101, MINUS];
    var w := v + t + Ones();
    assert v + FillNumber(v, i) == w;
    assert CutOf(v, w);
    RunEndCut(v, w, q);
    SignCut(v, w, i);
    AtCut(v, w, q);
    AtCut(v, w, e);
    OnesBehind(v, t);
    ThreeBehind(v, w);
    SmallIsTaken(w, i, Parts(q, e, e + 2, |w|));
  }

  /** Where a number stands that is cut in its exponent. */
  ghost predicate MarkedAt(v: seq<byte>, i: nat, n: Parts) {
    && n.q == i + Sign(v, i) && n.q < n.e <= n.f < |v| && RunEnd(v, n.q) == n.e && !(At(v, n.q) == ZERO && n.e > n.q + 1)
    && FractionEnd(v, n.e) == Some(n.f) && (At(v, n.f) == 69 || At(v, n.f) == 101)
    && n.x == ExponentStart(v, n.f) == |v|
  }

  lemma MarkFound(v: seq<byte>, i: nat) returns (n: Parts)
    requires i < |v| && NumberEnd(v, i).None? && NumberError(v, i) >= |v| && i + Sign(v, i) < |v|
    requires FractionEnd(v, RunEnd(v, i + Sign(v, i))).Some?
    ensures MarkedAt(v, i, n)
    ensures n.x == n.f + 1 || (n.x == n.f + 2 && (At(v, n.f + 1) == MINUS || At(v, n.f + 1) == 43))
  {
    var q := i + Sign(v, i);
    var e := RunEnd(v, q);
    var f := FractionEnd(v, e).value;
    n := Parts(q, e, f, |v|);
    hide RunEnd, FractionEnd;
    assert ExponentEnd(v, f).None?;
    assert f < |v|;
  }

  lemma MarkKept(v: seq<byte>, w: seq<byte>, i: nat, n: Parts)
    requires CutOf(v, w) && MarkedAt(v, i, n)
    ensures n.q == i + Sign(w, i) && RunEnd(w, n.q) == n.e && !(At(w, n.q) == ZERO && n.e > n.q + 1)
    ensures FractionEnd(w, n.e) == Some(n.f) && At(w, n.f) == At(v, n.f) && (At(w, n.f) == 69 || At(w, n.f) == 101)
  {
    SignCut(v, w, i);
    AtCut(v, w, n.q);
    AtCut(v, w, n.f);
    RunEndCut(v, w, n.q);
    FractionCut(v, w, n.e);
    hide RunEnd, FractionEnd, ExponentStart;
  }

  lemma MarkFill(v: seq<byte>, i: nat, n: Parts)
    requires MarkedAt(v, i, n) && (n.x == n.f + 1 || (n.x == n.f + 2 && At(v, n.f + 1) == MINUS))
    ensures FillNumber(v, i) == (if n.x == n.f + 1 then [MINUS] else []) + Ones()
  {
    hide RunEnd, FractionEnd, Ones;
  }

  /** Cut behind the mark of the exponent, or behind a minus there. */
  lemma MarkCompletes(v: seq<byte>, i: nat, n: Parts)
    requires MarkedAt(v, i, n) && (n.x == n.f + 1 || (n.x == n.f + 2 && At(v, n.f + 1) == MINUS))
    ensures var w := v + FillNumber(v, i); NumberEnd(w, i) == Some(|w|) && !Refused(w, i)
  {
    hide RunEnd, NumberEnd, Refused, FractionEnd, ExponentStart, FillNumber, Ones;
    var t: seq<byte> := if n.x == n.f + 1 then [MINUS] else [];
    var w := v + t + Ones();
    MarkFill(v, i, n);
    assert v + (t + Ones()) == w;
    assert CutOf(v, w);
    MarkKept(v, w, i, n);
    OnesBehind(v, t);
    assert At(w, n.f + 1) == At(v + t, n.f + 1) == MINUS by {
      MarkEnds(v, i, n);
    }
    SmallIsTaken(w, i, n.(x := |w|));
  }

  /** Cut behind a plus there. */
  lemma PlusCompletes(v: seq<byte>, i: nat, n: Parts)
    requires MarkedAt(v, i, n) && n.x == n.f + 2 && At(v, n.f + 1) == 43
    ensures FillNumber(v, i) == [ZERO]
    ensures var w := v + [ZERO]; NumberEnd(w, i) == Some(|w|) && PartsOf(w, i) == n.(x := |w|)
  {
    hide RunEnd, FractionEnd, NumberEnd, ExponentEnd, PartsOf;
    var w := v + [ZERO];
    MarkKept(v, w, i, n);
    AtCut(v, w, n.f + 1);
    assert At(w, n.f + 2) == ZERO;
    ExponentIs(w, n.f);
    hide ExponentStart;
    EndFrom(w, i, n.(x := |w|));
  }

  /** A number cut short becomes whole, unless a plus in its exponent leaves it too large. */
  lemma NumberFills(v: seq<byte>, i: nat)
    requires i < |v| && NumberEnd(v, i).None? && NumberError(v, i) >= |v| && !PlusStuck(v, i)
    ensures var w := v + FillNumber(v, i); NumberEnd(w, i) == Some(|w|) && !Refused(w, i)
  {
    hide RunEnd, NumberEnd, Refused, FractionEnd, ExponentEnd, NumberError;
    var q := i + Sign(v, i);
    if q >= |v| {
      SignAlone(v, i);
    } else if FractionEnd(v, RunEnd(v, q)).None? {
      PointCompletes(v, i);
    } else {
      var n := MarkFound(v, i);
      if n.x == n.f + 2 && At(v, n.f + 1) == 43 {
        PlusCompletes(v, i, n);
      } else {
        MarkCompletes(v, i, n);
      }
    }
    hide FillNumber, MarkedAt;
  }

  /** A number that is none yet is taken for cut exactly if what there is of it begins a number. */
  lemma NumberCutExactly(v: seq<byte>, i: nat)
    requires i < |v| && NumberEnd(v, i).None?
    ensures NumberError(v, i) >= |v| <==> exists n :: ValidNumber(n) && CutOf(v[i..], NumText(n))
  {
    hide NumberEnd, NumberError, ValidNumber, NumText, Refused;
    if NumberError(v, i) >= |v| {
      var w := v + FillNumber(v, i);
      NumberFilled(v, i);
      var n := NumberFound(w, i);
      BeginsThere(v, w, i, NumText(n));
    }
    forall n | ValidNumber(n) && CutOf(v[i..], NumText(n))
      ensures NumberError(v, i) >= |v|
    {
      var s := v[..i] + NumText(n);
      ContinuesThere(v, s, i, NumText(n));
      EndOfNumber(s);
      NumberPlaced(s, i, n);
      TextCutShort(v, s, i);
    }
  }

  lemma BeginsThere(v: seq<byte>, w: seq<byte>, i: nat, t: seq<byte>)
    requires CutOf(v, w) && i < |v| && Holds(w, i, t) && i + |t| == |w|
    ensures CutOf(v[i..], t)
  {
    assert v[i..] == w[i..][..|v| - i];
  }

  lemma ContinuesThere(v: seq<byte>, s: seq<byte>, i: nat, t: seq<byte>)
    requires i < |v| && CutOf(v[i..], t) && s == v[..i] + t
    ensures CutOf(v, s) && Holds(s, i, t) && i + |t| == |s|
  {
    assert v == v[..i] + v[i..];
  }

  /** Something makes it a number, though the reader may refuse that. */
  lemma NumberFilled(v: seq<byte>, i: nat)
    requires i < |v| && NumberEnd(v, i).None? && NumberError(v, i) >= |v|
    ensures var w := v + FillNumber(v, i); NumberEnd(w, i) == Some(|w|)
  {
    if PlusStuck(v, i) {
      var n := PlusFound(v, i);
      PlusCompletes(v, i, n);
    } else {
      NumberFills(v, i);
    }
    hide NumberEnd, NumberError, PlusStuck, FillNumber;
  }

  /** A larger exponent makes it no smaller. */
  lemma {:induction false} BeyondGrows(d: nat, k: int, j: nat)
    requires BeyondDoubles(d, k)
    ensures BeyondDoubles(d, k + j)
    decreases j
  {
    if j > 0 {
      BeyondOnce(d, k);
      hide BeyondDoubles;
      BeyondGrows(d, k + 1, j - 1);
    }
  }

  lemma BeyondOnce(d: nat, k: int)
    requires BeyondDoubles(d, k)
    ensures BeyondDoubles(d, k + 1)
  {
    if k >= 0 {
      BigInt.PowNext(10, k);
      TenfoldMore(d, BigInt.Pow(10, k));
    } else {
      BigInt.PowNext(10, -k - 1);
      TenfoldMore(LIMIT, BigInt.Pow(10, -k - 1));
      assert BigInt.Pow(10, 0) == 1;
    }
    hide BigInt.Pow;
  }

  lemma TenfoldMore(a: nat, b: nat)
    ensures a * (10 * b) >= a * b
  {
    assert a * (10 * b) == 10 * (a * b);
  }

  lemma RefusedIs(s: seq<byte>, i: nat)
    requires NumberEnd(s, i).Some?
    ensures Whole(s, PartsOf(s, i))
    ensures Refused(s, i) <==> TooLarge(s, PartsOf(s, i)) || AtTheEdge(s, PartsOf(s, i))
  {
    PartsWhole(s, i);
    hide NumberEnd, TooLarge, AtTheEdge, Whole, PartsOf;
  }

  /** The number without its exponent. */
  function Mantissa(n: Parts): Parts {
    n.(x := n.f)
  }

  lemma MantissaWhole(s: seq<byte>, n: Parts)
    requires Whole(s, n)
    ensures Whole(s, Mantissa(n)) && Literal(s, Mantissa(n)) == 0 && LiteralLength(s, Mantissa(n)) == 0
    ensures PointDropped(s, Mantissa(n)) == PointDropped(s, n)
    ensures DecimalExponent(s, n) == DecimalExponent(s, Mantissa(n)) + Literal(s, n)
  {
    hide Literal, FirstDigit, AllZeros;
    assert Literal(s, Mantissa(n)) == 0 by {
      LiteralNone(s, Mantissa(n));
    }
  }

  lemma LiteralNone(s: seq<byte>, n: Parts)
    requires Whole(s, n) && n.f == n.x
    ensures Literal(s, n) == 0
  {
  }

  lemma TooLargeGrows(s: seq<byte>, n: Parts)
    requires Whole(s, n) && n.f < n.x && At(s, n.f + 1) == 43 && Whole(s, Mantissa(n)) && TooLarge(s, Mantissa(n))
    ensures TooLarge(s, n)
  {
    MantissaWhole(s, n);
    var p := FirstDigit(s, n.q, n.f);
    PlusIsPositive(s, n);
    TooLargeIs(s, n);
    TooLargeIs(s, Mantissa(n));
    hide TooLarge, Whole, Literal, LiteralLength, DecimalExponent, FirstDigit, PointDropped, DecimalBuf.Digits;
    var d, k := DecimalBuf.Decimal(s, p, n.f, n.e), ScaleAt(n.f, n.e);
    if BeyondDoubles(d, k) {
      BeyondGrows(d, k, Literal(s, n));
    }
    hide BeyondDoubles, ScaleAt, DecimalBuf.Decimal;
  }

  lemma PlusIsPositive(s: seq<byte>, n: Parts)
    requires Whole(s, n) && n.f < n.x && At(s, n.f + 1) == 43
    ensures Literal(s, n) >= 0
  {
  }

  /** With a point so far out, only a negative exponent comes near the largest double. */
  lemma EdgeNeedsMinus(s: seq<byte>, n: Parts)
    requires Whole(s, n) && Literal(s, n) >= 0
    ensures !AtTheEdge(s, n)
  {
    if PointDropped(s, n) {
      var p := FirstDigit(s, n.q, n.f);
      FirstDigitFound(s, n);
      CutCount(p, n.e);
    }
    hide FirstDigit, Whole, Literal, AllZeros, RoundedWord, LiteralLength;
  }

  /** Once too large, a number with a plus in its exponent stays so. */
  lemma PlusHopeless(v: seq<byte>, s: seq<byte>, i: nat)
    requires CutOf(v, s) && i < |v| && PlusStuck(v, i)
    ensures NumberAt(s, i).None?
  {
    var n := PlusFound(v, i);
    PlusGoesOn(v, s, i, n);
    MarkIsFp(s, n.e, n.f);
    if NumberEnd(s, i).Some? {
      PlusTooLarge(v, s, i, n);
    }
    hide NumberEnd, Refused, RunEnd, TextOf, MarkedAt, PlusStuck, FractionEnd;
  }

  lemma PlusFound(v: seq<byte>, i: nat) returns (n: Parts)
    requires i < |v| && PlusStuck(v, i)
    ensures MarkedAt(v, i, n) && n.x == n.f + 2 && At(v, n.f + 1) == 43
  {
    hide RunEnd, NumberEnd, Refused, ExponentEnd;
    var q := i + Sign(v, i);
    if FractionEnd(v, RunEnd(v, q)).None? {
      PointFound(v, i);
    }
    n := MarkFound(v, i);
  }

  lemma PlusGoesOn(v: seq<byte>, s: seq<byte>, i: nat, n: Parts)
    requires CutOf(v, s) && MarkedAt(v, i, n) && n.x == n.f + 2 && At(v, n.f + 1) == 43
    ensures n.q == i + Sign(s, i) && RunEnd(s, n.q) == n.e && FractionEnd(s, n.e) == Some(n.f)
    ensures (At(s, n.f) == 69 || At(s, n.f) == 101) && At(s, n.f + 1) == 43
    ensures NumberEnd(s, i).Some? ==> PartsOf(s, i) == n.(x := NumberEnd(s, i).value) && n.f < NumberEnd(s, i).value
  {
    MarkKept(v, s, i, n);
    AtCut(v, s, n.f + 1);
    hide RunEnd, FractionEnd;
  }

  lemma MarkIsFp(s: seq<byte>, e: nat, f: nat)
    requires FractionEnd(s, e) == Some(f) && (At(s, f) == 69 || At(s, f) == 101)
    ensures IsFp(At(s, e))
  {
    hide RunEnd;
  }

  lemma PlusTooLarge(v: seq<byte>, s: seq<byte>, i: nat, n: Parts)
    requires CutOf(v, s) && PlusStuck(v, i) && MarkedAt(v, i, n) && n.x == n.f + 2 && At(v, n.f + 1) == 43
    requires NumberEnd(s, i).Some?
    ensures Refused(s, i)
  {
    hide NumberEnd, Refused, RunEnd, MarkedAt, FractionEnd, PartsOf, TooLarge, AtTheEdge, Whole, Literal, LiteralLength;
    hide DecimalExponent, FirstDigit, PointDropped;
    var w := v + [ZERO];
    PlusGoesOn(v, s, i, n);
    PlusGoesOn(v, w, i, n);
    assert At(w, n.f + 2) == ZERO && |w| == n.f + 3 by {
      MarkEnds(v, i, n);
    }
    PlusCompletes(v, i, n);
    var m := PartsOf(s, i);
    RefusedIs(s, i);
    RefusedIs(w, i);
    ZeroExponent(w, n.(x := |w|));
    MantissaWhole(s, m);
    MantissaSame(v, w, i, n);
    MantissaSame(v, s, i, n);
    TooLargeGrows(s, m);
  }

  lemma MarkEnds(v: seq<byte>, i: nat, n: Parts)
    requires MarkedAt(v, i, n)
    ensures n.x == |v|
  {
  }

  /** Whether the digits alone are too large is seen before the cut. */
  lemma MantissaSame(v: seq<byte>, s: seq<byte>, i: nat, n: Parts)
    requires CutOf(v, s) && MarkedAt(v, i, n)
    ensures Whole(v, Mantissa(n)) && Whole(s, Mantissa(n)) && TooLarge(s, Mantissa(n)) == TooLarge(v, Mantissa(n))
  {
    MantissaThere(v, i, n);
    hide MarkedAt, TooLarge, Whole;
    assert Holds(s, 0, v) && Moved(Mantissa(n), 0) == Mantissa(n);
    TooLargeHeld(v, s, 0, Mantissa(n));
  }

  lemma MantissaThere(v: seq<byte>, i: nat, n: Parts)
    requires MarkedAt(v, i, n)
    ensures Whole(v, Mantissa(n))
  {
    assert forall j | n.q <= j < n.e :: IsDigit(At(v, j));
    if n.e < n.f {
      assert forall j | n.e + 1 <= j < n.f :: IsDigit(At(v, j));
    }
    assert forall j | n.q <= j < n.f && j != n.e :: v[j] == At(v, j);
    hide RunEnd;
  }

  lemma ZeroExponent(w: seq<byte>, n: Parts)
    requires Whole(w, n) && n.x == |w| == n.f + 3 && At(w, n.f + 1) == 43 && At(w, n.f + 2) == ZERO
    ensures Literal(w, n) == 0 && LiteralLength(w, n) == 0
    ensures Whole(w, Mantissa(n)) && TooLarge(w, n) == TooLarge(w, Mantissa(n)) && !AtTheEdge(w, n)
  {
    MantissaWhole(w, n);
    assert SkipZeros(w, n.f + 3, n.x) == n.x;
    assert SkipZeros(w, n.f + 2, n.x) == n.x;
    hide SkipZeros;
    assert IntegerReader.Spelled(w, n.x, n.x) == 0;
    hide Whole;
    assert Literal(w, n) == 0;
    EdgeNeedsMinus(w, n);
    hide Literal, LiteralLength, DecimalExponent, FirstDigit, PointDropped, AtTheEdge, DecimalBuf.Decimal, BeyondDoubles;
    TooLargeIs(w, n);
    TooLargeIs(w, Mantissa(n));
  }

  // ---------------------------------------------------------------------------------------
  // Values of one slot
  // ---------------------------------------------------------------------------------------

  /** A value of one slot that the text breaks off in, or a number that may go on. */
  ghost predicate CutScalar(v: seq<byte>, i: nat) {
    i < |v| && if ScalarAt(v, i).Some? then StartsNumber(At(v, i)) && ScalarAt(v, i).value.1 >= |v| else ScalarTruncated(v, i)
  }

  /** The two ways in which it can be past help. */
  predicate Stuck(v: seq<byte>, i: nat) {
    && i < |v|
    && if v[i] == QUOTE then
         StringAt(v, i + 1).Fail? && StringTruncated(v, StringAt(v, i + 1).pos) && LoneLow(v, StringAt(v, i + 1).pos)
       else StartsNumber(v[i]) && PlusStuck(v, i)
  }

  lemma StuckIsCut(v: seq<byte>, i: nat)
    requires Stuck(v, i)
    ensures ScalarTruncated(v, i) && ScalarAt(v, i).None? && CutScalar(v, i)
  {
    assert CutOf(v, v);
    ScalarHopeless(v, v, i);
    hide StringAt, NumberError, LoneLow, StringTruncated, Refused, NumberEnd, ScalarAt, TruncatedLiteral;
  }

  lemma ScalarHopeless(v: seq<byte>, s: seq<byte>, i: nat)
    requires CutOf(v, s) && Stuck(v, i)
    ensures ScalarAt(s, i).None? && KeyAt(s, i).None?
  {
    AtCut(v, s, i);
    if v[i] == QUOTE {
      StringHopeless(v, s, i + 1);
    } else {
      PlusHopeless(v, s, i);
    }
    hide StringAt, NumberAt, PlusStuck, LoneLow, StringTruncated;
  }

  function FillScalar(v: seq<byte>, i: nat): seq<byte>
    requires i < |v|
  {
    if v[i] == QUOTE then if StringAt(v, i + 1).Fail? then FillString(v, StringAt(v, i + 1).pos) else []
    else if StartsNumber(v[i]) then if NumberEnd(v, i).Some? then [] else FillNumber(v, i)
    else FillWord(if v[i] == TRUE[0] then TRUE else if v[i] == FALSE[0] then FALSE else NULL, |v| - i)
  }

  function FillWord(word: seq<byte>, n: nat): seq<byte> {
    if n <= |word| then word[n..] else []
  }

  lemma WordCompletes(v: seq<byte>, s: seq<byte>, i: nat, word: seq<byte>)
    requires TruncatedWord(v, i, word) && CutOf(v + FillWord(word, |v| - i), s)
    ensures Holds(s, i, word) && i + |word| == |v + FillWord(word, |v| - i)|
  {
    var w := v + FillWord(word, |v| - i);
    assert w[i..i + |word|] == v[i..] + word[|v| - i..] == word;
    assert s[i..i + |word|] == w[i..i + |word|];
  }

  lemma FirstOfWord(v: seq<byte>, i: nat, word: seq<byte>)
    requires TruncatedWord(v, i, word)
    ensures v[i] == word[0]
  {
    assert v[i..][0] == word[..|v| - i][0];
  }

  lemma LiteralCompletes(v: seq<byte>, s: seq<byte>, i: nat)
    requires i < |v| && TruncatedLiteral(v, i) && CutOf(v + FillScalar(v, i), s)
    ensures ScalarAt(s, i).Some? && ScalarAt(s, i).value.1 == |v + FillScalar(v, i)|
  {
    CutFront(v, FillScalar(v, i), s);
    AtCut(v, s, i);
    var word := if TruncatedWord(v, i, TRUE) then TRUE else if TruncatedWord(v, i, FALSE) then FALSE else NULL;
    FirstOfWord(v, i, word);
    hide TruncatedWord;
    assert FillScalar(v, i) == FillWord(word, |v| - i);
    WordCompletes(v, s, i, word);
    hide Holds, NumberAt, KeyAt, FillWord, FillString, StringAt, FillScalar;
  }

  lemma NumberCompletes(v: seq<byte>, s: seq<byte>, i: nat)
    requires CutScalar(v, i) && StartsNumber(v[i]) && !Stuck(v, i)
    requires CutOf(v + FillScalar(v, i), s) && EndsNumber(At(s, |v + FillScalar(v, i)|))
    ensures ScalarAt(s, i).Some? && ScalarAt(s, i).value.1 == |v + FillScalar(v, i)|
  {
    var w := v + FillScalar(v, i);
    CutFront(v, FillScalar(v, i), s);
    AtCut(v, s, i);
    if NumberAt(v, i).Some? {
      NumberEndOf(v, i);
      assert w == v;
    } else {
      NumberNone(v, i);
      NumberFills(v, i);
    }
    hide NumberAt, KeyAt, FillNumber, StringAt, NumberError, NumberEnd, Refused, EndsNumber, PlusStuck;
    NumberStays(w, s, i);
  }

  lemma QuotedCompletes(v: seq<byte>, s: seq<byte>, i: nat)
    requires i < |v| && v[i] == QUOTE && KeyAt(v, i).None? && ScalarTruncated(v, i) && !Stuck(v, i)
    requires CutOf(v + FillScalar(v, i), s)
    ensures KeyAt(s, i).Some? && KeyAt(s, i).value.1 == |v + FillScalar(v, i)|
  {
    CutFront(v, FillScalar(v, i), s);
    AtCut(v, s, i);
    StringCompletes(v, s, i + 1);
    hide StringAt, LoneLow, StringTruncated, FillString, TruncatedLiteral, NumberError;
  }

  /** With this text behind it the value is whole, if what follows then does not go on with a number. */
  lemma ScalarCompletes(v: seq<byte>, s: seq<byte>, i: nat)
    requires CutScalar(v, i) && !Stuck(v, i)
    requires CutOf(v + FillScalar(v, i), s) && EndsNumber(At(s, |v + FillScalar(v, i)|))
    ensures ScalarAt(s, i).Some? && ScalarAt(s, i).value.1 == |v + FillScalar(v, i)|
  {
    CutFront(v, FillScalar(v, i), s);
    AtCut(v, s, i);
    if StartsNumber(v[i]) {
      NumberCompletes(v, s, i);
    } else if v[i] == QUOTE {
      QuotedCompletes(v, s, i);
    } else {
      LiteralCompletes(v, s, i);
    }
    hide NumberAt, KeyAt, FillScalar, StringAt, NumberError, TruncatedLiteral, StringTruncated, EndsNumber, Stuck;
  }
}
