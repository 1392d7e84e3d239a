/** UTF-8 sequences: the mask tests of the JSON engine, and section 4 of RFC 3629. */
module Utf8 {
  import opened Bytes

  // The mask tests, byte by byte.

  predicate IsSeq1(b0: byte) {
    b0 / 128 == 0
  }

  predicate IsSeq2(b0: byte, b1: byte) {
    b0 / 32 == 6 && b1 / 64 == 2 && b0 % 32 / 2 != 0
  }

  predicate IsSeq3(b0: byte, b1: byte, b2: byte) {
    && b0 / 16 == 14 && b1 / 64 == 2 && b2 / 64 == 2
    && (b0 % 16, b1 / 32 % 2) != (0, 0)
    && (b0 % 16, b1 / 32 % 2) != (13, 1)
  }

  predicate IsSeq4(b0: byte, b1: byte, b2: byte, b3: byte) {
    && b0 / 8 == 30 && b1 / 64 == 2 && b2 / 64 == 2 && b3 / 64 == 2
    && (b0 % 8 != 0 || b1 / 16 % 4 != 0)
    && (b0 % 8 / 4 == 0 || (b0 % 4 == 0 && b1 / 16 % 4 == 0))
  }

  // RFC 3629.

  predicate Tail(b: byte) {
    0x80 <= b <= 0xBF
  }

  predicate Utf8Two(b0: byte, b1: byte) {
    0xC2 <= b0 <= 0xDF && Tail(b1)
  }

  predicate Utf8Three(b0: byte, b1: byte, b2: byte) {
    || (b0 == 0xE0 && 0xA0 <= b1 <= 0xBF && Tail(b2))
    || (0xE1 <= b0 <= 0xEC && Tail(b1) && Tail(b2))
    || (b0 == 0xED && 0x80 <= b1 <= 0x9F && Tail(b2))
    || (0xEE <= b0 <= 0xEF && Tail(b1) && Tail(b2))
  }

  predicate Utf8Four(b0: byte, b1: byte, b2: byte, b3: byte) {
    || (b0 == 0xF0 && 0x90 <= b1 <= 0xBF && Tail(b2) && Tail(b3))
    || (0xF1 <= b0 <= 0xF3 && Tail(b1) && Tail(b2) && Tail(b3))
    || (b0 == 0xF4 && 0x80 <= b1 <= 0x8F && Tail(b2) && Tail(b3))
  }

  /** The mask tests accept exactly the sequences of the standard. */
  lemma MasksAreTheStandard(b0: byte, b1: byte, b2: byte, b3: byte)
    ensures IsSeq1(b0) <==> b0 <= 0x7F
    ensures IsSeq2(b0, b1) <==> Utf8Two(b0, b1)
    ensures IsSeq3(b0, b1, b2) <==> Utf8Three(b0, b1, b2)
    ensures IsSeq4(b0, b1, b2, b3) <==> Utf8Four(b0, b1, b2, b3)
  {
  }

  /** The length of the character at `i`, or zero if none is well formed there. */
  function CharLength(s: seq<byte>, i: nat): (n: nat)
    ensures n <= 4 && (i < |s| ==> i + n <= |s|)
  {
    if IsSeq1(At(s, i)) then 1
    else if IsSeq2(At(s, i), At(s, i + 1)) then 2
    else if IsSeq3(At(s, i), At(s, i + 1), At(s, i + 2)) then 3
    else if IsSeq4(At(s, i), At(s, i + 1), At(s, i + 2), At(s, i + 3)) then 4
    else 0
  }

  /** A sequence of well-formed characters. */
  predicate WellFormed(s: seq<byte>) {
    s == [] || (CharLength(s, 0) > 0 && WellFormed(s[CharLength(s, 0)..]))
  }

  /** Six more bits. */
  function More(u: nat, b: byte): nat {
    64 * u + b % 64
  }

  /** The code point of a well-formed character. */
  function CodePoint(c: seq<byte>): nat
    requires 1 <= |c| <= 4
  {
    if |c| == 1 then c[0]
    else if |c| == 2 then More(c[0] % 32, c[1])
    else if |c| == 3 then More(More(c[0] % 16, c[1]), c[2])
    else More(More(More(c[0] % 8, c[1]), c[2]), c[3])
  }

  function TailByte(u: nat): byte {
    var b: byte := 0x80 + u % 64;
    b
  }

  /** The bytes of a code point. */
  function Encoded(u: nat): (c: seq<byte>)
    requires u < 0x110000
    ensures 1 <= |c| <= 4
  {
    var v := u / 64;
    var w := v / 64;
    if u < 0x80 then [u]
    else if u < 0x800 then [0xC0 + v, TailByte(u)]
    else if u < 0x10000 then [0xE0 + w, TailByte(v), TailByte(u)]
    else [0xF0 + w / 64, TailByte(w), TailByte(v), TailByte(u)]
  }

  predicate Surrogate(u: nat) {
    0xD800 <= u <= 0xDFFF
  }

  lemma MoreUndone(u: nat, b: byte)
    requires Tail(b)
    ensures More(u, b) / 64 == u && TailByte(More(u, b)) == b
  {
  }

  lemma MoreRedone(u: nat)
    ensures More(u / 64, TailByte(u)) == u && Tail(TailByte(u))
  {
  }

  /** Well-formed characters and code points that are not surrogates are in one-to-one correspondence. */
  lemma EncodedCodePoint(c: seq<byte>)
    requires 1 <= |c| == CharLength(c, 0)
    ensures CodePoint(c) < 0x110000 && !Surrogate(CodePoint(c)) && Encoded(CodePoint(c)) == c
  {
    MasksAreTheStandard(c[0], At(c, 1), At(c, 2), At(c, 3));
    hide IsSeq1, IsSeq2, IsSeq3, IsSeq4;
    if |c| == 2 {
      MoreUndone(c[0] % 32, c[1]);
    } else if |c| == 3 {
      EncodedThree(c[0], c[1], c[2]);
    } else if |c| == 4 {
      EncodedFour(c[0], c[1], c[2], c[3]);
    }
  }

  lemma EncodedThree(b0: byte, b1: byte, b2: byte)
    requires Utf8Three(b0, b1, b2)
    ensures var u := More(More(b0 % 16, b1), b2);
            0x800 <= u < 0x10000 && !Surrogate(u) && Encoded(u) == [b0, b1, b2]
  {
    MoreUndone(b0 % 16, b1);
    MoreUndone(More(b0 % 16, b1), b2);
  }

  lemma EncodedFour(b0: byte, b1: byte, b2: byte, b3: byte)
    requires Utf8Four(b0, b1, b2, b3)
    ensures var u := More(More(More(b0 % 8, b1), b2), b3);
            0x10000 <= u < 0x110000 && Encoded(u) == [b0, b1, b2, b3]
  {
    var w := More(b0 % 8, b1);
    var v := More(w, b2);
    MoreUndone(b0 % 8, b1);
    MoreUndone(w, b2);
    MoreUndone(v, b3);
    FourRange(b0, b1, b2, b3);
    hide More, TailByte;
  }

  lemma FourRange(b0: byte, b1: byte, b2: byte, b3: byte)
    requires Utf8Four(b0, b1, b2, b3)
    ensures 0x10000 <= More(More(More(b0 % 8, b1), b2), b3) < 0x110000 && 0xF0 + b0 % 8 == b0
  {
    assert 16 <= More(b0 % 8, b1) < 272;
  }

  lemma CodePointEncoded(u: nat)
    requires u < 0x110000 && !Surrogate(u)
    ensures CharLength(Encoded(u), 0) == |Encoded(u)| && CodePoint(Encoded(u)) == u
  {
    var c := Encoded(u);
    MoreRedone(u);
    MoreRedone(u / 64);
    MoreRedone(u / 64 / 64);
    if |c| > 1 {
      MasksAreTheStandard(c[0], c[1], At(c, 2), At(c, 3));
    }
  }

  lemma SameAt(s: seq<byte>, i: nat, c: seq<byte>, j: nat)
    requires Holds(s, i, c)
    ensures j < |c| ==> At(s, i + j) == At(c, j)
  {
    if j < |c| {
      assert s[i + j] == s[i..i + |c|][j];
    }
  }

  lemma CharLengthLocal(s: seq<byte>, i: nat, c: seq<byte>)
    requires Holds(s, i, c) && |c| == CharLength(c, 0)
    ensures CharLength(s, i) == |c|
  {
    hide IsSeq2, IsSeq3, IsSeq4;
    SameAt(s, i, c, 0);
    SameAt(s, i, c, 1);
    SameAt(s, i, c, 2);
    SameAt(s, i, c, 3);
  }

  lemma CharCut(s: seq<byte>, i: nat)
    requires i < |s|
    ensures var c := s[i..i + CharLength(s, i)]; c != [] ==> CharLength(c, 0) == |c|
  {
    hide IsSeq2, IsSeq3, IsSeq4;
    var c := s[i..i + CharLength(s, i)];
    SameAt(s, i, c, 0);
    SameAt(s, i, c, 1);
    SameAt(s, i, c, 2);
    SameAt(s, i, c, 3);
  }

  lemma WellFormedChar(c: seq<byte>, t: seq<byte>)
    requires 1 <= |c| == CharLength(c, 0) && WellFormed(t)
    ensures WellFormed(c + t)
  {
    CharLengthLocal(c + t, 0, c);
    assert (c + t)[|c|..] == t;
  }
}
