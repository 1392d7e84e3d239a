/** Writing a JSON string into a buffer. */
module StringWriter {
  import opened Bytes
  import opened Utf8
  import opened Integers
  import opened JsonString

  /** The encode tables, as their numbers: twice the length of a character, and one more if it is escaped. */
  function EncType(t: Table, b: byte): nat {
    if b == 8 || b == 9 || b == 10 || b == 12 || b == 13 || b == QUOTE || b == BACKSLASH then 2
    else if b < 32 then 3
    else if b == SLASH && t.slash then 2
    else if b < 0x80 then 0
    else if b < 0xC0 then 1
    else if b < 0xE0 then (if t.unicode then 5 else 4)
    else if b < 0xF0 then (if t.unicode then 7 else 6)
    else if b < 0xF8 then (if t.unicode then 9 else 8)
    else 1
  }

  /** The first `k` of the bytes written count; the rest will be written over. */
  lemma PatchWrites(was: seq<byte>, at: nat, w: seq<byte>, k: nat, limit: nat)
    requires at + |w| <= limit <= |was| && k <= |w|
    ensures Wrote(was, Patched(was, at, w), at, w[..k], limit)
  {
  }

  /** The payload bits of a character, as CHAR_ENC_ESC_2 to CHAR_ENC_ESC_4 put them together. */
  function Payload(c: seq<byte>): nat
    requires 2 <= |c| <= 4
  {
    var c0: int, c1: int := c[0], c[1];
    var c2: int, c3: int := At(c, 2), At(c, 3);
    if |c| == 2 then c0 % 32 * 64 + c1 % 64
    else if |c| == 3 then c0 % 16 * 4096 + c1 % 64 * 64 + c2 % 64
    else c0 % 8 * 262144 + c1 % 64 * 4096 + c2 % 64 * 64 + c3 % 64
  }

  lemma PayloadIsCodePoint(c: seq<byte>)
    requires 2 <= |c| == CharLength(c, 0)
    ensures Payload(c) == CodePoint(c) && (if |c| < 4 then Payload(c) < 0x10000 else 0x10000 <= Payload(c) < 0x110000)
  {
    EncodedCodePoint(c);
    if |c| == 4 {
      MasksAreTheStandard(c[0], c[1], c[2], c[3]);
      FourRange(c[0], c[1], c[2], c[3]);
    }
  }

  /** What the table says of a lead byte, against the character it leads. */
  lemma TypeOfCharacter(t: Table, s: seq<byte>, i: nat)
    requires i < |s|
    ensures var n, e := CharLength(s, i), EncType(t, s[i]);
            && (e == 1 ==> n == 0)
            && (n > 0 ==> (if e == 0 then n == 1 else n == e / 2))
            && (e == 0 || e == 2 || e == 3 ==> n == 1)
            && (n == 0 ==> e == 1 || e >= 4)
            && (ClassOf(t, s[i]).Copy? <==> e == 0 || e == 4 || e == 6 || e == 8)
            && (ClassOf(t, s[i]).EscapeShort? <==> e == 2)
            && (ClassOf(t, s[i]).EscapeUnicode? <==> e == 3 || e == 5 || e == 7 || e == 9)
  {
  }

  /** The bytes an escape case writes, as the source computes them. */
  function EscapeBytes(t: Table, c: seq<byte>): (w: seq<byte>)
    requires 1 <= |c| == CharLength(c, 0) && ClassOf(t, c[0]).EscapeUnicode?
    ensures |w| == if |c| < 4 then 6 else 12
  {
    if |c| == 1 then [BACKSLASH, LETTER_U, 48, 48] + HexPair(c[0])
    else
      PayloadIsCodePoint(c);
      if |c| < 4 then
        var u := Payload(c);
        [BACKSLASH, LETTER_U] + HexPair(u / 256) + HexPair(u % 256)
      else
        var u := Payload(c) - 0x10000;
        var hi, lo := u / 1024 + 0xD800, u % 1024 + 0xDC00;
        [BACKSLASH, LETTER_U] + HexPair(hi / 256) + HexPair(hi % 256)
        + ([BACKSLASH, LETTER_U] + HexPair(lo / 256) + HexPair(lo % 256))
  }

  lemma EscapeBytesRight(t: Table, c: seq<byte>)
    requires 1 <= |c| == CharLength(c, 0) && ClassOf(t, c[0]).EscapeUnicode?
    ensures EscapeBytes(t, c) == EscapedChar(t, c)
  {
    if |c| > 1 {
      PayloadIsCodePoint(c);
    } else {
      assert HexPair(0) == [48, 48];
    }
  }

  /** The first `k` bytes written are those of the character. */
  lemma CharacterBytes(t: Table, c: seq<byte>, w: seq<byte>, k: nat)
    requires 1 <= |c| == CharLength(c, 0) && k <= |w| <= 12
    requires match ClassOf(t, c[0])
             case EscapeShort => w == [BACKSLASH, EscapeLetter(c[0])] && k == 2
             case EscapeUnicode => w == EscapedChar(t, c) && k == |w|
             case Copy | Invalid => |w| <= |c| + 1 && k == |c| && w[..k] == c
    ensures w[..k] == EscapedChar(t, c) && |w| <= 6 * |c|
  {
  }

  /** One character of the switch: how many bytes it took, none on an error, and how many it wrote. */
  method EncodeChar(buf: array<byte>, cur: nat, str: seq<byte>, i: nat, t: Table) returns (n: nat, k: nat)
    requires i < |str| && cur + 6 * (|str| - i) <= buf.Length
    modifies buf
    ensures n == CharLength(str, i)
    ensures n > 0 ==>
              && CharLength(str[i..i + n], 0) == n && k == |EscapedChar(t, str[i..i + n])|
              && Wrote(old(buf[..]), buf[..], cur, EscapedChar(t, str[i..i + n]), cur + 6 * n)
    ensures n == 0 ==> buf[..] == old(buf[..])
  {
    hide Patched, Wrote, EscapedChar, CharLength, EscapeBytes, Encoded, CodePoint;
    var e := EncType(t, str[i]);
    TypeOfCharacter(t, str, i);
    n := CharLength(str, i);
    if n == 0 {
      k := 0;
      return;
    }
    CharCut(str, i);
    ghost var was := buf[..];
    var c := str[i..i + n];
    var w := c;
    k := n;
    if e == 2 {
      w := [BACKSLASH, EscapeLetter(c[0])];
      k := 2;
    } else if e == 3 || e == 5 || e == 7 || e == 9 {
      EscapeBytesRight(t, c);
      w := EscapeBytes(t, c);
      k := |w|;
    } else if e == 6 {
      w := if i + 4 <= |str| then str[i..i + 4] else c + [0];
      assert w[..3] == c;
    }
    assert c[0] == str[i] && (ClassOf(t, c[0]).Copy? ==> w[..n] == c);
    Put(buf, cur, w);
    CharacterBytes(t, c, w, k);
    PatchWrites(was, cur, w, k, cur + 6 * n);
  }

  /** The text up to `i` is written as `done`. */
  ghost predicate Partly(t: Table, str: seq<byte>, i: nat, done: seq<byte>) {
    && i <= |str| && |done| <= 6 * i
    && Escaped(t, str, 0).Some? == Escaped(t, str, i).Some?
    && (Escaped(t, str, i).Some? ==> Escaped(t, str, 0).value == done + Escaped(t, str, i).value)
  }

  lemma PartlyBegins(t: Table, str: seq<byte>)
    ensures Partly(t, str, 0, [])
  {
  }

  lemma PartlyStep(t: Table, str: seq<byte>, i: nat, done: seq<byte>)
    requires i < |str| && Partly(t, str, i, done) && CharLength(str, i) > 0
    ensures var n := CharLength(str, i);
            CharLength(str[i..i + n], 0) == n && Partly(t, str, i + n, done + EscapedChar(t, str[i..i + n]))
  {
    hide CharLength, EscapedChar, Escaped;
    EscapedOnward(t, str, i);
    var n := CharLength(str, i);
    var e := EscapedChar(t, str[i..i + n]);
    if Escaped(t, str, i).Some? {
      assert done + (e + Escaped(t, str, i + n).value) == done + e + Escaped(t, str, i + n).value;
    }
  }

  lemma EscapedOnward(t: Table, str: seq<byte>, i: nat)
    requires i < |str| && CharLength(str, i) > 0
    ensures var n := CharLength(str, i);
            && CharLength(str[i..i + n], 0) == n && Escaped(t, str, i).Some? == Escaped(t, str, i + n).Some?
            && (Escaped(t, str, i).Some? ==>
                 Escaped(t, str, i).value == EscapedChar(t, str[i..i + n]) + Escaped(t, str, i + n).value)
  {
    CharCut(str, i);
    hide CharLength, EscapedChar;
  }

  lemma PartlyStops(t: Table, str: seq<byte>, i: nat, done: seq<byte>)
    requires i < |str| && Partly(t, str, i, done) && CharLength(str, i) == 0
    ensures Escaped(t, str, 0).None?
  {
  }

  lemma PartlyEnds(t: Table, str: seq<byte>, done: seq<byte>)
    requires Partly(t, str, |str|, done)
    ensures Escaped(t, str, 0) == Some(done)
  {
    assert done + [] == done;
  }

  /** In the buffer: the opening quote and what is done so far. */
  ghost predicate Written(was: seq<byte>, now: seq<byte>, pos: nat, cur: nat, i: nat, done: seq<byte>) {
    cur == pos + 1 + |done| && Wrote(was, now, pos, [QUOTE] + done, pos + 1 + 6 * i)
  }

  lemma WrittenStep(was: seq<byte>, now: seq<byte>, next: seq<byte>, pos: nat, cur: nat, i: nat, done: seq<byte>,
                    e: seq<byte>, n: nat)
    requires Written(was, now, pos, cur, i, done) && |done| <= 6 * i
    requires |e| <= 6 * n && Wrote(now, next, cur, e, cur + 6 * n) && pos + 1 + 6 * (i + n) <= |was|
    ensures Written(was, next, pos, cur + |e|, i + n, done + e)
  {
    var quoted := [QUOTE] + done;
    assert cur == pos + |quoted|;
    WroteWider(now, next, cur, e, cur + 6 * n, pos + 1 + 6 * (i + n));
    WroteThen(was, now, next, pos, quoted, e, pos + 1 + 6 * i, pos + 1 + 6 * (i + n));
    assert quoted + e == [QUOTE] + (done + e);
  }

  lemma OneByte(was: seq<byte>, at: nat, b: byte, limit: nat)
    requires at < limit <= |was|
    ensures Wrote(was, was[at := b], at, [b], limit)
  {
  }

  lemma CopiedCharacter(t: Table, str: seq<byte>, i: nat)
    requires i < |str| && EncType(t, str[i]) == 0
    ensures CharLength(str, i) == 1 && CharLength(str[i..i + 1], 0) == 1 && EscapedChar(t, str[i..i + 1]) == [str[i]]
  {
    TypeOfCharacter(t, str, i);
    CharCut(str, i);
  }

  /** The copy_ascii loop: bytes that are neither escaped nor part of a longer character. */
  method CopyAscii(buf: array<byte>, pos: nat, start: nat, str: seq<byte>, from: nat, t: Table,
                   ghost was: seq<byte>, ghost before: seq<byte>)
    returns (cur: nat, i: nat, ghost done: seq<byte>)
    requires from <= |str| && pos + 6 * |str| + 2 <= buf.Length == |was|
    requires Written(was, buf[..], pos, start, from, before) && Partly(t, str, from, before)
    modifies buf
    ensures from <= i <= |str| && (i < |str| ==> EncType(t, str[i]) != 0)
    ensures Written(was, buf[..], pos, cur, i, done) && Partly(t, str, i, done)
  {
    hide Partly, Written, EncType, EscapedChar, CharLength;
    cur, i, done := start, from, before;
    while i < |str| && EncType(t, str[i]) == 0
      invariant from <= i <= |str|
      invariant Written(was, buf[..], pos, cur, i, done) && Partly(t, str, i, done)
    {
      ghost var now := buf[..];
      CopiedCharacter(t, str, i);
      PartlyStep(t, str, i, done);
      PartlyShort(t, str, i, done);
      WrittenAt(was, now, pos, cur, i, done);
      buf[cur] := str[i];
      assert buf[..] == now[cur := str[i]];
      OneByte(now, cur, str[i], cur + 6);
      WrittenStep(was, now, buf[..], pos, cur, i, done, [str[i]], 1);
      done := done + [str[i]];
      cur, i := cur + 1, i + 1;
    }
  }

  lemma PartlyShort(t: Table, str: seq<byte>, i: nat, done: seq<byte>)
    requires Partly(t, str, i, done)
    ensures |done| <= 6 * i && i <= |str|
  {
  }

  lemma WrittenAt(was: seq<byte>, now: seq<byte>, pos: nat, cur: nat, i: nat, done: seq<byte>)
    requires Written(was, now, pos, cur, i, done) && |done| <= 6 * i
    ensures cur <= pos + 1 + 6 * i && |now| == |was|
  {
  }

  /** write_str: the escaped text between quotes in at most six bytes a byte and two, or nothing if it is ill-formed. */
  method WriteStr(buf: array<byte>, pos: nat, str: seq<byte>, t: Table) returns (end: Option<nat>)
    requires pos + 6 * |str| + 2 <= buf.Length
    modifies buf
    ensures end.Some? <==> WellFormed(str)
    ensures end.Some? ==>
              && Escaped(t, str, 0).Some? && end.value == pos + |Escaped(t, str, 0).value| + 2
              && Wrote(old(buf[..]), buf[..], pos, [QUOTE] + Escaped(t, str, 0).value + [QUOTE], pos + 6 * |str| + 2)
  {
    hide Partly, Written, Escaped, EscapedChar, CharLength, EncType, WellFormed, Wrote;
    ghost var was := buf[..];
    EscapedIffWellFormed(t, str, 0);
    assert str[0..] == str;
    PartlyBegins(t, str);
    buf[pos] := QUOTE;
    assert buf[..] == was[pos := QUOTE];
    WrittenBegins(was, pos);
    var cur: nat, i: nat := pos + 1, 0;
    ghost var done: seq<byte> := [];
    while i < |str|
      invariant i <= |str| && Written(was, buf[..], pos, cur, i, done) && Partly(t, str, i, done)
    {
      cur, i, done := CopyAscii(buf, pos, cur, str, i, t, was, done);
      if i < |str| {
        ghost var now := buf[..];
        PartlyShort(t, str, i, done);
        WrittenAt(was, now, pos, cur, i, done);
        var n, k := EncodeChar(buf, cur, str, i, t);
        if n == 0 {
          PartlyStops(t, str, i, done);
          return None;
        }
        ghost var e := EscapedChar(t, str[i..i + n]);
        PartlyStep(t, str, i, done);
        WrittenStep(was, now, buf[..], pos, cur, i, done, e, n);
        done := done + e;
        cur, i := cur + k, i + n;
      }
    }
    PartlyEnds(t, str, done);
    PartlyShort(t, str, i, done);
    ghost var now := buf[..];
    WrittenAt(was, now, pos, cur, i, done);
    buf[cur] := QUOTE;
    assert buf[..] == now[cur := QUOTE];
    WrittenCloses(was, now, pos, cur, i, done);
    return Some(cur + 1);
  }

  lemma WrittenBegins(was: seq<byte>, pos: nat)
    requires pos < |was|
    ensures Written(was, was[pos := QUOTE], pos, pos + 1, 0, [])
  {
    OneByte(was, pos, QUOTE, pos + 1);
    assert [QUOTE] + [] == [QUOTE];
  }

  lemma WrittenCloses(was: seq<byte>, now: seq<byte>, pos: nat, cur: nat, n: nat, done: seq<byte>)
    requires Written(was, now, pos, cur, n, done) && |done| <= 6 * n && pos + 6 * n + 2 <= |was|
    ensures cur == pos + 1 + |done| < |now|
    ensures Wrote(was, now[cur := QUOTE], pos, [QUOTE] + done + [QUOTE], pos + 6 * n + 2)
  {
    OneByte(now, cur, QUOTE, pos + 6 * n + 2);
    WroteThen(was, now, now[cur := QUOTE], pos, [QUOTE] + done, [QUOTE], pos + 1 + 6 * n, pos + 6 * n + 2);
  }
}
