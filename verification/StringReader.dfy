/** Reading a JSON string in place: the text between the quotes is overwritten by what it stands for. */
module StringReader {
  import opened Bytes
  import opened Utf8
  import opened JsonString

  /** `done` has been read when the reader of `s` stands at `src`. */
  ghost predicate Read(s: seq<byte>, hdr: nat, src: nat, done: seq<byte>) {
    hdr <= src <= |s| && StringAt(s, hdr) == Prepend(done, StringAt(s, src))
  }

  lemma ReadBegins(s: seq<byte>, hdr: nat)
    requires hdr <= |s|
    ensures Read(s, hdr, hdr, [])
  {
    PrependNothing(StringAt(s, hdr));
  }

  lemma ReadStep(s: seq<byte>, hdr: nat, src: nat, done: seq<byte>)
    requires Read(s, hdr, src, done) && PieceAt(s, src).Chars?
    ensures Read(s, hdr, src + PieceAt(s, src).size, done + PieceAt(s, src).bytes)
  {
    hide PieceAt;
    PrependTwice(done, PieceAt(s, src).bytes, StringAt(s, src + PieceAt(s, src).size));
  }

  lemma ReadQuote(s: seq<byte>, hdr: nat, src: nat, done: seq<byte>)
    requires Read(s, hdr, src, done) && At(s, src) == QUOTE
    ensures src < |s| && StringAt(s, hdr) == Done(done, src + 1)
  {
    assert done + [] == done;
  }

  lemma ReadBad(s: seq<byte>, hdr: nat, src: nat, done: seq<byte>)
    requires Read(s, hdr, src, done) && PieceAt(s, src).Bad?
    ensures StringAt(s, hdr) == Fail(src)
  {
  }

  /** char_is_ascii_skip. */
  predicate AsciiSkip(b: byte) {
    32 <= b < 128 && b != QUOTE && b != BACKSLASH
  }

  lemma PlainPiece(s: seq<byte>, i: nat)
    ensures AsciiSkip(At(s, i)) ==> i < |s| && PieceAt(s, i) == Chars(s[i..i + 1], 1)
    ensures At(s, i) >= 128 && CharLength(s, i) > 0 ==>
              i < |s| && PieceAt(s, i) == Chars(s[i..i + CharLength(s, i)], CharLength(s, i))
    ensures At(s, i) >= 128 && CharLength(s, i) == 0 ==> PieceAt(s, i).Bad?
    ensures At(s, i) < 32 ==> PieceAt(s, i).Bad?
  {
  }

  /** The content up to `src` has no escapes, and stands for itself. */
  ghost predicate ReadAsIs(s: seq<byte>, hdr: nat, src: nat) {
    hdr <= src <= |s| && Read(s, hdr, src, s[hdr..src])
  }

  lemma AsIsBegins(s: seq<byte>, hdr: nat)
    requires hdr <= |s|
    ensures ReadAsIs(s, hdr, hdr)
  {
    ReadBegins(s, hdr);
    assert s[hdr..hdr] == [];
  }

  lemma AsIsStep(s: seq<byte>, hdr: nat, src: nat)
    requires ReadAsIs(s, hdr, src)
    requires AsciiSkip(At(s, src)) || (At(s, src) >= 128 && CharLength(s, src) > 0)
    ensures var n := if At(s, src) < 128 then 1 else CharLength(s, src);
            n > 0 && src + n <= |s| && ReadAsIs(s, hdr, src + n)
  {
    PlainPiece(s, src);
    hide PieceAt, CharLength, Read;
    ReadStep(s, hdr, src, s[hdr..src]);
    var n := PieceAt(s, src).size;
    assert s[hdr..src] + s[src..src + n] == s[hdr..src + n];
  }

  lemma SequenceLength(s: seq<byte>, i: nat)
    ensures IsSeq3(At(s, i), At(s, i + 1), At(s, i + 2)) ==> At(s, i) >= 128 && CharLength(s, i) == 3
    ensures IsSeq2(At(s, i), At(s, i + 1)) ==> At(s, i) >= 128 && CharLength(s, i) == 2
    ensures IsSeq4(At(s, i), At(s, i + 1), At(s, i + 2), At(s, i + 3)) ==> At(s, i) >= 128 && CharLength(s, i) == 4
    ensures At(s, i) >= 128 && CharLength(s, i) > 0 ==>
              || IsSeq2(At(s, i), At(s, i + 1)) || IsSeq3(At(s, i), At(s, i + 1), At(s, i + 2))
              || IsSeq4(At(s, i), At(s, i + 1), At(s, i + 2), At(s, i + 3))
    ensures IsSeq1(At(s, i)) <==> At(s, i) < 128
  {
  }

  /** The runs of longer characters: three bytes, then two, then four. */
  method SkipUtf8(s: seq<byte>, ghost hdr: nat, from: nat) returns (src: nat)
    requires from <= |s| && ReadAsIs(s, hdr, from) && At(s, from) >= 128
    ensures from <= src <= |s| && ReadAsIs(s, hdr, src)
    ensures src == from ==> CharLength(s, from) == 0
  {
    hide ReadAsIs, CharLength, IsSeq2, IsSeq3, IsSeq4;
    src := from;
    SequenceLength(s, from);
    while IsSeq3(At(s, src), At(s, src + 1), At(s, src + 2))
      invariant from <= src <= |s| && ReadAsIs(s, hdr, src)
      decreases |s| - src
    {
      SequenceLength(s, src);
      AsIsStep(s, hdr, src);
      src := src + 3;
    }
    if IsSeq1(At(s, src)) {
      return;
    }
    while IsSeq2(At(s, src), At(s, src + 1))
      invariant from <= src <= |s| && ReadAsIs(s, hdr, src)
      decreases |s| - src
    {
      SequenceLength(s, src);
      AsIsStep(s, hdr, src);
      src := src + 2;
    }
    while IsSeq4(At(s, src), At(s, src + 1), At(s, src + 2), At(s, src + 3))
      invariant from <= src <= |s| && ReadAsIs(s, hdr, src)
      decreases |s| - src
    {
      SequenceLength(s, src);
      AsIsStep(s, hdr, src);
      src := src + 4;
    }
  }

  /** The skip_ascii and skip_utf8 loops: content that needs no copying. */
  method SkipPlain(s: seq<byte>, hdr: nat) returns (src: nat)
    requires hdr <= |s|
    ensures hdr <= src <= |s| && ReadAsIs(s, hdr, src)
    ensures !AsciiSkip(At(s, src)) && (At(s, src) >= 128 ==> PieceAt(s, src).Bad?)
  {
    hide ReadAsIs, CharLength, PieceAt, AsciiSkip;
    src := hdr;
    AsIsBegins(s, hdr);
    while true
      invariant hdr <= src <= |s| && ReadAsIs(s, hdr, src)
      decreases |s| - src
    {
      while AsciiSkip(At(s, src))
        invariant hdr <= src <= |s| && ReadAsIs(s, hdr, src)
        decreases |s| - src
      {
        SkipsOne(s, src);
        AsIsStep(s, hdr, src);
        src := src + 1;
      }
      if At(s, src) < 128 {
        return;
      }
      PlainPiece(s, src);
      var pos := src;
      src := SkipUtf8(s, hdr, src);
      if pos == src {
        return;
      }
    }
  }

  lemma SkipsOne(s: seq<byte>, i: nat)
    requires AsciiSkip(At(s, i))
    ensures At(s, i) < 128 && i < |s|
  {
  }

  /** The reader of `s` stands at `src` with `done` in the buffer up to `dst`, and the rest still as it was. */
  ghost predicate InPlace(now: seq<byte>, s: seq<byte>, hdr: nat, dst: nat, src: nat, done: seq<byte>) {
    && |now| == |s| && hdr <= dst <= src <= |s|
    && now[..hdr] == s[..hdr] && now[hdr..dst] == done && now[src..] == s[src..]
    && Read(s, hdr, src, done)
  }

  lemma InPlaceBegins(s: seq<byte>, hdr: nat, src: nat)
    requires ReadAsIs(s, hdr, src)
    ensures InPlace(s, s, hdr, src, src, s[hdr..src])
  {
  }

  lemma InPlaceAt(now: seq<byte>, s: seq<byte>, hdr: nat, dst: nat, src: nat, done: seq<byte>, k: nat)
    requires InPlace(now, s, hdr, dst, src, done)
    ensures At(now, src + k) == At(s, src + k) && |now| == |s| && hdr <= dst <= src <= |s|
  {
    if src + k < |s| {
      assert now[src + k] == now[src..][k] == s[src..][k];
    }
  }

  lemma InPlaceStep(now: seq<byte>, s: seq<byte>, hdr: nat, dst: nat, src: nat, done: seq<byte>, w: seq<byte>)
    requires InPlace(now, s, hdr, dst, src, done) && PieceAt(s, src).Chars?
    requires var b, n := PieceAt(s, src).bytes, PieceAt(s, src).size;
             |b| <= |w| && w[..|b|] == b && dst + |w| <= src + n
    ensures var b, n := PieceAt(s, src).bytes, PieceAt(s, src).size;
            InPlace(Patched(now, dst, w), s, hdr, dst + |b|, src + n, done + b)
  {
    ReadStep(s, hdr, src, done);
    hide PieceAt, Read;
    var b, n := PieceAt(s, src).bytes, PieceAt(s, src).size;
    PatchedParts(now, hdr, dst, w, |b|, src + n);
    assert now[src..][n..] == s[src..][n..] == s[src + n..];
  }

  lemma PatchedParts(now: seq<byte>, hdr: nat, dst: nat, w: seq<byte>, k: nat, from: nat)
    requires hdr <= dst && k <= |w| && dst + |w| <= from <= |now|
    ensures var next := Patched(now, dst, w);
            next[..hdr] == now[..hdr] && next[hdr..dst + k] == now[hdr..dst] + w[..k] && next[from..] == now[from..]
  {
  }

  /** The bytes read_uni_esc writes for a character of the basic plane. */
  function BmpBytes(hi: nat): (b: seq<byte>)
    requires hi < 0x10000
    ensures b == Encoded(hi)
  {
    if hi >= 0x800 then [0xE0 + hi / 4096, TailByte(hi / 64), TailByte(hi)]
    else if hi >= 0x80 then [0xC0 + hi / 64, TailByte(hi)]
    else [hi]
  }

  /** Those for a surrogate pair. */
  function PairBytes(uni: nat): (b: seq<byte>)
    requires 0x10000 <= uni < 0x110000
    ensures b == Encoded(uni)
  {
    [0xF0 + uni / 262144, TailByte(uni / 4096), TailByte(uni / 64), TailByte(uni)]
  }

  /** read_uni_esc, up to the bytes to write: none on an error. */
  method ReadUniEsc(s: seq<byte>, src: nat) returns (w: seq<byte>, n: nat)
    ensures w == [] <==> UnicodeAt(s, src).Bad?
    ensures w != [] ==> UnicodeAt(s, src) == Chars(w, n)
  {
    hide Encoded;
    var hi := HexAt(s, src + 2);
    if hi.None? {
      return [], 0;
    }
    if hi.value / 2048 != 27 {
      return BmpBytes(hi.value), 6;
    }
    if hi.value / 1024 != 54 || At(s, src + 6) != BACKSLASH || At(s, src + 7) != LETTER_U {
      return [], 0;
    }
    var lo := HexAt(s, src + 8);
    if lo.None? || lo.value / 1024 != 55 {
      return [], 0;
    }
    return PairBytes((hi.value - 0xD800) * 1024 + (lo.value - 0xDC00) + 0x10000), 12;
  }

  /** The switch of copy_escape: the bytes to write and the characters taken, or nothing on an error. */
  method ReadEscape(s: seq<byte>, src: nat) returns (w: seq<byte>, n: nat)
    requires At(s, src) == BACKSLASH
    ensures w == [] <==> PieceAt(s, src).Bad?
    ensures w != [] ==> PieceAt(s, src) == Chars(w, n) && |w| < n
  {
    hide UnicodeAt;
    var c := At(s, src + 1);
    if c == LETTER_U {
      w, n := ReadUniEsc(s, src);
    } else if Unescaped(c).Some? {
      return [Unescaped(c).value], 2;
    } else {
      return [], 0;
    }
  }

  /** How long a character that needs no escape is. */
  function PlainLength(s: seq<byte>, i: nat): nat {
    if At(s, i) < 128 then 1 else CharLength(s, i)
  }

  lemma PlainIs(s: seq<byte>, i: nat)
    requires AsciiSkip(At(s, i)) || (At(s, i) >= 128 && CharLength(s, i) > 0)
    ensures var n := PlainLength(s, i); n > 0 && i + n <= |s| && PieceAt(s, i) == Chars(s[i..i + n], n)
  {
    PlainPiece(s, i);
    hide PieceAt, CharLength;
  }

  /** A character of `n` bytes, and as many as the case copies: four, or two. */
  lemma CopyStep(now: seq<byte>, s: seq<byte>, hdr: nat, dst: nat, src: nat, done: seq<byte>, w: seq<byte>, n: nat)
    requires InPlace(now, s, hdr, dst, src, done) && dst < src
    requires 0 < n && src + n <= |s| && PieceAt(s, src) == Chars(s[src..src + n], n)
    requires n <= |w| <= n + 1 && forall k | 0 <= k < n :: w[k] == At(s, src + k)
    ensures dst + |w| <= |s| == |now|
    ensures InPlace(Patched(now, dst, w), s, hdr, dst + n, src + n, done + s[src..src + n])
  {
    hide PieceAt, InPlace, At, Patched;
    InPlaceAt(now, s, hdr, dst, src, done, 0);
    SameBytes(s, src, w, n);
    InPlaceStep(now, s, hdr, dst, src, done, w);
  }

  lemma SameBytes(s: seq<byte>, src: nat, w: seq<byte>, n: nat)
    requires src + n <= |s| && n <= |w| && forall k | 0 <= k < n :: w[k] == At(s, src + k)
    ensures w[..n] == s[src..src + n]
  {
  }

  /** The copy_ascii loop. */
  method CopyAscii(buf: array<byte>, ghost s: seq<byte>, ghost hdr: nat, to: nat, from: nat, ghost before: seq<byte>)
    returns (dst: nat, src: nat, ghost done: seq<byte>)
    requires InPlace(buf[..], s, hdr, to, from, before) && to < from
    modifies buf
    ensures InPlace(buf[..], s, hdr, dst, src, done) && dst < src && from <= src <= |s| == buf.Length
    ensures !AsciiSkip(At(s, src))
  {
    hide InPlace, AsciiSkip, CharLength, PieceAt;
    dst, src, done := to, from, before;
    InPlaceAt(buf[..], s, hdr, dst, src, done, 0);
    while AsciiSkip(At(buf[..], src))
      invariant InPlace(buf[..], s, hdr, dst, src, done) && dst < src && from <= src <= |s| == buf.Length
      invariant At(buf[..], src) == At(s, src)
      decreases |s| - src
    {
      ghost var now := buf[..];
      SkipsOne(s, src);
      PlainIs(s, src);
      CopyStep(now, s, hdr, dst, src, done, [At(s, src)], 1);
      done := done + s[src..src + 1];
      Put(buf, dst, [buf[src]]);
      dst, src := dst + 1, src + 1;
      InPlaceAt(buf[..], s, hdr, dst, src, done, 0);
    }
  }

  lemma FourAt(now: seq<byte>, s: seq<byte>, hdr: nat, dst: nat, src: nat, done: seq<byte>)
    requires InPlace(now, s, hdr, dst, src, done)
    ensures At(now, src) == At(s, src) && At(now, src + 1) == At(s, src + 1)
    ensures At(now, src + 2) == At(s, src + 2) && At(now, src + 3) == At(s, src + 3)
    ensures |now| == |s| && src <= |s|
  {
    InPlaceAt(now, s, hdr, dst, src, done, 0);
    InPlaceAt(now, s, hdr, dst, src, done, 1);
    InPlaceAt(now, s, hdr, dst, src, done, 2);
    InPlaceAt(now, s, hdr, dst, src, done, 3);
  }

  /** One character of the copy_utf8 loops: `n` of the bytes loaded count. */
  method CopyCharacter(buf: array<byte>, ghost s: seq<byte>, ghost hdr: nat, dst: nat, src: nat, w: seq<byte>, n: nat,
                       ghost done: seq<byte>)
    returns (ghost done': seq<byte>)
    requires InPlace(buf[..], s, hdr, dst, src, done) && dst < src
    requires At(s, src) >= 128 && n == CharLength(s, src) > 0 && n <= |w| <= n + 1
    requires forall k | 0 <= k < n :: w[k] == At(s, src + k)
    modifies buf
    ensures src + n <= |s| == buf.Length && InPlace(buf[..], s, hdr, dst + n, src + n, done')
    ensures At(buf[..], src + n) == At(s, src + n) && At(buf[..], src + n + 1) == At(s, src + n + 1)
    ensures At(buf[..], src + n + 2) == At(s, src + n + 2) && At(buf[..], src + n + 3) == At(s, src + n + 3)
  {
    hide InPlace, CharLength, PieceAt;
    InPlaceAt(buf[..], s, hdr, dst, src, done, 0);
    PlainIs(s, src);
    CopyStep(buf[..], s, hdr, dst, src, done, w, n);
    done' := done + s[src..src + n];
    Put(buf, dst, w);
    FourAt(buf[..], s, hdr, dst + n, src + n, done');
  }

  /** byte_load_4. */
  function Load4(s: seq<byte>, i: nat): seq<byte> {
    [At(s, i), At(s, i + 1), At(s, i + 2), At(s, i + 3)]
  }

  /** The copy_utf8 loops. */
  method CopyUtf8(buf: array<byte>, ghost s: seq<byte>, ghost hdr: nat, to: nat, from: nat, ghost before: seq<byte>)
    returns (dst: nat, src: nat, ghost done: seq<byte>)
    requires InPlace(buf[..], s, hdr, to, from, before) && to < from && At(s, from) >= 128
    modifies buf
    ensures InPlace(buf[..], s, hdr, dst, src, done) && dst < src && from <= src <= |s| == buf.Length
    ensures src == from ==> CharLength(s, from) == 0
  {
    hide InPlace, CharLength, IsSeq2, IsSeq3, IsSeq4;
    dst, src, done := to, from, before;
    SequenceLength(s, from);
    FourAt(buf[..], s, hdr, dst, src, done);
    var uni := Load4(buf[..], src);
    while IsSeq3(uni[0], uni[1], uni[2])
      invariant InPlace(buf[..], s, hdr, dst, src, done) && dst < src && from <= src <= |s| == buf.Length
      invariant uni == Load4(buf[..], src) == Load4(s, src)
      decreases |s| - src
    {
      SequenceLength(s, src);
      done := CopyCharacter(buf, s, hdr, dst, src, uni, 3, done);
      dst, src := dst + 3, src + 3;
      uni := Load4(buf[..], src);
    }
    if IsSeq1(uni[0]) {
      return;
    }
    while IsSeq2(uni[0], uni[1])
      invariant InPlace(buf[..], s, hdr, dst, src, done) && dst < src && from <= src <= |s| == buf.Length
      invariant uni == Load4(buf[..], src) == Load4(s, src)
      decreases |s| - src
    {
      SequenceLength(s, src);
      done := CopyCharacter(buf, s, hdr, dst, src, uni[..2], 2, done);
      dst, src := dst + 2, src + 2;
      uni := Load4(buf[..], src);
    }
    while IsSeq4(uni[0], uni[1], uni[2], uni[3])
      invariant InPlace(buf[..], s, hdr, dst, src, done) && dst < src && from <= src <= |s| == buf.Length
      invariant uni == Load4(buf[..], src) == Load4(s, src)
      decreases |s| - src
    {
      SequenceLength(s, src);
      done := CopyCharacter(buf, s, hdr, dst, src, uni, 4, done);
      dst, src := dst + 4, src + 4;
      uni := Load4(buf[..], src);
    }
  }

  /** The copying loops, until a quote, an escape or an error. */
  method CopyPlain(buf: array<byte>, ghost s: seq<byte>, ghost hdr: nat, to: nat, from: nat, ghost before: seq<byte>)
    returns (dst: nat, src: nat, ghost done: seq<byte>)
    requires InPlace(buf[..], s, hdr, to, from, before) && to < from
    modifies buf
    ensures InPlace(buf[..], s, hdr, dst, src, done) && dst < src && from <= src <= |s| == buf.Length
    ensures !AsciiSkip(At(s, src)) && (At(s, src) >= 128 ==> PieceAt(s, src).Bad?)
    ensures At(buf[..], src) == At(s, src)
  {
    hide InPlace, CharLength, AsciiSkip, PieceAt;
    dst, src, done := to, from, before;
    while true
      invariant InPlace(buf[..], s, hdr, dst, src, done) && dst < src && from <= src
      decreases |s| - src
    {
      dst, src, done := CopyAscii(buf, s, hdr, dst, src, done);
      InPlaceAt(buf[..], s, hdr, dst, src, done, 0);
      if At(buf[..], src) < 128 {
        return;
      }
      PlainPiece(s, src);
      var pos := src;
      dst, src, done := CopyUtf8(buf, s, hdr, dst, src, done);
      if pos == src {
        InPlaceAt(buf[..], s, hdr, dst, src, done, 0);
        return;
      }
    }
  }

  datatype StrRead = Ok(len: nat, noEscapes: bool, end: nat) | Error(pos: nat)

  /** What read_str leaves: the string in front, terminated, and everything after the closing quote as it was. */
  ghost predicate ReadsString(s: seq<byte>, now: seq<byte>, start: nat, r: StrRead)
    requires |now| == |s|
  {
    match StringAt(s, start + 1)
    case Fail(pos) => r == Error(pos)
    case Done(bytes, end) =>
      && r.Ok? && r.len == |bytes| && r.end == end <= |s| && start + 1 + |bytes| < end
      && (r.noEscapes <==> start + 1 + |bytes| == end - 1)
      && now[..start + 1] == s[..start + 1]
      && now[start + 1..start + 1 + |bytes|] == bytes && now[start + 1 + |bytes|] == 0
      && now[end..] == s[end..]
  }

  lemma Finished(now: seq<byte>, s: seq<byte>, start: nat, dst: nat, src: nat, done: seq<byte>, plain: bool)
    requires InPlace(now, s, start + 1, dst, src, done) && At(s, src) == QUOTE && plain == (dst == src)
    ensures dst <= src < |now| == |s|
    ensures ReadsString(s, now[dst := 0], start, Ok(dst - (start + 1), plain, src + 1))
  {
    hide PieceAt;
    ReadQuote(s, start + 1, src, done);
    assert now[src..] == s[src..];
    assert now[src + 1..] == now[src..][1..] == s[src..][1..] == s[src + 1..];
  }

  lemma Failed(now: seq<byte>, s: seq<byte>, start: nat, src: nat, done: seq<byte>)
    requires |now| == |s| && Read(s, start + 1, src, done) && PieceAt(s, src).Bad?
    ensures ReadsString(s, now, start, Error(src))
  {
    ReadBad(s, start + 1, src, done);
  }

  lemma FailedHere(now: seq<byte>, s: seq<byte>, start: nat, dst: nat, src: nat, done: seq<byte>)
    requires InPlace(now, s, start + 1, dst, src, done) && PieceAt(s, src).Bad?
    ensures |now| == |s| && ReadsString(s, now, start, Error(src))
  {
    Failed(now, s, start, src, done);
  }

  /** read_str_opt for a double-quoted string, from its opening quote. */
  method ReadStr(buf: array<byte>, start: nat) returns (r: StrRead)
    requires start < buf.Length
    modifies buf
    ensures ReadsString(old(buf[..]), buf[..], start, r)
  {
    hide InPlace, CharLength, AsciiSkip, PieceAt, ReadAsIs, ReadsString, Patched;
    ghost var s := buf[..];
    var hdr := start + 1;
    var src := SkipPlain(buf[..], hdr);
    InPlaceBegins(s, hdr, src);
    ghost var done := s[hdr..src];
    if At(buf[..], src) == QUOTE {
      Finished(s, s, start, src, src, done, true);
      buf[src] := 0;
      assert buf[..] == s[src := 0];
      return Ok(src - hdr, true, src + 1);
    }
    if At(buf[..], src) >= 128 {
      FailedHere(s, s, start, src, src, done);
      return Error(src);
    }
    r := CopyEscaped(buf, s, start, src, done);
  }

  /** From the first escape on. */
  method CopyEscaped(buf: array<byte>, ghost s: seq<byte>, start: nat, from: nat, ghost before: seq<byte>)
    returns (r: StrRead)
    requires InPlace(buf[..], s, start + 1, from, from, before)
    requires At(s, from) < 128 && At(s, from) != QUOTE && !AsciiSkip(At(s, from))
    modifies buf
    ensures |s| == buf.Length && ReadsString(s, buf[..], start, r)
  {
    hide InPlace, CharLength, AsciiSkip, PieceAt, ReadsString, Patched;
    var hdr := start + 1;
    var src: nat, dst: nat := from, from;
    ghost var done := before;
    InPlaceAt(buf[..], s, hdr, dst, src, done, 0);
    while true
      invariant InPlace(buf[..], s, hdr, dst, src, done) && |s| == buf.Length && hdr <= dst <= src <= |s|
      invariant dst == src ==> At(s, src) != QUOTE
      invariant At(buf[..], src) == At(s, src) && !AsciiSkip(At(s, src))
      invariant At(s, src) >= 128 ==> PieceAt(s, src).Bad?
      decreases |s| - src
    {
      if At(buf[..], src) == BACKSLASH {
        ghost var now := buf[..];
        var w, n := ReadEscape(buf[..], src);
        SameEscape(now, s, hdr, dst, src, done);
        if w == [] {
          FailedHere(now, s, start, dst, src, done);
          return Error(src);
        }
        EscapeInPlace(now, s, hdr, dst, src, done, w, n);
        Put(buf, dst, w);
        done := done + w;
        dst, src := dst + |w|, src + n;
      } else if At(buf[..], src) == QUOTE {
        ghost var now := buf[..];
        Finished(now, s, start, dst, src, done, false);
        buf[dst] := 0;
        assert buf[..] == now[dst := 0];
        return Ok(dst - hdr, false, src + 1);
      } else {
        NoPiece(s, src);
        FailedHere(buf[..], s, start, dst, src, done);
        return Error(src);
      }
      dst, src, done := CopyPlain(buf, s, hdr, dst, src, done);
      InPlaceAt(buf[..], s, hdr, dst, src, done, 0);
    }
  }

  lemma NoPiece(s: seq<byte>, src: nat)
    requires !AsciiSkip(At(s, src)) && (At(s, src) >= 128 ==> PieceAt(s, src).Bad?)
    requires At(s, src) != QUOTE && At(s, src) != BACKSLASH
    ensures PieceAt(s, src).Bad?
  {
  }

  /** The escape at `src` in the buffer is that of the text, which is untouched from there on. */
  lemma SameEscape(now: seq<byte>, s: seq<byte>, hdr: nat, dst: nat, src: nat, done: seq<byte>)
    requires InPlace(now, s, hdr, dst, src, done) && At(s, src) == BACKSLASH
    ensures PieceAt(now, src) == PieceAt(s, src)
  {
    FourAt(now, s, hdr, dst, src, done);
    InPlaceAt(now, s, hdr, dst, src, done, 4);
    InPlaceAt(now, s, hdr, dst, src, done, 5);
    InPlaceAt(now, s, hdr, dst, src, done, 6);
    InPlaceAt(now, s, hdr, dst, src, done, 7);
    InPlaceAt(now, s, hdr, dst, src, done, 8);
    InPlaceAt(now, s, hdr, dst, src, done, 9);
    InPlaceAt(now, s, hdr, dst, src, done, 10);
    InPlaceAt(now, s, hdr, dst, src, done, 11);
    hide HexValue, Encoded, InPlace;
  }

  lemma PieceFits(s: seq<byte>, src: nat)
    ensures PieceAt(s, src).Chars? ==> src + PieceAt(s, src).size <= |s|
  {
    hide PieceAt;
  }

  lemma EscapeInPlace(now: seq<byte>, s: seq<byte>, hdr: nat, dst: nat, src: nat, done: seq<byte>, w: seq<byte>, n: nat)
    requires InPlace(now, s, hdr, dst, src, done) && PieceAt(s, src) == Chars(w, n) && |w| < n
    ensures src + n <= |s| == |now| && dst + |w| < src + n
    ensures InPlace(Patched(now, dst, w), s, hdr, dst + |w|, src + n, done + w)
  {
    PieceFits(s, src);
    hide InPlace, Read, PieceAt, At, Patched;
    InPlaceAt(now, s, hdr, dst, src, done, 0);
    assert w[..|w|] == w;
    InPlaceStep(now, s, hdr, dst, src, done, w);
  }
}
