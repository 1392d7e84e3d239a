/**
  The requests the parser accepts, as texts: it succeeds exactly on the buffers
  that begin with one, and its slices name that text's parts.
*/
module HttpGrammar {
  import opened Bytes
  import opened HttpRequest
  import opened Literals

  // ---------------------------------------------------------------------------------------
  // Characters
  // ---------------------------------------------------------------------------------------

  const TOKEN_MARKS := "!#$%&'*+-.^_`|~"

  /** tchar of section 5.6.2 of RFC 9110: the marks above, digits and letters. */
  predicate TokenChar(b: byte) {
    || '0' as int <= b <= '9' as int || 'A' as int <= b <= 'Z' as int || 'a' as int <= b <= 'z' as int
    || b in Ascii(TOKEN_MARKS)
  }

  /** A visible character or one beyond ASCII; more than the standard's request-target admits. */
  predicate TargetChar(b: byte) {
    '!' as int <= b <= '~' as int || 0x80 <= b
  }

  predicate Blank(b: byte) {
    b == ' ' as int || b == '\t' as int
  }

  /** The characters of a field value, section 5.5 of RFC 9110: visible, beyond ASCII, or blank. */
  predicate FieldChar(b: byte) {
    '!' as int <= b <= '~' as int || 0x80 <= b || Blank(b)
  }

  lemma MarksAre(b: byte)
    ensures b in Ascii(TOKEN_MARKS) <==>
      b in {33, 35, 36, 37, 38, 39, 42, 43, 45, 46, 94, 95, 96, 124, 126}
  {
    var t := Ascii(TOKEN_MARKS);
    assert t == [33, 35, 36, 37, 38, 39, 42, 43, 45, 46, 94, 95, 96, 124, 126];
  }

  lemma TokenRow(b: byte)
    requires 32 <= b < 64
    ensures IsTokenChar(b) <==> TokenChar(b)
  {
    MarksAre(b);
  }

  lemma TokenRow2(b: byte)
    requires 64 <= b < 96
    ensures IsTokenChar(b) <==> TokenChar(b)
  {
    MarksAre(b);
  }

  lemma TokenRow3(b: byte)
    requires 96 <= b < 128
    ensures IsTokenChar(b) <==> TokenChar(b)
  {
    MarksAre(b);
  }

  lemma OtherRows(b: byte)
    requires b < 32 || 128 <= b
    ensures IsTokenChar(b) <==> TokenChar(b)
  {
    MarksAre(b);
  }

  /** The parser's table of 256 entries marks exactly the token characters. */
  lemma TokenTable(b: byte)
    ensures IsTokenChar(b) <==> TokenChar(b)
  {
    hide IsTokenChar, TokenChar;
    if b < 32 || 128 <= b {
      OtherRows(b);
    } else if b < 64 {
      TokenRow(b);
    } else if b < 96 {
      TokenRow2(b);
    } else {
      TokenRow3(b);
    }
  }

  // ---------------------------------------------------------------------------------------
  // Texts
  // ---------------------------------------------------------------------------------------

  /** A header line, or the continuation of the header before it; `tail` is the blank end of either. */
  datatype Line =
    | Field(name: seq<byte>, pad: seq<byte>, value: seq<byte>, tail: seq<byte>, eol: seq<byte>)
    | Continuation(value: seq<byte>, tail: seq<byte>, eol: seq<byte>)

  datatype Start = Start(verb: seq<byte>, gap: seq<byte>, path: seq<byte>, gap2: seq<byte>, minor: byte, eol: seq<byte>)

  datatype Message = Message(lead: seq<byte>, start: Start, lines: seq<Line>, end: seq<byte>)

  predicate IsEol(w: seq<byte>) {
    w == Ascii("\n") || w == Ascii("\r\n")
  }

  predicate TokenText(w: seq<byte>) {
    forall k | 0 <= k < |w| :: TokenChar(w[k])
  }

  predicate TargetText(w: seq<byte>) {
    forall k | 0 <= k < |w| :: TargetChar(w[k])
  }

  predicate SpaceText(w: seq<byte>) {
    forall k | 0 <= k < |w| :: w[k] == ' ' as int
  }

  predicate BlankText(w: seq<byte>) {
    forall k | 0 <= k < |w| :: Blank(w[k])
  }

  predicate ValueText(w: seq<byte>) {
    forall k | 0 <= k < |w| :: FieldChar(w[k])
  }

  predicate StartsBlank(w: seq<byte>) {
    w != [] && Blank(w[0])
  }

  predicate EndsBlank(w: seq<byte>) {
    w != [] && Blank(w[|w| - 1])
  }

  predicate ValidLine(l: Line, first: bool) {
    && IsEol(l.eol) && ValueText(l.value) && BlankText(l.tail) && !EndsBlank(l.value)
    && match l
       case Field(name, pad, value, tail, _) =>
         name != [] && TokenText(name) && BlankText(pad) && !StartsBlank(value + tail)
       case Continuation(value, tail, _) => !first && StartsBlank(value + tail)
  }

  predicate ValidLines(lines: seq<Line>, first: bool) {
    lines == [] || (ValidLine(lines[0], first) && ValidLines(lines[1..], false))
  }

  predicate ValidStart(t: Start) {
    && t.verb != [] && TokenText(t.verb) && t.gap != [] && SpaceText(t.gap)
    && t.path != [] && TargetText(t.path) && t.gap2 != [] && SpaceText(t.gap2)
    && '0' as int <= t.minor <= '9' as int && IsEol(t.eol)
  }

  predicate ValidMessage(m: Message) {
    && (m.lead == [] || IsEol(m.lead)) && ValidStart(m.start)
    && ValidLines(m.lines, true) && IsEol(m.end)
  }

  function HeadText(l: Line): seq<byte> {
    if l.Field? then l.name + ([':' as int] + l.pad) else []
  }

  function LineText(l: Line): seq<byte> {
    HeadText(l) + ((l.value + l.tail) + l.eol)
  }

  function LinesText(lines: seq<Line>, end: seq<byte>): seq<byte> {
    if lines == [] then end else LineText(lines[0]) + LinesText(lines[1..], end)
  }

  function VersionText(t: Start): seq<byte> {
    Ascii("HTTP/1.") + ([t.minor] + t.eol)
  }

  function StartText(t: Start): seq<byte> {
    t.verb + (t.gap + (t.path + (t.gap2 + VersionText(t))))
  }

  function MessageText(m: Message): seq<byte> {
    m.lead + (StartText(m.start) + LinesText(m.lines, m.end))
  }

  // ---------------------------------------------------------------------------------------
  // What a slice names
  // ---------------------------------------------------------------------------------------

  predicate Names(s: seq<byte>, x: Slice, w: seq<byte>) {
    x.len == |w| && Holds(s, x.start, w)
  }

  predicate NamesHead(s: seq<byte>, name: Option<Slice>, l: Line) {
    match l
    case Field(text, _, _, _, _) => name.Some? && Names(s, name.value, text)
    case Continuation(_, _, _) => name.None?
  }

  predicate NamesLine(s: seq<byte>, h: Header, l: Line) {
    Names(s, h.value, l.value) && NamesHead(s, h.name, l)
  }

  predicate NamesLines(s: seq<byte>, hs: seq<Header>, lines: seq<Line>) {
    |hs| == |lines| && forall k | 0 <= k < |hs| :: NamesLine(s, hs[k], lines[k])
  }

  predicate NamesMessage(s: seq<byte>, r: Request, m: Message) {
    && Names(s, r.verb, m.start.verb) && Names(s, r.path, m.start.path)
    && DigitIs(m.start.minor, r.minorVersion)
    && NamesLines(s, r.headers, m.lines)
  }

  // ---------------------------------------------------------------------------------------
  // Where each loop stops
  // ---------------------------------------------------------------------------------------

  lemma {:induction false} TokenStops(s: seq<byte>, start: nat, i: nat, stop: byte, e: nat)
    requires start <= i <= e < |s| && !TokenChar(stop)
    ensures Token(s, start, i, stop) == Ok(Slice(start, e - start), e)
       <==> s[e] == stop && forall k | i <= k < e :: TokenChar(s[k])
    decreases e - i
  {
    TokenTable(s[i]);
    hide IsTokenChar, TokenChar;
    if i < e && s[i] != stop && TokenChar(s[i]) {
      TokenStops(s, start, i + 1, stop, e);
    }
  }

  lemma {:induction false} TargetStops(s: seq<byte>, start: nat, i: nat, e: nat)
    requires start <= i <= e < |s|
    ensures Target(s, start, i) == Ok(Slice(start, e - start), e)
       <==> s[e] == ' ' as int && forall k | i <= k < e :: TargetChar(s[k])
    decreases e - i
  {
    if i < e && TargetChar(s[i]) {
      TargetStops(s, start, i + 1, e);
    }
  }

  lemma {:induction false} SpacesStop(s: seq<byte>, i: nat, e: nat)
    requires i <= e < |s|
    ensures SkipSpaces(s, i).Ok? && SkipSpaces(s, i).next == e
       <==> s[e] != ' ' as int && forall k | i <= k < e :: s[k] == ' ' as int
    decreases e - i
  {
    if i < e && s[i] == ' ' as int {
      SpacesStop(s, i + 1, e);
    }
  }

  lemma {:induction false} BlanksStop(s: seq<byte>, i: nat, e: nat)
    requires i <= e < |s|
    ensures SkipBlanks(s, i).Ok? && SkipBlanks(s, i).next == e <==> !Blank(s[e]) && forall k | i <= k < e :: Blank(s[k])
    decreases e - i
  {
    if i < e && Blank(s[i]) {
      BlanksStop(s, i + 1, e);
    }
  }

  lemma EolReads(s: seq<byte>, i: nat, next: nat)
    requires i <= next <= |s|
    ensures LineEnd(s, i).Ok? && LineEnd(s, i).next == next <==> IsEol(s[i..next])
  {
    if next == i + 1 {
      assert s[i..next] == [s[i]];
    } else if next == i + 2 {
      assert s[i..next] == [s[i], s[i + 1]];
    }
  }

  lemma {:induction false} LineStops(s: seq<byte>, start: nat, i: nat, e: nat, next: nat)
    requires start <= i <= e < next <= |s|
    ensures ToEol(s, start, i) == Ok(Slice(start, e - start), next)
       <==> IsEol(s[e..next]) && forall k | i <= k < e :: FieldChar(s[k])
    decreases e - i
  {
    EolReads(s, e, next);
    if i < e {
      if FieldChar(s[i]) {
        LineStops(s, start, i + 1, e, next);
      }
    } else if FieldChar(s[i]) {
      assert s[e..next][0] == s[i];
    }
  }

  lemma {:induction false} TrimStops(s: seq<byte>, start: nat, end: nat, t: nat)
    requires start <= t <= end <= |s|
    ensures TrimBlanks(s, start, end) == t
       <==> (t == start || !Blank(s[t - 1])) && forall k | t <= k < end :: Blank(s[k])
    decreases end
  {
    if t < end && Blank(s[end - 1]) {
      TrimStops(s, start, end - 1, t);
    }
  }

  lemma HoldsAt(s: seq<byte>, i: nat, w: seq<byte>)
    requires Holds(s, i, w)
    ensures i + |w| <= |s|
    ensures forall k | i <= k < i + |w| :: s[k] == w[k - i]
  {
    forall k | i <= k < i + |w| ensures s[k] == w[k - i] {
      assert s[i..i + |w|][k - i] == s[k];
    }
  }

  // ---------------------------------------------------------------------------------------
  // A header line
  // ---------------------------------------------------------------------------------------

  /** The value of a line: what stands before its line end, less the blanks at its end. */
  lemma ValueReads(s: seq<byte>, j: nat, value: seq<byte>, tail: seq<byte>, eol: seq<byte>)
    requires Holds(s, j, (value + tail) + eol) && IsEol(eol)
    requires ValueText(value) && BlankText(tail) && !EndsBlank(value)
    ensures var e := j + |value| + |tail|;
            ToEol(s, j, j) == Ok(Slice(j, e - j), e + |eol|) && TrimBlanks(s, j, e) == j + |value|
  {
    var v, e := j + |value|, j + |value| + |tail|;
    HoldsParts(s, j, value + tail, eol);
    HoldsParts(s, j, value, tail);
    HoldsAt(s, j, value);
    HoldsAt(s, v, tail);
    LineStops(s, j, j, e, e + |eol|);
    TrimStops(s, j, e, v);
  }

  lemma NotBlankBehind(l: Line, first: bool)
    requires l.Field? && ValidLine(l, first)
    ensures var rest := (l.value + l.tail) + l.eol; rest != [] && !Blank(rest[0])
  {
    FirstByte(l.value + l.tail, l.eol);
  }

  lemma FieldParts(l: Line, first: bool)
    requires l.Field? && ValidLine(l, first)
    ensures l.name != [] && TokenText(l.name) && BlankText(l.pad)
  {
  }

  lemma NameStarts(l: Line, first: bool)
    requires l.Field? && ValidLine(l, first)
    ensures !Blank(l.name[0])
  {
    NotTokenEnd(l.name[0]);
    NotTokenEnd(' ' as int);
    NotTokenEnd('\t' as int);
    hide TokenChar, BlankText, ValueText, IsEol;
  }

  /** Neither a blank, nor a colon, nor a line end goes on with a token. */
  lemma NotTokenEnd(b: byte)
    ensures Blank(b) || b == ':' as int || b == CR || b == LF ==> !TokenChar(b)
  {
    MarksAre(b);
  }

  lemma NameThenBlanks(s: seq<byte>, i: nat, first: bool, c: nat, v: nat)
    requires i < c < v < |s| && !Blank(s[i]) && !Blank(s[v])
    requires Token(s, i, i, ':' as int) == Ok(Slice(i, c - i), c)
    requires forall k | c < k < v :: Blank(s[k])
    ensures HeaderName(s, i, first) == Ok(Some(Slice(i, c - i)), v)
  {
    hide Token, SkipBlanks;
    BlanksStop(s, c + 1, v);
  }

  lemma FieldNameReads(s: seq<byte>, i: nat, l: Line, first: bool)
    requires l.Field? && ValidLine(l, first) && Holds(s, i, LineText(l))
    ensures HeaderName(s, i, first) == Ok(Some(Slice(i, |l.name|)), i + |HeadText(l)|)
  {
    hide Token, HeaderName, TokenChar, Holds;
    FieldParts(l, first);
    NameStarts(l, first);
    NotBlankBehind(l, first);
    hide ValidLine;
    NotTokenEnd(':' as int);
    var c, v := i + |l.name|, i + |HeadText(l)|;
    var rest := (l.value + l.tail) + l.eol;
    HoldsParts(s, i, HeadText(l), rest);
    HoldsParts(s, i, l.name, [':' as int] + l.pad);
    HoldsParts(s, c, [':' as int], l.pad);
    HoldsAt(s, i, l.name);
    HoldsAt(s, c, [':' as int]);
    HoldsAt(s, c + 1, l.pad);
    HoldsAt(s, v, rest);
    TokenStops(s, i, i, ':' as int, c);
    NameThenBlanks(s, i, first, c, v);
  }

  lemma NoNameReads(s: seq<byte>, i: nat, l: Line)
    requires l.Continuation? && ValidLine(l, false) && Holds(s, i, LineText(l))
    ensures HeaderName(s, i, false) == Ok(None, i)
  {
    HoldsAt(s, i, LineText(l));
    assert s[i] == LineText(l)[0] == (l.value + l.tail)[0];
  }

  lemma HeadReads(s: seq<byte>, i: nat, l: Line, first: bool)
    requires ValidLine(l, first) && Holds(s, i, LineText(l))
    ensures var r := HeaderName(s, i, first);
            r.Ok? && r.next == i + |HeadText(l)| && NamesHead(s, r.value, l)
  {
    if l.Field? {
      HoldsParts(s, i, HeadText(l), (l.value + l.tail) + l.eol);
      HoldsParts(s, i, l.name, [':' as int] + l.pad);
      FieldNameReads(s, i, l, first);
    } else {
      NoNameReads(s, i, l);
    }
  }

  lemma FirstByte(a: seq<byte>, b: seq<byte>)
    requires b != []
    ensures (a + b)[0] == if a == [] then b[0] else a[0]
  {
  }

  lemma NotEmptyLine(s: seq<byte>, i: nat, l: Line, first: bool)
    requires ValidLine(l, first) && Holds(s, i, LineText(l))
    ensures s[i] != CR && s[i] != LF
  {
    HoldsAt(s, i, LineText(l));
    FirstByte(HeadText(l), (l.value + l.tail) + l.eol);
    if l.Continuation? {
      FirstByte(l.value + l.tail, l.eol);
    }
  }

  /** A header line is read as what it says. */
  lemma LineReads(s: seq<byte>, i: nat, l: Line, first: bool)
    requires ValidLine(l, first) && Holds(s, i, LineText(l))
    ensures HeaderLine(s, i, first).Ok? && HeaderLine(s, i, first).next == i + |LineText(l)|
    ensures NamesLine(s, HeaderLine(s, i, first).value, l)
  {
    hide HeaderName, HeadText, ToEol, TrimBlanks, IsEol, ValueText, BlankText, EndsBlank, Holds;
    var j := i + |HeadText(l)|;
    HeadReads(s, i, l, first);
    HoldsParts(s, i, HeadText(l), (l.value + l.tail) + l.eol);
    ValueReads(s, j, l.value, l.tail, l.eol);
    HoldsParts(s, j, l.value + l.tail, l.eol);
    HoldsParts(s, j, l.value, l.tail);
  }

  lemma ValueRead(s: seq<byte>, j: nat) returns (value: seq<byte>, tail: seq<byte>, eol: seq<byte>)
    requires j <= |s| && ToEol(s, j, j).Ok?
    ensures IsEol(eol) && ValueText(value) && BlankText(tail) && !EndsBlank(value)
    ensures Holds(s, j, (value + tail) + eol) && ToEol(s, j, j).next == j + |(value + tail) + eol|
  {
    var r := ToEol(s, j, j);
    var e := j + r.value.len;
    var v := TrimBlanks(s, j, e);
    value, tail, eol := s[j..v], s[v..e], s[e..r.next];
    LineStops(s, j, j, e, r.next);
    TrimStops(s, j, e, v);
    HoldsParts(s, j, value, tail);
    HoldsParts(s, j, value + tail, eol);
  }

  lemma NameRead(s: seq<byte>, i: nat) returns (name: seq<byte>, pad: seq<byte>)
    requires i < |s| && HeaderName(s, i, true).Ok?
    ensures name != [] && TokenText(name) && BlankText(pad)
    ensures Holds(s, i, name + ([':' as int] + pad))
    ensures var next := HeaderName(s, i, true).next;
            next == i + |name + ([':' as int] + pad)| && next < |s| && !Blank(s[next])
  {
    var c := Token(s, i, i, ':' as int).next;
    var v := SkipBlanks(s, c + 1).next;
    name, pad := s[i..c], s[c + 1..v];
    TokenStops(s, i, i, ':' as int, c);
    BlanksStop(s, c + 1, v);
    assert s[c..c + 1] == [':' as int];
    HoldsParts(s, c, [':' as int], pad);
    HoldsParts(s, i, name, [':' as int] + pad);
  }

  lemma FieldRead(s: seq<byte>, i: nat) returns (l: Line)
    requires i < |s| && HeaderLine(s, i, true).Ok?
    ensures l.Field? && ValidLine(l, true) && ValidLine(l, false) && Holds(s, i, LineText(l))
  {
    var name, pad := NameRead(s, i);
    var j := HeaderName(s, i, true).next;
    var value, tail, eol := ValueRead(s, j);
    l := Field(name, pad, value, tail, eol);
    HoldsParts(s, i, HeadText(l), (value + tail) + eol);
    HoldsParts(s, j, value + tail, eol);
    HoldsAt(s, j, value + tail);
  }

  lemma ContinuationRead(s: seq<byte>, i: nat) returns (l: Line)
    requires i < |s| && HeaderLine(s, i, false).Ok? && Blank(s[i])
    ensures l.Continuation? && ValidLine(l, false) && Holds(s, i, LineText(l))
  {
    var value, tail, eol := ValueRead(s, i);
    l := Continuation(value, tail, eol);
    HoldsParts(s, i, value + tail, eol);
    HoldsAt(s, i, (value + tail) + eol);
    assert LineText(l) == (value + tail) + eol;
    BlankFirst(value + tail, eol, s[i]);
    hide Holds, HeaderLine, ValueText, BlankText;
  }

  lemma BlankFirst(a: seq<byte>, eol: seq<byte>, b: byte)
    requires IsEol(eol) && (a + eol)[0] == b && Blank(b)
    ensures StartsBlank(a)
  {
  }

  /** A line the parser accepts is a header line. */
  lemma LineRead(s: seq<byte>, i: nat, first: bool) returns (l: Line)
    requires i < |s| && HeaderLine(s, i, first).Ok?
    ensures ValidLine(l, first) && Holds(s, i, LineText(l))
  {
    if !first && Blank(s[i]) {
      l := ContinuationRead(s, i);
    } else {
      l := FieldRead(s, i);
    }
  }

  // ---------------------------------------------------------------------------------------
  // All header lines
  // ---------------------------------------------------------------------------------------

  lemma EmptyLineReads(s: seq<byte>, i: nat, end: seq<byte>, n: nat, max: nat)
    requires Holds(s, i, end) && IsEol(end) && n <= max
    ensures Headers(s, i, n, max) == Ok([], i + |end|) && NamesLines(s, [], [])
  {
    EolReads(s, i, i + |end|);
  }

  lemma NamesMore(s: seq<byte>, h: Header, hs: seq<Header>, l: Line, lines: seq<Line>)
    requires NamesLine(s, h, l) && NamesLines(s, hs, lines)
    ensures NamesLines(s, [h] + hs, [l] + lines)
  {
  }

  lemma HeadersStep(s: seq<byte>, i: nat, n: nat, max: nat)
    requires i < |s| && n < max && s[i] != CR && s[i] != LF && HeaderLine(s, i, n == 0).Ok?
    ensures var h, r := HeaderLine(s, i, n == 0), Headers(s, i, n, max);
            var more := Headers(s, h.next, n + 1, max);
            match more
            case Partial => r.Partial?
            case Invalid => r.Invalid?
            case Ok(hs, next) => r == Ok([h.value] + hs, next)
  {
    hide HeaderLine;
  }

  lemma NoRoomLeft(s: seq<byte>, i: nat, max: nat)
    requires i < |s| && s[i] != CR && s[i] != LF
    ensures Headers(s, i, max, max).Invalid?
  {
  }

  /** The header lines are read in order, unless there are more than the caller has room for. */
  lemma {:induction false} LinesRead(s: seq<byte>, i: nat, lines: seq<Line>, end: seq<byte>, n: nat, max: nat)
    requires n <= max && ValidLines(lines, n == 0) && IsEol(end) && Holds(s, i, LinesText(lines, end))
    ensures var r := Headers(s, i, n, max);
            if n + |lines| <= max then
              r.Ok? && r.next == i + |LinesText(lines, end)| && NamesLines(s, r.value, lines)
            else r.Invalid?
    decreases |lines|
  {
    hide Headers, HeaderLine, LineText, NamesLine, NamesLines, ValidLine, IsEol, Holds;
    if lines == [] {
      EmptyLineReads(s, i, end, n, max);
    } else {
      var l, more := lines[0], lines[1..];
      HoldsParts(s, i, LineText(l), LinesText(more, end));
      LineReads(s, i, l, n == 0);
      NotEmptyLine(s, i, l, n == 0);
      if n == max {
        NoRoomLeft(s, i, max);
      } else {
        var h := HeaderLine(s, i, n == 0);
        HeadersStep(s, i, n, max);
        LinesRead(s, h.next, more, end, n + 1, max);
        if n + |lines| <= max {
          NamesMore(s, h.value, Headers(s, h.next, n + 1, max).value, l, more);
          assert [l] + more == lines;
        }
      }
    }
  }

  lemma EmptyLineFound(s: seq<byte>, i: nat, n: nat, max: nat) returns (end: seq<byte>)
    requires i < |s| && n <= max && Headers(s, i, n, max).Ok? && (s[i] == CR || s[i] == LF)
    ensures IsEol(end) && Holds(s, i, end)
  {
    var next := LineEnd(s, i).next;
    end := s[i..next];
    EolReads(s, i, next);
  }

  lemma HeadersNeed(s: seq<byte>, i: nat, n: nat, max: nat)
    requires i <= |s| && n <= max && Headers(s, i, n, max).Ok?
    ensures i < |s|
    ensures s[i] != CR && s[i] != LF ==> n < max && HeaderLine(s, i, n == 0).Ok?
  {
    hide HeaderLine;
  }

  /** Header lines the parser accepts are header lines. */
  lemma {:induction false} LinesFound(s: seq<byte>, i: nat, n: nat, max: nat)
    returns (lines: seq<Line>, end: seq<byte>)
    requires i <= |s| && n <= max && Headers(s, i, n, max).Ok?
    ensures ValidLines(lines, n == 0) && IsEol(end) && n + |lines| <= max
    ensures Holds(s, i, LinesText(lines, end))
    decreases |s| - i
  {
    hide Headers, HeaderLine, LineText, ValidLine, NamesLine, IsEol, Holds;
    HeadersNeed(s, i, n, max);
    if s[i] == CR || s[i] == LF {
      end := EmptyLineFound(s, i, n, max);
      lines := [];
    } else {
      var l := LineRead(s, i, n == 0);
      LineReads(s, i, l, n == 0);
      HeadersStep(s, i, n, max);
      NotEmptyLine(s, i, l, n == 0);
      var rest;
      rest, end := LinesFound(s, HeaderLine(s, i, n == 0).next, n + 1, max);
      lines := [l] + rest;
      assert lines[1..] == rest;
      HoldsParts(s, i, LineText(l), LinesText(rest, end));
    }
  }

  // ---------------------------------------------------------------------------------------
  // The request line
  // ---------------------------------------------------------------------------------------

  /** A run of spaces behind a word. */
  lemma WordReads(s: seq<byte>, word: Parsed<Slice>, gap: seq<byte>, e: nat)
    requires word.Ok? && word.next < |s| && Holds(s, word.next, gap) && gap != [] && SpaceText(gap)
    requires e == word.next + |gap| < |s| && s[e] != SP
    ensures WordThenSpaces(s, word) == Ok(word.value, e)
  {
    HoldsAt(s, word.next, gap);
    SpacesStop(s, word.next + 1, e);
  }

  lemma WordFound(s: seq<byte>, word: Parsed<Slice>) returns (gap: seq<byte>)
    requires (word.Ok? ==> word.next < |s| && s[word.next] == SP) && WordThenSpaces(s, word).Ok?
    ensures word.Ok? && gap != [] && SpaceText(gap) && Holds(s, word.next, gap)
    ensures WordThenSpaces(s, word) == Ok(word.value, word.next + |gap|)
    ensures word.next + |gap| < |s| && s[word.next + |gap|] != SP
  {
    var e := SkipSpaces(s, word.next + 1).next;
    gap := s[word.next..e];
    SpacesStop(s, word.next + 1, e);
  }

  lemma VersionReads(s: seq<byte>, i: nat, t: Start)
    requires ValidStart(t) && Holds(s, i, VersionText(t))
    ensures VersionLine(s, i) == Ok((t.minor - '0' as int), i + |VersionText(t)|)
  {
    HoldsParts(s, i, Ascii("HTTP/1."), [t.minor] + t.eol);
    HoldsParts(s, i + 7, [t.minor], t.eol);
    HoldsAt(s, i + 7, [t.minor]);
    EolReads(s, i + 8, i + 8 + |t.eol|);
  }

  lemma VersionFound(s: seq<byte>, i: nat) returns (minor: byte, eol: seq<byte>)
    requires i <= |s| && VersionLine(s, i).Ok?
    ensures '0' as int <= minor <= '9' as int && IsEol(eol) && Holds(s, i, Ascii("HTTP/1.") + ([minor] + eol))
    ensures VersionLine(s, i) == Ok(minor - '0' as int, i + |Ascii("HTTP/1.") + ([minor] + eol)|)
  {
    var next := VersionLine(s, i).next;
    minor, eol := s[i + 7], s[i + 8..next];
    EolReads(s, i + 8, next);
    assert s[i + 7..i + 8] == [minor];
    HoldsParts(s, i + 7, [minor], eol);
    HoldsParts(s, i, Ascii("HTTP/1."), [minor] + eol);
  }

  lemma VerbReads(s: seq<byte>, i: nat, t: Start)
    requires ValidStart(t) && Holds(s, i, StartText(t))
    ensures WordThenSpaces(s, Token(s, i, i, SP)) == Ok(Slice(i, |t.verb|), i + |t.verb| + |t.gap|)
  {
    hide Token, SkipSpaces, WordThenSpaces;
    var e, j := i + |t.verb|, i + |t.verb| + |t.gap|;
    var rest := t.path + (t.gap2 + VersionText(t));
    HoldsParts(s, i, t.verb, t.gap + rest);
    HoldsParts(s, e, t.gap, rest);
    HoldsAt(s, i, t.verb);
    HoldsAt(s, e, t.gap);
    HoldsAt(s, j, rest);
    FirstByte(t.path, t.gap2 + VersionText(t));
    TokenStops(s, i, i, SP, e);
    WordReads(s, Token(s, i, i, SP), t.gap, j);
  }

  lemma PathReads(s: seq<byte>, j: nat, t: Start)
    requires ValidStart(t) && Holds(s, j, t.path + (t.gap2 + VersionText(t)))
    ensures WordThenSpaces(s, Target(s, j, j)) == Ok(Slice(j, |t.path|), j + |t.path| + |t.gap2|)
  {
    hide Target, SkipSpaces, WordThenSpaces;
    var e, k := j + |t.path|, j + |t.path| + |t.gap2|;
    HoldsParts(s, j, t.path, t.gap2 + VersionText(t));
    HoldsParts(s, e, t.gap2, VersionText(t));
    HoldsAt(s, j, t.path);
    HoldsAt(s, e, t.gap2);
    HoldsAt(s, k, VersionText(t));
    TargetStops(s, j, j, e);
    WordReads(s, Target(s, j, j), t.gap2, k);
  }

  /** A request line is read as what it says. */
  lemma StartReads(s: seq<byte>, i: nat, t: Start)
    requires ValidStart(t) && Holds(s, i, StartText(t))
    ensures var r := RequestLineAt(s, i);
            && r.Ok? && r.next == i + |StartText(t)|
            && Names(s, r.value.verb, t.verb) && Names(s, r.value.path, t.path)
            && DigitIs(t.minor, r.value.minorVersion)
  {
    StartSlices(s, i, t);
    DigitRange(t.minor, t.minor - '0' as int);
  }

  lemma StartSlices(s: seq<byte>, i: nat, t: Start)
    requires ValidStart(t) && Holds(s, i, StartText(t))
    ensures var r := RequestLineAt(s, i);
            && r.Ok? && r.next == i + |StartText(t)|
            && Names(s, r.value.verb, t.verb) && Names(s, r.value.path, t.path)
            && r.value.minorVersion == t.minor - '0' as int
  {
    hide Token, Target, WordThenSpaces, VersionLine, VersionText, Holds, TokenText, TargetText, SpaceText, IsEol;
    var j := i + |t.verb| + |t.gap|;
    var k := j + |t.path| + |t.gap2|;
    VerbReads(s, i, t);
    HoldsParts(s, i, t.verb, t.gap + (t.path + (t.gap2 + VersionText(t))));
    HoldsParts(s, i + |t.verb|, t.gap, t.path + (t.gap2 + VersionText(t)));
    PathReads(s, j, t);
    HoldsParts(s, j, t.path, t.gap2 + VersionText(t));
    HoldsParts(s, j + |t.path|, t.gap2, VersionText(t));
    VersionReads(s, k, t);
  }

  lemma VerbFound(s: seq<byte>, i: nat) returns (verb: seq<byte>, gap: seq<byte>)
    requires i <= |s| && WordThenSpaces(s, Token(s, i, i, SP)).Ok?
    ensures TokenText(verb) && gap != [] && SpaceText(gap) && Holds(s, i, verb) && Holds(s, i + |verb|, gap)
    ensures var j := i + |verb| + |gap|;
            WordThenSpaces(s, Token(s, i, i, SP)) == Ok(Slice(i, |verb|), j) && j < |s| && s[j] != SP
  {
    gap := WordFound(s, Token(s, i, i, SP));
    var e := Token(s, i, i, SP).next;
    verb := s[i..e];
    TokenStops(s, i, i, SP, e);
  }

  lemma PathFound(s: seq<byte>, j: nat) returns (path: seq<byte>, gap: seq<byte>)
    requires j <= |s| && WordThenSpaces(s, Target(s, j, j)).Ok?
    ensures TargetText(path) && gap != [] && SpaceText(gap) && Holds(s, j, path) && Holds(s, j + |path|, gap)
    ensures WordThenSpaces(s, Target(s, j, j)) == Ok(Slice(j, |path|), j + |path| + |gap|)
  {
    gap := WordFound(s, Target(s, j, j));
    var e := Target(s, j, j).next;
    path := s[j..e];
    TargetStops(s, j, j, e);
  }

  /** A request line the parser accepts is a request line. */
  lemma StartFound(s: seq<byte>, i: nat) returns (t: Start)
    requires i <= |s| && RequestLineAt(s, i).Ok?
    ensures ValidStart(t) && Holds(s, i, StartText(t))
  {
    hide Token, Target, WordThenSpaces, VersionLine, Holds, TokenText, TargetText, SpaceText;
    var verb, gap := VerbFound(s, i);
    var j := i + |verb| + |gap|;
    var path, gap2 := PathFound(s, j);
    var k := j + |path| + |gap2|;
    var minor, eol := VersionFound(s, k);
    t := Start(verb, gap, path, gap2, minor, eol);
    HoldsParts(s, j + |path|, gap2, VersionText(t));
    HoldsParts(s, j, path, gap2 + VersionText(t));
    HoldsParts(s, i + |verb|, gap, path + (gap2 + VersionText(t)));
    HoldsParts(s, i, verb, gap + (path + (gap2 + VersionText(t))));
  }

  // ---------------------------------------------------------------------------------------
  // The whole request
  // ---------------------------------------------------------------------------------------

  lemma StartsWithToken(t: Start)
    requires ValidStart(t)
    ensures StartText(t) != [] && TokenChar(StartText(t)[0])
  {
    FirstByte(t.verb, t.gap + (t.path + (t.gap2 + VersionText(t))));
    hide TokenChar, TargetText, SpaceText, IsEol, VersionText;
  }

  lemma LeadReads(s: seq<byte>, m: Message)
    requires ValidMessage(m) && Holds(s, 0, MessageText(m))
    ensures LeadingLine(s).Ok? && LeadingLine(s).next == |m.lead|
  {
    hide ValidLines, LinesText, TokenChar, StartText;
    var rest := StartText(m.start) + LinesText(m.lines, m.end);
    StartsWithToken(m.start);
    hide ValidStart;
    HoldsParts(s, 0, m.lead, rest);
    HoldsAt(s, |m.lead|, rest);
    assert rest[0] == StartText(m.start)[0];
    NoLineEnd(s[|m.lead|]);
    EolReads(s, 0, |m.lead|);
    assert s[0..|m.lead|] == m.lead;
    hide Holds;
  }

  lemma NoLineEnd(b: byte)
    requires TokenChar(b)
    ensures b != CR && b != LF
  {
    MarksAre(b);
  }

  /** A request text is parsed as what it says, unless it has more headers than the caller has room for. */
  lemma MessageParsed(s: seq<byte>, max: nat, m: Message)
    requires ValidMessage(m) && Holds(s, 0, MessageText(m))
    ensures var r := ParseRequest(s, max);
            if |m.lines| <= max then r.Ok? && r.next == |MessageText(m)| && NamesMessage(s, r.value, m)
            else r.Invalid?
  {
    hide RequestLineAt, Headers, LinesText, StartText, Holds, ValidLine, ValidStart;
    LeadReads(s, m);
    var i, j := |m.lead|, |m.lead| + |StartText(m.start)|;
    HoldsParts(s, 0, m.lead, StartText(m.start) + LinesText(m.lines, m.end));
    HoldsParts(s, i, StartText(m.start), LinesText(m.lines, m.end));
    StartReads(s, i, m.start);
    LinesRead(s, j, m.lines, m.end, 0, max);
  }

  lemma LeadFound(s: seq<byte>)
    requires LeadingLine(s).Ok?
    ensures var i := LeadingLine(s).next; i <= |s| && (s[..i] == [] || IsEol(s[..i]))
  {
    var i := LeadingLine(s).next;
    EolReads(s, 0, i);
    assert s[..i] == s[0..i];
  }

  /** What the parser accepts is a request text. */
  lemma ParsedIsMessage(s: seq<byte>, max: nat) returns (m: Message)
    requires ParseRequest(s, max).Ok?
    ensures ValidMessage(m) && |m.lines| <= max && Holds(s, 0, MessageText(m))
  {
    hide LeadingLine, RequestLineAt, Headers, LinesText, StartText, ValidLine, ValidLines, ValidStart, IsEol;
    var i := LeadingLine(s).next;
    var lead := s[..i];
    LeadFound(s);
    var t := StartFound(s, i);
    StartReads(s, i, t);
    var lines, end := LinesFound(s, i + |StartText(t)|, 0, max);
    m := Message(lead, t, lines, end);
    HoldsParts(s, i, StartText(t), LinesText(lines, end));
    HoldsParts(s, 0, lead, StartText(t) + LinesText(lines, end));
  }

  ghost predicate HasMessage(s: seq<byte>, max: nat) {
    exists m: Message :: ValidMessage(m) && |m.lines| <= max && Holds(s, 0, MessageText(m))
  }

  /** A parse from scratch succeeds exactly on the buffers that begin with a request text with few enough headers. */
  lemma ParsesExactlyMessages(s: seq<byte>, max: nat)
    ensures ParseRequest(s, max).Ok? <==> HasMessage(s, max)
  {
    hide ParseRequest, ValidMessage, Holds;
    if ParseRequest(s, max).Ok? {
      var m := ParsedIsMessage(s, max);
    }
    if HasMessage(s, max) {
      var m: Message :| ValidMessage(m) && |m.lines| <= max && Holds(s, 0, MessageText(m));
      MessageParsed(s, max, m);
    }
  }
}
