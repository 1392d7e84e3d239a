/**
  The texts a parse from scratch rejects, told by their bytes: what is well formed so far, and the byte at which no
  request can go on, or one header line more than there is room for.
*/
module HttpFaults {
  import opened Bytes
  import opened HttpRequest
  import opened HttpGrammar
  import opened Literals

  // ---------------------------------------------------------------------------------------
  // Faults
  // ---------------------------------------------------------------------------------------

  /** A carriage return that something other than a line feed follows. */
  predicate BareCr(s: seq<byte>, k: nat) {
    k + 1 < |s| && s[k] == '\r' as int && s[k + 1] != '\n' as int
  }

  /** No line end can stand here. */
  predicate EolFault(s: seq<byte>, m: nat) {
    m < |s| && ((s[m] != '\r' as int && s[m] != '\n' as int) || BareCr(s, m))
  }

  predicate TokenRun(s: seq<byte>, i: nat, e: nat) {
    i <= e <= |s| && forall k | i <= k < e :: TokenChar(s[k])
  }

  predicate TargetRun(s: seq<byte>, i: nat, e: nat) {
    i <= e <= |s| && forall k | i <= k < e :: TargetChar(s[k])
  }

  predicate SpaceRun(s: seq<byte>, i: nat, e: nat) {
    i <= e <= |s| && forall k | i <= k < e :: s[k] == ' ' as int
  }

  predicate BlankRun(s: seq<byte>, i: nat, e: nat) {
    i <= e <= |s| && forall k | i <= k < e :: Blank(s[k])
  }

  predicate ValueRun(s: seq<byte>, i: nat, e: nat) {
    i <= e <= |s| && forall k | i <= k < e :: FieldChar(s[k])
  }

  /** Behind token characters a byte that neither goes on nor ends the token. */
  predicate TokenFault(s: seq<byte>, i: nat, stop: byte) {
    exists e: nat | i <= e < |s| :: TokenRun(s, i, e) && s[e] != stop && !TokenChar(s[e])
  }

  predicate TargetFault(s: seq<byte>, i: nat) {
    exists e: nat | i <= e < |s| :: TargetRun(s, i, e) && s[e] != ' ' as int && !TargetChar(s[e])
  }

  /** A control character in a value, and no line end. */
  predicate ValueFault(s: seq<byte>, i: nat) {
    exists e: nat | i <= e < |s| :: ValueRun(s, i, e) && !FieldChar(s[e]) && EolFault(s, e)
  }

  /** A method from `i` to `e`, and spaces up to `j`. */
  predicate VerbTo(s: seq<byte>, i: nat, e: nat, j: nat) {
    e < j < |s| && TokenRun(s, i, e) && SpaceRun(s, e, j) && s[j] != ' ' as int
  }

  predicate PathTo(s: seq<byte>, i: nat, e: nat, j: nat) {
    e < j < |s| && TargetRun(s, i, e) && SpaceRun(s, e, j) && s[j] != ' ' as int
  }

  /** A version looked at, and something else found. */
  predicate VersionFault(s: seq<byte>, k: nat) {
    k + 9 <= |s| && (s[k..k + 7] != Ascii("HTTP/1.") || !('0' as int <= s[k + 7] <= '9' as int) || EolFault(s, k + 8))
  }

  /** In the request line; that the method is missing is seen behind the target. */
  predicate StartFault(s: seq<byte>, i: nat) {
    || TokenFault(s, i, ' ' as int)
    || exists e: nat, j: nat | e < |s| && j < |s| :: VerbTo(s, i, e, j) && RestFault(s, i, e, j)
  }

  predicate RestFault(s: seq<byte>, i: nat, e: nat, j: nat) {
    || TargetFault(s, j)
    || exists f: nat, k: nat | f < |s| && k < |s| :: PathTo(s, j, f, k) && (e == i || VersionFault(s, k))
  }

  /** A name from `i` to its colon, and blanks up to the value. */
  predicate NameTo(s: seq<byte>, i: nat, c: nat, j: nat) {
    i < c < j < |s| && TokenRun(s, i, c) && s[c] == ':' as int && BlankRun(s, c + 1, j) && !Blank(s[j])
  }

  /** In a header line, or in the continuation of one. */
  predicate LineFault(s: seq<byte>, i: nat, first: bool)
    requires i < |s|
  {
    if !first && Blank(s[i]) then ValueFault(s, i)
    else
      || s[i] == ':' as int || TokenFault(s, i, ':' as int)
      || exists c: nat, j: nat | c < |s| && j < |s| :: NameTo(s, i, c, j) && ValueFault(s, j)
  }

  /** Where a header line or the empty line is due. */
  predicate HeadFault(s: seq<byte>, p: nat, n: nat, max: nat) {
    p < |s| && if s[p] == '\r' as int || s[p] == '\n' as int then BareCr(s, p) else n >= max || LineFault(s, p, n == 0)
  }

  /** Some header lines, and a fault behind them. */
  ghost predicate LinesFault(s: seq<byte>, i: nat, n: nat, max: nat) {
    exists lines: seq<Line> ::
      && n + |lines| <= max && ValidLines(lines, n == 0) && Holds(s, i, LinesText(lines, []))
      && HeadFault(s, i + |LinesText(lines, [])|, n + |lines|, max)
  }

  /** The empty line that may come first. */
  predicate LeadTo(s: seq<byte>, i: nat) {
    i <= |s| && if i == 0 then s != [] && s[0] != '\r' as int && s[0] != '\n' as int else IsEol(s[..i])
  }

  ghost predicate BodyFault(s: seq<byte>, i: nat, max: nat) {
    || StartFault(s, i)
    || exists t: Start :: ValidStart(t) && Holds(s, i, StartText(t)) && LinesFault(s, i + |StartText(t)|, 0, max)
  }

  /** The text begins as a request does and then cannot go on, or has too many header lines. */
  ghost predicate Faulty(s: seq<byte>, max: nat) {
    BareCr(s, 0) || exists i: nat | i <= |s| :: LeadTo(s, i) && BodyFault(s, i, max)
  }

  // ---------------------------------------------------------------------------------------
  // Each loop rejects at its fault
  // ---------------------------------------------------------------------------------------

  lemma {:induction false} TokenRejects(s: seq<byte>, start: nat, i: nat, stop: byte)
    requires start <= i <= |s| && !TokenChar(stop)
    ensures Token(s, start, i, stop).Invalid? <==> TokenFault(s, i, stop)
    decreases |s| - i
  {
    if i < |s| {
      TokenTable(s[i]);
    }
    hide IsTokenChar, TokenChar;
    if i < |s| && s[i] != stop {
      if TokenChar(s[i]) {
        TokenRejects(s, start, i + 1, stop);
        if TokenFault(s, i + 1, stop) {
          var e: nat :| i + 1 <= e < |s| && TokenRun(s, i + 1, e) && s[e] != stop && !TokenChar(s[e]);
          assert TokenRun(s, i, e);
        }
        if TokenFault(s, i, stop) {
          var e: nat :| i <= e < |s| && TokenRun(s, i, e) && s[e] != stop && !TokenChar(s[e]);
          assert TokenRun(s, i + 1, e);
        }
      } else {
        assert TokenRun(s, i, i);
      }
    }
  }

  lemma {:induction false} TargetRejects(s: seq<byte>, start: nat, i: nat)
    requires start <= i <= |s|
    ensures Target(s, start, i).Invalid? <==> TargetFault(s, i)
    decreases |s| - i
  {
    if i < |s| && s[i] != SP {
      if TargetChar(s[i]) {
        TargetRejects(s, start, i + 1);
        if TargetFault(s, i + 1) {
          var e: nat :| i + 1 <= e < |s| && TargetRun(s, i + 1, e) && s[e] != SP && !TargetChar(s[e]);
          assert TargetRun(s, i, e);
        }
        if TargetFault(s, i) {
          var e: nat :| i <= e < |s| && TargetRun(s, i, e) && s[e] != SP && !TargetChar(s[e]);
          assert TargetRun(s, i + 1, e);
        }
      } else {
        assert TargetRun(s, i, i);
      }
    }
  }

  lemma {:induction false} ValueRejects(s: seq<byte>, start: nat, i: nat)
    requires start <= i <= |s|
    ensures ToEol(s, start, i).Invalid? <==> ValueFault(s, i)
    decreases |s| - i
  {
    if i < |s| {
      if FieldChar(s[i]) {
        ValueRejects(s, start, i + 1);
        if ValueFault(s, i + 1) {
          var e: nat :| i + 1 <= e < |s| && ValueRun(s, i + 1, e) && !FieldChar(s[e]) && EolFault(s, e);
          assert ValueRun(s, i, e);
        }
        if ValueFault(s, i) {
          var e: nat :| i <= e < |s| && ValueRun(s, i, e) && !FieldChar(s[e]) && EolFault(s, e);
          assert ValueRun(s, i + 1, e);
        }
      } else {
        assert ValueRun(s, i, i);
      }
    }
  }

  // ---------------------------------------------------------------------------------------
  // Header lines
  // ---------------------------------------------------------------------------------------

  /** Where the name and the blanks behind it end, by the bytes. */
  lemma NameEnds(s: seq<byte>, i: nat, first: bool, c: nat, j: nat)
    requires i < |s| && (first || !Blank(s[i])) && NameTo(s, i, c, j)
    ensures HeaderName(s, i, first) == Ok(Some(Slice(i, c - i)), j)
  {
    TokenStops(s, i, i, ':' as int, c);
    hide Token, SkipBlanks;
    NameThenBlanks(s, i, first, c, j);
  }

  lemma NameFound(s: seq<byte>, i: nat, first: bool) returns (c: nat, j: nat)
    requires i < |s| && (first || !Blank(s[i])) && HeaderName(s, i, first).Ok?
    ensures NameTo(s, i, c, j) && HeaderName(s, i, first).next == j
  {
    c := Token(s, i, i, ':' as int).next;
    j := HeaderName(s, i, first).next;
    TokenStops(s, i, i, ':' as int, c);
    BlanksStop(s, c + 1, j);
  }

  lemma NameRejects(s: seq<byte>, i: nat, first: bool)
    requires i < |s|
    ensures HeaderName(s, i, first).Invalid? <==>
              (first || !Blank(s[i])) && (s[i] == ':' as int || TokenFault(s, i, ':' as int))
  {
    TokenRejects(s, i, i, ':' as int);
    hide SkipBlanks, TokenFault;
  }

  /** A header line is rejected exactly at a fault. */
  lemma LineRejects(s: seq<byte>, i: nat, first: bool)
    requires i < |s|
    ensures HeaderLine(s, i, first).Invalid? <==> LineFault(s, i, first)
  {
    NameRejects(s, i, first);
    var name := HeaderName(s, i, first);
    if name.Ok? {
      ValueRejects(s, name.next, name.next);
    }
    if first || !Blank(s[i]) {
      if name.Ok? {
        var c, j := NameFound(s, i, first);
      }
      if exists c: nat, j: nat | c < |s| && j < |s| :: NameTo(s, i, c, j) && ValueFault(s, j) {
        var c: nat, j: nat :| c < |s| && j < |s| && NameTo(s, i, c, j) && ValueFault(s, j);
        NameEnds(s, i, first, c, j);
      }
    }
    hide HeaderName, ToEol, TokenFault, ValueFault, NameTo;
  }

  lemma NoneYet(s: seq<byte>, i: nat, n: nat, max: nat)
    requires n <= max && i <= |s| && HeadFault(s, i, n, max)
    ensures LinesFault(s, i, n, max)
  {
    var none: seq<Line> := [];
    assert LinesText(none, []) == [];
  }

  lemma OneMore(s: seq<byte>, i: nat, l: Line, n: nat, max: nat)
    requires n < max && ValidLine(l, n == 0) && Holds(s, i, LineText(l)) && LinesFault(s, i + |LineText(l)|, n + 1, max)
    ensures LinesFault(s, i, n, max)
  {
    hide HeadFault, LineText, ValidLine, Holds;
    var more: seq<Line> :|
      && n + 1 + |more| <= max && ValidLines(more, false) && Holds(s, i + |LineText(l)|, LinesText(more, []))
      && HeadFault(s, i + |LineText(l)| + |LinesText(more, [])|, n + 1 + |more|, max);
    var lines := [l] + more;
    assert lines[1..] == more;
    HoldsParts(s, i, LineText(l), LinesText(more, []));
    assert LinesText(lines, []) == LineText(l) + LinesText(more, []);
  }

  lemma OneLess(s: seq<byte>, i: nat, n: nat, max: nat)
    requires LinesFault(s, i, n, max) && i <= |s| && n <= max
    ensures HeadFault(s, i, n, max)
         || (n < max && exists l: Line ::
               ValidLine(l, n == 0) && Holds(s, i, LineText(l)) && LinesFault(s, i + |LineText(l)|, n + 1, max))
  {
    hide HeadFault, LineText, ValidLine, Holds;
    var lines: seq<Line> :|
      && n + |lines| <= max && ValidLines(lines, n == 0) && Holds(s, i, LinesText(lines, []))
      && HeadFault(s, i + |LinesText(lines, [])|, n + |lines|, max);
    if lines != [] {
      var l, more := lines[0], lines[1..];
      HoldsParts(s, i, LineText(l), LinesText(more, []));
      assert LinesFault(s, i + |LineText(l)|, n + 1, max);
    }
  }

  /** The header lines are rejected exactly when some of them are there and then a fault. */
  lemma {:induction false} HeadersReject(s: seq<byte>, i: nat, n: nat, max: nat)
    requires i <= |s| && n <= max
    ensures Headers(s, i, n, max).Invalid? <==> LinesFault(s, i, n, max)
    decreases |s| - i
  {
    hide LinesFault, HeaderLine, LineFault, LineText, ValidLine, Holds;
    if LinesFault(s, i, n, max) {
      OneLess(s, i, n, max);
    }
    if i < |s| {
      if HeadFault(s, i, n, max) {
        NoneYet(s, i, n, max);
      }
      LineRejects(s, i, n == 0);
      if s[i] != CR && s[i] != LF && n < max {
        if HeaderLine(s, i, n == 0).Ok? {
          var l := LineRead(s, i, n == 0);
          LineReads(s, i, l, n == 0);
          HeadersReject(s, i + |LineText(l)|, n + 1, max);
          HeadersStep(s, i, n, max);
          if LinesFault(s, i + |LineText(l)|, n + 1, max) {
            OneMore(s, i, l, n, max);
          }
        }
      }
      forall l: Line | ValidLine(l, n == 0) && Holds(s, i, LineText(l))
        ensures s[i] != CR && s[i] != LF && HeaderLine(s, i, n == 0).Ok? && HeaderLine(s, i, n == 0).next == i + |LineText(l)|
      {
        NotEmptyLine(s, i, l, n == 0);
        LineReads(s, i, l, n == 0);
      }
    } else {
      forall l: Line | ValidLine(l, n == 0) && Holds(s, i, LineText(l)) ensures false {
        LineReads(s, i, l, n == 0);
      }
    }
  }

  // ---------------------------------------------------------------------------------------
  // The request line
  // ---------------------------------------------------------------------------------------

  lemma VerbEnds(s: seq<byte>, i: nat, e: nat, j: nat)
    requires VerbTo(s, i, e, j)
    ensures i <= e && WordThenSpaces(s, Token(s, i, i, SP)) == Ok(Slice(i, e - i), j)
  {
    TokenStops(s, i, i, SP, e);
    SpacesStop(s, e + 1, j);
    hide Token, SkipSpaces;
  }

  lemma VerbRead(s: seq<byte>, i: nat) returns (e: nat, j: nat)
    requires i <= |s| && WordThenSpaces(s, Token(s, i, i, SP)).Ok?
    ensures VerbTo(s, i, e, j) && WordThenSpaces(s, Token(s, i, i, SP)) == Ok(Slice(i, e - i), j)
  {
    e, j := Token(s, i, i, SP).next, WordThenSpaces(s, Token(s, i, i, SP)).next;
    TokenStops(s, i, i, SP, e);
    SpacesStop(s, e + 1, j);
    hide Token, SkipSpaces;
  }

  lemma PathEnds(s: seq<byte>, i: nat, e: nat, j: nat)
    requires PathTo(s, i, e, j)
    ensures i <= e && WordThenSpaces(s, Target(s, i, i)) == Ok(Slice(i, e - i), j)
  {
    TargetStops(s, i, i, e);
    SpacesStop(s, e + 1, j);
    hide Target, SkipSpaces;
  }

  lemma PathRead(s: seq<byte>, i: nat) returns (e: nat, j: nat)
    requires i <= |s| && WordThenSpaces(s, Target(s, i, i)).Ok?
    ensures PathTo(s, i, e, j) && WordThenSpaces(s, Target(s, i, i)) == Ok(Slice(i, e - i), j)
  {
    e, j := Target(s, i, i).next, WordThenSpaces(s, Target(s, i, i)).next;
    TargetStops(s, i, i, e);
    SpacesStop(s, e + 1, j);
    hide Target, SkipSpaces;
  }

  lemma VersionRejects(s: seq<byte>, k: nat)
    requires k <= |s|
    ensures VersionLine(s, k).Invalid? <==> VersionFault(s, k)
  {
  }

  lemma WordRejects(s: seq<byte>, word: Parsed<Slice>)
    requires word.Ok? ==> word.next < |s|
    ensures WordThenSpaces(s, word).Invalid? <==> word.Invalid?
  {
  }

  /** Behind the method: the target, the method's being there, and the version. */
  lemma RestRejects(s: seq<byte>, i: nat, e: nat, j: nat)
    requires i <= |s| && VerbTo(s, i, e, j)
    ensures RequestLineAt(s, i).Invalid? <==> RestFault(s, i, e, j)
  {
    VerbEnds(s, i, e, j);
    TargetRejects(s, j, j);
    var path := WordThenSpaces(s, Target(s, j, j));
    WordRejects(s, Target(s, j, j));
    hide Token, Target, WordThenSpaces, VersionLine, TargetFault, VersionFault;
    if path.Ok? {
      var f, k := PathRead(s, j);
      VersionRejects(s, k);
      NotEmptyPath(s, j, f, k);
      forall f', k' | PathTo(s, j, f', k') ensures f' == f && k' == k {
        PathEnds(s, j, f', k');
      }
      hide PathTo, VerbTo;
    } else {
      forall f, k ensures !PathTo(s, j, f, k) {
        if PathTo(s, j, f, k) {
          PathEnds(s, j, f, k);
        }
      }
      hide PathTo, VerbTo;
    }
  }

  lemma NotEmptyPath(s: seq<byte>, j: nat, f: nat, k: nat)
    requires j < |s| && s[j] != SP && PathTo(s, j, f, k)
    ensures j < f
  {
  }

  /** The request line is rejected exactly at a fault. */
  lemma StartRejects(s: seq<byte>, i: nat)
    requires i <= |s|
    ensures RequestLineAt(s, i).Invalid? <==> StartFault(s, i)
  {
    TokenRejects(s, i, i, SP);
    WordRejects(s, Token(s, i, i, SP));
    hide Token, Target, WordThenSpaces, VersionLine, RestFault, TokenFault;
    if WordThenSpaces(s, Token(s, i, i, SP)).Ok? {
      var e, j := VerbRead(s, i);
      RestRejects(s, i, e, j);
      forall e', j' | VerbTo(s, i, e', j') ensures e' == e && j' == j {
        VerbEnds(s, i, e', j');
      }
      hide VerbTo;
    } else {
      forall e, j ensures !VerbTo(s, i, e, j) {
        if VerbTo(s, i, e, j) {
          VerbEnds(s, i, e, j);
        }
      }
      hide VerbTo;
    }
  }

  // ---------------------------------------------------------------------------------------
  // The whole request
  // ---------------------------------------------------------------------------------------

  lemma LeadRejects(s: seq<byte>)
    ensures LeadingLine(s).Invalid? <==> BareCr(s, 0)
  {
  }

  lemma LeadEnds(s: seq<byte>, i: nat)
    ensures LeadTo(s, i) <==> LeadingLine(s).Ok? && LeadingLine(s).next == i
  {
    if i <= |s| {
      EolReads(s, 0, i);
      assert s[..i] == s[0..i];
    }
  }

  lemma PartsRejected(s: seq<byte>, i: nat, max: nat)
    requires LeadingLine(s).Ok? && LeadingLine(s).next == i
    ensures var line := RequestLineAt(s, i);
            ParseRequest(s, max).Invalid? <==> line.Invalid? || (line.Ok? && Headers(s, line.next, 0, max).Invalid?)
  {
    hide LeadingLine, RequestLineAt, Headers;
  }

  lemma NoStart(s: seq<byte>, i: nat, t: Start)
    requires i <= |s| && !RequestLineAt(s, i).Ok?
    ensures !(ValidStart(t) && Holds(s, i, StartText(t)))
  {
    hide RequestLineAt, StartText, ValidStart, Holds;
    if ValidStart(t) && Holds(s, i, StartText(t)) {
      StartReads(s, i, t);
    }
  }

  lemma BodyRejects(s: seq<byte>, i: nat, max: nat)
    requires LeadingLine(s).Ok? && LeadingLine(s).next == i
    ensures ParseRequest(s, max).Invalid? <==> BodyFault(s, i, max)
  {
    hide ParseRequest, LeadingLine, RequestLineAt, Headers, StartFault, LinesFault, StartText, ValidStart, Holds;
    PartsRejected(s, i, max);
    StartRejects(s, i);
    if RequestLineAt(s, i).Ok? {
      HeadersReject(s, RequestLineAt(s, i).next, 0, max);
      LinesRejected(s, i, max);
    } else {
      forall t: Start ensures !(ValidStart(t) && Holds(s, i, StartText(t))) {
        NoStart(s, i, t);
      }
    }
  }

  lemma LinesRejected(s: seq<byte>, i: nat, max: nat)
    requires i <= |s| && RequestLineAt(s, i).Ok?
    ensures LinesFault(s, RequestLineAt(s, i).next, 0, max) <==>
              exists t: Start :: ValidStart(t) && Holds(s, i, StartText(t)) && LinesFault(s, i + |StartText(t)|, 0, max)
  {
    hide RequestLineAt, LinesFault, StartText, ValidStart, Holds;
    var t := StartFound(s, i);
    StartReads(s, i, t);
    forall other: Start | ValidStart(other) && Holds(s, i, StartText(other))
      ensures RequestLineAt(s, i).next == i + |StartText(other)|
    {
      StartReads(s, i, other);
    }
  }

  /** Main result: a parse from scratch rejects exactly the texts with a fault. */
  lemma InvalidExactly(s: seq<byte>, max: nat)
    ensures ParseRequest(s, max).Invalid? <==> Faulty(s, max)
  {
    LeadRejects(s);
    hide ParseRequest, LeadingLine, BodyFault, LeadTo, BareCr;
    var lead := LeadingLine(s);
    if lead.Ok? {
      BodyRejects(s, lead.next, max);
    }
    forall i: nat | LeadTo(s, i) ensures lead.Ok? && lead.next == i {
      LeadEnds(s, i);
    }
    if lead.Ok? {
      LeadEnds(s, lead.next);
    } else {
      NoBody(s, max);
    }
  }

  lemma NoBody(s: seq<byte>, max: nat)
    requires !LeadingLine(s).Ok?
    ensures ParseRequest(s, max).Invalid? <==> LeadingLine(s).Invalid?
  {
  }
}
