/**
  When the cheap completeness test changes what the request parser answers: what the test finds, told by
  the bytes alone, and the two ways in which it and a parse from scratch can differ.
*/
module HttpShortcut {
  import opened Bytes
  import opened HttpRequest
  import opened HttpRequestProofs
  import opened HttpGrammar
  import opened HttpFaults

  // ---------------------------------------------------------------------------------------
  // What the completeness test finds
  // ---------------------------------------------------------------------------------------

  /** A line feed that a whole line end follows. */
  predicate EmptyLine(s: seq<byte>, k: nat) {
    && k + 1 < |s| && s[k] == '\n' as int
    && (s[k + 1] == '\n' as int || (k + 2 < |s| && s[k + 1] == '\r' as int && s[k + 2] == '\n' as int))
  }

  predicate Quiet(s: seq<byte>, from: nat) {
    forall k: nat | from <= k < |s| :: !BareCr(s, k) && !EmptyLine(s, k)
  }

  predicate BareCrFirst(s: seq<byte>, from: nat) {
    exists k: nat | from <= k < |s| :: BareCr(s, k) && forall m: nat | from <= m < k :: !EmptyLine(s, m)
  }

  function Restart(lastLen: nat): nat {
    if lastLen < 3 then 0 else lastLen - 3
  }

  /** A scan with one line end behind it stands just after that line's feed. */
  predicate ScanState(s: seq<byte>, i: nat, count: nat, from: nat) {
    i <= |s| && if count == 0 then from == i else count == 1 && from + 1 == i && s[from] == LF
  }

  /** The scan asks for more exactly on bytes with neither an empty line nor a bare carriage return. */
  lemma {:induction false} ScanPartial(s: seq<byte>, i: nat, count: nat, from: nat)
    requires ScanState(s, i, count, from)
    ensures CompleteFrom(s, i, count).Partial? <==> Quiet(s, from)
    decreases |s| - i
  {
    if i < |s| {
      if s[i] == CR || s[i] == LF {
        var end := LineEnd(s, i);
        if end.Invalid? {
          assert BareCr(s, i);
        } else if end.Ok? && count == 1 {
          assert EmptyLine(s, from);
        } else if end.Ok? {
          ScanPartial(s, end.next, 1, end.next - 1);
        }
      } else {
        ScanPartial(s, i + 1, 0, i + 1);
      }
    }
  }

  /** It rejects exactly the bytes with a bare carriage return before any empty line. */
  lemma {:induction false} ScanInvalid(s: seq<byte>, i: nat, count: nat, from: nat)
    requires ScanState(s, i, count, from)
    ensures CompleteFrom(s, i, count).Invalid? <==> BareCrFirst(s, from)
    decreases |s| - i
  {
    if i < |s| {
      if s[i] == CR || s[i] == LF {
        var end := LineEnd(s, i);
        if end.Invalid? {
          assert BareCr(s, i) && forall m: nat | from <= m < i :: !EmptyLine(s, m);
        } else if end.Ok? && count == 1 {
          assert EmptyLine(s, from);
        } else if end.Ok? {
          ScanInvalid(s, end.next, 1, end.next - 1);
          BareCrLater(s, from, end.next - 1);
        }
      } else {
        ScanInvalid(s, i + 1, 0, i + 1);
        BareCrLater(s, from, i + 1);
      }
    }
  }

  lemma BareCrLater(s: seq<byte>, from: nat, i: nat)
    requires from <= i && forall k: nat | from <= k < i :: !BareCr(s, k) && !EmptyLine(s, k)
    ensures BareCrFirst(s, from) <==> BareCrFirst(s, i)
  {
    if BareCrFirst(s, i) {
      var k: nat :| i <= k < |s| && BareCr(s, k) && forall m: nat | i <= m < k :: !EmptyLine(s, m);
      assert forall m: nat | from <= m < k :: !EmptyLine(s, m);
    }
  }

  // ---------------------------------------------------------------------------------------
  // What a parse from scratch reads before it asks for more
  // ---------------------------------------------------------------------------------------

  predicate NoBareCr(s: seq<byte>, i: nat, j: nat) {
    forall k: nat | i <= k < j :: !BareCr(s, k)
  }

  /** Method and target are read, and fewer bytes are left than a version takes. */
  predicate AwaitsVersion(s: seq<byte>) {
    LeadingLine(s).Ok? &&
    var verb := WordThenSpaces(s, Token(s, LeadingLine(s).next, LeadingLine(s).next, SP));
    verb.Ok? && verb.value.len > 0 &&
    var path := WordThenSpaces(s, Target(s, verb.next, verb.next));
    path.Ok? && path.value.len > 0 && |s| - path.next < 9
  }

  lemma {:induction false} TokenReads(s: seq<byte>, start: nat, i: nat, stop: byte)
    requires start <= i <= |s| && Token(s, start, i, stop).Partial?
    ensures NoBareCr(s, i, |s|)
    decreases |s| - i
  {
    if i < |s| {
      TokenReads(s, start, i + 1, stop);
    }
  }

  lemma {:induction false} TargetReads(s: seq<byte>, start: nat, i: nat)
    requires start <= i <= |s| && Target(s, start, i).Partial?
    ensures NoBareCr(s, i, |s|)
    decreases |s| - i
  {
    if i < |s| {
      TargetReads(s, start, i + 1);
    }
  }

  lemma {:induction false} SpacesRead(s: seq<byte>, i: nat)
    requires i <= |s| && SkipSpaces(s, i).Partial?
    ensures NoBareCr(s, i, |s|)
    decreases |s| - i
  {
    if i < |s| {
      SpacesRead(s, i + 1);
    }
  }

  lemma {:induction false} BlanksRead(s: seq<byte>, i: nat)
    requires i <= |s| && SkipBlanks(s, i).Partial?
    ensures NoBareCr(s, i, |s|)
    decreases |s| - i
  {
    if i < |s| {
      BlanksRead(s, i + 1);
    }
  }

  lemma {:induction false} ToEolReads(s: seq<byte>, start: nat, i: nat)
    requires start <= i <= |s| && ToEol(s, start, i).Partial?
    ensures NoBareCr(s, i, |s|)
    decreases |s| - i
  {
    if i < |s| && !IsValueCtl(s[i]) {
      ToEolReads(s, start, i + 1);
    }
  }

  lemma HeaderLineReads(s: seq<byte>, i: nat, first: bool)
    requires i < |s| && HeaderLine(s, i, first).Partial?
    ensures NoBareCr(s, i, |s|)
  {
    hide Token, SkipBlanks, ToEol;
    var name := HeaderName(s, i, first);
    var token := Token(s, i, i, ':' as int);
    if name.Partial? && token.Partial? {
      TokenReads(s, i, i, ':' as int);
    } else {
      if first || !IsBlank(s[i]) {
        TokenPaired(s, i, i, ':' as int);
        if name.Partial? {
          BlanksRead(s, token.next + 1);
        } else {
          SkipBlanksPaired(s, token.next + 1);
        }
      }
      if name.Ok? {
        ToEolReads(s, name.next, name.next);
      }
    }
  }

  lemma {:induction false} HeadersRead(s: seq<byte>, i: nat, n: nat, max: nat)
    requires i <= |s| && n <= max && Headers(s, i, n, max).Partial?
    ensures NoBareCr(s, i, |s|)
    decreases |s| - i
  {
    if i < |s| && s[i] != CR && s[i] != LF {
      var line := HeaderLine(s, i, n == 0);
      if line.Partial? {
        HeaderLineReads(s, i, n == 0);
      } else {
        HeaderLinePaired(s, i, n == 0);
        HeadersRead(s, line.next, n + 1, max);
      }
    }
  }

  lemma WordReads(s: seq<byte>, word: Parsed<Slice>)
    requires word.Ok? && word.next < |s| && s[word.next] != CR && WordThenSpaces(s, word).Partial?
    ensures NoBareCr(s, word.next, |s|)
  {
    SpacesRead(s, word.next + 1);
  }

  lemma VersionLineReads(s: seq<byte>, i: nat)
    requires i <= |s| && VersionLine(s, i).Partial? && |s| - i >= 9
    ensures NoBareCr(s, i, |s|)
  {
    assert forall k | i <= k < i + 7 :: s[k] == s[i..i + 7][k - i] == HTTP_1[k - i];
  }

  /** A request line that is not all there was read to the end, unless it ends in a part of the version. */
  lemma RequestLineReads(s: seq<byte>, i: nat)
    requires LeadingLine(s).Ok? && i == LeadingLine(s).next && RequestLineAt(s, i).Partial? && !AwaitsVersion(s)
    ensures NoBareCr(s, i, |s|)
  {
    hide Token, Target, SkipSpaces, VersionLine;
    var verb := Token(s, i, i, SP);
    if verb.Partial? {
      TokenReads(s, i, i, SP);
    } else {
      TokenPaired(s, i, i, SP);
      var j := WordThenSpaces(s, verb);
      if j.Partial? {
        WordReads(s, verb);
      } else {
        WordPaired(s, verb);
        var path := Target(s, j.next, j.next);
        if path.Partial? {
          TargetReads(s, j.next, j.next);
        } else {
          TargetPaired(s, j.next, j.next);
          var k := WordThenSpaces(s, path);
          if k.Partial? {
            WordReads(s, path);
          } else {
            WordPaired(s, path);
            VersionLineReads(s, k.next);
          }
        }
      }
    }
  }

  /** A parse that asks for more has seen every carriage return, unless it waits for the version. */
  lemma PartialReadsAll(s: seq<byte>, max: nat)
    requires ParseRequest(s, max).Partial? && !AwaitsVersion(s)
    ensures NoBareCr(s, 0, |s|)
  {
    hide RequestLineAt, Headers, AwaitsVersion;
    var lead := LeadingLine(s);
    if lead.Ok? {
      var line := RequestLineAt(s, lead.next);
      if line.Partial? {
        RequestLineReads(s, lead.next);
      } else {
        RequestLinePaired(s, lead.next);
        HeadersRead(s, line.next, 0, max);
      }
    }
  }

  lemma AwaitingIsPartial(s: seq<byte>, max: nat)
    requires AwaitsVersion(s)
    ensures ParseRequest(s, max).Partial?
  {
    hide Token, Target, WordThenSpaces;
  }

  // ---------------------------------------------------------------------------------------
  // Nor does it pass an empty line
  // ---------------------------------------------------------------------------------------

  predicate NoEmptyLine(s: seq<byte>, i: nat) {
    forall k: nat | i <= k < |s| :: !EmptyLine(s, k)
  }

  predicate NoLf(s: seq<byte>, i: nat, j: nat) {
    forall k: nat | i <= k < j && k < |s| :: s[k] != LF
  }

  lemma {:induction false} TokenNoLf(s: seq<byte>, start: nat, i: nat, stop: byte)
    requires start <= i <= |s| && !Token(s, start, i, stop).Invalid? && stop != LF
    ensures var r := Token(s, start, i, stop); NoLf(s, i, if r.Ok? then r.next + 1 else |s|)
    decreases |s| - i
  {
    if i < |s| && s[i] != stop {
      TokenNoLf(s, start, i + 1, stop);
    }
  }

  lemma {:induction false} TargetNoLf(s: seq<byte>, start: nat, i: nat)
    requires start <= i <= |s| && !Target(s, start, i).Invalid?
    ensures var r := Target(s, start, i); NoLf(s, i, if r.Ok? then r.next + 1 else |s|)
    decreases |s| - i
  {
    if i < |s| && s[i] != SP {
      TargetNoLf(s, start, i + 1);
    }
  }

  lemma {:induction false} SpacesNoLf(s: seq<byte>, i: nat)
    requires i <= |s|
    ensures var r := SkipSpaces(s, i); NoLf(s, i, if r.Ok? then r.next else |s|)
    decreases |s| - i
  {
    if i < |s| && s[i] == SP {
      SpacesNoLf(s, i + 1);
    }
  }

  lemma {:induction false} BlanksNoLf(s: seq<byte>, i: nat)
    requires i <= |s|
    ensures var r := SkipBlanks(s, i); NoLf(s, i, if r.Ok? then r.next else |s|)
    decreases |s| - i
  {
    if i < |s| && IsBlank(s[i]) {
      BlanksNoLf(s, i + 1);
    }
  }

  lemma {:induction false} ToEolNoLf(s: seq<byte>, start: nat, i: nat)
    requires start <= i <= |s| && !ToEol(s, start, i).Invalid?
    ensures var r := ToEol(s, start, i); NoLf(s, i, if r.Ok? then r.next - 1 else |s|)
    decreases |s| - i
  {
    if i < |s| && !IsValueCtl(s[i]) {
      ToEolNoLf(s, start, i + 1);
    }
  }

  lemma HeaderNameNoLf(s: seq<byte>, i: nat, first: bool)
    requires i < |s| && !HeaderName(s, i, first).Invalid?
    ensures var r := HeaderName(s, i, first); NoLf(s, i, if r.Ok? then r.next else |s|)
  {
    hide Token, SkipBlanks;
    if first || !IsBlank(s[i]) {
      TokenNoLf(s, i, i, ':' as int);
      var name := Token(s, i, i, ':' as int);
      if name.Ok? {
        BlanksNoLf(s, name.next + 1);
      }
    }
  }

  lemma HeaderLineNoLf(s: seq<byte>, i: nat, first: bool)
    requires i < |s| && !HeaderLine(s, i, first).Invalid?
    ensures var r := HeaderLine(s, i, first); NoLf(s, i, if r.Ok? then r.next - 1 else |s|)
  {
    HeaderNameNoLf(s, i, first);
    var name := HeaderName(s, i, first);
    if name.Ok? {
      ToEolNoLf(s, name.next, name.next);
    }
    hide HeaderName, ToEol, TrimBlanks;
  }

  /** Behind a line feed, header lines that are not all there hold no empty line, the one line feed counted. */
  lemma {:induction false} HeadersNoEmpty(s: seq<byte>, i: nat, n: nat, max: nat)
    requires 0 < i <= |s| && s[i - 1] == LF && n <= max && Headers(s, i, n, max).Partial?
    ensures NoEmptyLine(s, i - 1)
    decreases |s| - i
  {
    if i < |s| && s[i] != CR && s[i] != LF {
      HeaderLineNoLf(s, i, n == 0);
      var line := HeaderLine(s, i, n == 0);
      if line.Ok? {
        HeadersNoEmpty(s, line.next, n + 1, max);
      }
      hide HeaderLine, Headers;
    }
  }

  lemma WordNoLf(s: seq<byte>, word: Parsed<Slice>)
    requires word.Ok? ==> word.next < |s|
    requires word.Ok?
    ensures var r := WordThenSpaces(s, word); NoLf(s, word.next + 1, if r.Ok? then r.next else |s|)
  {
    SpacesNoLf(s, word.next + 1);
  }

  lemma VersionNoLf(s: seq<byte>, i: nat)
    requires i <= |s| && !VersionLine(s, i).Invalid? && (VersionLine(s, i).Partial? ==> |s| - i >= 9)
    ensures var r := VersionLine(s, i); NoLf(s, i, if r.Ok? then r.next - 1 else |s|)
  {
    assert forall k | i <= k < i + 7 :: s[k] == s[i..i + 7][k - i] == HTTP_1[k - i];
  }

  lemma RequestLineNoLf(s: seq<byte>, i: nat)
    requires LeadingLine(s).Ok? && i == LeadingLine(s).next && !RequestLineAt(s, i).Invalid?
    requires RequestLineAt(s, i).Partial? ==> !AwaitsVersion(s)
    ensures var r := RequestLineAt(s, i); NoLf(s, i, if r.Ok? then r.next - 1 else |s|)
  {
    hide Token, Target, SkipSpaces, VersionLine;
    var verb := Token(s, i, i, SP);
    TokenNoLf(s, i, i, SP);
    if verb.Ok? {
      WordNoLf(s, verb);
      var j := WordThenSpaces(s, verb);
      if j.Ok? {
        TargetNoLf(s, j.next, j.next);
        var path := Target(s, j.next, j.next);
        if path.Ok? {
          WordNoLf(s, path);
          var k := WordThenSpaces(s, path);
          if k.Ok? {
            VersionNoLf(s, k.next);
          }
        }
      }
    }
  }

  /** A parse that asks for more has seen no empty line, unless it waits for the version. */
  lemma PartialHasNoEmptyLine(s: seq<byte>, max: nat)
    requires ParseRequest(s, max).Partial? && !AwaitsVersion(s)
    ensures NoEmptyLine(s, 0)
  {
    hide RequestLineAt, Headers, AwaitsVersion;
    var lead := LeadingLine(s);
    if lead.Ok? {
      var i := lead.next;
      RequestLineNoLf(s, i);
      var line := RequestLineAt(s, i);
      if line.Ok? {
        HeadersNoEmpty(s, line.next, 0, max);
      }
      if i < |s| {
        NotLineEndFirst(s, i);
      }
    }
  }

  lemma LineEndRejected(s: seq<byte>, i: nat)
    requires i < |s| && (s[i] == CR || s[i] == LF)
    ensures RequestLineAt(s, i).Invalid?
  {
    TokenTable(s[i]);
    NotTokenEnd(s[i]);
    assert Token(s, i, i, SP) == Invalid;
    hide Target, VersionLine;
  }

  lemma NotLineEndFirst(s: seq<byte>, i: nat)
    requires i < |s| && !RequestLineAt(s, i).Invalid?
    ensures s[i] != CR && s[i] != LF
  {
    if s[i] == CR || s[i] == LF {
      LineEndRejected(s, i);
    }
  }

  // ---------------------------------------------------------------------------------------
  // Where the two routes differ
  // ---------------------------------------------------------------------------------------

  /** By the bytes: a method, spaces, a target, spaces, and then fewer bytes than a version takes. */
  predicate AwaitsText(s: seq<byte>) {
    exists i: nat, e: nat, j: nat, f: nat, k: nat | i <= |s| && e < |s| && j < |s| && f < |s| && k < |s| ::
      LeadTo(s, i) && VerbTo(s, i, e, j) && i < e && PathTo(s, j, f, k) && |s| - k < 9
  }

  lemma AwaitsExactly(s: seq<byte>)
    ensures AwaitsVersion(s) <==> AwaitsText(s)
  {
    if AwaitsText(s) {
      var i: nat, e: nat, j: nat, f: nat, k: nat :|
        LeadTo(s, i) && VerbTo(s, i, e, j) && i < e && PathTo(s, j, f, k) && |s| - k < 9;
      LeadEnds(s, i);
      VerbEnds(s, i, e, j);
      PathEnds(s, j, f, k);
    }
    if AwaitsVersion(s) {
      var i := LeadingLine(s).next;
      LeadEnds(s, i);
      var e, j := VerbRead(s, i);
      var f, k := PathRead(s, j);
    }
    hide Token, Target, WordThenSpaces, LeadingLine, LeadTo, VerbTo, PathTo;
  }

  /** The bytes from the restart on hold nothing the test stops at, and the text has a fault. */
  ghost predicate ReportsLater(s: seq<byte>, lastLen: nat, max: nat) {
    Faulty(s, max) && Quiet(s, Restart(lastLen))
  }

  /** A bare carriage return, before any empty line, in a text the parser would not look at yet. */
  predicate RejectsAlone(s: seq<byte>, lastLen: nat) {
    AwaitsText(s) && BareCrFirst(s, Restart(lastLen))
  }

  lemma ReportsLaterExactly(s: seq<byte>, lastLen: nat, max: nat)
    requires 0 < lastLen <= |s|
    ensures ParseRequest(s, max).Invalid? && ParseAgain(s, lastLen, max).Partial? <==> ReportsLater(s, lastLen, max)
  {
    hide ParseRequest, CompleteFrom, Quiet, Faulty;
    InvalidExactly(s, max);
    ScanPartial(s, Restart(lastLen), 0, Restart(lastLen));
  }

  lemma RejectsAloneExactly(s: seq<byte>, lastLen: nat, max: nat)
    requires 0 < lastLen <= |s|
    ensures ParseRequest(s, max).Partial? && ParseAgain(s, lastLen, max).Invalid? <==> RejectsAlone(s, lastLen)
  {
    hide ParseRequest, CompleteFrom, AwaitsVersion, AwaitsText;
    AwaitsExactly(s);
    ScanInvalid(s, Restart(lastLen), 0, Restart(lastLen));
    if AwaitsVersion(s) {
      AwaitingIsPartial(s, max);
    } else if ParseRequest(s, max).Partial? {
      PartialReadsAll(s, max);
    }
  }

  /** With the shortcut more is asked for exactly while the test sees nothing, or while the version is waited for. */
  lemma PartialAgainExactly(s: seq<byte>, lastLen: nat, max: nat)
    requires 0 < lastLen <= |s|
    ensures ParseAgain(s, lastLen, max).Partial? <==>
              Quiet(s, Restart(lastLen)) || (AwaitsText(s) && !BareCrFirst(s, Restart(lastLen)))
  {
    var from := Restart(lastLen);
    AwaitsExactly(s);
    ScanPartial(s, from, 0, from);
    ScanInvalid(s, from, 0, from);
    hide ParseRequest, CompleteFrom, AwaitsVersion, AwaitsText;
    if AwaitsVersion(s) {
      AwaitingIsPartial(s, max);
    } else if ParseRequest(s, max).Partial? {
      PartialReadsAll(s, max);
      PartialHasNoEmptyLine(s, max);
    }
  }

  /**
    Main result: with `lastLen` bytes seen before and found partial, the two routes answer alike, result
    and all, except exactly where the shortcut reports later or rejects alone.
   */
  lemma VerdictsCoincideExactly(s: seq<byte>, lastLen: nat, max: nat)
    requires 0 < lastLen <= |s| && ParseRequest(s[..lastLen], max).Partial?
    ensures ParseAgain(s, lastLen, max) == ParseRequest(s, max)
       <==> !ReportsLater(s, lastLen, max) && !RejectsAlone(s, lastLen)
  {
    ShortcutLosesNothing(s, lastLen, max);
    ReportsLaterExactly(s, lastLen, max);
    RejectsAloneExactly(s, lastLen, max);
    hide ParseRequest, IsComplete, ReportsLater, RejectsAlone;
  }

  /** A bad byte is reported later by the shortcut. */
  lemma ShortcutMayReportLater()
    ensures var s: seq<byte> := ['G' as int, 0];
            && ParseRequest(s[..1], 8).Partial?
            && ParseRequest(s, 8).Invalid? && ParseAgain(s, 1, 8).Partial?
  {
    var s: seq<byte> := ['G' as int, 0];
    assert s[..1] == ['G' as int];
    assert CompleteFrom(s, 2, 0).Partial?;
    assert CompleteFrom(s, 1, 0).Partial?;
    assert Token(s, 0, 1, SP).Invalid?;
    assert Token(s[..1], 0, 1, SP).Partial?;
  }

  /** A carriage return in place of the version is reported by the shortcut alone. */
  lemma ShortcutMayRejectAlone()
    ensures var s: seq<byte> := ['G' as int, SP, '/' as int, SP, CR, 'X' as int];
            && ParseRequest(s[..1], 8).Partial?
            && ParseRequest(s, 8).Partial? && ParseAgain(s, 1, 8).Invalid?
  {
    var s: seq<byte> := ['G' as int, SP, '/' as int, SP, CR, 'X' as int];
    assert s[..1] == ['G' as int];
    assert Token(s[..1], 0, 1, SP).Partial?;
    assert Token(s, 0, 1, SP).Ok?;
    assert SkipSpaces(s, 2) == Ok((), 2);
    assert Target(s, 2, 3).Ok?;
    assert SkipSpaces(s, 4) == Ok((), 4);
    assert AwaitsVersion(s);
    assert BareCr(s, 4) && forall m: nat | 0 <= m < 4 :: !EmptyLine(s, m);
    AwaitsExactly(s);
    RejectsAloneExactly(s, 1, 8);
    hide ParseRequest, ParseAgain;
  }
}
