/**
  What the request parser promises across calls on a growing buffer: a decided
  reading never changes, and the cheap completeness test loses no request.
*/
module HttpRequestProofs {
  import opened Bytes
  import opened HttpRequest

  // ---------------------------------------------------------------------------------------
  // Readings of a buffer and of a longer one
  // ---------------------------------------------------------------------------------------

  /** Two readings agree, or the first wanted more data than `limit` and the second needed it. */
  predicate Agree<T(==)>(short: Parsed<T>, long: Parsed<T>, limit: nat) {
    short == long || (short.Partial? && (long.Ok? ==> limit <= long.next))
  }

  lemma {:induction false} TokenAgrees(p: seq<byte>, s: seq<byte>, start: nat, i: nat, stop: byte)
    requires p <= s && start <= i <= |p|
    ensures Agree(Token(p, start, i, stop), Token(s, start, i, stop), |p|)
    decreases |p| - i
  {
    if i < |p| {
      TokenAgrees(p, s, start, i + 1, stop);
    }
  }

  lemma {:induction false} TargetAgrees(p: seq<byte>, s: seq<byte>, start: nat, i: nat)
    requires p <= s && start <= i <= |p|
    ensures Agree(Target(p, start, i), Target(s, start, i), |p|)
    decreases |p| - i
  {
    if i < |p| {
      TargetAgrees(p, s, start, i + 1);
    }
  }

  lemma {:induction false} SkipSpacesAgrees(p: seq<byte>, s: seq<byte>, i: nat)
    requires p <= s && i <= |p|
    ensures Agree(SkipSpaces(p, i), SkipSpaces(s, i), |p|)
    decreases |p| - i
  {
    if i < |p| {
      SkipSpacesAgrees(p, s, i + 1);
    }
  }

  lemma {:induction false} SkipBlanksAgrees(p: seq<byte>, s: seq<byte>, i: nat)
    requires p <= s && i <= |p|
    ensures Agree(SkipBlanks(p, i), SkipBlanks(s, i), |p|)
    decreases |p| - i
  {
    if i < |p| {
      SkipBlanksAgrees(p, s, i + 1);
    }
  }

  lemma LineEndAgrees(p: seq<byte>, s: seq<byte>, i: nat)
    requires p <= s && i <= |p|
    ensures Agree(LineEnd(p, i), LineEnd(s, i), |p| + 1)
  {
  }

  lemma {:induction false} ToEolAgrees(p: seq<byte>, s: seq<byte>, start: nat, i: nat)
    requires p <= s && start <= i <= |p|
    ensures Agree(ToEol(p, start, i), ToEol(s, start, i), |p| + 1)
    decreases |p| - i
  {
    if i < |p| {
      if IsValueCtl(p[i]) {
        LineEndAgrees(p, s, i);
      } else {
        ToEolAgrees(p, s, start, i + 1);
      }
    }
  }

  lemma {:induction false} TrimAgrees(p: seq<byte>, s: seq<byte>, start: nat, end: nat)
    requires p <= s && start <= end <= |p|
    ensures TrimBlanks(p, start, end) == TrimBlanks(s, start, end)
    decreases end
  {
    if start < end {
      TrimAgrees(p, s, start, end - 1);
    }
  }

  lemma HeaderNameAgrees(p: seq<byte>, s: seq<byte>, i: nat, first: bool)
    requires p <= s && i < |p|
    ensures Agree(HeaderName(p, i, first), HeaderName(s, i, first), |p|)
  {
    TokenAgrees(p, s, i, i, ':' as int);
    var t := Token(p, i, i, ':' as int);
    if t.Ok? {
      SkipBlanksAgrees(p, s, t.next + 1);
    }
  }

  lemma HeaderLineAgrees(p: seq<byte>, s: seq<byte>, i: nat, first: bool)
    requires p <= s && i < |p|
    ensures Agree(HeaderLine(p, i, first), HeaderLine(s, i, first), |p| + 1)
  {
    HeaderNameAgrees(p, s, i, first);
    hide HeaderName;
    var name := HeaderName(p, i, first);
    if name.Ok? {
      ToEolAgrees(p, s, name.next, name.next);
      var line := ToEol(p, name.next, name.next);
      if line.Ok? {
        TrimAgrees(p, s, line.value.start, line.value.start + line.value.len);
      }
    }
  }

  lemma {:induction false} HeadersAgree(p: seq<byte>, s: seq<byte>, i: nat, n: nat, max: nat)
    requires p <= s && i <= |p| && n <= max
    ensures Agree(Headers(p, i, n, max), Headers(s, i, n, max), |p| + 1)
    decreases |p| - i
  {
    hide HeaderLine;
    if i < |p| {
      LineEndAgrees(p, s, i);
      HeaderLineAgrees(p, s, i, n == 0);
      var line := HeaderLine(p, i, n == 0);
      if line.Ok? && n < max {
        HeadersAgree(p, s, line.next, n + 1, max);
      }
    }
  }

  lemma WordAgrees(p: seq<byte>, s: seq<byte>, word: Parsed<Slice>, word': Parsed<Slice>)
    requires p <= s && (word.Ok? ==> word.next < |p|) && (word'.Ok? ==> word'.next < |s|)
    requires Agree(word, word', |p|)
    ensures Agree(WordThenSpaces(p, word), WordThenSpaces(s, word'), |p|)
  {
    if word.Ok? {
      SkipSpacesAgrees(p, s, word.next + 1);
    }
  }

  lemma VersionLineAgrees(p: seq<byte>, s: seq<byte>, i: nat)
    requires p <= s && i <= |p|
    ensures Agree(VersionLine(p, i), VersionLine(s, i), |p| + 1)
  {
    if |p| - i >= 9 {
      assert p[i..i + 7] == s[i..i + 7];
      LineEndAgrees(p, s, i + 8);
    }
  }

  lemma RequestLineAgrees(p: seq<byte>, s: seq<byte>, i: nat)
    requires p <= s && i <= |p|
    ensures Agree(RequestLineAt(p, i), RequestLineAt(s, i), |p| + 1)
  {
    TokenAgrees(p, s, i, i, SP);
    WordAgrees(p, s, Token(p, i, i, SP), Token(s, i, i, SP));
    var verb := WordThenSpaces(p, Token(p, i, i, SP));
    if verb.Ok? {
      var j := verb.next;
      TargetAgrees(p, s, j, j);
      WordAgrees(p, s, Target(p, j, j), Target(s, j, j));
      var path := WordThenSpaces(p, Target(p, j, j));
      hide WordThenSpaces;
      if path.Ok? {
        VersionLineAgrees(p, s, path.next);
      }
    }
  }

  /** A reading of the whole request agrees with the reading of any longer buffer. */
  lemma RequestAgrees(p: seq<byte>, s: seq<byte>, max: nat)
    requires p <= s
    ensures Agree(ParseRequest(p, max), ParseRequest(s, max), |p| + 1)
  {
    if p != [] {
      LineEndAgrees(p, s, 0);
      var lead := LeadingLine(p);
      if lead.Ok? {
        RequestLineAgrees(p, s, lead.next);
        hide RequestLineAt;
        var line := RequestLineAt(p, lead.next);
        if line.Ok? {
          HeadersAgree(p, s, line.next, 0, max);
        }
      }
    }
  }

  /**
    Main result: once the request or its rejection is decided on a buffer, every longer buffer
    gives the same answer, down to the slices; and the answer uses nothing behind the request.
   */
  lemma DecidedIsStable(p: seq<byte>, t: seq<byte>, max: nat)
    ensures !ParseRequest(p, max).Partial? ==> ParseRequest(p + t, max) == ParseRequest(p, max)
    ensures ParseRequest(p + t, max).Ok? && ParseRequest(p + t, max).next <= |p|
            ==> ParseRequest(p, max) == ParseRequest(p + t, max)
  {
    RequestAgrees(p, p + t, max);
  }

  // ---------------------------------------------------------------------------------------
  // Slices
  // ---------------------------------------------------------------------------------------

  function End(x: Slice): nat {
    x.start + x.len
  }

  /** The header slices lie in `[from, to)`, each name before its value and headers in order. */
  predicate HeadersInOrder(headers: seq<Header>, from: nat, to: nat)
    decreases |headers|
  {
    if headers == [] then from <= to
    else
      var h := headers[0];
      && (h.name.Some? ==> from <= h.name.value.start && 0 < h.name.value.len && End(h.name.value) < h.value.start)
      && from <= h.value.start && End(h.value) < to
      && HeadersInOrder(headers[1..], End(h.value) + 1, to)
  }

  lemma {:induction false} HeadersInOrderWeaken(headers: seq<Header>, from: nat, from': nat, to: nat)
    requires from' <= from && HeadersInOrder(headers, from, to)
    ensures HeadersInOrder(headers, from', to)
  {
  }

  lemma {:induction false} HeadersOrdered(s: seq<byte>, i: nat, n: nat, max: nat)
    requires i <= |s| && n <= max && Headers(s, i, n, max).Ok?
    ensures HeadersInOrder(Headers(s, i, n, max).value, i, Headers(s, i, n, max).next)
    decreases |s| - i
  {
    if s[i] != CR && s[i] != LF {
      var line := HeaderLine(s, i, n == 0);
      HeadersOrdered(s, line.next, n + 1, max);
      var more := Headers(s, line.next, n + 1, max);
      HeadersInOrderWeaken(more.value, line.next, End(line.value.value) + 1, more.next);
      assert ([line.value] + more.value)[1..] == more.value;
    }
  }

  /** Every slice of a parsed request is in bounds; they are in order and do not overlap. */
  lemma SlicesInOrder(s: seq<byte>, max: nat)
    requires ParseRequest(s, max).Ok?
    ensures var r := ParseRequest(s, max);
            && 0 < r.value.verb.len && 0 < r.value.path.len
            && End(r.value.verb) < r.value.path.start
            && HeadersInOrder(r.value.headers, End(r.value.path) + 1, r.next)
            && r.next <= |s|
  {
    var i := LeadingLine(s).next;
    var line := RequestLineAt(s, i);
    HeadersOrdered(s, line.next, 0, max);
    var h := Headers(s, line.next, 0, max);
    HeadersInOrderWeaken(h.value, line.next, End(line.value.path) + 1, h.next);
  }

  // ---------------------------------------------------------------------------------------
  // The completeness test
  // ---------------------------------------------------------------------------------------

  /** Every carriage return in `[i, j)` is followed by a line feed in it. */
  predicate CrPaired(s: seq<byte>, i: nat, j: nat)
    requires j <= |s|
  {
    forall k | i <= k < j && s[k] == CR :: k + 1 < j && s[k + 1] == LF
  }

  lemma {:induction false} TokenPaired(s: seq<byte>, start: nat, i: nat, stop: byte)
    requires start <= i <= |s| && Token(s, start, i, stop).Ok? && stop != CR
    ensures CrPaired(s, i, Token(s, start, i, stop).next + 1)
    decreases |s| - i
  {
    if s[i] != stop {
      TokenPaired(s, start, i + 1, stop);
    }
  }

  lemma {:induction false} TargetPaired(s: seq<byte>, start: nat, i: nat)
    requires start <= i <= |s| && Target(s, start, i).Ok?
    ensures CrPaired(s, i, Target(s, start, i).next + 1)
    decreases |s| - i
  {
    if s[i] != SP {
      TargetPaired(s, start, i + 1);
    }
  }

  lemma {:induction false} SkipSpacesPaired(s: seq<byte>, i: nat)
    requires i <= |s| && SkipSpaces(s, i).Ok?
    ensures CrPaired(s, i, SkipSpaces(s, i).next)
    decreases |s| - i
  {
    if s[i] == SP {
      SkipSpacesPaired(s, i + 1);
    }
  }

  lemma {:induction false} SkipBlanksPaired(s: seq<byte>, i: nat)
    requires i <= |s| && SkipBlanks(s, i).Ok?
    ensures CrPaired(s, i, SkipBlanks(s, i).next)
    decreases |s| - i
  {
    if IsBlank(s[i]) {
      SkipBlanksPaired(s, i + 1);
    }
  }

  lemma {:induction false} ToEolPaired(s: seq<byte>, start: nat, i: nat)
    requires start <= i <= |s| && ToEol(s, start, i).Ok?
    ensures CrPaired(s, i, ToEol(s, start, i).next)
    decreases |s| - i
  {
    if !IsValueCtl(s[i]) {
      ToEolPaired(s, start, i + 1);
    }
  }

  lemma HeaderLinePaired(s: seq<byte>, i: nat, first: bool)
    requires i < |s| && HeaderLine(s, i, first).Ok?
    ensures CrPaired(s, i, HeaderLine(s, i, first).next)
  {
    var j := HeaderName(s, i, first).next;
    if first || !IsBlank(s[i]) {
      TokenPaired(s, i, i, ':' as int);
      SkipBlanksPaired(s, Token(s, i, i, ':' as int).next + 1);
    }
    ToEolPaired(s, j, j);
  }

  /** The request ends with a line feed at `last`, then an empty line. */
  predicate EmptyLineAfter(s: seq<byte>, last: nat, next: nat)
    requires last < next <= |s|
  {
    s[last] == LF && next - 1 > last && LineEnd(s, last + 1) == Ok((), next)
  }

  lemma {:induction false} HeadersEnd(s: seq<byte>, i: nat, n: nat, max: nat) returns (last: nat)
    requires 0 < i <= |s| && n <= max && Headers(s, i, n, max).Ok? && s[i - 1] == LF
    ensures var next := Headers(s, i, n, max).next;
            CrPaired(s, i, next) && i - 1 <= last < next && EmptyLineAfter(s, last, next)
    decreases |s| - i
  {
    hide HeaderLine;
    if s[i] == CR || s[i] == LF {
      last := i - 1;
    } else {
      HeaderLinePaired(s, i, n == 0);
      var line := HeaderLine(s, i, n == 0);
      last := HeadersEnd(s, line.next, n + 1, max);
    }
  }

  lemma WordPaired(s: seq<byte>, word: Parsed<Slice>)
    requires word.Ok? && word.next < |s| && WordThenSpaces(s, word).Ok?
    ensures CrPaired(s, word.next + 1, WordThenSpaces(s, word).next)
  {
    SkipSpacesPaired(s, word.next + 1);
  }

  lemma RequestLinePaired(s: seq<byte>, i: nat)
    requires i <= |s| && RequestLineAt(s, i).Ok?
    ensures CrPaired(s, i, RequestLineAt(s, i).next)
  {
    TokenPaired(s, i, i, SP);
    var verb := Token(s, i, i, SP);
    WordPaired(s, verb);
    var j := WordThenSpaces(s, verb).next;
    TargetPaired(s, j, j);
    var path := Target(s, j, j);
    WordPaired(s, path);
    VersionLinePaired(s, WordThenSpaces(s, path).next);
  }

  lemma VersionLinePaired(s: seq<byte>, i: nat)
    requires i <= |s| && VersionLine(s, i).Ok?
    ensures CrPaired(s, i, VersionLine(s, i).next)
  {
    assert forall k | i <= k < i + 7 :: s[k] == s[i..i + 7][k - i] == HTTP_1[k - i];
  }

  lemma RequestEnd(s: seq<byte>, max: nat) returns (last: nat)
    requires ParseRequest(s, max).Ok?
    ensures var next := ParseRequest(s, max).next;
            CrPaired(s, 0, next) && last < next && EmptyLineAfter(s, last, next)
  {
    var i := LeadingLine(s).next;
    RequestLinePaired(s, i);
    var line := RequestLineAt(s, i);
    last := HeadersEnd(s, line.next, 0, max);
  }

  /** Scanning from anywhere up to the last line feed before the empty line finds two line ends. */
  lemma {:induction false} ScanFindsEnd(s: seq<byte>, i: nat, count: nat, last: nat, next: nat)
    requires i <= last < next <= |s| && count <= 1
    requires CrPaired(s, i, next) && EmptyLineAfter(s, last, next)
    ensures CompleteFrom(s, i, count).Ok? && CompleteFrom(s, i, count).next <= next
    decreases last - i
  {
    if s[i] == CR || s[i] == LF {
      var j := LineEnd(s, i).next;
      if count == 0 && j <= last {
        ScanFindsEnd(s, j, 1, last, next);
      } else if count == 0 {
        assert j == last + 1;
        assert CompleteFrom(s, j, 1) == Ok((), next);
      }
    } else {
      ScanFindsEnd(s, i + 1, 0, last, next);
    }
  }

  /** If an earlier call on the first `lastLen` bytes asked for more, the test accepts every whole request. */
  lemma CompleteRequestPassesTest(s: seq<byte>, lastLen: nat, max: nat)
    requires lastLen <= |s| && ParseRequest(s[..lastLen], max).Partial? && ParseRequest(s, max).Ok?
    ensures IsComplete(s, lastLen).Ok?
  {
    hide ParseRequest, CompleteFrom;
    RequestAgrees(s[..lastLen], s, max);
    var last := RequestEnd(s, max);
    var next := ParseRequest(s, max).next;
    assert lastLen < next && next <= last + 3;
    ScanFindsEnd(s, if lastLen < 3 then 0 else lastLen - 3, 0, last, next);
  }

  /**
    Main result: with `lastLen` bytes seen before and found partial, the shortcut succeeds exactly
    when a parse from scratch does, with the same request and end.
   */
  lemma ShortcutLosesNothing(s: seq<byte>, lastLen: nat, max: nat)
    requires lastLen <= |s| && ParseRequest(s[..lastLen], max).Partial?
    ensures ParseAgain(s, lastLen, max).Ok? <==> ParseRequest(s, max).Ok?
    ensures ParseRequest(s, max).Ok? ==> ParseAgain(s, lastLen, max) == ParseRequest(s, max)
  {
    if ParseRequest(s, max).Ok? {
      CompleteRequestPassesTest(s, lastLen, max);
    }
  }

  lemma {:induction false} CompleteFromAgrees(p: seq<byte>, s: seq<byte>, i: nat, count: nat)
    requires p <= s && i <= |p|
    ensures Agree(CompleteFrom(p, i, count), CompleteFrom(s, i, count), |p| + 1)
    decreases |p| - i
  {
    if i < |p| {
      LineEndAgrees(p, s, i);
      if p[i] == CR || p[i] == LF {
        var end := LineEnd(p, i);
        if end.Ok? {
          CompleteFromAgrees(p, s, end.next, count + 1);
        }
      } else {
        CompleteFromAgrees(p, s, i + 1, 0);
      }
    }
  }

  /** A rejection by either route is final: no longer buffer is a request. */
  lemma ShortcutRejectionIsFinal(p: seq<byte>, t: seq<byte>, lastLen: nat, max: nat)
    requires lastLen <= |p| && ParseRequest(p[..lastLen], max).Partial?
    requires ParseAgain(p, lastLen, max).Invalid?
    ensures !ParseRequest(p + t, max).Ok?
  {
    var s := p + t;
    RequestAgrees(p, s, max);
    assert s[..lastLen] == p[..lastLen];
    CompleteFromAgrees(p, s, if lastLen < 3 then 0 else lastLen - 3, 0);
    if ParseRequest(s, max).Ok? {
      CompleteRequestPassesTest(s, lastLen, max);
    }
  }
}
