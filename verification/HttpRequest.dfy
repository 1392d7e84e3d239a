/**
  The request parser of picohttpparser: a left-to-right reading of a buffer that
  is partial, invalid, or a request with the position behind it.

  The functions give the reading of each part; the methods are the parser's
  loops over the buffer, proved to compute them.
*/
module HttpRequest {
  import opened Bytes

  /** The part of the buffer that an output pointer and length name. */
  datatype Slice = Slice(start: nat, len: nat)

  /** `name` is absent on a continuation line of a multi-line header. */
  datatype Header = Header(name: Option<Slice>, value: Slice)

  datatype Request = Request(verb: Slice, path: Slice, minorVersion: nat, headers: seq<Header>)

  datatype Parsed<+T> = Partial | Invalid | Ok(value: T, next: nat)

  /** token_char_map, in rows of thirty-two. */
  const TOKEN_CHAR_MAP: seq<string> := [
    "00000000000000000000000000000000",
    "01011111001101101111111111000000",
    "01111111111111111111111111100011",
    "11111111111111111111111111101010",
    "00000000000000000000000000000000",
    "00000000000000000000000000000000",
    "00000000000000000000000000000000",
    "00000000000000000000000000000000"
  ]

  predicate IsTokenChar(b: byte) {
    TOKEN_CHAR_MAP[b / 32][b % 32] == '1'
  }

  predicate IsPrintableAscii(b: byte) {
    32 <= b < 127
  }

  predicate IsBlank(b: byte) {
    b == SP || b == HT
  }

  /** Control characters other than the horizontal tab end or spoil a header value. */
  predicate IsValueCtl(b: byte) {
    (b < 32 && b != HT) || b == 127
  }

  // ---------------------------------------------------------------------------------------
  // Readings
  // ---------------------------------------------------------------------------------------

  /** A token begun at `start` and read up to `i`, ended by `stop`. */
  function Token(s: seq<byte>, start: nat, i: nat, stop: byte): (r: Parsed<Slice>)
    requires start <= i <= |s|
    ensures r.Ok? ==> i <= r.next < |s| && s[r.next] == stop && r.value == Slice(start, r.next - start)
    decreases |s| - i
  {
    if i == |s| then Partial
    else if s[i] == stop then Ok(Slice(start, i - start), i)
    else if !IsTokenChar(s[i]) then Invalid
    else Token(s, start, i + 1, stop)
  }

  /** The request target begun at `start`: anything but controls, up to a space. */
  function Target(s: seq<byte>, start: nat, i: nat): (r: Parsed<Slice>)
    requires start <= i <= |s|
    ensures r.Ok? ==> i <= r.next < |s| && s[r.next] == SP && r.value == Slice(start, r.next - start)
    decreases |s| - i
  {
    if i == |s| then Partial
    else if s[i] == SP then Ok(Slice(start, i - start), i)
    else if s[i] < 32 || s[i] == 127 then Invalid
    else Target(s, start, i + 1)
  }

  function SkipSpaces(s: seq<byte>, i: nat): (r: Parsed<()>)
    requires i <= |s|
    ensures !r.Invalid?
    ensures r.Ok? ==> i <= r.next < |s| && s[r.next] != SP
    decreases |s| - i
  {
    if i == |s| then Partial
    else if s[i] == SP then SkipSpaces(s, i + 1)
    else Ok((), i)
  }

  function SkipBlanks(s: seq<byte>, i: nat): (r: Parsed<()>)
    requires i <= |s|
    ensures !r.Invalid?
    ensures r.Ok? ==> i <= r.next < |s| && !IsBlank(s[r.next])
    decreases |s| - i
  {
    if i == |s| then Partial
    else if IsBlank(s[i]) then SkipBlanks(s, i + 1)
    else Ok((), i)
  }

  /** CRLF or a bare LF. */
  function LineEnd(s: seq<byte>, i: nat): (r: Parsed<()>)
    requires i <= |s|
    ensures r.Ok? ==> i < r.next <= |s| && s[r.next - 1] == LF
  {
    if i == |s| then Partial
    else if s[i] == CR then
      if i + 1 == |s| then Partial else if s[i + 1] == LF then Ok((), i + 2) else Invalid
    else if s[i] == LF then Ok((), i + 1)
    else Invalid
  }

  /** The rest of a line begun at `start`, without its line end. */
  function ToEol(s: seq<byte>, start: nat, i: nat): (r: Parsed<Slice>)
    requires start <= i <= |s|
    ensures r.Ok? ==> i <= start + r.value.len < r.next <= |s| && r.value.start == start && s[r.next - 1] == LF
    decreases |s| - i
  {
    if i == |s| then Partial
    else if !IsValueCtl(s[i]) then ToEol(s, start, i + 1)
    else
      match LineEnd(s, i)
      case Ok(_, next) => Ok(Slice(start, i - start), next)
      case Partial => Partial
      case Invalid => Invalid
  }

  const HTTP_1: seq<byte> := ['H' as int, 'T' as int, 'T' as int, 'P' as int, '/' as int, '1' as int, '.' as int]

  function HttpVersion(s: seq<byte>, i: nat): (r: Parsed<nat>)
    requires i <= |s|
    ensures r.Ok? ==> r.next == i + 8 < |s|
  {
    if |s| - i < 9 then Partial
    else if s[i..i + 7] != HTTP_1 then Invalid
    else if !('0' as int <= s[i + 7] <= '9' as int) then Invalid
    else Ok(s[i + 7] - '0' as int, i + 8)
  }

  function TrimBlanks(s: seq<byte>, start: nat, end: nat): (trimmed: nat)
    requires start <= end <= |s|
    ensures start <= trimmed <= end
    decreases end
  {
    if start < end && IsBlank(s[end - 1]) then TrimBlanks(s, start, end - 1) else end
  }

  /** A header's name and the blanks behind its colon; a continuation line has neither. */
  function HeaderName(s: seq<byte>, i: nat, first: bool): (r: Parsed<Option<Slice>>)
    requires i < |s|
    ensures r.Ok? ==> i <= r.next < |s|
    ensures r.Ok? && r.value.Some? ==> r.value.value.start == i && i < i + r.value.value.len < r.next
  {
    if !first && IsBlank(s[i]) then Ok(None, i)
    else
      match Token(s, i, i, ':' as int)
      case Partial => Partial
      case Invalid => Invalid
      case Ok(name, colon) =>
        if name.len == 0 then Invalid
        else
          match SkipBlanks(s, colon + 1)
          case Ok(_, next) => Ok(Some(name), next)
          case _ => Partial
  }

  function HeaderLine(s: seq<byte>, i: nat, first: bool): (r: Parsed<Header>)
    requires i < |s|
    ensures r.Ok? ==> i < r.next <= |s| && s[r.next - 1] == LF
  {
    match HeaderName(s, i, first)
    case Partial => Partial
    case Invalid => Invalid
    case Ok(name, j) =>
      match ToEol(s, j, j)
      case Partial => Partial
      case Invalid => Invalid
      case Ok(line, next) =>
        var end := TrimBlanks(s, line.start, line.start + line.len);
        Ok(Header(name, Slice(line.start, end - line.start)), next)
  }

  /** The header lines behind the `n` already read, up to and with the empty line. */
  function Headers(s: seq<byte>, i: nat, n: nat, max: nat): (r: Parsed<seq<Header>>)
    requires i <= |s| && n <= max
    ensures r.Ok? ==> i < r.next <= |s| && n + |r.value| <= max
    decreases |s| - i
  {
    if i == |s| then Partial
    else if s[i] == CR || s[i] == LF then
      match LineEnd(s, i)
      case Partial => Partial
      case Invalid => Invalid
      case Ok(_, next) => Ok([], next)
    else if n == max then Invalid
    else
      match HeaderLine(s, i, n == 0)
      case Partial => Partial
      case Invalid => Invalid
      case Ok(header, j) =>
        match Headers(s, j, n + 1, max)
        case Partial => Partial
        case Invalid => Invalid
        case Ok(more, next) => Ok([header] + more, next)
  }

  /** An empty line some clients send behind an earlier body. */
  function LeadingLine(s: seq<byte>): (r: Parsed<()>)
    ensures r.Ok? ==> r.next <= |s|
  {
    if s == [] then Partial
    else if s[0] == CR || s[0] == LF then LineEnd(s, 0)
    else Ok((), 0)
  }

  datatype RequestLine = RequestLine(verb: Slice, path: Slice, minorVersion: nat)

  /** A method or target read up to a space, then the run of spaces behind it. */
  function WordThenSpaces(s: seq<byte>, word: Parsed<Slice>): (r: Parsed<Slice>)
    requires word.Ok? ==> word.next < |s|
    ensures r.Ok? ==> word.Ok? && r.value == word.value && word.next < r.next < |s|
  {
    match word
    case Partial => Partial
    case Invalid => Invalid
    case Ok(slice, i) =>
      match SkipSpaces(s, i + 1)
      case Ok(_, next) => Ok(slice, next)
      case _ => Partial
  }

  function VersionLine(s: seq<byte>, i: nat): (r: Parsed<nat>)
    requires i <= |s|
    ensures r.Ok? ==> i < r.next <= |s| && s[r.next - 1] == LF
  {
    match HttpVersion(s, i)
    case Partial => Partial
    case Invalid => Invalid
    case Ok(minor, j) =>
      match LineEnd(s, j)
      case Partial => Partial
      case Invalid => Invalid
      case Ok(_, next) => Ok(minor, next)
  }

  /** Method, target and version, separated by runs of spaces. */
  function RequestLineAt(s: seq<byte>, i: nat): (r: Parsed<RequestLine>)
    requires i <= |s|
    ensures r.Ok? ==> i < r.next <= |s| && s[r.next - 1] == LF
  {
    match WordThenSpaces(s, Token(s, i, i, SP))
    case Partial => Partial
    case Invalid => Invalid
    case Ok(verb, j) =>
      match WordThenSpaces(s, Target(s, j, j))
      case Partial => Partial
      case Invalid => Invalid
      case Ok(path, k) =>
        if verb.len == 0 || path.len == 0 then Invalid
        else
          match VersionLine(s, k)
          case Partial => Partial
          case Invalid => Invalid
          case Ok(minor, next) => Ok(RequestLine(verb, path, minor), next)
  }

  function ParseRequest(s: seq<byte>, max: nat): (r: Parsed<Request>)
    ensures r.Ok? ==> 0 < r.next <= |s| && |r.value.headers| <= max
  {
    match LeadingLine(s)
    case Partial => Partial
    case Invalid => Invalid
    case Ok(_, i) =>
      match RequestLineAt(s, i)
      case Partial => Partial
      case Invalid => Invalid
      case Ok(line, j) =>
        match Headers(s, j, 0, max)
        case Partial => Partial
        case Invalid => Invalid
        case Ok(headers, next) => Ok(Request(line.verb, line.path, line.minorVersion, headers), next)
  }

  /** Whether two line ends in a row occur from `i` on, `count` of them standing just before `i`. */
  function CompleteFrom(s: seq<byte>, i: nat, count: nat): (r: Parsed<()>)
    requires i <= |s|
    ensures r.Ok? ==> i < r.next <= |s|
    decreases |s| - i
  {
    if i == |s| then Partial
    else if s[i] == CR || s[i] == LF then
      match LineEnd(s, i)
      case Partial => Partial
      case Invalid => Invalid
      case Ok(_, next) => if count + 1 == 2 then Ok((), next) else CompleteFrom(s, next, count + 1)
    else CompleteFrom(s, i + 1, 0)
  }

  function IsComplete(s: seq<byte>, lastLen: nat): Parsed<()>
    requires lastLen <= |s|
  {
    CompleteFrom(s, if lastLen < 3 then 0 else lastLen - 3, 0)
  }

  /** The whole entry point: a cheap completeness test first when part of the buffer was seen before. */
  function ParseAgain(s: seq<byte>, lastLen: nat, max: nat): Parsed<Request>
    requires lastLen <= |s|
  {
    if lastLen != 0 && !IsComplete(s, lastLen).Ok? then
      if IsComplete(s, lastLen).Partial? then Partial else Invalid
    else ParseRequest(s, max)
  }

  // ---------------------------------------------------------------------------------------
  // The parser's loops
  // ---------------------------------------------------------------------------------------

  method ScanToken(buf: seq<byte>, start: nat, stop: byte) returns (r: Parsed<Slice>)
    requires start <= |buf|
    ensures r == Token(buf, start, start, stop)
  {
    var i := start;
    while i < |buf|
      invariant start <= i <= |buf|
      invariant Token(buf, start, start, stop) == Token(buf, start, i, stop)
    {
      if buf[i] == stop {
        return Ok(Slice(start, i - start), i);
      } else if !IsTokenChar(buf[i]) {
        return Invalid;
      }
      i := i + 1;
    }
    return Partial;
  }

  method ScanTarget(buf: seq<byte>, start: nat) returns (r: Parsed<Slice>)
    requires start <= |buf|
    ensures r == Target(buf, start, start)
  {
    var i := start;
    while i < |buf|
      invariant start <= i <= |buf|
      invariant Target(buf, start, start) == Target(buf, start, i)
    {
      if buf[i] == SP {
        return Ok(Slice(start, i - start), i);
      } else if !IsPrintableAscii(buf[i]) {
        if buf[i] < 32 || buf[i] == 127 {
          return Invalid;
        }
      }
      i := i + 1;
    }
    return Partial;
  }

  /** Runs of the separators: a space only in the request line, also a tab behind a header's colon. */
  method ScanBlanks(buf: seq<byte>, start: nat, tabs: bool) returns (r: Parsed<()>)
    requires start <= |buf|
    ensures r == if tabs then SkipBlanks(buf, start) else SkipSpaces(buf, start)
  {
    var i := start;
    while i < |buf|
      invariant start <= i <= |buf|
      invariant if tabs then SkipBlanks(buf, start) == SkipBlanks(buf, i) else SkipSpaces(buf, start) == SkipSpaces(buf, i)
    {
      if !(buf[i] == SP || (tabs && buf[i] == HT)) {
        return Ok((), i);
      }
      i := i + 1;
    }
    return Partial;
  }

  /** get_token_to_eol: bytes in eights while eight are left, each checked in turn, then one by one. */
  method ScanToEol(buf: seq<byte>, start: nat) returns (r: Parsed<Slice>)
    requires start <= |buf|
    ensures r == ToEol(buf, start, start)
  {
    var i, found := start, false;
    while !found && |buf| - i >= 8
      invariant start <= i <= |buf| && (found ==> i < |buf| && IsValueCtl(buf[i]))
      invariant ToEol(buf, start, start) == ToEol(buf, start, i)
      decreases !found, |buf| - i
    {
      var k := 0;
      ghost var at := i;
      while k < 8 && IsPrintableAscii(buf[i])
        invariant 0 <= k <= 8 && i == at + k
        invariant ToEol(buf, start, start) == ToEol(buf, start, i)
      {
        i, k := i + 1, k + 1;
      }
      if k < 8 {
        if IsValueCtl(buf[i]) {
          found := true;
        } else {
          i := i + 1;
        }
      }
    }
    while !found && i < |buf|
      invariant start <= i <= |buf| && (found ==> i < |buf| && IsValueCtl(buf[i]))
      invariant ToEol(buf, start, start) == ToEol(buf, start, i)
      decreases !found, |buf| - i
    {
      if !IsPrintableAscii(buf[i]) && IsValueCtl(buf[i]) {
        found := true;
      } else {
        i := i + 1;
      }
    }
    if i == |buf| {
      return Partial;
    } else if buf[i] == CR {
      if i + 1 == |buf| {
        return Partial;
      } else if buf[i + 1] != LF {
        return Invalid;
      }
      return Ok(Slice(start, i - start), i + 2);
    } else if buf[i] == LF {
      return Ok(Slice(start, i - start), i + 1);
    } else {
      return Invalid;
    }
  }

  /** is_complete: look for two line ends in a row, starting a little before the new data. */
  method ScanComplete(buf: seq<byte>, lastLen: nat) returns (r: Parsed<()>)
    requires lastLen <= |buf|
    ensures r == IsComplete(buf, lastLen)
  {
    var i := if lastLen < 3 then 0 else lastLen - 3;
    var count := 0;
    while true
      invariant i <= |buf| && 0 <= count <= 1
      invariant IsComplete(buf, lastLen) == CompleteFrom(buf, i, count)
      decreases |buf| - i
    {
      if i == |buf| {
        return Partial;
      }
      var next := i + 1;
      if buf[i] == CR {
        if next == |buf| {
          return Partial;
        } else if buf[next] != LF {
          return Invalid;
        }
        next := next + 1;
        count := count + 1;
      } else if buf[i] == LF {
        count := count + 1;
      } else {
        count := 0;
      }
      i := next;
      if count == 2 {
        return Ok((), i);
      }
    }
  }

  method ScanHeaderLine(buf: seq<byte>, start: nat, first: bool) returns (r: Parsed<Header>)
    requires start < |buf|
    ensures r == HeaderLine(buf, start, first)
  {
    hide Token, SkipBlanks, ToEol, TrimBlanks;
    var i := start;
    var name: Option<Slice> := None;
    if first || !(buf[i] == SP || buf[i] == HT) {
      var token := ScanToken(buf, i, ':' as int);
      match token {
        case Partial => return Partial;
        case Invalid => return Invalid;
        case Ok(slice, colon) =>
          if slice.len == 0 {
            return Invalid;
          }
          name, i := Some(slice), colon + 1;
          var blanks := ScanBlanks(buf, i, true);
          if !blanks.Ok? {
            return Partial;
          }
          i := blanks.next;
      }
    }
    var line := ScanToEol(buf, i);
    match line {
      case Partial => return Partial;
      case Invalid => return Invalid;
      case Ok(value, next) =>
        var end := DropBlanks(buf, value.start, value.start + value.len);
        return Ok(Header(name, Slice(value.start, end - value.start)), next);
    }
  }

  /** The blanks at the end of a value are left off. */
  method DropBlanks(buf: seq<byte>, start: nat, stop: nat) returns (end: nat)
    requires start <= stop <= |buf|
    ensures end == TrimBlanks(buf, start, stop)
  {
    end := stop;
    while end != start
      invariant start <= end <= stop
      invariant TrimBlanks(buf, start, end) == TrimBlanks(buf, start, stop)
    {
      if !IsBlank(buf[end - 1]) {
        return;
      }
      end := end - 1;
    }
  }

  lemma {:induction false} HeadersAppend(s: seq<byte>, i: nat, n: nat, max: nat, before: seq<Header>, h: Header, j: nat)
    requires i < |s| && n < max && s[i] != CR && s[i] != LF && HeaderLine(s, i, n == 0) == Ok(h, j)
    ensures WithHeaders(before, Headers(s, i, n, max)) == WithHeaders(before + [h], Headers(s, j, n + 1, max))
  {
    var more := Headers(s, j, n + 1, max);
    if more.Ok? {
      assert before + ([h] + more.value) == (before + [h]) + more.value;
    }
  }

  /** The headers read so far, put before those still to be read. */
  function WithHeaders(before: seq<Header>, r: Parsed<seq<Header>>): Parsed<seq<Header>> {
    match r
    case Ok(more, next) => Ok(before + more, next)
    case _ => r
  }

  /** Fills the caller's header array and reports how many lines it holds. */
  method ScanHeaders(buf: seq<byte>, start: nat, headers: array<Header>) returns (r: Parsed<()>, numHeaders: nat)
    requires start <= |buf|
    modifies headers
    ensures numHeaders <= headers.Length
    ensures match Headers(buf, start, 0, headers.Length)
            case Partial => r.Partial?
            case Invalid => r.Invalid?
            case Ok(hs, next) => r == Ok((), next) && headers[..numHeaders] == hs
  {
    hide HeaderLine, Headers;
    var i := start;
    numHeaders := 0;
    assert WithHeaders(headers[..0], Headers(buf, i, 0, headers.Length)) == Headers(buf, i, 0, headers.Length) by {
      var h := Headers(buf, i, 0, headers.Length);
      assert h.Ok? ==> headers[..0] + h.value == h.value;
    }
    while true
      invariant start <= i <= |buf| && numHeaders <= headers.Length
      invariant Headers(buf, start, 0, headers.Length)
             == WithHeaders(headers[..numHeaders], Headers(buf, i, numHeaders, headers.Length))
      decreases |buf| - i
    {
      HeadersUnfold(buf, i, numHeaders, headers.Length);
      if i == |buf| {
        return Partial, numHeaders;
      }
      if buf[i] == CR {
        if i + 1 == |buf| {
          return Partial, numHeaders;
        } else if buf[i + 1] != LF {
          return Invalid, numHeaders;
        }
        return Ok((), i + 2), numHeaders;
      } else if buf[i] == LF {
        return Ok((), i + 1), numHeaders;
      }
      if numHeaders == headers.Length {
        return Invalid, numHeaders;
      }
      var line := ScanHeaderLine(buf, i, numHeaders == 0);
      match line {
        case Partial => return Partial, numHeaders;
        case Invalid => return Invalid, numHeaders;
        case Ok(header, next) =>
          ghost var before := headers[..numHeaders];
          HeadersAppend(buf, i, numHeaders, headers.Length, before, header, next);
          headers[numHeaders] := header;
          numHeaders := numHeaders + 1;
          assert headers[..numHeaders] == before + [header];
          i := next;
      }
    }
  }

  /** One unfolding of `Headers`. */
  lemma HeadersUnfold(s: seq<byte>, i: nat, n: nat, max: nat)
    requires i <= |s| && n <= max
    ensures i == |s| ==> Headers(s, i, n, max) == Partial
    ensures i < |s| && (s[i] == CR || s[i] == LF) ==>
              Headers(s, i, n, max) ==
                match LineEnd(s, i) { case Partial => Partial case Invalid => Invalid case Ok(_, next) => Ok([], next) }
    ensures i < |s| && s[i] != CR && s[i] != LF && n == max ==> Headers(s, i, n, max) == Invalid
    ensures i < |s| && s[i] != CR && s[i] != LF && n < max && !HeaderLine(s, i, n == 0).Ok? ==>
              Headers(s, i, n, max) == if HeaderLine(s, i, n == 0).Partial? then Partial else Invalid
  {
  }

  method ScanHttpVersion(buf: seq<byte>, start: nat) returns (r: Parsed<nat>)
    requires start <= |buf|
    ensures r == HttpVersion(buf, start)
  {
    if |buf| - start < 9 {
      return Partial;
    }
    var i := 0;
    while i < 7
      invariant 0 <= i <= 7
      invariant forall k | 0 <= k < i :: buf[start + k] == HTTP_1[k]
    {
      if buf[start + i] != HTTP_1[i] {
        assert buf[start..start + 7][i] != HTTP_1[i];
        return Invalid;
      }
      i := i + 1;
    }
    assert buf[start..start + 7] == HTTP_1;
    if buf[start + 7] < '0' as int || '9' as int < buf[start + 7] {
      return Invalid;
    }
    return Ok(buf[start + 7] - '0' as int, start + 8);
  }

  /** A CRLF or LF that must stand at `i`. */
  method ScanLineEnd(buf: seq<byte>, i: nat) returns (r: Parsed<()>)
    requires i < |buf|
    ensures r == LineEnd(buf, i)
  {
    if buf[i] == CR {
      if i + 1 == |buf| {
        return Partial;
      } else if buf[i + 1] != LF {
        return Invalid;
      }
      return Ok((), i + 2);
    } else if buf[i] == LF {
      return Ok((), i + 1);
    }
    return Invalid;
  }

  method ScanRequestLine(buf: seq<byte>, start: nat) returns (r: Parsed<RequestLine>)
    requires start <= |buf|
    ensures r == RequestLineAt(buf, start)
  {
    var verb := ScanToken(buf, start, SP);
    if !verb.Ok? {
      return if verb.Partial? then Partial else Invalid;
    }
    var spaces := ScanBlanks(buf, verb.next + 1, false);
    if !spaces.Ok? {
      return Partial;
    }
    var path := ScanTarget(buf, spaces.next);
    if !path.Ok? {
      return if path.Partial? then Partial else Invalid;
    }
    spaces := ScanBlanks(buf, path.next + 1, false);
    if !spaces.Ok? {
      return Partial;
    }
    if verb.value.len == 0 || path.value.len == 0 {
      return Invalid;
    }
    var version := ScanHttpVersion(buf, spaces.next);
    if !version.Ok? {
      return if version.Partial? then Partial else Invalid;
    }
    var end := ScanLineEnd(buf, version.next);
    if !end.Ok? {
      return if end.Partial? then Partial else Invalid;
    }
    return Ok(RequestLine(verb.value, path.value, version.value), end.next);
  }

  /** parse_request: the headers go into the caller's array. */
  method ScanRequest(buf: seq<byte>, headers: array<Header>) returns (r: Parsed<RequestLine>, numHeaders: nat)
    modifies headers
    ensures numHeaders <= headers.Length
    ensures match ParseRequest(buf, headers.Length)
            case Partial => r.Partial?
            case Invalid => r.Invalid?
            case Ok(request, next) =>
              r == Ok(RequestLine(request.verb, request.path, request.minorVersion), next)
              && headers[..numHeaders] == request.headers
  {
    numHeaders := 0;
    if |buf| == 0 {
      return Partial, 0;
    }
    var i := 0;
    if buf[0] == CR || buf[0] == LF {
      var lead := ScanLineEnd(buf, 0);
      if !lead.Ok? {
        return if lead.Partial? then Partial else Invalid, 0;
      }
      i := lead.next;
    }
    hide RequestLineAt, Headers;
    var line := ScanRequestLine(buf, i);
    if !line.Ok? {
      return if line.Partial? then Partial else Invalid, 0;
    }
    var rest;
    rest, numHeaders := ScanHeaders(buf, line.next, headers);
    match rest {
      case Partial => return Partial, numHeaders;
      case Invalid => return Invalid, numHeaders;
      case Ok(_, next) => return Ok(line.value, next), numHeaders;
    }
  }

  /**
    phr_parse_request: the number of bytes of the request, -2 if more are needed, -1 if there is
    no request; `lastLen` is how much of the buffer an earlier call has seen.
   */
  method PhrParseRequest(buf: seq<byte>, headers: array<Header>, lastLen: nat)
    returns (ret: int, line: Option<RequestLine>, numHeaders: nat)
    requires lastLen <= |buf|
    modifies headers
    ensures numHeaders <= headers.Length
    ensures match ParseAgain(buf, lastLen, headers.Length)
            case Partial => ret == -2
            case Invalid => ret == -1
            case Ok(request, next) =>
              && ret == next
              && line == Some(RequestLine(request.verb, request.path, request.minorVersion))
              && headers[..numHeaders] == request.headers
  {
    line, numHeaders := None, 0;
    if lastLen != 0 {
      var complete := ScanComplete(buf, lastLen);
      if !complete.Ok? {
        return if complete.Partial? then -2 else -1, None, 0;
      }
    }
    hide ParseRequest, IsComplete;
    var r;
    r, numHeaders := ScanRequest(buf, headers);
    match r {
      case Partial => ret := -2;
      case Invalid => ret := -1;
      case Ok(value, next) => ret, line := next, Some(value);
    }
  }
}
