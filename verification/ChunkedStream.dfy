/**
  What the chunked decoder promises about whole streams: cutting a stream into
  calls changes nothing, and a stream is accepted exactly when it is a chunked
  encoding (section 7.1 of RFC 9112), whose body is then returned.
*/
module ChunkedStream {
  import opened Bytes
  import opened ChunkedDecoder
  import opened Literals

  // ---------------------------------------------------------------------------------------
  // Independence of the cut
  // ---------------------------------------------------------------------------------------

  function Flatten(parts: seq<seq<byte>>): seq<byte> {
    if parts == [] then [] else parts[0] + Flatten(parts[1..])
  }

  /** The outcome of a series of calls; `rest` is everything not consumed, undelivered parts included. */
  datatype Session = Session(control: Control, body: seq<byte>, verdict: Verdict, rest: seq<byte>)

  function OneCall(trailer: bool, c: Control, s: seq<byte>): Session {
    var d := Run(trailer, c, s, 0);
    Session(d.control, d.body, d.verdict, s[d.pos..])
  }

  /** The caller's loop: call again with newly arrived data while more is asked for. */
  function Calls(trailer: bool, c: Control, parts: seq<seq<byte>>): Session
    decreases |parts|
  {
    if parts == [] then Session(c, [], More, [])
    else
      var d := Run(trailer, c, parts[0], 0);
      if d.verdict == More then
        var r := Calls(trailer, d.control, parts[1..]);
        r.(body := d.body + r.body)
      else
        Session(d.control, d.body, d.verdict, parts[0][d.pos..] + Flatten(parts[1..]))
  }

  lemma {:induction false} RunAppend(trailer: bool, c: Control, s: seq<byte>, i: nat, t: seq<byte>)
    requires i <= |s|
    ensures var d := Run(trailer, c, s, i);
            Run(trailer, c, s + t, i) ==
              if d.verdict == More then Prepend(d.body, Run(trailer, d.control, s + t, |s|)) else d
    decreases |s| - i
  {
    hide Run, Step;
    RunUnfold(trailer, c, s, i);
    RunUnfold(trailer, c, s + t, i);
    if i < |s| {
      assert (s + t)[i] == s[i];
      var m := Step(trailer, c, s[i]);
      if m.Next? {
        RunAppend(trailer, m.control, s, i + 1, t);
        var d := Run(trailer, m.control, s, i + 1);
        var e := Run(trailer, d.control, s + t, |s|);
        assert [s[i]] + (d.body + e.body) == ([s[i]] + d.body) + e.body;
      }
    }
  }

  /**
    Main result: for every cut of a stream into calls, the concatenated body, the final verdict,
    the control state and the bytes left over are those of a single call on the whole stream.
   */
  lemma {:induction false} CutIndependent(trailer: bool, c: Control, parts: seq<seq<byte>>)
    ensures Calls(trailer, c, parts) == OneCall(trailer, c, Flatten(parts))
    decreases |parts|
  {
    hide Run;
    if parts == [] {
      RunUnfold(trailer, c, [], 0);
    } else {
      var s, t := parts[0], Flatten(parts[1..]);
      RunAppend(trailer, c, s, 0, t);
      var d := Run(trailer, c, s, 0);
      if d.verdict == More {
        CutIndependent(trailer, d.control, parts[1..]);
        assert (s + t)[|s|..] == t[0..];
        RunShift(trailer, d.control, t, 0, s + t, |s|);
        var e := Run(trailer, d.control, t, 0);
        assert (s + t)[e.pos + |s|..] == t[e.pos..];
      } else {
        assert (s + t)[d.pos..] == s[d.pos..] + t;
      }
    }
  }

  /** The caller's loop with the overhead counters: a call that asks for more may be refused. */
  function LimitedCalls(trailer: bool, c: Control, read: nat, overhead: nat, parts: seq<seq<byte>>): Session
    requires overhead <= read
    decreases |parts|
  {
    if parts == [] then Session(c, [], More, [])
    else
      var d := Run(trailer, c, parts[0], 0);
      if d.verdict == More then
        var read', overhead' := read + |parts[0]|, overhead + (|parts[0]| - |d.body|);
        BodyWithin(trailer, c, parts[0], 0);
        if TooMuchOverhead(read', overhead') then
          Session(d.control, d.body, Bad, Flatten(parts[1..]))
        else
          var r := LimitedCalls(trailer, d.control, read', overhead', parts[1..]);
          r.(body := d.body + r.body)
      else
        Session(d.control, d.body, d.verdict, parts[0][d.pos..] + Flatten(parts[1..]))
  }

  lemma {:induction false} BodyWithin(trailer: bool, c: Control, s: seq<byte>, i: nat)
    requires i <= |s|
    ensures |Run(trailer, c, s, i).body| <= Run(trailer, c, s, i).pos - i
    decreases |s| - i
  {
    RunUnfold(trailer, c, s, i);
    hide Run;
    if i < |s| {
      var m := Step(trailer, c, s[i]);
      if m.Next? {
        BodyWithin(trailer, m.control, s, i + 1);
      }
    }
  }

  /** Whether the counters trip at the end of call `k`, told from the stream up to there alone. */
  predicate TripsAfter(trailer: bool, c: Control, read: nat, overhead: nat, parts: seq<seq<byte>>, k: nat)
    requires k < |parts|
  {
    var s := Flatten(parts[..k + 1]);
    var d := Run(trailer, c, s, 0);
    BodyWithin(trailer, c, s, 0);
    d.verdict == More && TooMuchOverhead(read + |s|, overhead + |s| - |d.body|)
  }

  lemma {:induction false} FlattenFirst(parts: seq<seq<byte>>, k: nat)
    requires k < |parts|
    ensures Flatten(parts[..k + 1]) == parts[0] + Flatten(parts[1..][..k])
  {
    assert parts[..k + 1][1..] == parts[1..][..k];
  }

  /**
    With the limit in force, the result is still that of one call unless the counters trip at the
    end of some call; whether they trip there depends on the stream so far, not on earlier cuts.
   */
  lemma {:induction false} CutIndependentBelowLimit(
      trailer: bool, c: Control, read: nat, overhead: nat, parts: seq<seq<byte>>)
    requires overhead <= read
    requires forall k | 0 <= k < |parts| :: !TripsAfter(trailer, c, read, overhead, parts, k)
    ensures LimitedCalls(trailer, c, read, overhead, parts) == OneCall(trailer, c, Flatten(parts))
    decreases |parts|
  {
    CutIndependent(trailer, c, parts);
    hide Run;
    if parts != [] {
      var s := parts[0];
      var d := Run(trailer, c, s, 0);
      BodyWithin(trailer, c, s, 0);
      if d.verdict == More {
        FlattenFirst(parts, 0);
        assert Flatten(parts[..1]) == s;
        assert !TripsAfter(trailer, c, read, overhead, parts, 0);
        var read', overhead' := read + |s|, overhead + (|s| - |d.body|);
        forall k | 0 <= k < |parts[1..]|
          ensures !TripsAfter(trailer, d.control, read', overhead', parts[1..], k)
        {
          assert !TripsAfter(trailer, c, read, overhead, parts, k + 1);
          FlattenFirst(parts, k + 1);
          var t := Flatten(parts[1..][..k + 1]);
          RunAppend(trailer, c, s, 0, t);
          assert (s + t)[|s|..] == t[0..];
          RunShift(trailer, d.control, t, 0, s + t, |s|);
        }
        CutIndependentBelowLimit(trailer, d.control, read', overhead', parts[1..]);
        CutIndependent(trailer, d.control, parts[1..]);
      }
    }
  }

  // ---------------------------------------------------------------------------------------
  // Chunked encodings
  // ---------------------------------------------------------------------------------------

  datatype Chunk = Chunk(size: seq<byte>, ext: seq<byte>, data: seq<byte>)

  /** A trailer line: carriage returns the decoder tolerates, then the line up to its line feed. */
  datatype Line = Line(crs: seq<byte>, text: seq<byte>)

  /** A chunked body; `lines` and `endCrs` only occur when the decoder consumes the trailer. */
  datatype Message = Message(
    chunks: seq<Chunk>, lastSize: seq<byte>, lastExt: seq<byte>, lines: seq<Line>, endCrs: seq<byte>)

  ghost predicate ValidSize(ds: seq<byte>, n: nat) {
    1 <= |ds| <= 16 && AllHex(ds) && HexNumber(ds) == n
  }

  predicate ValidExt(ext: seq<byte>) {
    && '\r' as int !in ext && '\n' as int !in ext
    && (ext != [] ==> ext[0] in Ascii(" \t;"))
  }

  ghost predicate ValidChunk(c: Chunk) {
    c.data != [] && ValidSize(c.size, |c.data|) && ValidExt(c.ext)
  }

  predicate OnlyCr(s: seq<byte>) {
    forall k | 0 <= k < |s| :: s[k] == '\r' as int
  }

  predicate ValidLine(l: Line) {
    OnlyCr(l.crs) && l.text != [] && l.text[0] != '\r' as int && '\n' as int !in l.text
  }

  ghost predicate ValidMessage(trailer: bool, m: Message) {
    && (forall k | 0 <= k < |m.chunks| :: ValidChunk(m.chunks[k]))
    && ValidSize(m.lastSize, 0) && ValidExt(m.lastExt)
    && (forall k | 0 <= k < |m.lines| :: ValidLine(m.lines[k]))
    && OnlyCr(m.endCrs)
    && (!trailer ==> m.lines == [] && m.endCrs == [])
  }

  const CRLF: seq<byte> := Ascii("\r\n")

  function EncodeChunk(c: Chunk): seq<byte> {
    c.size + c.ext + CRLF + c.data + CRLF
  }

  function EncodeLine(l: Line): seq<byte> {
    l.crs + l.text + Ascii("\n")
  }

  function EncodeLines(lines: seq<Line>, endCrs: seq<byte>): seq<byte> {
    if lines == [] then endCrs + Ascii("\n") else EncodeLine(lines[0]) + EncodeLines(lines[1..], endCrs)
  }

  function Encode(trailer: bool, m: Message): seq<byte>
    decreases |m.chunks|
  {
    if m.chunks == [] then
      m.lastSize + m.lastExt + CRLF + if trailer then EncodeLines(m.lines, m.endCrs) else []
    else
      EncodeChunk(m.chunks[0]) + Encode(trailer, m.(chunks := m.chunks[1..]))
  }

  function Body(chunks: seq<Chunk>): seq<byte> {
    if chunks == [] then [] else chunks[0].data + Body(chunks[1..])
  }

  /** The decoder's digits are those of the encoding, worth what they are worth there. */
  lemma DecodeHexIs(b: byte)
    ensures forall d: nat :: DecodeHex(b) == Some(d) <==> HexDigitIs(b, d)
    ensures IsHex(b) <==> DecodeHex(b).Some?
    ensures IsHex(b) ==> DecodeHex(b) == Some(HexWorth(b))
  {
    forall d: nat
      ensures DecodeHex(b) == Some(d) <==> HexDigitIs(b, d)
    {
      HexDigitRange(b, d);
    }
    if DecodeHex(b).Some? {
      assert HexDigitIs(b, DecodeHex(b).value);
    }
  }

  /** The bytes that may follow the digits: those that start an extension, and the line end. */
  lemma EndsChunkSizeIs(b: byte)
    ensures EndsChunkSize(b) <==> b in Ascii(" \t;") || b in Ascii("\r\n")
  {
    var t, e := Ascii(" \t;"), Ascii("\r\n");
    assert t == [t[0], t[1], t[2]] && e == [e[0], e[1]];
  }

  // Forward: how a run passes over each part of an encoding.

  /** The size left in the state by digits read after `left`. */
  ghost function SizeAfter(left: nat, ds: seq<byte>): nat
    requires AllHex(ds)
  {
    left * Pow16(|ds|) + HexNumber(ds)
  }

  lemma OneDigitMore(left: nat, ds: seq<byte>)
    requires ds != [] && AllHex(ds)
    ensures var n := |ds| - 1;
            AllHex(ds[..n]) && IsHex(ds[n]) && SizeAfter(left, ds) == SizeAfter(left, ds[..n]) * 16 + HexWorth(ds[n])
  {
    var n := |ds| - 1;
    HexNumberLast(ds);
    var p := Pow16(n);
    assert Pow16(n + 1) == 16 * p;
    hide AllHex, IsHex, HexWorth, HexNumber, Pow16;
    MoveDigit(left, p, HexNumber(ds[..n]), HexWorth(ds[n]));
  }

  lemma MoveDigit(left: nat, p: nat, v: nat, d: nat)
    ensures left * (16 * p) + (v * 16 + d) == (left * p + v) * 16 + d
  {
    assert left * (16 * p) == (left * p) * 16;
  }

  lemma {:induction false} RunSize(trailer: bool, c: Control, s: seq<byte>, i: nat, n: nat)
    requires c.phase == ChunkSize && c.hexCount + n <= MAX_HEX_DIGITS && i + n <= |s|
    requires AllHex(s[i..i + n])
    ensures Run(trailer, c, s, i)
         == Run(trailer, Control(ChunkSize, SizeAfter(c.left, s[i..i + n]), c.hexCount + n), s, i + n)
    decreases n
  {
    hide Run, AllHex, IsHex, HexWorth;
    if n > 0 {
      hide SizeAfter;
      var ds := s[i..i + n];
      assert s[i..i + (n - 1)] == ds[..n - 1];
      OneDigitMore(c.left, ds);
      RunSize(trailer, c, s, i, n - 1);
      DigitStep(trailer, SizeAfter(c.left, ds[..n - 1]), c.hexCount + n - 1, s, i + n - 1);
    }
  }

  lemma DigitStep(trailer: bool, left: nat, count: nat, s: seq<byte>, i: nat)
    requires i < |s| && IsHex(s[i]) && count < MAX_HEX_DIGITS
    ensures Run(trailer, Control(ChunkSize, left, count), s, i)
         == Run(trailer, Control(ChunkSize, left * 16 + HexWorth(s[i]), count + 1), s, i + 1)
  {
    DecodeHexIs(s[i]);
    hide IsHex, HexWorth;
    RunUnfold(trailer, Control(ChunkSize, left, count), s, i);
    hide Run;
  }

  lemma {:induction false} RunExt(trailer: bool, c: Control, s: seq<byte>, i: nat, n: nat)
    requires c.phase == ChunkExt && i + n <= |s|
    requires CR !in s[i..i + n] && LF !in s[i..i + n]
    ensures Run(trailer, c, s, i) == Run(trailer, c, s, i + n)
    decreases n
  {
    hide Run;
    if n > 0 {
      RunUnfold(trailer, c, s, i);
      assert s[i] == s[i..i + n][0] && s[i + 1..i + n] == s[i..i + n][1..];
      RunExt(trailer, c, s, i + 1, n - 1);
    }
  }

  /** A chunk header leaves the size in the state, wherever the digits and extension stand. */
  lemma {:induction false} RunHeader(trailer: bool, s: seq<byte>, i: nat, size: seq<byte>, ext: seq<byte>, n: nat)
    requires Holds(s, i, size + ext + CRLF) && ValidSize(size, n) && ValidExt(ext)
    ensures Run(trailer, Start, s, i)
         == Run(trailer, Control(HeaderExpectLf, n, 0), s, i + |size| + |ext| + 1)
  {
    hide Run, Step;
    HoldsParts(s, i, size + ext, CRLF);
    HoldsParts(s, i, size, ext);
    RunSize(trailer, Start, s, i, |size|);
    RunHeaderEnd(trailer, s, i + |size|, ext, |size|, n);
  }

  lemma RunHeaderEnd(trailer: bool, s: seq<byte>, j: nat, ext: seq<byte>, count: nat, n: nat)
    requires ValidExt(ext) && Holds(s, j, ext) && Holds(s, j + |ext|, CRLF) && 0 < count
    ensures Run(trailer, Control(ChunkSize, n, count), s, j)
         == Run(trailer, Control(HeaderExpectLf, n, 0), s, j + |ext| + 1)
  {
    hide Run;
    var e := Control(ChunkExt, n, 0);
    assert s[j + |ext|] == s[j + |ext|..j + |ext| + 2][0] == CR;
    assert ext != [] ==> s[j] == s[j..j + |ext|][0];
    RunUnfold(trailer, Control(ChunkSize, n, count), s, j);
    RunUnfold(trailer, e, s, j);
    assert DecodeHex(s[j]).None?;
    RunExt(trailer, e, s, j, |ext|);
    RunUnfold(trailer, e, s, j + |ext|);
  }

  lemma RunChunkData(trailer: bool, s: seq<byte>, j: nat, n: nat)
    requires 0 < n && j + n < |s| && s[j] == LF && Holds(s, j + 1 + n, CRLF)
    ensures Run(trailer, Control(HeaderExpectLf, n, 0), s, j)
         == Prepend(s[j + 1..j + 1 + n], Run(trailer, Start, s, j + n + 3))
  {
    hide Run;
    var k := j + 1 + n;
    RunUnfold(trailer, Control(HeaderExpectLf, n, 0), s, j);
    RunData(trailer, Control(ChunkData, n, 0), s, j + 1, n);
    assert s[k] == s[k..k + 2][0] == CR && s[k + 1] == s[k..k + 2][1] == LF;
    RunUnfold(trailer, Control(DataExpectCr, 0, 0), s, k);
    RunUnfold(trailer, Control(DataExpectLf, 0, 0), s, k + 1);
  }

  lemma RunChunk(trailer: bool, s: seq<byte>, i: nat, chunk: Chunk)
    requires Holds(s, i, EncodeChunk(chunk)) && ValidChunk(chunk)
    ensures Run(trailer, Start, s, i)
         == Prepend(chunk.data, Run(trailer, Start, s, i + |EncodeChunk(chunk)|))
  {
    hide Run, Step, ValidSize, ValidExt;
    var header := chunk.size + chunk.ext + CRLF;
    HoldsParts(s, i, header + chunk.data, CRLF);
    HoldsParts(s, i, header, chunk.data);
    HoldsParts(s, i, chunk.size + chunk.ext, CRLF);
    RunHeader(trailer, s, i, chunk.size, chunk.ext, |chunk.data|);
    var j := i + |header|;
    assert s[j - 1] == s[j - 2..j][1] == LF;
    RunChunkData(trailer, s, j - 1, |chunk.data|);
  }

  const Head := Control(TrailersLineHead, 0, 0)
  const Middle := Control(TrailersLineMiddle, 0, 0)

  lemma {:induction false} RunCrs(trailer: bool, s: seq<byte>, i: nat, n: nat)
    requires i + n <= |s| && OnlyCr(s[i..i + n])
    ensures Run(trailer, Head, s, i) == Run(trailer, Head, s, i + n)
    decreases n
  {
    hide Run;
    if n > 0 {
      RunUnfold(trailer, Head, s, i);
      assert s[i] == s[i..i + n][0] && s[i + 1..i + n] == s[i..i + n][1..];
      RunCrs(trailer, s, i + 1, n - 1);
    }
  }

  lemma {:induction false} RunText(trailer: bool, s: seq<byte>, i: nat, n: nat)
    requires i + n <= |s| && LF !in s[i..i + n]
    ensures Run(trailer, Middle, s, i) == Run(trailer, Middle, s, i + n)
    decreases n
  {
    hide Run;
    if n > 0 {
      RunUnfold(trailer, Middle, s, i);
      assert s[i] == s[i..i + n][0] && s[i + 1..i + n] == s[i..i + n][1..];
      RunText(trailer, s, i + 1, n - 1);
    }
  }

  lemma LineParts(s: seq<byte>, i: nat, line: Line)
    requires Holds(s, i, EncodeLine(line)) && ValidLine(line)
    ensures var j, n := i + |line.crs|, |line.text|;
            && j + n < |s| && OnlyCr(s[i..j]) && |EncodeLine(line)| == |line.crs| + n + 1
            && s[j] != CR && s[j] != LF && LF !in s[j + 1..j + n] && s[j + n] == LF
  {
    var j, n := i + |line.crs|, |line.text|;
    HoldsParts(s, i, line.crs + line.text, [LF]);
    HoldsParts(s, i, line.crs, line.text);
    assert s[j] == s[j..j + n][0] && s[j + 1..j + n] == line.text[1..];
    assert s[j + n] == s[j + n..j + n + 1][0];
  }

  lemma {:induction false} RunLine(trailer: bool, s: seq<byte>, i: nat, line: Line)
    requires Holds(s, i, EncodeLine(line)) && ValidLine(line)
    ensures Run(trailer, Head, s, i) == Run(trailer, Head, s, i + |EncodeLine(line)|)
  {
    hide Run, EncodeLine, OnlyCr;
    LineParts(s, i, line);
    var j, n := i + |line.crs|, |line.text|;
    RunCrs(trailer, s, i, |line.crs|);
    RunUnfold(trailer, Head, s, j);
    RunText(trailer, s, j + 1, n - 1);
    RunUnfold(trailer, Middle, s, j + n);
  }

  lemma {:induction false} RunLines(trailer: bool, s: seq<byte>, i: nat, lines: seq<Line>, endCrs: seq<byte>)
    requires Holds(s, i, EncodeLines(lines, endCrs)) && OnlyCr(endCrs)
    requires forall k | 0 <= k < |lines| :: ValidLine(lines[k])
    ensures Run(trailer, Head, s, i) == Decoded(Head, [], Done, i + |EncodeLines(lines, endCrs)|)
    decreases |lines|
  {
    hide Run;
    if lines == [] {
      HoldsParts(s, i, endCrs, [LF]);
      RunCrs(trailer, s, i, |endCrs|);
      assert s[i + |endCrs|] == [s[i + |endCrs|]][0] == LF;
      RunUnfold(trailer, Head, s, i + |endCrs|);
    } else {
      HoldsParts(s, i, EncodeLine(lines[0]), EncodeLines(lines[1..], endCrs));
      RunLine(trailer, s, i, lines[0]);
      RunLines(trailer, s, i + |EncodeLine(lines[0])|, lines[1..], endCrs);
    }
  }

  /** Where an encoding's last byte leaves the decoder. */
  function AtEnd(trailer: bool): Control {
    if trailer then Head else Control(HeaderExpectLf, 0, 0)
  }

  lemma DecodesLastChunk(trailer: bool, s: seq<byte>, i: nat, m: Message)
    requires ValidMessage(trailer, m) && m.chunks == [] && Holds(s, i, Encode(trailer, m))
    ensures var d := Run(trailer, Start, s, i);
            d == Decoded(AtEnd(trailer), [], Done, i + |Encode(trailer, m)|)
  {
    hide Run;
    var header := m.lastSize + m.lastExt + CRLF;
    var tail := if trailer then EncodeLines(m.lines, m.endCrs) else [];
    HoldsParts(s, i, header, tail);
    HoldsParts(s, i, m.lastSize + m.lastExt, CRLF);
    RunHeader(trailer, s, i, m.lastSize, m.lastExt, 0);
    var j := i + |header|;
    assert s[j - 1] == s[j - 2..j][1] == LF;
    RunUnfold(trailer, Control(HeaderExpectLf, 0, 0), s, j - 1);
    if trailer {
      RunLines(trailer, s, j, m.lines, m.endCrs);
    }
  }

  /** Decoding any chunked encoding returns its body and stops right behind it. */
  lemma {:induction false} DecodesEncoding(trailer: bool, s: seq<byte>, i: nat, m: Message)
    requires ValidMessage(trailer, m) && Holds(s, i, Encode(trailer, m))
    ensures var d := Run(trailer, Start, s, i);
            d == Decoded(AtEnd(trailer), Body(m.chunks), Done, i + |Encode(trailer, m)|)
    decreases |m.chunks|
  {
    hide Run, ValidSize, ValidExt, OnlyCr, ValidLine, EncodeLines, EncodeChunk;
    if m.chunks == [] {
      DecodesLastChunk(trailer, s, i, m);
    } else {
      var rest := m.(chunks := m.chunks[1..]);
      HoldsParts(s, i, EncodeChunk(m.chunks[0]), Encode(trailer, rest));
      RunChunk(trailer, s, i, m.chunks[0]);
      DecodesEncoding(trailer, s, i + |EncodeChunk(m.chunks[0])|, rest);
    }
  }

  // Backward: what a finished run has read.

  /** Where the digits end, looking no further than `limit`. */
  function SpanHex(s: seq<byte>, i: nat, limit: nat): (j: nat)
    requires i <= limit <= |s|
    ensures i <= j <= limit
    ensures forall k | i <= k < j :: DecodeHex(s[k]).Some?
    ensures j < limit ==> DecodeHex(s[j]).None?
    decreases limit - i
  {
    if i == limit || DecodeHex(s[i]).None? then i else SpanHex(s, i + 1, limit)
  }

  function SpanUntil(s: seq<byte>, i: nat, stop: set<byte>): (j: nat)
    requires i <= |s|
    ensures i <= j <= |s|
    ensures forall k | i <= k < j :: s[k] !in stop
    ensures j < |s| ==> s[j] in stop
    decreases |s| - i
  {
    if i == |s| || s[i] in stop then i else SpanUntil(s, i + 1, stop)
  }

  function SpanCr(s: seq<byte>, i: nat): (j: nat)
    requires i <= |s|
    ensures i <= j <= |s|
    ensures forall k | i <= k < j :: s[k] == CR
    ensures j < |s| ==> s[j] != CR
    decreases |s| - i
  {
    if i == |s| || s[i] != CR then i else SpanCr(s, i + 1)
  }

  lemma SizeRead(trailer: bool, s: seq<byte>, i: nat) returns (size: seq<byte>, n: nat)
    requires i <= |s| && Run(trailer, Start, s, i).verdict == Done
    ensures ValidSize(size, n) && Holds(s, i, size)
    ensures var j := i + |size|;
            j < |s| && EndsChunkSize(s[j]) && DecodeHex(s[j]).None?
            && Run(trailer, Start, s, i) == Run(trailer, Control(ChunkExt, n, 0), s, j)
  {
    hide Run, IsHex;
    var limit := if i + MAX_HEX_DIGITS <= |s| then i + MAX_HEX_DIGITS else |s|;
    var j := SpanHex(s, i, limit);
    size := s[i..j];
    forall k | 0 <= k < |size| ensures IsHex(size[k]) {
      assert size[k] == s[i + k];
      DecodeHexIs(s[i + k]);
    }
    hide HexNumber;
    n := HexNumber(size);
    RunSize(trailer, Start, s, i, |size|);
    hide AllHex;
    RunUnfold(trailer, Control(ChunkSize, n, |size|), s, j);
    assert j < |s|;
    RunUnfold(trailer, Control(ChunkExt, n, 0), s, j);
  }

  lemma ExtRead(trailer: bool, s: seq<byte>, i: nat, n: nat) returns (ext: seq<byte>)
    requires i < |s| && EndsChunkSize(s[i]) && Run(trailer, Control(ChunkExt, n, 0), s, i).verdict == Done
    ensures ValidExt(ext) && Holds(s, i, ext) && Holds(s, i + |ext|, CRLF)
    ensures Run(trailer, Control(ChunkExt, n, 0), s, i)
         == Run(trailer, Control(HeaderExpectLf, n, 0), s, i + |ext| + 1)
  {
    hide Run;
    var k := SpanUntil(s, i, {CR, LF});
    ext := s[i..k];
    EndsChunkSizeIs(s[i]);
    assert ext != [] ==> ext[0] == s[i];
    RunExt(trailer, Control(ChunkExt, n, 0), s, i, |ext|);
    RunUnfold(trailer, Control(ChunkExt, n, 0), s, k);
    assert k < |s| && s[k] == CR;
    RunUnfold(trailer, Control(HeaderExpectLf, n, 0), s, k + 1);
    assert s[k..k + 2] == CRLF;
  }

  /** A finished run that starts a chunk has read a chunk header. */
  lemma HeaderRead(trailer: bool, s: seq<byte>, i: nat) returns (size: seq<byte>, ext: seq<byte>, n: nat)
    requires i <= |s| && Run(trailer, Start, s, i).verdict == Done
    ensures ValidSize(size, n) && ValidExt(ext) && Holds(s, i, size + ext + CRLF)
    ensures Run(trailer, Start, s, i) == Run(trailer, Control(HeaderExpectLf, n, 0), s, i + |size| + |ext| + 1)
  {
    hide Run;
    size, n := SizeRead(trailer, s, i);
    ext := ExtRead(trailer, s, i + |size|, n);
    HoldsParts(s, i, size, ext);
    HoldsParts(s, i, size + ext, CRLF);
  }

  /** A finished run behind a non-empty chunk's header has read its data and line end. */
  lemma DataRead(trailer: bool, s: seq<byte>, j: nat, n: nat)
    requires n > 0 && j < |s| && s[j] == LF && Run(trailer, Control(HeaderExpectLf, n, 0), s, j).verdict == Done
    ensures j + 1 + n + 2 <= |s| && Holds(s, j + 1 + n, CRLF)
    ensures Run(trailer, Control(HeaderExpectLf, n, 0), s, j)
         == Prepend(s[j + 1..j + 1 + n], Run(trailer, Start, s, j + 1 + n + 2))
  {
    hide Run;
    RunUnfold(trailer, Control(HeaderExpectLf, n, 0), s, j);
    var avail := |s| - (j + 1);
    var k := if avail < n then avail else n;
    RunData(trailer, Control(ChunkData, n, 0), s, j + 1, k);
    RunUnfold(trailer, AfterData(Control(ChunkData, n, 0), k), s, j + 1 + k);
    RunUnfold(trailer, Control(DataExpectLf, 0, 0), s, j + 1 + k + 1);
    assert s[j + 1 + n..j + 1 + n + 2] == CRLF;
  }

  lemma LineRead(trailer: bool, s: seq<byte>, i: nat, j: nat) returns (line: Line)
    requires i <= j < |s| && OnlyCr(s[i..j]) && s[j] != CR && s[j] != LF
    requires Run(trailer, Head, s, i).verdict == Done
    ensures ValidLine(line) && Holds(s, i, EncodeLine(line))
    ensures Run(trailer, Head, s, i) == Run(trailer, Head, s, i + |EncodeLine(line)|)
  {
    hide Run;
    RunCrs(trailer, s, i, j - i);
    RunUnfold(trailer, Head, s, j);
    var k := SpanUntil(s, j + 1, {LF});
    RunText(trailer, s, j + 1, k - (j + 1));
    RunUnfold(trailer, Middle, s, k);
    assert k < |s|;
    hide Step, EncodeLine, Holds;
    line := Line(s[i..j], s[j..k]);
    LineThere(s, i, j, k);
  }

  lemma LineThere(s: seq<byte>, i: nat, j: nat, k: nat)
    requires i <= j <= k < |s| && s[k] == LF
    ensures var e := EncodeLine(Line(s[i..j], s[j..k])); Holds(s, i, e) && |e| == k + 1 - i
  {
    assert s[k..k + 1] == [LF];
    HoldsParts(s, i, s[i..j], s[j..k]);
    HoldsParts(s, i, s[i..j] + s[j..k], [LF]);
  }

  /** The carriage returns before a line, and that a byte follows them. */
  lemma CrsRead(trailer: bool, s: seq<byte>, i: nat) returns (j: nat)
    requires i <= |s| && Run(trailer, Head, s, i).verdict == Done
    ensures i <= j < |s| && OnlyCr(s[i..j]) && s[j] != CR
  {
    hide Run;
    j := SpanCr(s, i);
    RunCrs(trailer, s, i, j - i);
    RunUnfold(trailer, Head, s, j);
  }

  lemma EmptyLineRead(s: seq<byte>, i: nat, j: nat)
    requires i <= j < |s| && s[j] == LF
    ensures Holds(s, i, EncodeLines([], s[i..j]))
  {
    assert s[j..j + 1] == [LF];
    HoldsParts(s, i, s[i..j], [LF]);
  }

  /** A finished run over the trailer has read whole lines and an empty one. */
  lemma {:induction false} LinesRead(trailer: bool, s: seq<byte>, i: nat) returns (lines: seq<Line>, endCrs: seq<byte>)
    requires i <= |s| && Run(trailer, Head, s, i).verdict == Done
    ensures forall k | 0 <= k < |lines| :: ValidLine(lines[k])
    ensures OnlyCr(endCrs) && Holds(s, i, EncodeLines(lines, endCrs))
    decreases |s| - i
  {
    hide Run, ValidLine, EncodeLine, Holds, OnlyCr;
    var j := CrsRead(trailer, s, i);
    if s[j] == LF {
      lines, endCrs := [], s[i..j];
      EmptyLineRead(s, i, j);
    } else {
      var line := LineRead(trailer, s, i, j);
      EncodeLineNonEmpty(line);
      LineFits(s, i, line);
      var more;
      more, endCrs := LinesRead(trailer, s, i + |EncodeLine(line)|);
      lines := [line] + more;
      assert lines[1..] == more;
      HoldsParts(s, i, EncodeLine(line), EncodeLines(more, endCrs));
    }
  }

  lemma LineFits(s: seq<byte>, i: nat, line: Line)
    requires Holds(s, i, EncodeLine(line))
    ensures i + |EncodeLine(line)| <= |s|
  {
  }

  lemma EncodeLineNonEmpty(line: Line)
    ensures |EncodeLine(line)| > 0
  {
  }

  lemma ChunkRead(trailer: bool, s: seq<byte>, i: nat, size: seq<byte>, ext: seq<byte>, n: nat) returns (chunk: Chunk)
    requires n > 0 && ValidSize(size, n) && ValidExt(ext) && Holds(s, i, size + ext + CRLF)
    requires Run(trailer, Control(HeaderExpectLf, n, 0), s, i + |size| + |ext| + 1).verdict == Done
    ensures ValidChunk(chunk) && Holds(s, i, EncodeChunk(chunk)) && |EncodeChunk(chunk)| > 0
    ensures Run(trailer, Control(HeaderExpectLf, n, 0), s, i + |size| + |ext| + 1)
         == Prepend(chunk.data, Run(trailer, Start, s, i + |EncodeChunk(chunk)|))
  {
    hide Run, ValidSize, ValidExt;
    var j := i + |size| + |ext| + 1;
    HoldsParts(s, i, size + ext, CRLF);
    assert s[j] == s[j - 1..j + 1][1] == LF;
    DataRead(trailer, s, j, n);
    chunk := Chunk(size, ext, s[j + 1..j + 1 + n]);
    HoldsParts(s, i, size + ext + CRLF, chunk.data);
    HoldsParts(s, i, size + ext + CRLF + chunk.data, CRLF);
  }

  lemma LastChunkRead(trailer: bool, s: seq<byte>, i: nat, size: seq<byte>, ext: seq<byte>) returns (m: Message)
    requires ValidSize(size, 0) && ValidExt(ext) && Holds(s, i, size + ext + CRLF)
    requires Run(trailer, Control(HeaderExpectLf, 0, 0), s, i + |size| + |ext| + 1).verdict == Done
    ensures ValidMessage(trailer, m) && Holds(s, i, Encode(trailer, m))
  {
    hide Run, ValidSize, ValidExt;
    var j := i + |size| + |ext| + 1;
    HoldsParts(s, i, size + ext, CRLF);
    RunUnfold(trailer, Control(HeaderExpectLf, 0, 0), s, j);
    var lines, endCrs := [], [];
    if trailer {
      lines, endCrs := LinesRead(trailer, s, j + 1);
      HoldsParts(s, i, size + ext + CRLF, EncodeLines(lines, endCrs));
    }
    m := Message([], size, ext, lines, endCrs);
  }

  /** Conversely, a run that finishes has read a chunked encoding, and this is its message. */
  lemma {:induction false} FinishedRunReadEncoding(trailer: bool, s: seq<byte>, i: nat) returns (m: Message)
    requires i <= |s| && Run(trailer, Start, s, i).verdict == Done
    ensures ValidMessage(trailer, m) && Holds(s, i, Encode(trailer, m))
    decreases |s| - i
  {
    hide Run, ValidSize, ValidExt;
    var size, ext, n := HeaderRead(trailer, s, i);
    if n == 0 {
      m := LastChunkRead(trailer, s, i, size, ext);
    } else {
      hide ValidChunk, EncodeChunk;
      var chunk := ChunkRead(trailer, s, i, size, ext, n);
      var rest := FinishedRunReadEncoding(trailer, s, i + |EncodeChunk(chunk)|);
      m := rest.(chunks := [chunk] + rest.chunks);
      assert m.chunks[1..] == rest.chunks && m.(chunks := rest.chunks) == rest;
      HoldsParts(s, i, EncodeChunk(chunk), Encode(trailer, rest));
    }
  }

  /** `m` is a chunked encoding that `s` begins with. */
  ghost predicate BeginsWith(trailer: bool, s: seq<byte>, m: Message) {
    ValidMessage(trailer, m) && Holds(s, 0, Encode(trailer, m))
  }

  ghost predicate HasEncoding(trailer: bool, s: seq<byte>) {
    exists m :: BeginsWith(trailer, s, m)
  }

  /** A fresh decoder finishes on a stream exactly when the stream begins with a chunked encoding. */
  lemma FinishesExactlyOnEncodings(trailer: bool, s: seq<byte>)
    ensures OneCall(trailer, Start, s).verdict == Done <==> HasEncoding(trailer, s)
  {
    hide Run, Holds, ValidMessage;
    if Run(trailer, Start, s, 0).verdict == Done {
      var m := FinishedRunReadEncoding(trailer, s, 0);
      assert BeginsWith(trailer, s, m);
    }
    forall m | BeginsWith(trailer, s, m)
      ensures Run(trailer, Start, s, 0).verdict == Done
    {
      DecodesEncoding(trailer, s, 0, m);
    }
  }

  /** It returns the encoding's body, and leaves exactly what follows the encoding. */
  lemma EncodingReadBack(trailer: bool, s: seq<byte>, m: Message)
    requires BeginsWith(trailer, s, m)
    ensures var session := OneCall(trailer, Start, s);
            session == Session(AtEnd(trailer), Body(m.chunks), Done, s[|Encode(trailer, m)|..])
  {
    DecodesEncoding(trailer, s, 0, m);
    hide Run, Encode, Body;
  }

  // ---------------------------------------------------------------------------------------
  // Rejection
  // ---------------------------------------------------------------------------------------

  /** Some further bytes would make the stream begin with a chunked encoding. */
  ghost predicate CanContinue(trailer: bool, s: seq<byte>) {
    exists t: seq<byte> :: HasEncoding(trailer, s + t)
  }

  lemma Precede(trailer: bool, c: Control, b: byte, t: seq<byte>) returns (u: seq<byte>)
    requires var m := Step(trailer, c, b);
             m.Finish? || (m.Next? && Run(trailer, m.control, t, 0).verdict == Done)
    ensures Run(trailer, c, u, 0).verdict == Done
  {
    u := [b] + t;
    RunUnfold(trailer, c, u, 0);
    var m := Step(trailer, c, b);
    assert u[1..] == t[0..];
    RunShift(trailer, m.control, t, 0, u, 1);
    hide Run;
  }

  lemma CompleteHeader(trailer: bool) returns (t: seq<byte>)
    ensures Run(trailer, Control(HeaderExpectLf, 0, 0), t, 0).verdict == Done
  {
    hide Run;
    t := [];
    if trailer {
      t := Precede(trailer, Head, LF, t);
    }
    t := Precede(trailer, Control(HeaderExpectLf, 0, 0), LF, t);
  }

  lemma CompleteStart(trailer: bool) returns (t: seq<byte>)
    ensures Run(trailer, Start, t, 0).verdict == Done
  {
    hide Run;
    t := CompleteHeader(trailer);
    t := Precede(trailer, Control(ChunkSize, 0, 1), CR, t);
    t := Precede(trailer, Start, '0' as int, t);
  }

  lemma CompleteData(trailer: bool, n: nat) returns (t: seq<byte>)
    requires n > 0
    ensures Run(trailer, Control(ChunkData, n, 0), t, 0).verdict == Done
  {
    hide Run;
    var u := CompleteStart(trailer);
    u := Precede(trailer, Control(DataExpectLf, 0, 0), LF, u);
    u := Precede(trailer, Control(DataExpectCr, 0, 0), CR, u);
    var data := seq(n, _ => 0 as byte);
    t := data + u;
    RunData(trailer, Control(ChunkData, n, 0), t, 0, n);
    assert t[n..] == u[0..];
    RunShift(trailer, Control(DataExpectCr, 0, 0), u, 0, t, n);
  }

  lemma CompleteSized(trailer: bool, n: nat) returns (t: seq<byte>)
    ensures Run(trailer, Control(HeaderExpectLf, n, 0), t, 0).verdict == Done
  {
    hide Run;
    if n == 0 {
      t := CompleteHeader(trailer);
    } else {
      t := CompleteData(trailer, n);
      t := Precede(trailer, Control(HeaderExpectLf, n, 0), LF, t);
    }
  }

  /** From every reachable state some bytes lead to the end of an encoding. */
  lemma Completes(trailer: bool, c: Control) returns (t: seq<byte>)
    requires Reachable(c)
    ensures Run(trailer, c, t, 0).verdict == Done
  {
    hide Run;
    match c.phase {
      case ChunkSize =>
        if c.hexCount == 0 {
          t := CompleteStart(trailer);
        } else {
          t := CompleteSized(trailer, c.left);
          t := Precede(trailer, c, CR, t);
        }
      case ChunkExt =>
        t := CompleteSized(trailer, c.left);
        t := Precede(trailer, c, CR, t);
      case HeaderExpectLf => t := CompleteSized(trailer, c.left);
      case ChunkData => t := CompleteData(trailer, c.left);
      case DataExpectCr =>
        t := CompleteStart(trailer);
        t := Precede(trailer, Control(DataExpectLf, 0, 0), LF, t);
        t := Precede(trailer, c, CR, t);
      case DataExpectLf =>
        t := CompleteStart(trailer);
        t := Precede(trailer, c, LF, t);
      case TrailersLineHead => t := Precede(trailer, c, LF, []);
      case TrailersLineMiddle =>
        t := Precede(trailer, Head, LF, []);
        t := Precede(trailer, c, LF, t);
    }
  }

  /** A stream is rejected exactly when nothing that could follow makes it a chunked encoding. */
  lemma RejectsExactly(trailer: bool, s: seq<byte>)
    ensures OneCall(trailer, Start, s).verdict == Bad <==> !CanContinue(trailer, s)
  {
    hide Run, HasEncoding, Reachable;
    var d := Run(trailer, Start, s, 0);
    if d.verdict == Bad {
      forall t: seq<byte>
        ensures !HasEncoding(trailer, s + t)
      {
        RunAppend(trailer, Start, s, 0, t);
        FinishesExactlyOnEncodings(trailer, s + t);
      }
    } else {
      var t := Continuation(trailer, s);
    }
  }

  lemma Continuation(trailer: bool, s: seq<byte>) returns (t: seq<byte>)
    requires Run(trailer, Start, s, 0).verdict != Bad
    ensures HasEncoding(trailer, s + t)
  {
    var d := Run(trailer, Start, s, 0);
    StartReachable();
    hide Run, HasEncoding, Reachable;
    t := [];
    if d.verdict == More {
      RunKeepsReachable(trailer, Start, s, 0);
      t := Completes(trailer, d.control);
      assert (s + t)[|s|..] == t[0..];
      RunShift(trailer, d.control, t, 0, s + t, |s|);
    }
    RunAppend(trailer, Start, s, 0, t);
    FinishesExactlyOnEncodings(trailer, s + t);
  }

  lemma StartReachable()
    ensures Reachable(Start)
  {
  }

  /** And it is rejected at the first byte that rules every encoding out. */
  lemma RejectsAtOnce(trailer: bool, s: seq<byte>)
    requires OneCall(trailer, Start, s).verdict == Bad
    ensures var k := |s| - |OneCall(trailer, Start, s).rest|;
            k < |s| && CanContinue(trailer, s[..k]) && !CanContinue(trailer, s[..k + 1])
  {
    var d := Run(trailer, Start, s, 0);
    BadStopsBefore(trailer, Start, s, 0);
    var k := d.pos;
    hide Run, CanContinue;
    assert s[..k] + s[k..] == s && s[..k + 1] + s[k + 1..] == s;
    BadStopsBefore(trailer, Start, s[..k], 0);
    RunAppend(trailer, Start, s[..k], 0, s[k..]);
    RunAppend(trailer, Start, s[..k + 1], 0, s[k + 1..]);
    RejectsExactly(trailer, s[..k]);
    RejectsExactly(trailer, s[..k + 1]);
  }

  lemma {:induction false} BadStopsBefore(trailer: bool, c: Control, s: seq<byte>, i: nat)
    requires i <= |s|
    ensures Run(trailer, c, s, i).verdict == Bad ==> Run(trailer, c, s, i).pos < |s|
    decreases |s| - i
  {
    RunUnfold(trailer, c, s, i);
    hide Run;
    if i < |s| {
      var m := Step(trailer, c, s[i]);
      if m.Next? {
        BadStopsBefore(trailer, m.control, s, i + 1);
      }
    }
  }

  /**
    The counters trip once the overhead has reached 100 KiB and exceeds three times the body by at
    least four bytes: the source's comment speaks of 80 percent, its test is at 75.
   */
  lemma OverheadTrips(body: nat, overhead: nat)
    ensures TooMuchOverhead(body + overhead, overhead) <==> overhead >= 102400 && 3 * body + 4 <= overhead
  {
    var read := body + overhead;
    assert read / 4 * 4 + read % 4 == read;
  }
}
