/**
  The chunked transfer decoder of picohttpparser.

  `Step` is the decoder's reaction to one byte and `Run` the reaction to a
  whole buffer; `Decoder.Decode` is the loop over the caller's buffer, which
  squeezes the chunk headers out in place and is proved to compute `Run`.
*/
module ChunkedDecoder {
  import opened Bytes

  datatype Phase =
    | ChunkSize
    | ChunkExt
    | HeaderExpectLf
    | ChunkData
    | DataExpectCr
    | DataExpectLf
    | TrailersLineHead
    | TrailersLineMiddle

  /** The part of the decoder's state that survives between calls and steers parsing. */
  datatype Control = Control(phase: Phase, left: nat, hexCount: nat)

  const Start := Control(ChunkSize, 0, 0)

  const MAX_HEX_DIGITS: nat := 16

  function Pow16(n: nat): nat {
    if n == 0 then 1 else 16 * Pow16(n - 1)
  }

  /** What every reachable control state satisfies; the size fits the width of `size_t`. */
  predicate Reachable(c: Control) {
    && c.hexCount <= MAX_HEX_DIGITS
    && (c.phase != ChunkSize ==> c.hexCount == 0)
    && (c.phase == ChunkSize ==> c.left < Pow16(c.hexCount))
    && (c.phase == ChunkData ==> c.left > 0)
    && (c.phase in {DataExpectCr, DataExpectLf, TrailersLineHead, TrailersLineMiddle} ==> c.left == 0)
    && c.left < 0x1_0000_0000_0000_0000
  }

  function DecodeHex(b: byte): Option<nat> {
    if '0' as int <= b <= '9' as int then Some(b - '0' as int)
    else if 'A' as int <= b <= 'F' as int then Some(b - 'A' as int + 10)
    else if 'a' as int <= b <= 'f' as int then Some(b - 'a' as int + 10)
    else None
  }

  /** The only bytes that may follow the digits: white space, a semicolon or a line end. */
  predicate EndsChunkSize(b: byte) {
    b == SP || b == HT || b == ';' as int || b == LF || b == CR
  }

  /** The reaction to one byte: consume it, finish on it, or reject it unread. */
  datatype Move =
    | Next(control: Control, emits: bool)
    | Finish(control: Control)
    | Reject(control: Control)

  function StepExt(c: Control, b: byte): Move {
    if b == CR then Next(c.(phase := HeaderExpectLf), false)
    else if b == LF then Reject(c)
    else Next(c, false)
  }

  function Step(trailer: bool, c: Control, b: byte): Move {
    match c.phase
    case ChunkSize =>
      (match DecodeHex(b)
       case Some(v) =>
         if c.hexCount == MAX_HEX_DIGITS then Reject(c)
         else Next(Control(ChunkSize, c.left * 16 + v, c.hexCount + 1), false)
       case None =>
         if c.hexCount == 0 || !EndsChunkSize(b) then Reject(c)
         else StepExt(c.(phase := ChunkExt, hexCount := 0), b))
    case ChunkExt => StepExt(c, b)
    case HeaderExpectLf =>
      if b != LF then Reject(c)
      else if c.left > 0 then Next(c.(phase := ChunkData), false)
      else if trailer then Next(c.(phase := TrailersLineHead), false)
      else Finish(c)
    case ChunkData =>
      if c.left <= 1 then Next(c.(phase := DataExpectCr, left := 0), true)
      else Next(c.(left := c.left - 1), true)
    case DataExpectCr =>
      if b == CR then Next(c.(phase := DataExpectLf), false) else Reject(c)
    case DataExpectLf =>
      if b == LF then Next(c.(phase := ChunkSize), false) else Reject(c)
    case TrailersLineHead =>
      if b == CR then Next(c, false)
      else if b == LF then Finish(c)
      else Next(c.(phase := TrailersLineMiddle), false)
    case TrailersLineMiddle =>
      if b == LF then Next(c.(phase := TrailersLineHead), false) else Next(c, false)
  }

  datatype Verdict = More | Done | Bad

  /** The result of decoding a buffer: bytes from `pos` on were not consumed. */
  datatype Decoded = Decoded(control: Control, body: seq<byte>, verdict: Verdict, pos: nat)

  function Prepend(body: seq<byte>, d: Decoded): Decoded {
    d.(body := body + d.body)
  }

  function Run(trailer: bool, c: Control, s: seq<byte>, i: nat): (d: Decoded)
    requires i <= |s|
    ensures i <= d.pos <= |s|
    ensures d.verdict == More ==> d.pos == |s|
    decreases |s| - i
  {
    if i == |s| then Decoded(c, [], More, i)
    else
      match Step(trailer, c, s[i])
      case Next(c', emits) =>
        var d := Run(trailer, c', s, i + 1);
        if emits then Prepend([s[i]], d) else d
      case Finish(c') => Decoded(c', [], Done, i + 1)
      case Reject(c') => Decoded(c', [], Bad, i)
  }

  // ---------------------------------------------------------------------------------------
  // The decoder object
  // ---------------------------------------------------------------------------------------

  lemma {:induction false} Pow16Bound(n: nat)
    requires n <= MAX_HEX_DIGITS
    ensures Pow16(n) <= 0x1_0000_0000_0000_0000
    decreases MAX_HEX_DIGITS - n
  {
    if n < MAX_HEX_DIGITS {
      Pow16Bound(n + 1);
    } else {
      assert Pow16(4) == 0x1_0000;
      assert Pow16(8) == 0x1_0000_0000;
      assert Pow16(12) == 0x1_0000_0000_0000;
    }
  }

  /** Every step keeps the control state reachable, so the size never overflows. */
  lemma StepKeepsReachable(trailer: bool, c: Control, b: byte)
    requires Reachable(c)
    ensures Reachable(Step(trailer, c, b).control)
  {
    if c.phase == ChunkSize && c.hexCount < MAX_HEX_DIGITS {
      Pow16Bound(c.hexCount + 1);
    }
  }

  lemma SizeReadKeepsReachable(c: Control)
    requires Reachable(c)
    ensures Reachable(c.(phase := ChunkExt, hexCount := 0))
  {
  }

  lemma {:induction false} RunKeepsReachable(trailer: bool, c: Control, s: seq<byte>, i: nat)
    requires Reachable(c) && i <= |s|
    ensures Reachable(Run(trailer, c, s, i).control)
    decreases |s| - i
  {
    if i < |s| {
      StepKeepsReachable(trailer, c, s[i]);
      var m := Step(trailer, c, s[i]);
      if m.Next? {
        RunKeepsReachable(trailer, m.control, s, i + 1);
      }
    }
  }

  /** One step of a run, for proofs that keep `Run` folded. */
  lemma RunUnfold(trailer: bool, c: Control, s: seq<byte>, i: nat)
    requires i <= |s|
    ensures Run(trailer, c, s, i) ==
              if i == |s| then Decoded(c, [], More, i) else
              match Step(trailer, c, s[i])
              case Next(c', emits) =>
                if emits then Prepend([s[i]], Run(trailer, c', s, i + 1)) else Run(trailer, c', s, i + 1)
              case Finish(c') => Decoded(c', [], Done, i + 1)
              case Reject(c') => Decoded(c', [], Bad, i)
  {
  }

  /** A run depends only on the bytes ahead of it. */
  lemma {:induction false} RunShift(trailer: bool, c: Control, s: seq<byte>, i: nat, t: seq<byte>, j: nat)
    requires i <= |s| && j <= |t| && s[i..] == t[j..]
    ensures var d := Run(trailer, c, s, i);
            Run(trailer, c, t, j) == d.(pos := d.pos - i + j)
    decreases |s| - i
  {
    assert |s| - i == |s[i..]| == |t[j..]| == |t| - j;
    RunUnfold(trailer, c, s, i);
    RunUnfold(trailer, c, t, j);
    hide Run;
    if i < |s| {
      assert s[i] == s[i..][0] == t[j..][0] == t[j];
      assert s[i + 1..] == s[i..][1..] == t[j..][1..] == t[j + 1..];
      var m := Step(trailer, c, s[i]);
      if m.Next? {
        RunShift(trailer, m.control, s, i + 1, t, j + 1);
      }
    }
  }

  /** The state after copying `n` bytes of chunk data. */
  function AfterData(c: Control, n: nat): Control
    requires n <= c.left
  {
    if n == c.left && n > 0 then c.(phase := DataExpectCr, left := 0) else c.(left := c.left - n)
  }

  /** A stretch of chunk data shorter than what is left is copied and shortens the chunk. */
  lemma {:induction false} RunData(trailer: bool, c: Control, s: seq<byte>, i: nat, n: nat)
    requires c.phase == ChunkData && n <= c.left && i + n <= |s|
    ensures Run(trailer, c, s, i) == Prepend(s[i..i + n], Run(trailer, AfterData(c, n), s, i + n))
    decreases n
  {
    hide Run;
    if n == 0 {
      assert s[i..i] == [];
    } else {
      RunUnfold(trailer, c, s, i);
      var c1 := Step(trailer, c, s[i]).control;
      var d := Run(trailer, AfterData(c, n), s, i + n);
      if n > 1 {
        RunData(trailer, c1, s, i + 1, n - 1);
      }
      assert [s[i]] + (s[i + 1..i + n] + d.body) == s[i..i + n] + d.body;
    }
  }

  const OVERHEAD_LIMIT: nat := 100 * 1024

  /** Whether the chunk headers have outgrown the body of a long stream. */
  predicate TooMuchOverhead(totalRead: nat, totalOverhead: nat) {
    totalOverhead >= OVERHEAD_LIMIT && totalRead - totalOverhead < totalRead / 4
  }

  class Decoder {
    var bytesLeftInChunk: nat
    var consumeTrailer: bool
    var hexCount: nat
    var state: Phase
    var totalRead: nat
    var totalOverhead: nat

    function Ctl(): Control
      reads this
    {
      Control(state, bytesLeftInChunk, hexCount)
    }

    /** What a scanning step establishes: the verdict, or how the rest of the run goes on. */
    ghost predicate Advanced(c0: Control, s: seq<byte>, start: nat, c: Control, src: nat, decided: bool, verdict: Verdict)
      requires start <= src <= |s|
      reads this`consumeTrailer
    {
      if decided then Run(consumeTrailer, c0, s, start) == Decoded(c, [], verdict, src)
      else Run(consumeTrailer, c0, s, start) == Run(consumeTrailer, c, s, src)
    }

    /** `s` is the buffer as the caller passed it; from `from` on it is still in place. */
    ghost predicate Pending(buf: array<byte>, bufsz: nat, from: nat, s: seq<byte>)
      reads buf
    {
      && from <= bufsz <= buf.Length && |s| == bufsz
      && forall k | from <= k < bufsz :: buf[k] == s[k]
    }

    predicate Valid()
      reads this
    {
      Reachable(Ctl()) && totalOverhead <= totalRead
    }

    constructor (trailer: bool)
      ensures Valid() && Ctl() == Start && consumeTrailer == trailer
      ensures totalRead == 0 && totalOverhead == 0
    {
      bytesLeftInChunk, hexCount, state := 0, 0, ChunkSize;
      consumeTrailer := trailer;
      totalRead, totalOverhead := 0, 0;
    }

    /** CHUNKED_IN_CHUNK_SIZE: the loop over hexadecimal digits. */
    method ReadChunkSize(buf: array<byte>, bufsz: nat, start: nat, ghost s: seq<byte>) returns (src: nat, decided: bool, verdict: Verdict)
      requires Pending(buf, bufsz, start, s)
      requires Valid() && state == ChunkSize
      modifies this`bytesLeftInChunk, this`hexCount, this`state
      ensures start <= src <= bufsz && Valid()
      ensures Advanced(old(Ctl()), s, start, Ctl(), src, decided, verdict)
      ensures !decided ==> state == ChunkExt
    {
      hide Run, Reachable;
      src := start;
      ghost var c0 := Ctl();
      while true
        invariant start <= src <= bufsz && Valid() && state == ChunkSize
        invariant Run(consumeTrailer, c0, s, start) == Run(consumeTrailer, Ctl(), s, src)
        decreases bufsz - src
      {
        RunUnfold(consumeTrailer, Ctl(), s, src);
        if src == bufsz {
          return src, true, More;
        }
        var b := buf[src];
        StepKeepsReachable(consumeTrailer, Ctl(), b);
        var v := DecodeHex(b);
        if v.None? {
          if hexCount == 0 {
            return src, true, Bad;
          }
          if !EndsChunkSize(b) {
            return src, true, Bad;
          }
          break;
        }
        if hexCount == MAX_HEX_DIGITS {
          return src, true, Bad;
        }
        bytesLeftInChunk := bytesLeftInChunk * 16 + v.value;
        hexCount := hexCount + 1;
        src := src + 1;
      }
      SizeReadKeepsReachable(Ctl());
      hexCount := 0;
      state := ChunkExt;
      RunUnfold(consumeTrailer, Ctl(), s, src);
      return src, false, More;
    }

    /** CHUNKED_IN_CHUNK_EXT: skip an extension up to its carriage return. */
    method SkipExtension(buf: array<byte>, bufsz: nat, start: nat, ghost s: seq<byte>) returns (src: nat, decided: bool, verdict: Verdict)
      requires Pending(buf, bufsz, start, s)
      requires Valid() && state == ChunkExt
      modifies this`state
      ensures start <= src <= bufsz && Valid()
      ensures Advanced(old(Ctl()), s, start, Ctl(), src, decided, verdict)
      ensures !decided ==> start < src
    {
      hide Run;
      src := start;
      ghost var c0 := Ctl();
      while true
        invariant start <= src <= bufsz && Valid() && Ctl() == c0
        invariant Run(consumeTrailer, c0, s, start) == Run(consumeTrailer, c0, s, src)
        decreases bufsz - src
      {
        RunUnfold(consumeTrailer, c0, s, src);
        if src == bufsz {
          return src, true, More;
        }
        var b := buf[src];
        if b == CR {
          break;
        } else if b == LF {
          return src, true, Bad;
        }
        src := src + 1;
      }
      src := src + 1;
      state := HeaderExpectLf;
      return src, false, More;
    }

    /** CHUNKED_IN_TRAILERS_LINE_HEAD: skip carriage returns, then finish or enter the line. */
    method SkipLineHead(buf: array<byte>, bufsz: nat, start: nat, ghost s: seq<byte>) returns (src: nat, decided: bool, verdict: Verdict)
      requires Pending(buf, bufsz, start, s)
      requires Valid() && state == TrailersLineHead
      modifies this`state
      ensures start <= src <= bufsz && Valid()
      ensures Advanced(old(Ctl()), s, start, Ctl(), src, decided, verdict)
      ensures !decided ==> start < src
    {
      hide Run;
      src := start;
      ghost var c0 := Ctl();
      while true
        invariant start <= src <= bufsz && Valid() && Ctl() == c0
        invariant Run(consumeTrailer, c0, s, start) == Run(consumeTrailer, c0, s, src)
        decreases bufsz - src
      {
        RunUnfold(consumeTrailer, c0, s, src);
        if src == bufsz {
          return src, true, More;
        }
        if buf[src] != CR {
          break;
        }
        src := src + 1;
      }
      src := src + 1;
      if buf[src - 1] == LF {
        return src, true, Done;
      }
      state := TrailersLineMiddle;
      return src, false, More;
    }

    /** CHUNKED_IN_TRAILERS_LINE_MIDDLE: skip the rest of a trailer line. */
    method SkipLineMiddle(buf: array<byte>, bufsz: nat, start: nat, ghost s: seq<byte>) returns (src: nat, decided: bool, verdict: Verdict)
      requires Pending(buf, bufsz, start, s)
      requires Valid() && state == TrailersLineMiddle
      modifies this`state
      ensures start <= src <= bufsz && Valid()
      ensures Advanced(old(Ctl()), s, start, Ctl(), src, decided, verdict)
      ensures !decided ==> start < src
    {
      hide Run;
      src := start;
      ghost var c0 := Ctl();
      while true
        invariant start <= src <= bufsz && Valid() && Ctl() == c0
        invariant Run(consumeTrailer, c0, s, start) == Run(consumeTrailer, c0, s, src)
        decreases bufsz - src
      {
        RunUnfold(consumeTrailer, c0, s, src);
        if src == bufsz {
          return src, true, More;
        }
        if buf[src] == LF {
          break;
        }
        src := src + 1;
      }
      src := src + 1;
      state := TrailersLineHead;
      return src, false, More;
    }

    /** The three states that look at a single byte. */
    method ExpectByte(buf: array<byte>, bufsz: nat, start: nat, ghost s: seq<byte>) returns (src: nat, decided: bool, verdict: Verdict)
      requires Pending(buf, bufsz, start, s)
      requires Valid() && state in {HeaderExpectLf, DataExpectCr, DataExpectLf}
      modifies this`state
      ensures start <= src <= bufsz && Valid()
      ensures Advanced(old(Ctl()), s, start, Ctl(), src, decided, verdict)
      ensures !decided ==> start < src
    {
      hide Run;
      src := start;
      ghost var c0 := Ctl();
      RunUnfold(consumeTrailer, c0, s, src);
      if src == bufsz {
        return src, true, More;
      }
      if buf[src] != (if state == DataExpectCr then CR else LF) {
        return src, true, Bad;
      }
      src := src + 1;
      match state {
        case DataExpectCr => state := DataExpectLf;
        case DataExpectLf => state := ChunkSize;
        case HeaderExpectLf =>
          if bytesLeftInChunk == 0 {
            if consumeTrailer {
              state := TrailersLineHead;
            } else {
              return src, true, Done;
            }
          } else {
            state := ChunkData;
          }
      }
      return src, false, More;
    }

    /** CHUNKED_IN_CHUNK_DATA: move what is available of the chunk down to `to`. */
    method CopyData(buf: array<byte>, bufsz: nat, from: nat, to: nat, ghost s: seq<byte>) returns (src: nat, dst: nat)
      requires to <= from && Pending(buf, bufsz, from, s)
      requires Valid() && state == ChunkData
      modifies this`bytesLeftInChunk, this`state, buf
      ensures Valid() && from <= src <= bufsz && dst == to + (src - from)
      ensures src == bufsz || state == DataExpectCr
      ensures state == ChunkData || (state == DataExpectCr && from < src)
      ensures buf[..dst] == old(buf[..to]) + s[from..src]
      ensures Pending(buf, bufsz, src, s) && buf[bufsz..] == old(buf[bufsz..])
      ensures Run(consumeTrailer, old(Ctl()), s, from) == Prepend(s[from..src], Run(consumeTrailer, Ctl(), s, src))
    {
      hide Run;
      var avail := bufsz - from;
      var n := if avail < bytesLeftInChunk then avail else bytesLeftInChunk;
      RunData(consumeTrailer, Ctl(), s, from, n);
      if to != from {
        forall k | 0 <= k < n {
          buf[to + k] := buf[from + k];
        }
      }
      src, dst := from + n, to + n;
      if avail < bytesLeftInChunk {
        bytesLeftInChunk := bytesLeftInChunk - avail;
      } else {
        bytesLeftInChunk := 0;
        state := DataExpectCr;
      }
    }

    /**
      One turn of the state switch. `s` is the caller's original buffer, of which the part from
      `from` on is still in place.
     */
    method Dispatch(buf: array<byte>, bufsz: nat, from: nat, to: nat, ghost s: seq<byte>)
      returns (src: nat, dst: nat, decided: bool, verdict: Verdict, ghost moved: seq<byte>)
      requires to <= from && Pending(buf, bufsz, from, s) && Valid()
      modifies this`bytesLeftInChunk, this`hexCount, this`state, buf
      ensures from <= src <= bufsz && dst <= src && Valid()
      ensures dst == to + |moved| && buf[..dst] == old(buf[..to]) + moved
      ensures Pending(buf, bufsz, src, s) && buf[bufsz..] == old(buf[bufsz..])
      ensures if decided then Run(consumeTrailer, old(Ctl()), s, from) == Decoded(Ctl(), moved, verdict, src)
              else Run(consumeTrailer, old(Ctl()), s, from) == Prepend(moved, Run(consumeTrailer, Ctl(), s, src))
      ensures !decided ==> from < src || (old(state) == ChunkSize && state == ChunkExt)
    {
      hide Run, Reachable;
      dst, moved := to, [];
      match state {
        case ChunkSize => src, decided, verdict := ReadChunkSize(buf, bufsz, from, s);
        case ChunkExt => src, decided, verdict := SkipExtension(buf, bufsz, from, s);
        case ChunkData =>
          src, dst := CopyData(buf, bufsz, from, to, s);
          moved := s[from..src];
          decided, verdict := state == ChunkData, More;
          RunUnfold(consumeTrailer, Ctl(), s, src);
        case HeaderExpectLf | DataExpectCr | DataExpectLf =>
          src, decided, verdict := ExpectByte(buf, bufsz, from, s);
        case TrailersLineHead => src, decided, verdict := SkipLineHead(buf, bufsz, from, s);
        case TrailersLineMiddle => src, decided, verdict := SkipLineMiddle(buf, bufsz, from, s);
      }
    }

    /** Moves the bytes that were not consumed down to the end of the decoded body. */
    method CloseGap(buf: array<byte>, bufsz: nat, src: nat, dst: nat, ghost s: seq<byte>)
      requires dst <= src && Pending(buf, bufsz, src, s)
      modifies buf
      ensures buf[..dst] == old(buf[..dst]) && buf[dst..dst + (bufsz - src)] == s[src..]
      ensures buf[bufsz..] == old(buf[bufsz..])
    {
      if dst != src {
        forall k | 0 <= k < bufsz - src {
          buf[dst + k] := buf[src + k];
        }
      }
    }

    /**
      Decodes `buf[..bufsz]` in place. The body found replaces the front of the buffer, followed
      by the bytes that were not consumed; the result is their number, or -2 for more, or -1.
     */
    method Decode(buf: array<byte>, bufsz: nat) returns (ret: int, newSize: nat)
      requires Valid() && bufsz <= buf.Length
      modifies this`bytesLeftInChunk, this`hexCount, this`state, this`totalRead, this`totalOverhead, buf
      ensures Valid()
      ensures var d := Run(consumeTrailer, old(Ctl()), old(buf[..bufsz]), 0);
        && Ctl() == d.control
        && newSize == |d.body| <= d.pos
        && buf[..newSize] == d.body
        && buf[newSize..newSize + (bufsz - d.pos)] == old(buf[..bufsz])[d.pos..]
        && buf[bufsz..] == old(buf[bufsz..])
        && totalRead == old(totalRead) + bufsz
        && totalOverhead == old(totalOverhead) + (if d.verdict == More then bufsz - newSize else 0)
        && ret == (match d.verdict
                   case Done => bufsz - d.pos
                   case Bad => -1
                   case More => if TooMuchOverhead(totalRead, totalOverhead) then -1 else -2)
    {
      hide Run, Reachable;
      ghost var s, c0 := buf[..bufsz], Ctl();
      var dst, src := 0, 0;
      var decided, verdict := false, More;
      ghost var body: seq<byte> := [];
      totalRead := totalRead + bufsz;
      while !decided
        invariant dst <= src <= bufsz && Valid()
        invariant totalRead == old(totalRead) + bufsz && totalOverhead == old(totalOverhead)
        invariant |body| == dst && buf[..dst] == body
        invariant Pending(buf, bufsz, src, s) && buf[bufsz..] == old(buf[bufsz..])
        invariant if decided then Run(consumeTrailer, c0, s, 0) == Decoded(Ctl(), body, verdict, src)
                  else Run(consumeTrailer, c0, s, 0) == Prepend(body, Run(consumeTrailer, Ctl(), s, src))
        decreases !decided, bufsz - src, state == ChunkSize
      {
        ghost var moved;
        src, dst, decided, verdict, moved := Dispatch(buf, bufsz, src, dst, s);
        body := body + moved;
      }
      CloseGap(buf, bufsz, src, dst, s);
      newSize := dst;
      match verdict {
        case Done => ret := bufsz - src;
        case Bad => ret := -1;
        case More =>
          totalOverhead := totalOverhead + (bufsz - dst);
          ret := if TooMuchOverhead(totalRead, totalOverhead) then -1 else -2;
      }
    }
  }
}
