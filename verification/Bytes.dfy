/** Bytes and the character codes the parsers name. */
module Bytes {

  type byte = b: int | 0 <= b < 256

  datatype Option<+T> = None | Some(value: T)

  const HT: byte := 9
  const LF: byte := 10
  const CR: byte := 13
  const SP: byte := 32

  const ZERO: byte := 48

  /** The byte at `i` of a text that ends in zero bytes. */
  function At(buf: seq<byte>, i: nat): byte {
    if i < |buf| then buf[i] else 0
  }

  predicate IsDigit(b: byte) {
    ZERO <= b <= ZERO + 9
  }

  /** `s` stands in the text at `q`. */
  predicate Holds(buf: seq<byte>, q: nat, s: seq<byte>) {
    q + |s| <= |buf| && buf[q..q + |s|] == s
  }

  lemma HoldsParts(buf: seq<byte>, q: nat, a: seq<byte>, b: seq<byte>)
    ensures Holds(buf, q, a + b) <==> Holds(buf, q, a) && Holds(buf, q + |a|, b)
  {
    if q + |a| + |b| <= |buf| {
      var w := buf[q..q + |a| + |b|];
      assert w[..|a|] == buf[q..q + |a|] && w[|a|..] == buf[q + |a|..q + |a| + |b|];
      assert (a + b)[..|a|] == a && (a + b)[|a|..] == b;
      assert w == w[..|a|] + w[|a|..];
    }
  }

  /** `s` with `w` written over it. */
  function Patched(s: seq<byte>, at: nat, w: seq<byte>): (r: seq<byte>)
    requires at + |w| <= |s|
    ensures |r| == |s|
  {
    s[..at] + w + s[at + |w|..]
  }

  /** byte_copy of a few bytes. */
  method Put(buf: array<byte>, at: nat, w: seq<byte>)
    requires at + |w| <= buf.Length
    modifies buf
    ensures buf[..] == Patched(old(buf[..]), at, w)
  {
    forall k | 0 <= k < |w| {
      buf[at + k] := w[k];
    }
  }
}
