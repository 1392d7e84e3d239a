/**
  Texts written out as literals, and the digits by their place in such a text.
  The grammars the parsers are measured against are stated on these alone.
*/
module Literals {
  import opened Bytes

  /** The bytes of an ASCII text. */
  function Ascii(t: string): (s: seq<byte>)
    requires forall k | 0 <= k < |t| :: t[k] as int < 128
    ensures |s| == |t|
    ensures forall k | 0 <= k < |t| :: s[k] == t[k] as int
  {
    seq(|t|, k requires 0 <= k < |t| => t[k] as int)
  }

  const UPPER := "0123456789ABCDEF"
  const LOWER := "0123456789abcdef"

  /** `b` is a hexadecimal digit, in either case, that stands for `d`. */
  predicate HexDigitIs(b: byte, d: nat) {
    d < 16 && (b == UPPER[d] as int || b == LOWER[d] as int)
  }

  /** `b` is a decimal digit that stands for `d`. */
  predicate DigitIs(b: byte, d: nat) {
    d < 10 && b == UPPER[d] as int
  }

  ghost predicate IsHex(b: byte) {
    exists d :: HexDigitIs(b, d)
  }

  /** What a hexadecimal digit stands for. */
  ghost function HexWorth(b: byte): (d: nat)
    requires IsHex(b)
    ensures HexDigitIs(b, d)
  {
    var d :| HexDigitIs(b, d); d
  }

  /** The place of a digit in either text, told by ranges of codes. */
  lemma HexDigitRange(b: byte, d: nat)
    ensures HexDigitIs(b, d) <==>
      || ('0' as int <= b <= '9' as int && d == b - '0' as int)
      || ('A' as int <= b <= 'F' as int && d == b - 'A' as int + 10)
      || ('a' as int <= b <= 'f' as int && d == b - 'a' as int + 10)
  {
    if d < 16 {
      UpperAt(d);
      LowerAt(d);
    }
  }

  lemma UpperAt(d: nat)
    requires d < 16
    ensures UPPER[d] as int == if d < 10 then '0' as int + d else 'A' as int + d - 10
  {
  }

  lemma LowerAt(d: nat)
    requires d < 16
    ensures LOWER[d] as int == if d < 10 then '0' as int + d else 'a' as int + d - 10
  {
  }

  lemma DigitRange(b: byte, d: nat)
    ensures DigitIs(b, d) <==> '0' as int <= b <= '9' as int && d == b - '0' as int
  {
    if d < 10 {
      UpperAt(d);
    }
  }

  ghost predicate AllHex(ds: seq<byte>) {
    forall k | 0 <= k < |ds| :: IsHex(ds[k])
  }

  /** The number that hexadecimal digits spell. */
  ghost function HexNumber(ds: seq<byte>): nat
    requires AllHex(ds)
  {
    if ds == [] then 0 else HexNumber(ds[..|ds| - 1]) * 16 + HexWorth(ds[|ds| - 1])
  }

  lemma HexNumberLast(ds: seq<byte>)
    requires ds != [] && AllHex(ds)
    ensures AllHex(ds[..|ds| - 1]) && IsHex(ds[|ds| - 1])
    ensures HexNumber(ds) == HexNumber(ds[..|ds| - 1]) * 16 + HexWorth(ds[|ds| - 1])
  {
    hide IsHex, HexWorth;
  }

  lemma HexWorthIs(b: byte, d: nat)
    requires HexDigitIs(b, d)
    ensures IsHex(b) && HexWorth(b) == d
  {
    HexDigitRange(b, d);
    HexDigitRange(b, HexWorth(b));
  }

  ghost predicate IsDecimal(b: byte) {
    exists d :: DigitIs(b, d)
  }

  /** What a decimal digit stands for. */
  ghost function DigitWorth(b: byte): (d: nat)
    requires IsDecimal(b)
    ensures DigitIs(b, d)
  {
    var d :| DigitIs(b, d); d
  }

  ghost predicate AllDecimal(ds: seq<byte>) {
    forall k | 0 <= k < |ds| :: IsDecimal(ds[k])
  }

  /** The number that decimal digits spell. */
  ghost function DecimalNumber(ds: seq<byte>): nat
    requires AllDecimal(ds)
  {
    if ds == [] then 0 else DecimalNumber(ds[..|ds| - 1]) * 10 + DigitWorth(ds[|ds| - 1])
  }

  lemma DecimalRange(b: byte)
    ensures IsDecimal(b) <==> '0' as int <= b <= '9' as int
    ensures IsDecimal(b) ==> DigitWorth(b) == b - '0' as int
  {
    if '0' as int <= b <= '9' as int {
      DigitRange(b, b - '0' as int);
    }
    if IsDecimal(b) {
      DigitRange(b, DigitWorth(b));
    }
  }
}
