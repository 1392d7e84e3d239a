/** Writing 64-bit integers in decimal, and reading them back. */
module Integers {
  import opened Bytes
  import opened Word64

  const MINUS: byte := 45
  const DOT: byte := 46

  /** The decimal numeral of `n`, without leading zeros. */
  function Numeral(n: nat): (s: seq<byte>)
    ensures s != []
  {
    if n < 10 then [ZERO + n] else Numeral(n / 10) + [ZERO + n % 10]
  }

  /** The last `k` digits of `n`, zeros included. */
  function Padded(n: nat, k: nat): (s: seq<byte>)
    ensures |s| == k
  {
    if k == 0 then [] else Padded(n / 10, k - 1) + [ZERO + n % 10]
  }

  function TenTo(k: nat): (p: nat)
    ensures p > 0
  {
    if k == 0 then 1 else 10 * TenTo(k - 1)
  }

  lemma DivTen(hi: nat, p: nat, lo: nat)
    ensures (hi * (10 * p) + lo) / 10 == hi * p + lo / 10 && (hi * (10 * p) + lo) % 10 == lo % 10
  {
    var m := hi * p;
    assert hi * (10 * p) == 10 * m;
    assert (10 * m + lo) / 10 == m + lo / 10 && (10 * m + lo) % 10 == lo % 10;
  }

  /** A numeral is the numeral of its high part followed by the low digits. */
  lemma {:induction false} NumeralSplit(hi: nat, k: nat, lo: nat)
    requires hi > 0 && lo < TenTo(k)
    ensures Numeral(hi * TenTo(k) + lo) == Numeral(hi) + Padded(lo, k)
    decreases k
  {
    if k > 0 {
      var p := TenTo(k - 1);
      DivTen(hi, p, lo);
      NumeralSplit(hi, k - 1, lo / 10);
      MulMono(1, hi, 10 * p);
      assert Numeral(hi * (10 * p) + lo) == Numeral(hi * p + lo / 10) + [ZERO + lo % 10];
    }
  }

  lemma {:induction false} PaddedSplit(hi: nat, j: nat, k: nat, lo: nat)
    requires lo < TenTo(k)
    ensures Padded(hi * TenTo(k) + lo, j + k) == Padded(hi, j) + Padded(lo, k)
    decreases k
  {
    if k > 0 {
      DivTen(hi, TenTo(k - 1), lo);
      PaddedSplit(hi, j, k - 1, lo / 10);
    }
  }

  // The multiply-and-shift steps.

  lemma DivideBy100(x: nat)
    requires x < 10000
    ensures x * 5243 / 0x8_0000 == x / 100
  {
  }

  lemma DivideBy10000(x: nat)
    requires x < 1000000
    ensures x * 429497 / 0x1_0000_0000 == x / 10000
  {
  }

  lemma DivideBy10000Long(x: nat)
    requires x < 100000000
    ensures x * 109951163 / 0x100_0000_0000 == x / 10000
  {
  }

  /** digit_table: the pairs 00 to 99. */
  function DigitTable(i: nat): byte
    requires i < 200
  {
    if i % 2 == 0 then ZERO + i / 2 / 10 else ZERO + i / 2 % 10
  }

  lemma PairIsPadded(n: nat)
    requires n < 100
    ensures Padded(n, 2) == [DigitTable(2 * n), DigitTable(2 * n + 1)]
  {
    assert Padded(n / 10, 1) == Padded(n / 10 / 10, 0) + [ZERO + n / 10 % 10];
  }

  /** byte_copy_2 from the digit table. */
  method CopyPair(buf: array<byte>, pos: nat, i: nat)
    requires pos + 2 <= buf.Length && i + 1 < 200
    modifies buf
    ensures buf[..] == old(buf[..])[pos := DigitTable(i)][pos + 1 := DigitTable(i + 1)]
  {
    buf[pos], buf[pos + 1] := DigitTable(i), DigitTable(i + 1);
  }

  /** The text up to `end` is the text up to `pos` and then `s`; only bytes below `limit` changed. */
  ghost predicate Wrote(was: seq<byte>, now: seq<byte>, pos: nat, s: seq<byte>, limit: nat) {
    && |now| == |was| && pos + |s| <= limit <= |was|
    && now[..pos + |s|] == was[..pos] + s && now[limit..] == was[limit..]
  }

  /** Two digits, both kept. */
  method PutPair(buf: array<byte>, pos: nat, n: nat)
    requires pos + 2 <= buf.Length && n < 100
    modifies buf
    ensures Wrote(old(buf[..]), buf[..], pos, Padded(n, 2), pos + 2)
  {
    ghost var was := buf[..];
    PairIsPadded(n);
    CopyPair(buf, pos, 2 * n);
    assert buf[..][..pos + 2] == was[..pos] + Padded(n, 2);
  }

  /** The leading pair: a leading zero is skipped, and the byte after the digit is junk to be overwritten. */
  method PutLead(buf: array<byte>, pos: nat, n: nat) returns (end: nat)
    requires pos + 2 <= buf.Length && n < 100
    modifies buf
    ensures end == pos + |Numeral(n)| <= pos + 2
    ensures Wrote(old(buf[..]), buf[..], pos, Numeral(n), pos + 2)
  {
    ghost var was := buf[..];
    var lz := if n < 10 then 1 else 0;
    CopyPair(buf, pos, 2 * n + lz);
    end := pos + 2 - lz;
    assert n >= 10 ==> Numeral(n) == Numeral(n / 10) + [ZERO + n % 10];
    assert buf[..][..end] == was[..pos] + Numeral(n);
  }

  lemma WroteThen(s0: seq<byte>, s1: seq<byte>, s2: seq<byte>, pos: nat, a: seq<byte>, b: seq<byte>, lim: nat, lim2: nat)
    requires Wrote(s0, s1, pos, a, lim) && Wrote(s1, s2, pos + |a|, b, lim2) && lim <= lim2
    ensures Wrote(s0, s2, pos, a + b, lim2)
  {
    assert s2[lim2..] == s1[lim2..] == s1[lim..][lim2 - lim..] == s0[lim..][lim2 - lim..] == s0[lim2..];
    assert s2[..pos + |a + b|] == s1[..pos + |a|] + b == s0[..pos] + a + b == s0[..pos] + (a + b);
  }

  lemma Powers()
    ensures TenTo(2) == 100 && TenTo(4) == 10000 && TenTo(6) == 1000000 && TenTo(8) == 100000000
  {
    assert TenTo(2) == 10 * TenTo(1);
    assert TenTo(4) == 10 * TenTo(3) && TenTo(3) == 10 * TenTo(2);
    assert TenTo(6) == 10 * TenTo(5) && TenTo(5) == 10 * TenTo(4);
    assert TenTo(8) == 10 * TenTo(7) && TenTo(7) == 10 * TenTo(6);
  }

  lemma PaddedFour(n: nat)
    requires n < 10000
    ensures Padded(n, 4) == Padded(n / 100, 2) + Padded(n % 100, 2)
  {
    Powers();
    PaddedSplit(n / 100, 2, 2, n % 100);
  }

  lemma PaddedEight(n: nat)
    requires n < 100000000
    ensures Padded(n, 8) == Padded(n / 10000, 4) + Padded(n % 10000, 4)
  {
    Powers();
    PaddedSplit(n / 10000, 4, 4, n % 10000);
  }

  lemma NumeralPairs(n: nat)
    ensures n >= 100 ==> Numeral(n) == Numeral(n / 100) + Padded(n % 100, 2)
    ensures n >= 10000 ==> Numeral(n) == Numeral(n / 10000) + Padded(n % 10000, 4)
    ensures n >= 100000000 ==> Numeral(n) == Numeral(n / 100000000) + Padded(n % 100000000, 8)
  {
    Powers();
    if n >= 100 {
      NumeralSplit(n / 100, 2, n % 100);
    }
    if n >= 10000 {
      NumeralSplit(n / 10000, 4, n % 10000);
    }
    if n >= 100000000 {
      NumeralSplit(n / 100000000, 8, n % 100000000);
    }
  }

  /** write_u32_len_4: four digits. */
  method WriteLen4(val: nat, buf: array<byte>, pos: nat) returns (end: nat)
    requires val < 10000 && pos + 4 <= buf.Length
    modifies buf
    ensures end == pos + 4 && Wrote(old(buf[..]), buf[..], pos, Padded(val, 4), end)
  {
    hide Padded, Wrote;
    ghost var s0 := buf[..];
    DivideBy100(val);
    var aa := val * 5243 / 0x8_0000;
    var bb := val - aa * 100;
    PutPair(buf, pos, aa);
    ghost var s1 := buf[..];
    PutPair(buf, pos + 2, bb);
    WroteThen(s0, s1, buf[..], pos, Padded(aa, 2), Padded(bb, 2), pos + 2, pos + 4);
    PaddedFour(val);
    end := pos + 4;
  }

  /** write_u32_len_8: eight digits. */
  method WriteLen8(val: nat, buf: array<byte>, pos: nat) returns (end: nat)
    requires val < 100000000 && pos + 8 <= buf.Length
    modifies buf
    ensures end == pos + 8 && Wrote(old(buf[..]), buf[..], pos, Padded(val, 8), end)
  {
    hide Padded, Wrote;
    DivideBy10000Long(val);
    var aabb := val * 109951163 / 0x100_0000_0000;
    var ccdd := val - aabb * 10000;
    ghost var s0 := buf[..];
    end := WriteLen4(aabb, buf, pos);
    ghost var s1 := buf[..];
    end := WriteLen4(ccdd, buf, end);
    WroteThen(s0, s1, buf[..], pos, Padded(aabb, 4), Padded(ccdd, 4), pos + 4, pos + 8);
    PaddedEight(val);
  }

  /** The leading pair of a number, then a pair. */
  method WriteLeadPair(aa: nat, bb: nat, buf: array<byte>, pos: nat) returns (end: nat)
    requires 0 < aa < 100 && bb < 100 && pos + 4 <= buf.Length
    modifies buf
    ensures pos < end <= pos + 4 && end == pos + |Numeral(aa)| + 2
    ensures Wrote(old(buf[..]), buf[..], pos, Numeral(aa) + Padded(bb, 2), pos + 4)
  {
    hide Padded, Numeral;
    ghost var s0 := buf[..];
    end := PutLead(buf, pos, aa);
    ghost var s1 := buf[..];
    PutPair(buf, end, bb);
    WroteWider(s1, buf[..], end, Padded(bb, 2), end + 2, pos + 4);
    WroteThen(s0, s1, buf[..], pos, Numeral(aa), Padded(bb, 2), pos + 2, pos + 4);
    end := end + 2;
  }

  lemma WroteWider(s: seq<byte>, t: seq<byte>, pos: nat, a: seq<byte>, lim: nat, wide: nat)
    requires Wrote(s, t, pos, a, lim) && lim <= wide <= |s|
    ensures Wrote(s, t, pos, a, wide)
  {
    assert t[wide..] == t[lim..][wide - lim..] == s[lim..][wide - lim..] == s[wide..];
  }

  /** The last two cases of the short forms: five or six digits, seven or eight. */
  method WriteLen5To8(val: nat, buf: array<byte>, pos: nat) returns (end: nat)
    requires 10000 <= val < 100000000 && pos + 8 <= buf.Length
    modifies buf
    ensures end == pos + |Numeral(val)| <= pos + 8
    ensures Wrote(old(buf[..]), buf[..], pos, Numeral(val), pos + 8)
  {
    hide Padded, Wrote, Numeral;
    NumeralPairs(val);
    ghost var s0 := buf[..];
    if val < 1000000 {
      DivideBy10000(val);
      var aa := val * 429497 / 0x1_0000_0000;
      var bbcc := val - aa * 10000;
      DivideBy100(bbcc);
      var bb := bbcc * 5243 / 0x8_0000;
      var cc := bbcc - bb * 100;
      end := WriteLeadPair(aa, bb, buf, pos);
      ghost var s1 := buf[..];
      PutPair(buf, end, cc);
      PaddedFour(bbcc);
      WroteWider(s1, buf[..], end, Padded(cc, 2), end + 2, pos + 8);
      WroteThen(s0, s1, buf[..], pos, Numeral(aa) + Padded(bb, 2), Padded(cc, 2), pos + 4, pos + 8);
      Regroup(Numeral(aa), Padded(bb, 2), Padded(cc, 2));
      end := end + 2;
    } else {
      DivideBy10000Long(val);
      var aabb := val * 109951163 / 0x100_0000_0000;
      var ccdd := val - aabb * 10000;
      NumeralPairs(aabb);
      DivideBy100(aabb);
      var aa := aabb * 5243 / 0x8_0000;
      var bb := aabb - aa * 100;
      end := WriteLeadPair(aa, bb, buf, pos);
      ghost var s1 := buf[..];
      var last := WriteLen4(ccdd, buf, end);
      WroteWider(s1, buf[..], end, Padded(ccdd, 4), end + 4, pos + 8);
      WroteThen(s0, s1, buf[..], pos, Numeral(aa) + Padded(bb, 2), Padded(ccdd, 4), pos + 4, pos + 8);
      end := last;
    }
  }

  lemma Regroup(a: seq<byte>, b: seq<byte>, c: seq<byte>)
    ensures a + b + c == a + (b + c)
  {
  }

  /** write_u32_len_1_to_8. */
  method WriteLen1To8(val: nat, buf: array<byte>, pos: nat) returns (end: nat)
    requires val < 100000000 && pos + 8 <= buf.Length
    modifies buf
    ensures end == pos + |Numeral(val)| <= pos + 8
    ensures Wrote(old(buf[..]), buf[..], pos, Numeral(val), pos + 8)
  {
    hide Padded, Wrote, Numeral;
    ghost var s0 := buf[..];
    if val < 100 {
      end := PutLead(buf, pos, val);
      WroteWider(s0, buf[..], pos, Numeral(val), pos + 2, pos + 8);
    } else if val < 10000 {
      NumeralPairs(val);
      DivideBy100(val);
      var aa := val * 5243 / 0x8_0000;
      var bb := val - aa * 100;
      end := WriteLeadPair(aa, bb, buf, pos);
      WroteWider(s0, buf[..], pos, Numeral(val), pos + 4, pos + 8);
    } else {
      end := WriteLen5To8(val, buf, pos);
    }
  }

  /** write_u64. */
  method WriteU64(val: u64, buf: array<byte>, pos: nat) returns (end: nat)
    requires pos + 20 <= buf.Length
    modifies buf
    ensures end == pos + |Numeral(val)| <= pos + 20
    ensures Wrote(old(buf[..]), buf[..], pos, Numeral(val), pos + 20)
  {
    hide Padded, Wrote, Numeral;
    ghost var s0 := buf[..];
    if val < 100000000 {
      end := WriteLen1To8(val, buf, pos);
      WroteWider(s0, buf[..], pos, Numeral(val), pos + 8, pos + 20);
    } else if val < 100000000 * 100000000 {
      NumeralPairs(val);
      var hgh := val / 100000000;
      var low := val - hgh * 100000000;
      var mid := WriteLen1To8(hgh, buf, pos);
      ghost var s1 := buf[..];
      end := WriteLen8(low, buf, mid);
      WroteWider(s1, buf[..], mid, Padded(low, 8), end, pos + 20);
      WroteThen(s0, s1, buf[..], pos, Numeral(hgh), Padded(low, 8), pos + 8, pos + 20);
    } else {
      NumeralPairs(val);
      var tmp := val / 100000000;
      var low := val - tmp * 100000000;
      NumeralPairs(tmp);
      var hgh := tmp / 10000;
      var mid := tmp - hgh * 10000;
      var e := WriteLen5To8(hgh, buf, pos);
      ghost var s1 := buf[..];
      var f := WriteLen4(mid, buf, e);
      ghost var s2 := buf[..];
      WroteWider(s1, s2, e, Padded(mid, 4), f, pos + 12);
      WroteThen(s0, s1, s2, pos, Numeral(hgh), Padded(mid, 4), pos + 8, pos + 12);
      end := WriteLen8(low, buf, f);
      WroteWider(s2, buf[..], f, Padded(low, 8), end, pos + 20);
      WroteThen(s0, s2, buf[..], pos, Numeral(tmp), Padded(low, 8), pos + 12, pos + 20);
    }
  }

  /** Only zero itself begins with a zero digit. */
  lemma {:induction false} NoLeadingZero(n: nat)
    ensures Numeral(n)[0] == ZERO <==> n == 0
  {
    if n >= 10 {
      NoLeadingZero(n / 10);
    }
  }
}
