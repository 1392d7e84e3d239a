/** The integer path of the JSON number reader. */
module IntegerReader {
  import opened Bytes
  import opened Word64
  import opened Integers

  /** Point or exponent mark. */
  predicate IsFp(b: byte) {
    b == DOT || b == 69 || b == 101
  }

  /** Where the digits from `i` on stop. */
  function RunEnd(buf: seq<byte>, i: nat): (e: nat)
    ensures i <= e && !IsDigit(At(buf, e)) && forall j | i <= j < e :: IsDigit(At(buf, j))
    decreases |buf| - i
  {
    if IsDigit(At(buf, i)) then RunEnd(buf, i + 1) else i
  }

  /** The number that the digits between `i` and `e` spell. */
  function Spelled(buf: seq<byte>, i: nat, e: nat): nat
    requires i <= e && forall j | i <= j < e :: IsDigit(At(buf, j))
  {
    if i == e then 0
    else
      assert IsDigit(At(buf, e - 1));
      10 * Spelled(buf, i, e - 1) + (At(buf, e - 1) - ZERO)
  }

  function Sign(buf: seq<byte>, pos: nat): nat {
    if At(buf, pos) == MINUS then 1 else 0
  }

  datatype NumRead =
    | Integer(negative: bool, raw: u64, end: nat)  // a signed or unsigned integer value
    | Rounded(sig: u64, end: nat)                  // a negative integer too large for a signed word
    | Real                                         // left to the floating-point path
    | Error

  /** The text at `pos` is an integer: digits without a leading zero, and no point or exponent. */
  predicate IntegerText(buf: seq<byte>, pos: nat) {
    var q := pos + Sign(buf, pos);
    var e := RunEnd(buf, q);
    q < e && (At(buf, q) == ZERO ==> e == q + 1) && !IsFp(At(buf, e))
  }

  function Magnitude(buf: seq<byte>, pos: nat): nat {
    var q := pos + Sign(buf, pos);
    Spelled(buf, q, RunEnd(buf, q))
  }

  /** A 64-bit word holds it: unsigned without a sign, in two's complement with one. */
  predicate FitsWord(buf: seq<byte>, pos: nat) {
    if Sign(buf, pos) == 0 then Magnitude(buf, pos) < WORD else 2 * Magnitude(buf, pos) <= WORD
  }

  /** What is stored for the integer at `pos`. */
  function Stored(buf: seq<byte>, pos: nat): u64
    requires FitsWord(buf, pos)
  {
    var v := Magnitude(buf, pos);
    if Sign(buf, pos) == 1 && v > 0 then WORD - v else v
  }

  /** The outcome of reading the number at `pos`. */
  predicate ReadsAs(buf: seq<byte>, pos: nat, r: NumRead) {
    var q := pos + Sign(buf, pos);
    var e := RunEnd(buf, q);
    && (r.Error? <==> q == e || (At(buf, q) == ZERO && e > q + 1))
    && (r.Integer? <==> IntegerText(buf, pos) && FitsWord(buf, pos))
    && (r.Integer? ==> r == Integer(Sign(buf, pos) == 1, Stored(buf, pos), e))
    && (r.Rounded? <==>
         IntegerText(buf, pos) && Sign(buf, pos) == 1 && WORD < 2 * Magnitude(buf, pos) < 2 * WORD)
    && (r.Rounded? ==> r == Rounded(Magnitude(buf, pos), e))
  }

  lemma {:induction false} SpelledBelow(buf: seq<byte>, i: nat, e: nat)
    requires i <= e && forall j | i <= j < e :: IsDigit(At(buf, j))
    ensures Spelled(buf, i, e) < TenTo(e - i)
  {
    if i < e {
      SpelledBelow(buf, i, e - 1);
    }
  }

  lemma {:induction false} SpelledAtLeast(buf: seq<byte>, i: nat, e: nat)
    requires i < e && At(buf, i) != ZERO && forall j | i <= j < e :: IsDigit(At(buf, j))
    ensures Spelled(buf, i, e) >= TenTo(e - i - 1)
  {
    if i + 1 < e {
      SpelledAtLeast(buf, i, e - 1);
    } else {
      assert Spelled(buf, i, i) == 0;
    }
  }

  lemma {:induction false} SpelledGrows(buf: seq<byte>, i: nat, m: nat, e: nat)
    requires i <= m <= e && forall j | i <= j < e :: IsDigit(At(buf, j))
    ensures Spelled(buf, i, m) <= Spelled(buf, i, e)
    ensures m < e ==> 10 * Spelled(buf, i, m) <= Spelled(buf, i, e)
  {
    if m < e {
      SpelledGrows(buf, i, m, e - 1);
    }
  }

  lemma BigPowers()
    ensures TenTo(18) == 1000000000000000000 && TenTo(19) == 10000000000000000000
  {
    Powers();
    assert TenTo(10) == 10 * TenTo(9) && TenTo(9) == 10 * TenTo(8);
    assert TenTo(12) == 10 * TenTo(11) && TenTo(11) == 10 * TenTo(10);
    assert TenTo(14) == 10 * TenTo(13) && TenTo(13) == 10 * TenTo(12);
    assert TenTo(16) == 10 * TenTo(15) && TenTo(15) == 10 * TenTo(14);
    assert TenTo(18) == 10 * TenTo(17) && TenTo(17) == 10 * TenTo(16);
  }

  /** The first nineteen digits: `i` of them read, the text ending there or the nineteenth reached. */
  method ReadSafeDigits(buf: seq<byte>, cur: nat) returns (sig: u64, i: nat)
    requires IsDigit(At(buf, cur)) && At(buf, cur) != ZERO
    ensures 1 <= i <= 19 && cur + i <= RunEnd(buf, cur) && sig == Spelled(buf, cur, cur + i)
    ensures i < 19 ==> cur + i == RunEnd(buf, cur)
    ensures sig < TenTo(19)
  {
    ghost var e := RunEnd(buf, cur);
    sig, i := At(buf, cur) - ZERO, 1;
    assert Spelled(buf, cur, cur) == 0;
    BigPowers();
    while i < 19 && IsDigit(At(buf, cur + i))
      invariant 1 <= i <= 19 && cur + i <= e && sig == Spelled(buf, cur, cur + i)
    {
      SpelledBelow(buf, cur, cur + i + 1);
      FewDigits(i + 1);
      sig := (At(buf, cur + i) - ZERO) + sig * 10;
      i := i + 1;
    }
    SpelledBelow(buf, cur, cur + i);
    FewDigits(i);
  }

  lemma {:induction false} FewDigits(k: nat)
    requires k <= 19
    ensures TenTo(k) <= TenTo(19)
    decreases 19 - k
  {
    if k < 19 {
      FewDigits(k + 1);
    }
  }

  /** return_i64. */
  function IntegerOf(sign: bool, sig: u64, end: nat): NumRead {
    Integer(sign, if sign then (WORD - 1 - sig + 1) % WORD else sig, end)
  }

  /** A numeral that fits is read as it stands. */
  lemma ReadsInteger(buf: seq<byte>, pos: nat, e: nat, v: nat)
    requires var q := pos + Sign(buf, pos); q < e == RunEnd(buf, q) && v == Spelled(buf, q, e) && At(buf, q) != ZERO
    requires !IsFp(At(buf, e)) && v < WORD && (Sign(buf, pos) == 1 ==> 2 * v <= WORD)
    ensures ReadsAs(buf, pos, IntegerOf(Sign(buf, pos) == 1, v, e))
  {
    SpelledAtLeast(buf, pos + Sign(buf, pos), e);
  }

  lemma ReadsRounded(buf: seq<byte>, pos: nat, e: nat, v: nat)
    requires var q := pos + Sign(buf, pos); q < e == RunEnd(buf, q) && v == Spelled(buf, q, e) && At(buf, q) != ZERO
    requires !IsFp(At(buf, e)) && Sign(buf, pos) == 1 && WORD < 2 * v < 2 * WORD
    ensures ReadsAs(buf, pos, Rounded(v, e))
  {
  }

  lemma ReadsReal(buf: seq<byte>, pos: nat, e: nat)
    requires var q := pos + Sign(buf, pos); q < e == RunEnd(buf, q) && (At(buf, q) == ZERO ==> e == q + 1)
    requires var q := pos + Sign(buf, pos); IsFp(At(buf, e)) || Spelled(buf, q, e) >= WORD
    ensures ReadsAs(buf, pos, Real)
  {
  }

  lemma RunOfOne(buf: seq<byte>, q: nat)
    requires IsDigit(At(buf, q))
    ensures RunEnd(buf, q) == RunEnd(buf, q + 1) > q
    ensures !IsDigit(At(buf, q + 1)) ==> RunEnd(buf, q) == q + 1
    ensures At(buf, q) == ZERO && !IsDigit(At(buf, q + 1)) ==> Spelled(buf, q, q + 1) == 0
  {
    assert Spelled(buf, q, q) == 0;
  }

  lemma ReadsNothing(buf: seq<byte>, pos: nat)
    requires !IsDigit(At(buf, pos + Sign(buf, pos)))
    ensures ReadsAs(buf, pos, Error)
  {
  }

  /** A leading zero stands alone, or is an error. */
  lemma ReadsZero(buf: seq<byte>, pos: nat)
    requires At(buf, pos + Sign(buf, pos)) == ZERO
    ensures var b := At(buf, pos + Sign(buf, pos) + 1);
            ReadsAs(buf, pos, if IsDigit(b) then Error else if IsFp(b) then Real
                              else Integer(Sign(buf, pos) == 1, 0, pos + Sign(buf, pos) + 1))
  {
    RunOfOne(buf, pos + Sign(buf, pos));
  }

  /** The integer path of read_num. */
  method ReadInteger(buf: seq<byte>, pos: nat) returns (r: NumRead)
    ensures ReadsAs(buf, pos, r)
  {
    hide ReadsAs, RunEnd, Spelled;
    var sign := At(buf, pos) == MINUS;
    var cur := pos + if sign then 1 else 0;
    if !IsDigit(At(buf, cur)) {
      ReadsNothing(buf, pos);
      return Error;
    }
    RunOfOne(buf, cur);
    if At(buf, cur) == ZERO {
      ReadsZero(buf, pos);
      cur := cur + 1;
      if !IsDigit(At(buf, cur)) && !IsFp(At(buf, cur)) {
        return Integer(sign, 0, cur);
      }
      if IsFp(At(buf, cur)) {
        return Real;
      }
      return Error;
    }
    var sig, i := ReadSafeDigits(buf, cur);
    if i < 19 {
      ShortFits(buf, cur, i);
      if !IsFp(At(buf, cur + i)) {
        ReadsInteger(buf, pos, cur + i, sig);
        return IntegerOf(sign, sig, cur + i);
      }
      ReadsReal(buf, pos, cur + i);
      return Real;
    }
    r := ReadLong(buf, pos, sign, cur, sig);
  }

  lemma ShortFits(buf: seq<byte>, cur: nat, i: nat)
    requires i < 19 && forall j | cur <= j < cur + i :: IsDigit(At(buf, j))
    ensures 2 * Spelled(buf, cur, cur + i) < WORD
  {
    SpelledBelow(buf, cur, cur + i);
    BigPowers();
    FewerDigits(i);
  }

  lemma {:induction false} FewerDigits(k: nat)
    requires k <= 18
    ensures TenTo(k) <= TenTo(18)
    decreases 18 - k
  {
    if k < 18 {
      FewerDigits(k + 1);
    }
  }

  /** Nineteen digits or more. */
  method ReadLong(buf: seq<byte>, pos: nat, sign: bool, first: nat, head: u64) returns (r: NumRead)
    requires sign == (Sign(buf, pos) == 1) && first == pos + Sign(buf, pos)
    requires At(buf, first) != ZERO && first + 19 <= RunEnd(buf, first)
    requires head == Spelled(buf, first, first + 19)
    ensures ReadsAs(buf, pos, r)
  {
    hide ReadsAs;
    var cur, sig := first + 19, head;
    LongDigits(buf, first, head);
    if !IsDigit(At(buf, cur)) && !IsFp(At(buf, cur)) {
      if sign && sig > 0x8000_0000_0000_0000 {
        ReadsRounded(buf, pos, cur, sig);
        return Rounded(sig, cur);
      }
      ReadsInteger(buf, pos, cur, sig);
      return IntegerOf(sign, sig, cur);
    }
    if IsDigit(At(buf, cur)) {
      if !IsDigit(At(buf, cur + 1)) && !IsFp(At(buf, cur + 1)) {
        var num := At(buf, cur) - ZERO;
        if sig < (WORD - 1) / 10 || (sig == (WORD - 1) / 10 && num <= (WORD - 1) % 10) {
          sig := num + sig * 10;
          cur := cur + 1;
          if sign {
            ReadsRounded(buf, pos, cur, sig);
            return Rounded(sig, cur);
          }
          ReadsInteger(buf, pos, cur, sig);
          return IntegerOf(sign, sig, cur);
        }
      }
    }
    ReadsReal(buf, pos, RunEnd(buf, first));
    return Real;
  }

  /** What follows nineteen digits, and what it makes of the number. */
  lemma LongDigits(buf: seq<byte>, first: nat, head: nat)
    requires At(buf, first) != ZERO && first + 19 <= RunEnd(buf, first) && head == Spelled(buf, first, first + 19)
    ensures var e := RunEnd(buf, first); var cur := first + 19;
            && head >= 1000000000000000000
            && (!IsDigit(At(buf, cur)) ==> e == cur)
            && (IsDigit(At(buf, cur)) ==>
                 && e >= cur + 1 && (!IsDigit(At(buf, cur + 1)) ==> e == cur + 1)
                 && Spelled(buf, first, cur + 1) == 10 * head + (At(buf, cur) - ZERO))
            && (IsDigit(At(buf, cur)) && IsDigit(At(buf, cur + 1)) ==> Spelled(buf, first, e) >= WORD)
  {
    var e := RunEnd(buf, first);
    var cur := first + 19;
    BigPowers();
    SpelledAtLeast(buf, first, cur);
    if IsDigit(At(buf, cur)) && IsDigit(At(buf, cur + 1)) {
      assert cur + 2 <= e;
      SpelledGrows(buf, first, cur, cur + 1);
      SpelledGrows(buf, first, cur + 1, e);
    }
  }

  lemma {:induction false} NumeralSpells(buf: seq<byte>, q: nat, n: nat)
    requires Holds(buf, q, Numeral(n))
    ensures forall j | q <= j < q + |Numeral(n)| :: IsDigit(At(buf, j))
    ensures Spelled(buf, q, q + |Numeral(n)|) == n
  {
    var s := Numeral(n);
    var e := q + |s|;
    assert buf[e - 1] == s[|s| - 1] == ZERO + n % 10;
    if n >= 10 {
      var t := Numeral(n / 10);
      assert buf[q..q + |t|] == s[..|t|] == t;
      NumeralSpells(buf, q, n / 10);
    } else {
      assert Spelled(buf, q, q) == 0;
    }
  }

  lemma {:induction false} RunEndAt(buf: seq<byte>, q: nat, e: nat)
    requires q <= e && !IsDigit(At(buf, e)) && forall j | q <= j < e :: IsDigit(At(buf, j))
    ensures RunEnd(buf, q) == e
    decreases e - q
  {
    if q < e {
      RunEndAt(buf, q + 1, e);
    }
  }

  lemma NumeralAt(buf: seq<byte>, q: nat, n: nat)
    requires Holds(buf, q, Numeral(n)) && !IsDigit(At(buf, q + |Numeral(n)|))
    ensures var e := q + |Numeral(n)|;
            RunEnd(buf, q) == e && Spelled(buf, q, e) == n && IsDigit(At(buf, q))
            && (At(buf, q) == ZERO ==> e == q + 1)
  {
    NumeralSpells(buf, q, n);
    RunEndAt(buf, q, q + |Numeral(n)|);
    NoLeadingZero(n);
    assert buf[q] == Numeral(n)[0];
  }

  /** Every unsigned word written in decimal is read back as itself. */
  lemma UnsignedRoundTrip(buf: seq<byte>, pos: nat, n: u64, r: NumRead)
    requires Holds(buf, pos, Numeral(n)) && ReadsAs(buf, pos, r)
    requires var b := At(buf, pos + |Numeral(n)|); !IsDigit(b) && !IsFp(b)
    ensures r == Integer(false, n, pos + |Numeral(n)|)
  {
    NumeralAt(buf, pos, n);
  }

  /** So is every negative signed word: a minus sign, the magnitude, and the two's complement read back. */
  lemma NegativeRoundTrip(buf: seq<byte>, pos: nat, n: nat, r: NumRead)
    requires 0 < n && 2 * n <= WORD && Holds(buf, pos, [MINUS] + Numeral(n)) && ReadsAs(buf, pos, r)
    requires var b := At(buf, pos + 1 + |Numeral(n)|); !IsDigit(b) && !IsFp(b)
    ensures r == Integer(true, WORD - n, pos + 1 + |Numeral(n)|)
  {
    var s := [MINUS] + Numeral(n);
    assert buf[pos] == s[0];
    assert buf[pos + 1..pos + |s|] == s[1..] == Numeral(n);
    NumeralAt(buf, pos + 1, n);
  }
}
