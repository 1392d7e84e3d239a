/** The bits of a non-negative double, in order, and what it is to be rounded to one, half to even. */
module Doubles {
  import opened Bytes
  import opened BigInt
  import opened BigCompare
  import opened FastFloat

  /** The bits of infinity; those of the finite doubles are below. */
  const INFINITY: nat := 2047 * HIDDEN

  function Mantissa(raw: nat): nat {
    if raw < HIDDEN then raw else HIDDEN + raw % HIDDEN
  }

  function Exponent(raw: nat): int {
    (if raw < HIDDEN then 1 else raw / HIDDEN) - 1075
  }

  function ValueOf(raw: nat): real {
    Float(Mantissa(raw), Exponent(raw))
  }

  /** Midway between a double and the next one. */
  function Half(raw: nat): real {
    Float(2 * Mantissa(raw) + 1, Exponent(raw) - 1)
  }

  /** `v` lies between the midpoints around the double `raw`, or on one if `raw` is even. */
  ghost predicate RoundsTo(raw: nat, v: real) {
    && raw <= INFINITY
    && (raw > 0 ==> Half(raw - 1) < v || (Half(raw - 1) == v && raw % 2 == 0))
    && (raw < INFINITY ==> v < Half(raw) || (v == Half(raw) && raw % 2 == 0))
  }

  /** The same, and on no midpoint at all. */
  ghost predicate RoundsStrictly(raw: nat, v: real) {
    raw <= INFINITY && (raw > 0 ==> Half(raw - 1) < v) && (raw < INFINITY ==> v < Half(raw))
  }

  lemma FloatDouble(m: nat, s: int)
    ensures Float(m, s) == Float(2 * m, s - 1)
  {
    DoublePower(s - 1);
  }

  lemma FloatLess(a: nat, b: nat, s: int)
    ensures a < b <==> Float(a, s) < Float(b, s)
  {
    PowerPositive(2, s);
    if a < b {
      TimesMono(a, b, Power(2, s));
    } else {
      TimesMono(b, a, Power(2, s));
    }
    hide Power;
  }

  /** The next double has the next significand, or the first of the next binade. */
  lemma NextDouble(raw: nat)
    ensures if Mantissa(raw) + 1 < 2 * HIDDEN
            then Mantissa(raw + 1) == Mantissa(raw) + 1 && Exponent(raw + 1) == Exponent(raw)
            else Mantissa(raw + 1) == HIDDEN && Exponent(raw + 1) == Exponent(raw) + 1
    ensures Mantissa(raw) < 2 * HIDDEN
  {
  }

  lemma NextValue(raw: nat)
    ensures ValueOf(raw + 1) == Float(Mantissa(raw) + 1, Exponent(raw))
  {
    NextDouble(raw);
    FloatDouble(HIDDEN, Exponent(raw) + 1);
    hide Float;
  }

  /** Half is midway, strictly between its neighbours. */
  lemma HalfIsMidway(raw: nat)
    ensures ValueOf(raw) < Half(raw) < ValueOf(raw + 1)
    ensures 2.0 * Half(raw) == ValueOf(raw) + ValueOf(raw + 1)
  {
    var m, s := Mantissa(raw), Exponent(raw);
    NextValue(raw);
    FloatDouble(m, s);
    FloatDouble(m + 1, s);
    FloatLess(2 * m, 2 * m + 1, s - 1);
    FloatLess(2 * m + 1, 2 * m + 2, s - 1);
    MidwayFloat(m, s - 1);
    hide Float;
  }

  lemma MidwayFloat(m: nat, t: int)
    ensures 2.0 * Float(2 * m + 1, t) == Float(2 * m, t) + Float(2 * m + 2, t)
  {
    hide Power;
  }

  lemma {:induction false} Increasing(a: nat, b: nat)
    requires a < b
    ensures ValueOf(a) < ValueOf(b) && Half(a) < Half(b) && Half(a) < ValueOf(b)
    decreases b - a
  {
    hide ValueOf, Half;
    HalfIsMidway(a);
    HalfIsMidway(b);
    if a + 1 < b {
      Increasing(a + 1, b);
    }
  }

  /** Rounding is to a nearest double. */
  lemma RoundsToNearest(raw: nat, v: real, other: nat)
    requires RoundsTo(raw, v) && raw < INFINITY
    ensures Distance(v, ValueOf(raw)) <= Distance(v, ValueOf(other))
  {
    hide ValueOf, Half;
    HalfIsMidway(raw);
    if raw > 0 {
      HalfIsMidway(raw - 1);
    }
    if other > raw {
      HalfIsMidway(raw);
      if other > raw + 1 {
        Increasing(raw + 1, other);
      }
    } else if other < raw {
      if other < raw - 1 {
        Increasing(other, raw - 1);
      }
    }
  }

  lemma RoundsToOne(a: nat, b: nat, v: real)
    requires RoundsTo(a, v) && RoundsTo(b, v)
    ensures a == b
  {
    hide Half;
    if a < b {
      RoundsToApart(a, b, v);
    } else if b < a {
      RoundsToApart(b, a, v);
    }
  }

  lemma RoundsToUp(raw: nat, v: real)
    requires RoundsTo(raw + 1, v)
    ensures !RoundsTo(raw, v)
  {
    hide Half;
  }

  lemma RoundsToApart(a: nat, b: nat, v: real)
    requires a < b && RoundsTo(a, v)
    ensures !RoundsTo(b, v)
  {
    hide Half;
    if a + 1 < b {
      Increasing(a, b - 1);
    }
  }

  /** A number strictly nearest to one double rounds to it. */
  lemma NearestRounds(raw: nat, v: real)
    requires CorrectlyRounded(raw, v)
    ensures RoundsTo(raw, v)
  {
    var m, s := Mantissa(raw), Exponent(raw);
    assert m == HIDDEN + raw % HIDDEN && s == raw / HIDDEN - 1075;
    assert Nearest(v, m, s);
    assert Float(m, s) == ValueOf(raw);
    NearerThanOther(raw, v, raw - 1);
    NearerThanOther(raw, v, raw + 1);
    HalfIsMidway(raw);
    HalfIsMidway(raw - 1);
    hide ValueOf, Half, CorrectlyRounded;
  }

  lemma NearerThanOther(raw: nat, v: real, other: nat)
    requires Nearest(v, Mantissa(raw), Exponent(raw)) && other != raw
    ensures Distance(v, ValueOf(raw)) < Distance(v, ValueOf(other))
  {
    NextDouble(other);
    if other < raw {
      Increasing(other, raw);
    } else {
      Increasing(raw, other);
    }
    hide Float, Mantissa, Exponent;
    assert Float(Mantissa(other), Exponent(other)) != Float(Mantissa(raw), Exponent(raw));
  }

  /** Infinity is what numbers from midway beyond the largest double on are rounded to. */
  lemma RoundsToInfinity(v: real)
    ensures RoundsTo(INFINITY, v) <==> v >= Half(INFINITY - 1)
  {
    hide Half;
  }

  /** Midway between an even double and the next, where the even one is to be taken. */
  ghost predicate TieToEven(raw: nat, v: real) {
    raw < INFINITY && v == Half(raw) && raw % 2 == 0
  }

  lemma StrictNoTie(raw: nat, v: real, other: nat)
    requires RoundsStrictly(raw, v)
    ensures !TieToEven(other, v)
  {
    hide Half;
    if other < raw - 1 {
      Increasing(other, raw - 1);
    } else if other > raw {
      Increasing(raw, other);
    }
  }

  // ---------------------------------------------------------------------------------------
  // The double a number rounds to
  // ---------------------------------------------------------------------------------------

  /** The first double whose upper midpoint is not below the number. */
  lemma {:induction false} FirstAbove(raw: nat, v: real) returns (first: nat)
    requires raw <= INFINITY && (raw > 0 ==> Half(raw - 1) < v)
    ensures raw <= first <= INFINITY && (first > 0 ==> Half(first - 1) < v) && (first < INFINITY ==> v <= Half(first))
    decreases INFINITY - raw
  {
    hide Half;
    if raw == INFINITY || v <= Half(raw) {
      first := raw;
    } else {
      first := FirstAbove(raw + 1, v);
    }
  }

  /** Every number rounds to some double. */
  lemma RoundsToSome(v: real)
    ensures exists raw: nat :: RoundsTo(raw, v)
  {
    hide Half;
    var raw := FirstAbove(0, v);
    if raw < INFINITY && v == Half(raw) && raw % 2 == 1 {
      assert (raw + 1) % 2 == 0;
      Increasing(raw, raw + 1);
      assert RoundsTo(raw + 1, v);
    } else {
      assert RoundsTo(raw, v);
    }
  }

  ghost function NearestDouble(v: real): (raw: nat)
    ensures RoundsTo(raw, v)
  {
    RoundsToSome(v);
    var raw: nat :| RoundsTo(raw, v); raw
  }

  lemma NearestIs(raw: nat, v: real)
    requires RoundsTo(raw, v)
    ensures NearestDouble(v) == raw
  {
    RoundsToOne(raw, NearestDouble(v), v);
  }
}
