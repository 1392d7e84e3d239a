/**
  The big integers of the floating-point reader: an array of 64-bit limbs, least
  significant first, and the number of limbs in use.
 */
module BigInt {
  import opened Word64

  /** The integer that limbs stand for. */
  function Val(s: seq<u64>): nat {
    if s == [] then 0 else s[0] + WORD * Val(s[1..])
  }

  /** `x` moved up by `k` limbs. */
  function Scale(k: nat, x: int): int {
    if k == 0 then x else WORD * Scale(k - 1, x)
  }

  function Pow(b: nat, n: nat): nat {
    if n == 0 then 1 else b * Pow(b, n - 1)
  }

  lemma {:induction false} ScaleAdd(k: nat, x: int, y: int)
    ensures Scale(k, x + y) == Scale(k, x) + Scale(k, y)
  {
    if k > 0 {
      ScaleAdd(k - 1, x, y);
    }
  }

  lemma {:induction false} ScaleUp(k: nat, x: int)
    ensures Scale(k, WORD * x) == Scale(k + 1, x)
  {
    if k > 0 {
      ScaleUp(k - 1, x);
    }
  }

  lemma {:induction false} ScaleScale(j: nat, k: nat, x: int)
    ensures Scale(j, Scale(k, x)) == Scale(j + k, x)
  {
    if j > 0 {
      ScaleScale(j - 1, k, x);
    }
  }

  lemma {:induction false} ScaleMono(k: nat, x: int, y: int)
    requires x <= y
    ensures Scale(k, x) <= Scale(k, y)
    ensures x < y ==> Scale(k, x) < Scale(k, y)
  {
    if k > 0 {
      ScaleMono(k - 1, x, y);
    }
  }

  lemma {:induction false} ScaleZero(k: nat)
    ensures Scale(k, 0) == 0
  {
    if k > 0 {
      ScaleZero(k - 1);
    }
  }

  lemma {:induction false} ScaleTimes(k: nat, x: int, v: int)
    ensures Scale(k, x) * v == Scale(k, x * v)
  {
    if k > 0 {
      ScaleTimes(k - 1, x, v);
      assert WORD * Scale(k - 1, x) * v == WORD * (Scale(k - 1, x) * v);
    }
  }

  lemma {:induction false} ScaleLonger(j: nat, k: nat)
    requires j <= k
    ensures Scale(j, 1) <= Scale(k, 1)
    decreases k
  {
    if j < k {
      ScaleLonger(j, k - 1);
      ScaleMono(k - 1, 0, 1);
      ScaleZero(k - 1);
    }
  }

  lemma {:induction false} PowPositive(b: nat, n: nat)
    requires b > 0
    ensures Pow(b, n) > 0
  {
    if n > 0 {
      PowPositive(b, n - 1);
    }
  }

  lemma {:induction false} PowAdd(b: nat, m: nat, n: nat)
    ensures Pow(b, m + n) == Pow(b, m) * Pow(b, n)
  {
    if m > 0 {
      PowAdd(b, m - 1, n);
      assert Pow(b, m + n) == b * (Pow(b, m - 1) * Pow(b, n));
    }
  }

  lemma PowMono(b: nat, m: nat, n: nat)
    requires b > 0 && m <= n
    ensures Pow(b, m) <= Pow(b, n)
  {
    PowAdd(b, m, n - m);
    PowPositive(b, n - m);
    PowPositive(b, m);
    MulMono(1, Pow(b, n - m), Pow(b, m));
  }

  lemma {:induction false} ValAppend(a: seq<u64>, b: seq<u64>)
    ensures Val(a + b) == Val(a) + Scale(|a|, Val(b))
  {
    if a == [] {
      assert a + b == b;
    } else {
      assert (a + b)[1..] == a[1..] + b;
      ValAppend(a[1..], b);
    }
  }

  lemma {:induction false} ValBelow(s: seq<u64>)
    ensures Val(s) < Scale(|s|, 1)
  {
    if s != [] {
      ValBelow(s[1..]);
    }
  }

  lemma ValSnoc(s: seq<u64>, x: u64)
    ensures Val(s + [x]) == Val(s) + Scale(|s|, x)
  {
    ValAppend(s, [x]);
    assert Val([x]) == x;
  }

  lemma ValSplit(s: seq<u64>, k: nat)
    requires k <= |s|
    ensures Val(s) == Val(s[..k]) + Scale(k, Val(s[k..]))
  {
    assert s == s[..k] + s[k..];
    ValAppend(s[..k], s[k..]);
  }

  /** No leading zero limb, except for zero itself. */
  predicate Normal(s: seq<u64>) {
    |s| == 1 || (s != [] && s[|s| - 1] != 0)
  }

  /** Of two normal numbers the one with more limbs is larger. */
  lemma LongerIsLarger(a: seq<u64>, b: seq<u64>)
    requires Normal(b) && 1 <= |a| < |b|
    ensures Val(a) < Val(b)
  {
    ValBelow(a);
    TopAtLeast(b);
    ScaleLonger(|a|, |b| - 1);
  }

  /** Numbers that agree above limb `k` compare as their limbs at `k` do, if those differ. */
  lemma HigherLimbDecides(a: seq<u64>, b: seq<u64>, k: nat)
    requires k < |a| == |b| && a[k] < b[k] && a[k + 1..] == b[k + 1..]
    ensures Val(a) < Val(b)
  {
    ValSplit(a, k);
    ValSplit(b, k);
    ValBelow(a[..k]);
    var u, v := Val(a[k..]), Val(b[k..]);
    assert a[k..][1..] == a[k + 1..] && b[k..][1..] == b[k + 1..];
    assert u + 1 <= v;
    ScaleAdd(k, u, 1);
    ScaleMono(k, u + 1, v);
  }

  lemma ValUpdate(s: seq<u64>, k: nat, x: u64)
    requires k < |s|
    ensures Val(s[k := x]) == Val(s) + Scale(k, x - s[k])
  {
    var t := s[k := x];
    ValSplit(s, k);
    ValSplit(t, k);
    assert t[..k] == s[..k] && t[k..][1..] == s[k..][1..];
    ScaleAdd(k, Val(s[k..]), x - s[k]);
  }

  /** A carry pending at limb `k` of a number whose lower limbs are done. */
  ghost predicate CarryPending(s: seq<u64>, cur: seq<u64>, k: nat, val: nat) {
    && k <= |s| == |cur| && cur[k..] == s[k..]
    && Val(cur[..k]) + Scale(k, 1) == Val(s[..k]) + val
  }

  lemma WrapsAround(x: u64, y: u64, sum: u64)
    requires sum == (x + y) % WORD
    ensures if sum >= x || sum >= y then x + y == sum else x + y == WORD + sum
  {
  }

  lemma FirstLimbAdded(s: seq<u64>, add: u64, val: nat)
    requires s != []
    ensures s[0] + val == add ==> Val(s[0 := add]) == Val(s) + val && (Normal(s) ==> Normal(s[0 := add]))
    ensures s[0] + val == WORD + add ==> CarryPending(s, s[0 := add], 1, val)
  {
    ValUpdate(s, 0, add);
    assert s[0 := add][..1] == [add] && s[..1] == [s[0]] && s[0 := add][1..] == s[1..];
    assert Val([add]) == add && Val([s[0]]) == s[0];
  }

  lemma PendingLength(s: seq<u64>, cur: seq<u64>, k: nat, val: nat)
    requires CarryPending(s, cur, k, val)
    ensures |s| == |cur|
  {
  }

  lemma CarryAbsorbed(s: seq<u64>, cur: seq<u64>, k: nat, val: nat)
    requires CarryPending(s, cur, k, val) && k < |s| && cur[k] < WORD - 1
    ensures Val(cur[k := cur[k] + 1]) == Val(s) + val
  {
    hide Val, Scale;
    ValSplit(s, k);
    ValSplit(cur, k);
    ValUpdate(cur, k, cur[k] + 1);
  }

  lemma CarryAbsorbedNormal(s: seq<u64>, cur: seq<u64>, k: nat, val: nat)
    requires CarryPending(s, cur, k, val) && k < |s| && cur[k] < WORD - 1 && Normal(s)
    ensures Normal(cur[k := cur[k] + 1])
  {
    hide Val, Scale;
    assert cur[|s| - 1] == cur[k..][|s| - 1 - k] == s[k..][|s| - 1 - k] == s[|s| - 1];
  }

  lemma CarryMoves(s: seq<u64>, cur: seq<u64>, k: nat, val: nat)
    requires CarryPending(s, cur, k, val) && k < |s| && cur[k] == WORD - 1
    ensures CarryPending(s, cur[k := 0], k + 1, val)
  {
    var next := cur[k := 0];
    assert cur[k] == cur[k..][0] == s[k..][0] == s[k];
    assert next[..k + 1] == cur[..k] + [0] && s[..k + 1] == s[..k] + [s[k]];
    ValSnoc(cur[..k], 0);
    ValSnoc(s[..k], s[k]);
    ScaleZero(k);
    ScaleAdd(k, WORD - 1, 1);
    ScaleUp(k, 1);
    assert next[k + 1..] == cur[k..][1..] == s[k..][1..] == s[k + 1..];
  }

  lemma CarryOut(s: seq<u64>, cur: seq<u64>, val: nat)
    requires CarryPending(s, cur, |s|, val)
    ensures Val(cur + [1]) == Val(s) + val && Normal(cur + [1])
  {
    assert cur[..|s|] == cur && s[..|s|] == s;
    ValSnoc(cur, 1);
  }

  /** Room for one more limb. */
  lemma RoomFor(n: nat)
    requires Scale(n, 1) < Scale(CAPACITY, 1)
    ensures n < CAPACITY
  {
    if n >= CAPACITY {
      ScaleLonger(CAPACITY, n);
    }
  }

  /** A product done up to limb `k`, with the carry into it. */
  ghost predicate ProductPending(s: seq<u64>, cur: seq<u64>, k: nat, val: nat, carry: nat) {
    && k <= |s| == |cur| && cur[k..] == s[k..]
    && Val(cur[..k]) + Scale(k, carry) == Val(s[..k]) * val
  }

  lemma ProductBegins(s: seq<u64>, val: nat)
    ensures ProductPending(s, s, 0, val, 0)
  {
  }

  lemma ProductSkipsZero(s: seq<u64>, k: nat, val: nat)
    requires ProductPending(s, s, k, val, 0) && k < |s| && s[k] == 0
    ensures ProductPending(s, s, k + 1, val, 0)
  {
    assert s[..k + 1] == s[..k] + [0];
    ValSnoc(s[..k], 0);
    ScaleZero(k);
    ScaleZero(k + 1);
  }

  lemma ProductSum(k: nat, a: nat, b: nat, x: nat, val: nat, carry: nat, hi: nat, lo: nat)
    requires a + Scale(k, carry) == b * val && hi * WORD + lo == x * val + carry
    ensures a + Scale(k, lo) + Scale(k + 1, hi) == (b + Scale(k, x)) * val
  {
    ScaleUp(k, hi);
    ScaleAdd(k, lo, WORD * hi);
    ScaleAdd(k, x * val, carry);
    ScaleTimes(k, x, val);
    hide Scale;
    assert (b + Scale(k, x)) * val == b * val + Scale(k, x) * val;
  }

  lemma ProductMoves(s: seq<u64>, cur: seq<u64>, k: nat, val: u64, carry: u64)
    requires ProductPending(s, cur, k, val, carry) && k < |s|
    ensures var (hi, lo) := U128MulAdd(cur[k], val, carry);
            ProductPending(s, cur[k := lo], k + 1, val, hi)
  {
    hide Val, Scale, U128MulAdd;
    var (hi, lo) := U128MulAdd(cur[k], val, carry);
    var next := cur[k := lo];
    assert cur[k] == cur[k..][0] == s[k..][0] == s[k];
    assert next[..k + 1] == cur[..k] + [lo] && s[..k + 1] == s[..k] + [s[k]];
    ValSnoc(cur[..k], lo);
    ValSnoc(s[..k], s[k]);
    ProductSum(k, Val(cur[..k]), Val(s[..k]), s[k], val, carry, hi, lo);
    assert next[k + 1..] == cur[k..][1..] == s[k..][1..] == s[k + 1..];
  }

  lemma ProductEnds(s: seq<u64>, cur: seq<u64>, val: u64, carry: u64)
    requires ProductPending(s, cur, |s|, val, carry)
    ensures Val(if carry > 0 then cur + [carry] else cur) == Val(s) * val
    ensures carry > 0 && Val(s) * val < Scale(CAPACITY, 1) ==> |s| < CAPACITY
  {
    assert cur[..|s|] == cur && s[..|s|] == s;
    ValSnoc(cur, carry);
    ScaleZero(|s|);
    if carry > 0 && Val(s) * val < Scale(CAPACITY, 1) {
      ScaleMono(|s|, 1, carry);
      RoomFor(|s|);
    }
  }

  /** A product by a positive number keeps the number of limbs right. */
  lemma ProductNormal(s: seq<u64>, t: seq<u64>, val: nat)
    requires Normal(s) && val > 0 && Val(t) == Val(s) * val
    requires |t| == |s| || (|t| == |s| + 1 && t[|s|] != 0)
    ensures Normal(t)
  {
    hide Val, Scale;
    TimesAtLeast(Val(s), val);
    if |t| == |s| > 1 {
      TopAtLeast(s);
      if t[|t| - 1] == 0 {
        ZeroTopBelow(t);
      }
    }
  }

  lemma TimesAtLeast(x: nat, v: nat)
    requires v > 0
    ensures x <= x * v
  {
    MulMono(1, v, x);
  }

  lemma ZeroTopBelow(t: seq<u64>)
    requires |t| > 1 && t[|t| - 1] == 0
    ensures Val(t) < Scale(|t| - 1, 1)
  {
    var n := |t| - 1;
    assert t == t[..n] + [0];
    ValSnoc(t[..n], 0);
    ValBelow(t[..n]);
    ScaleZero(n);
  }

  lemma TopAtLeast(s: seq<u64>)
    requires Normal(s) && |s| > 1
    ensures Val(s) >= Scale(|s| - 1, 1)
  {
    var n := |s| - 1;
    assert s == s[..n] + [s[n]];
    ValSnoc(s[..n], s[n]);
    ScaleMono(n, 1, s[n]);
  }

  /** The limbs of `Val(s) * p + low` for a power `p` of two below the limb base. */
  function Shifted(s: seq<u64>, low: nat, p: nat): (r: seq<nat>)
    requires 0 < p < WORD
    ensures |r| == |s| + 1
  {
    if s == [] then [low] else [s[0] * p % WORD + low] + Shifted(s[1..], s[0] * p / WORD, p)
  }

  /** What the shift loop puts in limb `k`: the limb moved up and the top of the one below. */
  function ShiftedLimb(s: seq<u64>, k: nat, p: nat): nat
    requires k <= |s| && 0 < p < WORD
  {
    (if k < |s| then s[k] * p % WORD else 0) + (if k == 0 then 0 else s[k - 1] * p / WORD)
  }

  lemma {:induction false} ShiftedAt(s: seq<u64>, low: nat, p: nat, k: nat)
    requires 0 < p < WORD && k <= |s|
    ensures Shifted(s, low, p)[k] == (if k == 0 then low else 0) + ShiftedLimb(s, k, p)
    decreases |s|
  {
    if s != [] && k > 0 {
      ShiftedAt(s[1..], s[0] * p / WORD, p, k - 1);
    }
  }

  lemma ShiftTop(y: u64, p: nat, q: nat)
    requires p * q == WORD && 0 < p && 0 < q
    ensures y * p / WORD < p
  {
    ProductDivMod(y, p, q);
    if y / q >= p {
      MulMono(p, y / q, q);
    }
  }

  /** A limb shifted up leaves room for what is shifted in below it. */
  lemma ShiftFits(x: u64, p: nat, q: nat)
    requires p * q == WORD && 0 < p && 0 < q
    ensures x * p % WORD <= WORD - p
  {
    ProductDivMod(x, p, q);
    MulMono(x % q, q - 1, p);
    assert (q - 1) * p == WORD - p;
  }

  lemma DivModUnique(n: int, d: int, r: int)
    requires n == d * WORD + r && 0 <= r < WORD
    ensures n / WORD == d && n % WORD == r
  {
  }

  lemma ProductDivMod(y: nat, p: nat, q: nat)
    requires p * q == WORD && 0 < p && 0 < q
    ensures y * p / WORD == y / q && y * p % WORD == y % q * p
  {
    var d, r := y / q, y % q;
    assert y * p == d * WORD + r * p by {
      assert y == d * q + r;
      assert (d * q + r) * p == d * (p * q) + r * p;
    }
    MulMono(r, q - 1, p);
    assert (q - 1) * p == WORD - p;
    DivModUnique(y * p, d, r * p);
  }

  /** The shifted limbs are words, and stand for the product. */
  lemma {:induction false} ShiftedValue(s: seq<u64>, low: nat, p: nat, q: nat)
    requires p * q == WORD && 0 < p < WORD && 0 < q && low < p
    ensures forall k | 0 <= k <= |s| :: Shifted(s, low, p)[k] < WORD
    ensures Val(Shifted(s, low, p)) == Val(s) * p + low
    decreases |s|
  {
    if s != [] {
      ProductDivMod(s[0], p, q);
      ShiftFits(s[0], p, q);
      ShiftTop(s[0], p, q);
      ShiftedValue(s[1..], s[0] * p / WORD, p, q);
      var rest: seq<u64> := Shifted(s[1..], s[0] * p / WORD, p);
      var all: seq<u64> := Shifted(s, low, p);
      assert all[1..] == rest;
      TimesHead(s[0], Val(s[1..]), p);
    }
  }

  lemma TimesHead(x: nat, v: nat, p: nat)
    ensures (x + WORD * v) * p == x * p + WORD * (v * p)
  {
  }

  lemma {:induction false} ScaleIsPow2(k: nat, x: int)
    ensures Scale(k, x) == x * Pow(2, 64 * k)
  {
    if k > 0 {
      ScaleIsPow2(k - 1, x);
      PowAdd(2, 64, 64 * (k - 1));
      Pow2Word();
      assert WORD * (x * Pow(2, 64 * (k - 1))) == x * (WORD * Pow(2, 64 * (k - 1)));
    }
  }

  lemma Pow2Word()
    ensures Pow(2, 64) == WORD && Pow(2, 32) == HALF
  {
    assert Pow(2, 8) == 256;
    PowAdd(2, 8, 8);
    PowAdd(2, 16, 16);
    PowAdd(2, 32, 32);
  }

  lemma ShiftSplit(shft: nat)
    requires 0 < shft < 64
    ensures Pow(2, shft) * Pow(2, 64 - shft) == WORD && 0 < Pow(2, shft) < WORD && 0 < Pow(2, 64 - shft)
  {
    PowAdd(2, shft, 64 - shft);
    Pow2Word();
    PowPositive(2, shft);
    PowPositive(2, 63 - shft);
    PowNext(2, 63 - shft);
    hide Pow;
    HalfFactor(Pow(2, shft), Pow(2, 63 - shft));
  }

  lemma HalfFactor(p: nat, h: nat)
    requires p > 0 && h > 0 && p * (2 * h) == WORD
    ensures p < WORD
  {
    MulMono(1, h, p);
    assert p * (2 * h) == 2 * (h * p);
  }

  lemma PowNext(b: nat, n: nat)
    ensures Pow(b, n + 1) == b * Pow(b, n)
  {
  }

  lemma {:induction false} ValZeros(n: nat)
    ensures Val(seq<u64>(n, _ => 0)) == 0
  {
    if n > 0 {
      ValZeros(n - 1);
      assert seq<u64>(n, _ => 0)[1..] == seq<u64>(n - 1, _ => 0);
    }
  }

  /** Zero limbs below a number scale it. */
  lemma ValOverZeros(t: seq<u64>, move: nat, s: seq<u64>)
    requires move <= |t| && t[move..] == s && forall i | 0 <= i < move :: t[i] == 0
    ensures Val(t) == Scale(move, Val(s))
  {
    ValSplit(t, move);
    assert t[..move] == seq<u64>(move, _ => 0);
    ValZeros(move);
  }

  lemma CarryRoom(s: seq<u64>, cur: seq<u64>, val: nat)
    requires CarryPending(s, cur, |s|, val) && Val(s) + val < Scale(CAPACITY, 1)
    ensures |s| < CAPACITY
  {
    assert s[..|s|] == s;
    RoomFor(|s|);
  }

  /** Without a zero top limb. */
  function TrimTop(t: seq<nat>): (r: seq<nat>)
    requires |t| > 1
    ensures r != [] && |t| - 1 <= |r| <= |t|
  {
    if t[|t| - 1] > 0 then t else t[..|t| - 1]
  }

  lemma JoinedLimb(s: seq<u64>, k: nat, p: nat, q: nat)
    requires 1 <= k <= |s| && p * q == WORD && 0 < p < WORD && 0 < q
    ensures (if k < |s| then s[k] else 0) * p % WORD + s[k - 1] / q == ShiftedLimb(s, k, p) < WORD
  {
    ProductDivMod(s[k - 1], p, q);
    ShiftTop(s[k - 1], p, q);
    if k < |s| {
      ShiftFits(s[k], p, q);
    }
  }

  lemma TrimTopValue(t: seq<u64>)
    requires |t| > 1
    ensures Val(TrimTop(t)) == Val(t)
  {
    var n := |t| - 1;
    if t[n] == 0 {
      assert t == t[..n] + [0];
      ValSnoc(t[..n], 0);
      ScaleZero(n);
    }
  }

  /** A positive number shifted up keeps a non-zero top limb. */
  lemma ShiftedTopLimb(s: seq<u64>, p: nat)
    requires s != [] && s[|s| - 1] > 0 && 0 < p < WORD
    ensures var t := TrimTop(Shifted(s, 0, p)); t[|t| - 1] > 0
  {
    var n := |s|;
    ShiftedAt(s, 0, p, n);
    ShiftedAt(s, 0, p, n - 1);
    MulMono(1, p, s[n - 1]);
    if Shifted(s, 0, p)[n] == 0 {
      assert s[n - 1] * p / WORD == 0;
    }
  }

  lemma TopLimb(s: seq<u64>)
    ensures s != [] && s[|s| - 1] > 0 ==> Normal(s)
    ensures Normal(s) && Val(s) > 0 ==> s[|s| - 1] > 0
  {
    if |s| == 1 {
      assert Val(s) == s[0];
    }
  }

  lemma ShiftedWhole(s: seq<u64>, t: seq<u64>, exp: nat)
    requires s != [] && exp % 64 == 0 && exp / 64 < |t|
    requires t[exp / 64..] == s && Val(t) == Scale(exp / 64, Val(s))
    ensures Val(t) == Val(s) * Pow(2, exp)
    ensures Normal(s) && Val(s) > 0 ==> Normal(t)
  {
    ScaleIsPow2(exp / 64, Val(s));
    TopLimb(s);
    TopLimb(t);
    hide Val, Scale, Pow, Normal;
    assert 64 * (exp / 64) == exp;
    assert t[|t| - 1] == s[|s| - 1];
  }

  lemma TimesSplitPower(x: nat, exp: nat)
    ensures x * Pow(2, exp % 64) * Pow(2, 64 * (exp / 64)) == x * Pow(2, exp)
  {
    PowAdd(2, exp % 64, 64 * (exp / 64));
    hide Pow;
    assert exp % 64 + 64 * (exp / 64) == exp;
    var a, b := Pow(2, exp % 64), Pow(2, 64 * (exp / 64));
    assert x * a * b == x * (a * b);
  }

  lemma ShiftedBoth(s: seq<u64>, t: seq<u64>, exp: nat, moved: seq<u64>)
    requires s != [] && exp % 64 != 0 && exp / 64 < |t| && 0 < Pow(2, exp % 64) < WORD
    requires moved == TrimTop(Shifted(s, 0, Pow(2, exp % 64)))
    requires t[exp / 64..] == moved && Val(t) == Scale(exp / 64, Val(moved))
    ensures Val(t) == Val(s) * Pow(2, exp)
    ensures Normal(s) && Val(s) > 0 ==> Normal(t)
  {
    hide Val, Scale, Pow, Shifted, Normal, TrimTop;
    var p := Pow(2, exp % 64);
    ShiftSplit(exp % 64);
    ShiftedValue(s, 0, p, Pow(2, 64 - exp % 64));
    TrimTopValue(Shifted(s, 0, p));
    ScaleIsPow2(exp / 64, Val(moved));
    TimesSplitPower(Val(s), exp);
    TopLimb(s);
    TopLimb(t);
    if s[|s| - 1] > 0 {
      ShiftedTopLimb(s, p);
    }
    assert t[|t| - 1] == moved[|moved| - 1];
  }

  /** u64_pow10_table. */
  const POW10: seq<u64> := [
    1, 10, 100, 1000, 10000, 100000, 1000000, 10000000, 100000000, 1000000000,
    10000000000, 100000000000, 1000000000000, 10000000000000, 100000000000000,
    1000000000000000, 10000000000000000, 100000000000000000, 1000000000000000000,
    10000000000000000000]

  lemma {:induction false} Pow10Exact(k: nat)
    requires k < 20
    ensures POW10[k] == Pow(10, k) > 0
  {
    if k > 0 {
      Pow10Exact(k - 1);
    }
  }

  lemma PowAtZero(b: nat)
    ensures Pow(b, 0) == 1
  {
  }

  /** Multiplying by part of a power of ten leaves the rest to do, and never overshoots the whole. */
  lemma TenPowersSplit(x: nat, m: nat, n: nat)
    ensures x * Pow(10, m + n) == x * Pow(10, m) * Pow(10, n)
    ensures x * Pow(10, m) <= x * Pow(10, m + n)
  {
    PowAdd(10, m, n);
    PowPositive(10, n);
    assert x * Pow(10, m + n) == x * Pow(10, m) * Pow(10, n);
    MulMono(1, Pow(10, n), x * Pow(10, m));
  }

  const CAPACITY: nat := 64

  class BigNum {
    const bits: array<u64>
    var used: nat

    predicate Valid()
      reads this
    {
      bits.Length == CAPACITY && 1 <= used <= CAPACITY
    }

    function Limbs(): seq<u64>
      requires Valid()
      reads this, bits
    {
      bits[..used]
    }

    function Value(): nat
      requires Valid()
      reads this, bits
    {
      Val(Limbs())
    }

    constructor (val: u64)
      ensures Valid() && Limbs() == [val] && fresh(bits)
    {
      bits := new u64[CAPACITY](_ => 0);
      used := 1;
      new;
      bits[0] := val;
    }

    /** bigint_set_u64. */
    method SetU64(val: u64)
      requires Valid()
      modifies this`used, bits
      ensures Valid() && Limbs() == [val]
    {
      used := 1;
      bits[0] := val;
    }

    /** bigint_add_u64: exact, within the capacity. */
    method AddU64(val: u64)
      requires Valid() && Value() + val < Scale(CAPACITY, 1)
      modifies this`used, bits
      ensures Valid() && Value() == old(Value()) + val
      ensures old(Normal(Limbs())) ==> Normal(Limbs())
    {
      ghost var s := Limbs();
      hide Val, Scale, CarryPending, Normal;
      var num := bits[0];
      var add := (num + val) % WORD;
      WrapsAround(num, val, add);
      FirstLimbAdded(s, add, val);
      bits[0] := add;
      assert Limbs() == s[0 := add];
      if add >= num || add >= val {
        return;
      }
      PassCarry(s, val);
    }

    /** The carry runs up through limbs that are all ones. */
    method PassCarry(ghost s: seq<u64>, ghost val: u64)
      requires Valid() && CarryPending(s, Limbs(), 1, val) && Val(s) + val < Scale(CAPACITY, 1)
      modifies this`used, bits
      ensures Valid() && Value() == Val(s) + val
      ensures Normal(s) ==> Normal(Limbs())
    {
      hide Val, Scale, CarryPending, Normal;
      PendingLength(s, Limbs(), 1, val);
      var idx, max := 1, used;
      while idx < max
        invariant 1 <= idx <= max == used == |s|
        invariant CarryPending(s, Limbs(), idx, val)
      {
        ghost var cur := Limbs();
        if bits[idx] != WORD - 1 {
          CarryAbsorbed(s, cur, idx, val);
          if Normal(s) {
            CarryAbsorbedNormal(s, cur, idx, val);
          }
          bits[idx] := bits[idx] + 1;
          assert Limbs() == cur[idx := cur[idx] + 1];
          return;
        }
        CarryMoves(s, cur, idx, val);
        bits[idx] := 0;
        assert Limbs() == cur[idx := 0];
        idx := idx + 1;
      }
      ghost var cur := Limbs();
      CarryOut(s, cur, val);
      CarryRoom(s, cur, val);
      bits[used] := 1;
      used := used + 1;
      assert Limbs() == cur + [1];
    }

    /** bigint_mul_u64: exact, within the capacity. */
    method MulU64(val: u64)
      requires Valid() && val > 0 && Value() * val < Scale(CAPACITY, 1)
      modifies this`used, bits
      ensures Valid() && Value() == old(Value()) * val
      ensures old(Normal(Limbs())) ==> Normal(Limbs())
    {
      ghost var s := Limbs();
      hide Val, Scale, ProductPending, Normal, U128MulAdd;
      var idx := SkipZeros(val);
      var carry := MulFrom(idx, s, val);
      ghost var cur := Limbs();
      ProductEnds(s, cur, val, carry);
      if carry != 0 {
        bits[used] := carry;
        used := used + 1;
        assert Limbs() == cur + [carry];
      }
      if Normal(s) {
        ProductNormal(s, Limbs(), val);
      }
    }

    /** Low zero limbs stay zero. */
    method SkipZeros(ghost val: u64) returns (idx: nat)
      requires Valid()
      ensures idx <= used && ProductPending(Limbs(), Limbs(), idx, val, 0)
    {
      hide Val, Scale, ProductPending;
      idx := 0;
      ProductBegins(Limbs(), val);
      while idx < used
        invariant idx <= used && ProductPending(Limbs(), Limbs(), idx, val, 0)
      {
        if bits[idx] != 0 {
          break;
        }
        ProductSkipsZero(Limbs(), idx, val);
        idx := idx + 1;
      }
    }

    /** The product of the limbs from `start` on. */
    method MulFrom(start: nat, ghost s: seq<u64>, val: u64) returns (carry: u64)
      requires Valid() && start <= used == |s| && ProductPending(s, Limbs(), start, val, 0)
      modifies bits
      ensures Valid() && used == old(used) && ProductPending(s, Limbs(), |s|, val, carry)
    {
      hide Val, Scale, ProductPending, U128MulAdd;
      var idx := start;
      carry := 0;
      while idx < used
        invariant idx <= used == |s|
        invariant ProductPending(s, Limbs(), idx, val, carry)
      {
        ghost var cur := Limbs();
        ProductMoves(s, cur, idx, val, carry);
        var (hi, lo) := U128MulAdd(bits[idx], val, carry);
        bits[idx] := lo;
        carry := hi;
        assert Limbs() == cur[idx := lo];
        idx := idx + 1;
      }
    }

    /** bigint_cmp: the order of the integers, when both are normal. */
    method Cmp(b: BigNum) returns (r: int)
      requires Valid() && b.Valid() && Normal(Limbs()) && Normal(b.Limbs())
      ensures r == if Value() < b.Value() then -1 else if Value() > b.Value() then 1 else 0
    {
      if used < b.used {
        LongerIsLarger(Limbs(), b.Limbs());
        return -1;
      }
      if used > b.used {
        LongerIsLarger(b.Limbs(), Limbs());
        return 1;
      }
      var idx: nat := used;
      while idx > 0
        invariant 0 <= idx <= used == b.used
        invariant Limbs()[idx..] == b.Limbs()[idx..]
      {
        idx := idx - 1;
        var av, bv := bits[idx], b.bits[idx];
        if av < bv {
          HigherLimbDecides(Limbs(), b.Limbs(), idx);
          return -1;
        }
        if av > bv {
          HigherLimbDecides(b.Limbs(), Limbs(), idx);
          return 1;
        }
        assert Limbs()[idx..] == [av] + Limbs()[idx + 1..] && b.Limbs()[idx..] == [bv] + b.Limbs()[idx + 1..];
      }
      assert Limbs()[0..] == Limbs() && b.Limbs()[0..] == b.Limbs();
      return 0;
    }

    /** bigint_mul_pow2: exact, within the capacity. */
    method MulPow2(exp: nat)
      requires Valid() && used + exp / 64 + (if exp % 64 == 0 then 0 else 1) <= CAPACITY
      modifies this`used, bits
      ensures Valid() && Value() == old(Value()) * Pow(2, exp)
      ensures old(Normal(Limbs()) && Value() > 0) ==> Normal(Limbs())
    {
      var shft, move := exp % 64, exp / 64;
      ghost var s := Limbs();
      hide Val, Scale, Pow, Normal, Shifted;
      if shft == 0 {
        MoveLimbs(move);
        ClearLow(move, s);
        ShiftedWhole(s, Limbs(), exp);
      } else {
        ShiftLimbs(shft, move);
        ghost var moved := Limbs()[move..];
        ClearLow(move, moved);
        ShiftedBoth(s, Limbs(), exp, moved);
      }
    }

    /** The top-down pass that joins the parts of neighbouring limbs. */
    method ShiftLimbs(shft: nat, move: nat)
      requires Valid() && 0 < shft < 64 && used + move < CAPACITY
      modifies this`used, bits
      ensures Valid() && move < used && 0 < Pow(2, shft) < WORD
      ensures Limbs()[move..] == TrimTop(Shifted(old(Limbs()), 0, Pow(2, shft)))
    {
      ghost var s := Limbs();
      ghost var n := used;
      var up, down := Pow(2, shft), Pow(2, 64 - shft);
      ShiftSplit(shft);
      hide Pow, Shifted;
      var idx: nat := used;
      bits[idx] := 0;
      while idx > 0
        invariant 0 <= idx <= used == n
        invariant forall k | 0 <= k <= idx :: bits[k] == if k < n then s[k] else 0
        invariant forall k | idx < k <= n :: bits[k + move] == ShiftedLimb(s, k, up)
      {
        JoinedLimb(s, idx, up, down);
        bits[idx + move] := bits[idx] * up % WORD + bits[idx - 1] / down;
        idx := idx - 1;
      }
      bits[move] := bits[0] * up % WORD;
      ghost var t := Shifted(s, 0, up);
      forall k | 0 <= k <= n ensures bits[k + move] == t[k] {
        ShiftedAt(s, 0, up, k);
      }
      used := used + move + if bits[used + move] > 0 then 1 else 0;
      assert Limbs()[move..] == TrimTop(t);
    }

    /** Whole limbs only, from the top down. */
    method MoveLimbs(move: nat)
      requires Valid() && used + move <= CAPACITY
      modifies this`used, bits
      ensures Valid() && used == old(used) + move && Limbs()[move..] == old(Limbs())
    {
      ghost var s := Limbs();
      var idx: nat := used;
      while idx > 0
        invariant 0 <= idx <= used == old(used)
        invariant forall k | 0 <= k < idx :: bits[k] == s[k]
        invariant bits[idx + move..used + move] == s[idx..]
      {
        ghost var done := bits[idx + move..used + move];
        bits[idx + move - 1] := bits[idx - 1];
        idx := idx - 1;
        assert bits[idx + move..used + move] == [s[idx]] + done;
      }
      used := used + move;
    }

    /** The limbs below `move` become zero; those from there on stay. */
    method ClearLow(move: nat, ghost s: seq<u64>)
      requires Valid() && move < used && Limbs()[move..] == s
      modifies bits
      ensures Valid() && used == old(used) && Value() == Scale(move, Val(s)) && Limbs()[move..] == s
    {
      var m := move;
      while m > 0
        invariant 0 <= m <= move
        invariant Limbs()[move..] == s
        invariant forall i | m <= i < move :: bits[i] == 0
      {
        m := m - 1;
        bits[m] := 0;
      }
      ValOverZeros(Limbs(), move, s);
    }

    /** bigint_mul_pow10: exact, within the capacity. */
    method MulPow10(exp: nat)
      requires Valid() && Value() * Pow(10, exp) < Scale(CAPACITY, 1)
      modifies this`used, bits
      ensures Valid() && Value() == old(Value()) * Pow(10, exp)
      ensures old(Normal(Limbs())) ==> Normal(Limbs())
    {
      hide Val, Scale, Pow, Normal, Limbs;
      var left: nat := exp;
      ghost var s := Limbs();
      PowAtZero(10);
      while left >= 19
        invariant Valid() && left <= exp
        invariant Value() * Pow(10, left) == Val(s) * Pow(10, exp)
        invariant Normal(s) ==> Normal(Limbs())
      {
        TenPowersSplit(Value(), 19, left - 19);
        Pow10Exact(19);
        MulU64(POW10[19]);
        left := left - 19;
      }
      if left > 0 {
        Pow10Exact(left);
        MulU64(POW10[left]);
      }
    }
  }
}
