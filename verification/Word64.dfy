/** Sixty-four-bit words and their 128-bit products. */
module Word64 {

  const WORD: nat := 0x1_0000_0000_0000_0000
  const HALF: nat := 0x1_0000_0000

  type u64 = x: int | 0 <= x < WORD

  lemma ProductOfParts(a0: nat, a1: nat, b0: nat, b1: nat)
    ensures (a1 * HALF + a0) * (b1 * HALF + b0)
         == a1 * b1 * HALF * HALF + (a1 * b0 + a0 * b1) * HALF + a0 * b0
  {
  }

  lemma MulMono(x: int, y: int, z: int)
    requires x <= y && 0 <= z
    ensures x * z <= y * z
  {
    assert (y - x) * z >= 0;
  }

  lemma ProductBelow(a: nat, b: nat)
    requires a < HALF && b < HALF
    ensures a * b <= (HALF - 1) * (HALF - 1)
  {
    MulMono(a, HALF - 1, b);
    MulMono(b, HALF - 1, HALF - 1);
  }

  /** u128_mul without a 128-bit type: four 32-bit products, no intermediate sum exceeding 64 bits. */
  function U128Mul(a: u64, b: u64): (r: (u64, u64))
    ensures r.0 * WORD + r.1 == a * b
  {
    var a0, a1 := a % HALF, a / HALF;
    var b0, b1 := b % HALF, b / HALF;
    ProductBelow(a0, b0);
    ProductBelow(a0, b1);
    ProductBelow(a1, b0);
    ProductBelow(a1, b1);
    ProductOfParts(a0, a1, b0, b1);
    var p00: u64, p01: u64, p10: u64, p11: u64 := a0 * b0, a0 * b1, a1 * b0, a1 * b1;
    var m0: u64 := p01 + p00 / HALF;
    var m1: u64 := p10 + m0 % HALF;
    var hi := p11 + m0 / HALF + m1 / HALF;
    var lo: u64 := m1 % HALF * HALF + p00 % HALF;
    assert hi * WORD + lo == a * b;
    HighWordFits(a, b, hi, lo);
    (hi, lo)
  }

  lemma HighWordFits(a: u64, b: u64, hi: int, lo: u64)
    requires hi * WORD + lo == a * b
    ensures 0 <= hi < WORD
  {
    ProductLessThan(a, b);
  }

  lemma ProductLessThan(a: u64, b: u64)
    ensures 0 <= a * b <= (WORD - 1) * (WORD - 1)
  {
    assert 0 <= a * b;
    MulMono(a, WORD - 1, b);
    MulMono(b, WORD - 1, WORD - 1);
  }

  lemma CarryFits(p: int, h: u64, l: u64, c: u64, carry: nat, t: u64)
    requires h * WORD + l == p && 0 <= p <= (WORD - 1) * (WORD - 1)
    requires t == (l + c) % WORD && carry == if t < l || t < c then 1 else 0
    ensures h + carry < WORD && (h + carry) * WORD + t == p + c
  {
  }

  /** u128_mul_add: the carry out of the low word goes to the high word. */
  function U128MulAdd(a: u64, b: u64, c: u64): (r: (u64, u64))
    ensures r.0 * WORD + r.1 == a * b + c
  {
    var (h, l) := U128Mul(a, b);
    var t: u64 := (l + c) % WORD;
    var carry := if t < l || t < c then 1 else 0;
    ProductLessThan(a, b);
    CarryFits(a * b, h, l, c, carry, t);
    (h + carry, t)
  }
}
