/** Division by constants as a multiplication and a shift (include/util/cg_util.h and src/arch/x86_64/cg_util.asm). */
module Division {

  type u32 = x: int | 0 <= x < 0x1_0000_0000
  type u64 = x: int | 0 <= x < 0x1_0000_0000_0000_0000

  /** The 64-bit product, shifted right by the power of two `p` and cut to 32 bits. */
  function MulShift(x: u32, m: nat, p: nat): u32
    requires p > 0
  {
    x as int * m % 0x1_0000_0000_0000_0000 / p % 0x1_0000_0000
  }

  /** The multiplication and shift is the exact quotient when the rounding error stays below the divisor's share. */
  lemma MulShiftExact(x: u32, m: nat, p: nat, d: nat)
    requires d > 0 && p > 0 && m < 0x1_0000_0000 && d * m >= p
    requires x / d * (d * m - p) + (d - 1) * m < p
    ensures MulShift(x, m, p) == x / d
  {
    var q, r := x / d, x % d;
    QuotientBelow(x, d);
    Regroup(x, q, d, r, m, p);
    Scale(r, d - 1, m);
    Scale(0, r, m);
    Scale(0, q, d * m - p);
    Quotient(x * m, p, q, q * (d * m - p) + r * m);
    ProductFits(x, m);
  }

  lemma ProductFits(x: u32, m: nat)
    requires m < 0x1_0000_0000
    ensures 0 <= x * m < 0x1_0000_0000_0000_0000
    ensures (x * m) % 0x1_0000_0000_0000_0000 == x * m
  {
    Scale(x, 0xFFFF_FFFF, m);
    Scale(0, x, m);
  }

  lemma Regroup(x: int, q: int, d: int, r: int, m: int, p: int)
    requires x == q * d + r
    ensures x * m == q * p + (q * (d * m - p) + r * m)
  {
    assert (q * d + r) * m == q * d * m + r * m;
    assert q * d * m == q * (d * m);
    assert q * (d * m - p) == q * (d * m) - q * p;
  }

  lemma Scale(a: int, b: int, m: int)
    requires a <= b && m >= 0
    ensures a * m <= b * m
  {
  }

  lemma QuotientBelow(x: u32, d: nat)
    requires d > 0
    ensures 0 <= x / d <= x && x == x / d * d + x % d
  {
  }

  lemma Quotient(n: int, p: int, q: int, low: int)
    requires p > 0 && n == q * p + low && 0 <= low < p
    ensures n / p == q
  {
    Multiples(q - n / p, p);
    assert (q - n / p) * p == q * p - n / p * p;
  }

  lemma Multiples(k: int, p: int)
    requires p > 0
    ensures k >= 1 ==> k * p >= p
    ensures k <= -1 ==> k * p <= -p
  {
  }

  function Div10(x: u32): (q: u32)
    ensures q == x / 10
  {
    MulShiftExact(x, 0xCCCC_CCCD, 0x8_0000_0000, 10);
    MulShift(x, 0xCCCC_CCCD, 0x8_0000_0000)
  }

  function Div60(x: u32): (q: u32)
    ensures q == x / 60
  {
    MulShiftExact(x, 0x8888_8889, 0x20_0000_0000, 60);
    MulShift(x, 0x8888_8889, 0x20_0000_0000)
  }

  function Div3600(x: u32): (q: u32)
    ensures q == x / 3600
  {
    MulShiftExact(x, 0x91A2_B3C5, 0x800_0000_0000, 3600);
    MulShift(x, 0x91A2_B3C5, 0x800_0000_0000)
  }

  function Div86400(x: u32): (q: u32)
    ensures q == x / 86400
  {
    var h := Div3600(x);
    assert 24 * 0xAAAA_AAAB == 0x10_0000_0000 + 8;
    MulShiftExact(h, 0xAAAA_AAAB, 0x10_0000_0000, 24);
    assert x / 3600 / 24 == x / 86400;
    MulShift(h, 0xAAAA_AAAB, 0x10_0000_0000)
  }

  /** The decimal step of `cg_utoa`: the high half of the 128-bit product, shifted by 3. */
  function Div10Wide(n: u64): (q: u64)
    ensures q == n / 10
  {
    var m := 0xCCCC_CCCC_CCCC_CCCD;
    assert 10 * m == 0x8_0000_0000_0000_0000 + 2;
    n as int * m / 0x1_0000_0000_0000_0000 / 8
  }
}
