/** Words split into bytes by shifting and masking, and put together again. */
module Words {
  import opened Bytes

  // `(n >> 8 * k) & 0xff`
  function B0(n: nat): Byte { n % 0x100 }
  function B1(n: nat): Byte { n / 0x100 % 0x100 }
  function B2(n: nat): Byte { n / 0x1_0000 % 0x100 }
  function B3(n: nat): Byte { n / 0x100_0000 % 0x100 }
  function B4(n: nat): Byte { n / 0x1_0000_0000 % 0x100 }
  function B5(n: nat): Byte { n / 0x100_0000_0000 % 0x100 }
  function B6(n: nat): Byte { n / 0x1_0000_0000_0000 % 0x100 }
  function B7(n: nat): Byte { n / 0x100_0000_0000_0000 % 0x100 }

  function Word16(a: int, b: int): int { a + b * 0x100 }
  function Word24(a: int, b: int, c: int): int { a + b * 0x100 + c * 0x1_0000 }
  function Word32(a: int, b: int, c: int, d: int): int { a + b * 0x100 + c * 0x1_0000 + d * 0x100_0000 }

  lemma Quotient(n: nat, d: nat, q: nat, r: nat)
    requires r < d && n == d * q + r
    ensures n / d == q && n % d == r
  {
    MulMonotonic(d, n / d + 1, q);
    MulMonotonic(d, q + 1, n / d);
  }

  lemma MulMonotonic(d: nat, a: int, b: int)
    ensures a <= b ==> d * a <= d * b
  {}

  lemma DivDiv(n: nat, a: nat, b: nat)
    requires a > 0 && b > 0
    ensures a * b > 0 && n / (a * b) == n / a / b
  {
    DivMod(n, a);
    DivMod(n / a, b);
    Combine(n, a, b, n / a, n % a, n / a / b, n / a % b);
    Quotient(n, a * b, n / a / b, a * (n / a % b) + n % a);
  }

  lemma DivMod(n: nat, a: nat)
    requires a > 0
    ensures n == a * (n / a) + n % a && 0 <= n % a < a && n / a >= 0
  {}

  lemma Combine(n: nat, a: nat, b: nat, m: nat, t: nat, q: nat, r: nat)
    requires n == a * m + t && m == b * q + r && t < a && r < b
    ensures n == (a * b) * q + (a * r + t) && 0 <= a * r + t < a * b
  {
    Regroup(a, b, q, r);
    MulMonotonic(a, r, b - 1);
    assert a * (b - 1) == a * b - a;
    MulMonotonic(a, 0, r);
  }

  lemma Associate(a: int, b: int, c: int)
    ensures a * b * c == a * (b * c)
  {}

  lemma Regroup(a: int, b: int, q: int, r: int)
    ensures a * (b * q + r) == (a * b) * q + a * r
  {}

  lemma Word16OfBytes(n: nat)
    requires n < 0x1_0000
    ensures Word16(B0(n), B1(n)) == n && B1(n) == n / 0x100
  {}

  lemma Word24OfBytes(n: nat)
    requires n < 0x100_0000
    ensures Word24(B0(n), B1(n), B2(n)) == n && B2(n) == n / 0x1_0000
  {
    DivDiv(n, 0x100, 0x100);
  }

  lemma Word32OfBytes(n: nat)
    requires n <= UINT32_MAX
    ensures Word32(B0(n), B1(n), B2(n), B3(n)) == n && B3(n) == n / 0x100_0000
  {
    DivDiv(n, 0x100, 0x100);
    DivDiv(n, 0x1_0000, 0x100);
  }

  /** The eight bytes of a 64-bit word are the four of its low half and the four of its high half. */
  lemma Halves(n: nat)
    ensures var lo, hi := n % 0x1_0000_0000, n / 0x1_0000_0000;
            && B0(n) == B0(lo) && B1(n) == B1(lo) && B2(n) == B2(lo) && B3(n) == B3(lo)
            && B4(n) == B0(hi) && B5(n) == B1(hi) && B6(n) == B2(hi) && B7(n) == B3(hi)
  {
    var lo, hi := n % 0x1_0000_0000, n / 0x1_0000_0000;
    DivDiv(n, 0x1_0000_0000, 0x100);
    DivDiv(n, 0x1_0000_0000, 0x1_0000);
    DivDiv(n, 0x1_0000_0000, 0x100_0000);
    LowHalf(lo, hi, 0x100, 0x1_0000_00);
    LowHalf(lo, hi, 0x1_0000, 0x1_0000);
    LowHalf(lo, hi, 0x100_0000, 0x100);
    assert B0(n) == B0(lo);
  }

  lemma LowHalf(lo: nat, hi: nat, a: nat, b: nat)
    requires a > 0 && a * b == 0x1_0000_0000 && b % 0x100 == 0
    ensures (lo + 0x1_0000_0000 * hi) / a % 0x100 == lo / a % 0x100
  {
    var q, r := lo / a, lo % a;
    var c := b / 0x100;
    var e := c * hi;
    assert b * hi == 0x100 * e by { assert b == 0x100 * c; Associate(0x100, c, hi); }
    assert 0x1_0000_0000 * hi == a * (b * hi) by { Associate(a, b, hi); }
    assert a * (q + b * hi) == a * q + a * (b * hi);
    Quotient(lo + 0x1_0000_0000 * hi, a, q + b * hi, r);
    Quotient(q + 0x100 * e, 0x100, q / 0x100 + e, q % 0x100);
  }
}
