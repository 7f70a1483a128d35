/** Bytes, powers of two, and masking on the naturals. */
module Bits {

  type Byte = b: nat | b < 256

  function Pow2(k: nat): (r: nat)
    ensures r > 0
  {
    if k == 0 then 1 else 2 * Pow2(k - 1)
  }

  ghost predicate IsPow2(c: int) {
    exists k: nat :: c == Pow2(k)
  }

  /** `a & b`, bit by bit from the lowest. */
  function And(a: nat, b: nat): (r: nat)
    ensures r <= b
  {
    if b == 0 then 0 else 2 * And(a / 2, b / 2) + if a % 2 == b % 2 == 1 then 1 else 0
  }

  /** Masking with 2^k - 1 is the remainder modulo 2^k. */
  lemma {:induction false} MaskIsMod(a: nat, k: nat)
    ensures And(a, Pow2(k) - 1) == a % Pow2(k)
  {
    if k == 0 {
      return;
    }
    var p := Pow2(k - 1);
    calc {
      And(a, 2 * p - 1);
    == { AndOdd(a, p - 1); }
      2 * And(a / 2, p - 1) + a % 2;
    == { MaskIsMod(a / 2, k - 1); }
      2 * ((a / 2) % p) + a % 2;
    == { HalveMod(a, p); }
      a % (2 * p);
    }
  }

  lemma AndOdd(a: nat, b: nat)
    ensures And(a, 2 * b + 1) == 2 * And(a / 2, b) + a % 2
  {
    assert (2 * b + 1) / 2 == b && (2 * b + 1) % 2 == 1;
  }

  lemma HalveMod(a: nat, p: nat)
    requires p > 0
    ensures a % (2 * p) == 2 * ((a / 2) % p) + a % 2
  {
    var q, r := a / 2 / p, (a / 2) % p;
    assert a / 2 == q * p + r;
    assert a == (2 * p) * q + (2 * r + a % 2);
    ModUnique(a, 2 * p, q, 2 * r + a % 2);
  }

  lemma ModUnique(a: nat, m: nat, q: nat, r: nat)
    requires m > 0 && a == m * q + r && r < m
    ensures a % m == r && a / m == q
  {
    var d := a / m - q;
    assert m * d == r - a % m;
    MulAtLeast(m, d);
  }

  lemma MulAtLeast(m: nat, d: int)
    ensures d >= 1 ==> m * d >= m
    ensures d <= -1 ==> m * d + m <= 0
  {
    if d >= 1 {
      assert m * (d - 1) >= 0;
    } else if d <= -1 {
      assert m * (-d - 1) >= 0;
    }
  }

  /** `(i + 1) & (c - 1)` is the next slot of a circular table of 2^k slots. */
  lemma MaskedStep(i: nat, c: nat)
    requires IsPow2(c) && i < c
    ensures And(i + 1, c - 1) == if i + 1 == c then 0 else i + 1
  {
    var k: nat :| c == Pow2(k);
    MaskIsMod(i + 1, k);
    if i + 1 == c {
      ModUnique(c, c, 1, 0);
    } else {
      ModUnique(i + 1, c, 0, i + 1);
    }
  }

  lemma DoublePow2(c: nat)
    requires IsPow2(c)
    ensures IsPow2(2 * c)
  {
    var k: nat :| c == Pow2(k);
    assert 2 * c == Pow2(k + 1);
  }

  /** Distinct powers of two are at least a factor of two apart. */
  lemma {:induction false} Pow2Gap(j: nat, k: nat)
    requires Pow2(j) < Pow2(k)
    ensures 2 * Pow2(j) <= Pow2(k)
    decreases k
  {
    if j > 0 && k > 0 {
      Pow2Gap(j - 1, k - 1);
    }
  }

  /** A power of two below twice `n` is at most any power of two that reaches `n`. */
  lemma LeastPow2(c: nat, d: nat, n: nat)
    requires IsPow2(c) && IsPow2(d) && c < 2 * n && n <= d
    ensures c <= d
  {
    var j: nat :| c == Pow2(j);
    var k: nat :| d == Pow2(k);
    if d < c {
      Pow2Gap(k, j);
    }
  }
}
