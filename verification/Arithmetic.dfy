/** Division facts the verifier does not find by itself. */
module Arithmetic {
  lemma MulOrder(x: int, y: int, z: nat)
    requires x <= y
    ensures x * z <= y * z
  {
    assert (y - x) * z >= 0;
  }

  lemma DivMod(q: nat, r: nat, d: nat)
    requires r < d
    ensures (q * d + r) / d == q && (q * d + r) % d == r
  {
    var k := q * d + r;
    assert k == k / d * d + k % d;
    if k / d < q {
      MulOrder(k / d + 1, q, d);
    } else if k / d > q {
      MulOrder(q + 1, k / d, d);
    }
  }

  lemma DivBound(k: nat, m: nat, d: nat)
    requires k < m * d
    ensures d > 0 && k / d < m
  {
    if d > 0 && k / d >= m {
      MulOrder(m, k / d, d);
    }
  }

  lemma DivideTwice(a: nat, p: nat)
    requires p > 0
    ensures a / (2 * p) == a / 2 / p
  {
    var q, r := a / 2 / p, a / 2 % p;
    assert a / 2 == q * p + r;
    var rest := 2 * r + a % 2;
    assert a == q * (2 * p) + rest;
    DivMod(q, rest, 2 * p);
  }

  function Pow2(k: nat): (n: nat)
    ensures n >= 1
  {
    if k == 0 then 1 else 2 * Pow2(k - 1)
  }

  lemma {:induction false} Pow2Sum(a: nat, b: nat)
    ensures Pow2(a + b) == Pow2(a) * Pow2(b)
    decreases a
  {
    if a > 0 {
      Pow2Sum(a - 1, b);
      assert 2 * (Pow2(a - 1) * Pow2(b)) == (2 * Pow2(a - 1)) * Pow2(b);
    }
  }

  lemma Pow2Bytes()
    ensures Pow2(7) == 128 && Pow2(8) == 256
  {
    assert Pow2(4) == 16;
  }

  lemma Pow2Word()
    ensures Pow2(64) == 0x1_0000_0000_0000_0000
  {
    hide Pow2;
    Pow2Bytes();
    Pow2Sum(8, 8);
    Pow2Sum(16, 16);
    Pow2Sum(32, 32);
  }
}
