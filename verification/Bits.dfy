/** Bitwise exclusive or of natural numbers. */
module Bits {
  import opened Arithmetic

  function Xor(a: nat, b: nat): (r: nat)
    decreases a + b
  {
    if a == 0 && b == 0 then 0 else (a % 2 + b % 2) % 2 + 2 * Xor(a / 2, b / 2)
  }

  lemma LowBit(bit: nat, rest: nat)
    requires bit < 2
    ensures (bit + 2 * rest) % 2 == bit && (bit + 2 * rest) / 2 == rest
  {
  }

  lemma {:induction false} XorStep(a: nat, b: nat)
    ensures Xor(a, b) % 2 == (a % 2 + b % 2) % 2 && Xor(a, b) / 2 == Xor(a / 2, b / 2)
  {
    if a == 0 && b == 0 {
      XorOfZeros();
    } else {
      var bit, rest := (a % 2 + b % 2) % 2, Xor(a / 2, b / 2);
      assert Xor(a, b) == bit + 2 * rest;
      hide Xor;
      LowBit(bit, rest);
    }
  }

  /** Bits of a sum of bits associate. */
  lemma ParityAssociates(a: nat, b: nat, c: nat)
    ensures ((a % 2 + b % 2) % 2 + c % 2) % 2 == (a % 2 + (b % 2 + c % 2) % 2) % 2
  {
  }

  lemma XorOfZeros()
    ensures Xor(0, 0) == 0
  {
  }

  lemma SameHalves(x: nat, y: nat)
    requires x % 2 == y % 2 && x / 2 == y / 2
    ensures x == y
  {
  }

  lemma {:induction false} XorAssociates(a: nat, b: nat, c: nat)
    ensures Xor(Xor(a, b), c) == Xor(a, Xor(b, c))
    decreases a + b + c
  {
    hide Xor;
    if a + b + c > 0 {
      XorAssociates(a / 2, b / 2, c / 2);
      XorStep(a, b);
      XorStep(b, c);
      ParityAssociates(a, b, c);
      XorStep(Xor(a, b), c);
      XorStep(a, Xor(b, c));
      SameHalves(Xor(Xor(a, b), c), Xor(a, Xor(b, c)));
    } else {
      XorOfZeros();
    }
  }

  lemma {:induction false} XorCommutes(a: nat, b: nat)
    ensures Xor(a, b) == Xor(b, a)
    decreases a + b
  {
    if a + b > 0 {
      XorCommutes(a / 2, b / 2);
    }
  }

  lemma {:induction false} XorBound(a: nat, b: nat, k: nat)
    requires a < Pow2(k) && b < Pow2(k)
    ensures Xor(a, b) < Pow2(k)
    decreases k
  {
    if k > 0 {
      XorBound(a / 2, b / 2, k - 1);
    }
  }

  lemma {:induction false} XorZero(a: nat)
    ensures Xor(a, 0) == a
    decreases a
  {
    if a > 0 {
      XorZero(a / 2);
    }
  }

  lemma {:induction false} XorSelf(a: nat)
    ensures Xor(a, a) == 0
    decreases a
  {
    if a > 0 {
      XorSelf(a / 2);
    }
  }

  /** A mask is undone by itself, so masked values differ where the values do. */
  lemma XorCancels(a: nat, b: nat, m: nat)
    ensures Xor(Xor(a, m), m) == a
    ensures Xor(a, m) == Xor(b, m) ==> a == b
  {
    XorAssociates(a, m, m);
    XorAssociates(b, m, m);
    XorSelf(m);
    XorZero(a);
    XorZero(b);
  }

  /** Bit i of a number. */
  function Bit(a: nat, i: nat): bool {
    a / Pow2(i) % 2 == 1
  }

  lemma BitOfHalf(a: nat, i: nat)
    ensures Bit(a, i + 1) == Bit(a / 2, i)
  {
    var p := Pow2(i);
    assert Pow2(i + 1) == 2 * p;
    DivideTwice(a, p);
  }

  /** Bit by bit, the exclusive or. */
  lemma {:induction false} XorBits(a: nat, b: nat, i: nat)
    ensures Bit(Xor(a, b), i) <==> Bit(a, i) != Bit(b, i)
    decreases i
  {
    XorStep(a, b);
    if i > 0 {
      hide Xor;
      BitOfHalf(a, i - 1);
      BitOfHalf(b, i - 1);
      BitOfHalf(Xor(a, b), i - 1);
      hide Bit;
      XorBits(a / 2, b / 2, i - 1);
    } else {
      hide Xor;
      assert Pow2(0) == 1;
    }
  }

  /** How many of the numbers have bit k set. */
  function Ones(terms: seq<nat>, k: nat): nat {
    if |terms| == 0 then 0
    else Ones(terms[..|terms| - 1], k) + if Bit(terms[|terms| - 1], k) then 1 else 0
  }

  /** Every bit of w is set when an odd number of the terms have it set. */
  ghost predicate Parity(w: nat, terms: seq<nat>) {
    forall k: nat :: Bit(w, k) <==> Ones(terms, k) % 2 == 1
  }

  lemma ParityOfOne(a: nat)
    ensures Parity(a, [a])
  {
    hide Bit;
    forall k: nat
      ensures Bit(a, k) <==> Ones([a], k) % 2 == 1
    {
      assert [a][..0] == [];
    }
  }

  lemma ParityGrows(w: nat, terms: seq<nat>, a: nat)
    requires Parity(w, terms)
    ensures Parity(Xor(w, a), terms + [a])
  {
    hide Bit, Xor;
    forall k: nat
      ensures Bit(Xor(w, a), k) <==> Ones(terms + [a], k) % 2 == 1
    {
      XorBits(w, a, k);
      assert (terms + [a])[..|terms|] == terms;
    }
  }

  /** The terms leave one number only. */
  lemma {:induction false} ParityUnique(v: nat, w: nat, terms: seq<nat>)
    requires Parity(v, terms) && Parity(w, terms)
    ensures v == w
  {
    hide Ones;
    assert forall k: nat :: Bit(v, k) <==> Bit(w, k);
    SameBits(v, w);
  }

  lemma {:induction false} SameBits(v: nat, w: nat)
    requires forall k: nat :: Bit(v, k) <==> Bit(w, k)
    ensures v == w
    decreases v + w
  {
    assert Bit(v, 0) <==> v % 2 == 1;
    assert Bit(w, 0) <==> w % 2 == 1;
    if v + w > 0 {
      hide Bit;
      forall k: nat
        ensures Bit(v / 2, k) <==> Bit(w / 2, k)
      {
        BitOfHalf(v, k);
        BitOfHalf(w, k);
        assert Bit(v, k + 1) <==> Bit(w, k + 1);
      }
      SameBits(v / 2, w / 2);
      SameHalves(v, w);
    }
  }

  /** Dropping high bits before or after. */
  lemma {:induction false} XorLow(a: nat, b: nat, k: nat)
    ensures Xor(a, b) % Pow2(k) == Xor(a % Pow2(k), b % Pow2(k))
    decreases k
  {
    if k == 0 {
      XorOfZeros();
    } else {
      var p := Pow2(k - 1);
      XorLow(a / 2, b / 2, k - 1);
      hide Xor, Pow2;
      LowHalf(a, p);
      LowHalf(b, p);
      LowHalf(Xor(a, b), p);
      XorStep(a, b);
      XorStep(a % (2 * p), b % (2 * p));
      SameHalves(Xor(a, b) % (2 * p), Xor(a % (2 * p), b % (2 * p)));
    }
  }

  lemma LowHalf(a: nat, p: nat)
    requires p > 0
    ensures a % (2 * p) % 2 == a % 2 && a % (2 * p) / 2 == a / 2 % p
  {
    var q, r := a / 2 / p, a / 2 % p;
    assert a / 2 == q * p + r;
    var rest := 2 * r + a % 2;
    assert a == q * (2 * p) + rest;
    DivMod(q, rest, 2 * p);
  }

  /** Flipping the top bit of a byte adds 128 modulo 256. */
  lemma {:induction false} XorTopBit(b: nat, k: nat)
    requires b < 2 * Pow2(k)
    ensures Xor(b, Pow2(k)) == if b < Pow2(k) then b + Pow2(k) else b - Pow2(k)
    decreases k
  {
    if k == 0 {
      assert Xor(0, 0) == 0;
    } else {
      XorTopBit(b / 2, k - 1);
    }
  }

  lemma FlipTopBit(b: nat)
    requires b < 256
    ensures Xor(b, 128) == (b + 128) % 256
  {
    hide Xor;
    Pow2Bytes();
    XorTopBit(b, 7);
  }

  /** A byte offset by 128 and the same byte in two's complement differ in the
      top bit only, so masking commutes with the change of form. */
  lemma OffsetMask(b: nat, m: nat)
    requires b < 256 && m < 256
    ensures Xor(b, m) < 256
    ensures Xor((b + 128) % 256, m) == (Xor(b, m) + 128) % 256
  {
    hide Xor;
    Pow2Bytes();
    XorBound(b, m, 8);
    FlipTopBit(b);
    FlipTopBit(Xor(b, m));
    XorAssociates(b, 128, m);
    XorCommutes(128, m);
    XorAssociates(b, m, 128);
  }
}
