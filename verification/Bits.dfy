/** Binary arithmetic on natural numbers: powers of two, right shifts, exclusive or,
    and the aligned power-of-two blocks that Kademlia buckets cover. */
module Bits {

  function Pow2(n: nat): (r: nat)
    ensures r > 0
  {
    if n == 0 then 1 else 2 * Pow2(n - 1)
  }

  /** x without its n low bits. */
  function Shr(x: nat, n: nat): nat {
    if n == 0 then x else Shr(x / 2, n - 1)
  }

  /** x followed by n zero bits. */
  function Shl(x: nat, n: nat): nat {
    if n == 0 then x else 2 * Shl(x, n - 1)
  }

  lemma {:induction false} ShrShl(x: nat, n: nat)
    ensures Shr(Shl(x, n), n) == x
  {
    if n > 0 { ShrShl(x, n - 1); }
  }

  /** Shifting right drops the low bits: what is left, with zeros for them, is just below x. */
  lemma {:induction false} ShrMeans(x: nat, n: nat)
    ensures Shl(Shr(x, n), n) <= x < Shl(Shr(x, n) + 1, n)
  {
    if n > 0 { ShrMeans(x / 2, n - 1); }
  }

  lemma {:induction false} ShlBound(x: nat, m: nat, n: nat)
    requires x < Pow2(m)
    ensures Shl(x, n) + 1 <= Shl(x + 1, n) <= Pow2(m + n)
  {
    if n > 0 {
      ShlBound(x, m, n - 1);
    }
  }

  function XorBit(a: nat, b: nat): (r: nat)
    ensures r < 2 && (r == 0 <==> a % 2 == b % 2)
  {
    (a % 2 + b % 2) % 2
  }

  function Xor(a: nat, b: nat): nat
    decreases a + b
  {
    if a == 0 && b == 0 then 0 else 2 * Xor(a / 2, b / 2) + XorBit(a, b)
  }

  lemma {:induction false} ShrShr(x: nat, m: nat, n: nat)
    ensures Shr(Shr(x, m), n) == Shr(x, m + n)
  {
    if m > 0 { ShrShr(x / 2, m - 1, n); }
  }

  lemma {:induction false} ShrAll(x: nat, n: nat)
    requires x < Pow2(n)
    ensures Shr(x, n) == 0
  {
    if n > 0 { ShrAll(x / 2, n - 1); }
  }

  lemma {:induction false} ShrMonotone(x: nat, y: nat, n: nat)
    requires x <= y
    ensures Shr(x, n) <= Shr(y, n)
  {
    if n > 0 { ShrMonotone(x / 2, y / 2, n - 1); }
  }

  lemma DoubleAndBit(x: nat, bit: nat)
    requires bit < 2
    ensures (2 * x + bit) / 2 == x && (2 * x + bit) % 2 == bit
  {
  }

  lemma {:induction false} XorHalf(a: nat, b: nat)
    ensures Xor(a, b) / 2 == Xor(a / 2, b / 2)
    ensures Xor(a, b) % 2 == 0 <==> a % 2 == b % 2
  {
    if a + b > 0 { DoubleAndBit(Xor(a / 2, b / 2), XorBit(a, b)); }
  }

  lemma {:induction false} ShrXor(a: nat, b: nat, n: nat)
    ensures Shr(Xor(a, b), n) == Xor(Shr(a, n), Shr(b, n))
  {
    if n > 0 {
      XorHalf(a, b);
      ShrXor(a / 2, b / 2, n - 1);
    }
  }

  /** Distances to one target tell different ids apart. */
  lemma {:induction false} XorInjective(a: nat, b: nat, t: nat)
    ensures Xor(a, t) == Xor(b, t) <==> a == b
    decreases a + b + t
  {
    if a + b + t > 0 {
      XorInjective(a / 2, b / 2, t / 2);
      XorHalf(a, t);
      XorHalf(b, t);
    }
  }

  lemma {:induction false} Pow2Monotone(m: nat, n: nat)
    requires m < n
    ensures Pow2(m) < Pow2(n)
    decreases n
  {
    if m < n - 1 { Pow2Monotone(m, n - 1); }
  }

  /** Numbers that differ above bit n are ordered by what is above bit n. */
  lemma ShrDecides(x: nat, y: nat, n: nat)
    requires Shr(x, n) != Shr(y, n)
    ensures x < y <==> Shr(x, n) < Shr(y, n)
  {
    if x < y { ShrMonotone(x, y, n); } else { ShrMonotone(y, x, n); }
  }

  /** Two ids that differ above bit n keep their distance order whatever their low bits. */
  lemma DistanceOrderAbove(a: nat, a': nat, b: nat, b': nat, t: nat, n: nat)
    requires Shr(a, n) == Shr(a', n) && Shr(b, n) == Shr(b', n) && Shr(a, n) != Shr(b, n)
    ensures Xor(a, t) < Xor(b, t) <==> Xor(a', t) < Xor(b', t)
  {
    var x, x', y, y' := Xor(a, t), Xor(a', t), Xor(b, t), Xor(b', t);
    assert Shr(x, n) == Shr(x', n) && Shr(y, n) == Shr(y', n) && Shr(x, n) != Shr(y, n) by {
      ShrXor(a, t, n); ShrXor(a', t, n); ShrXor(b, t, n); ShrXor(b', t, n);
      XorInjective(Shr(a, n), Shr(b, n), Shr(t, n));
    }
    ShrDecides(x, y, n);
    ShrDecides(x', y', n);
  }
}
