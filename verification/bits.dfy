/** The C bitwise operators the driver applies to unsigned values, defined
    bit by bit on natural numbers, and the facts about masks and disjoint
    fields that the decoder relies on. */
module Bits {

  function Pow2(k: nat): (p: nat)
    ensures p >= 1
  {
    if k == 0 then 1 else 2 * Pow2(k - 1)
  }

  /** C's `a & b` on unsigned values. */
  function And(a: nat, b: nat): nat
    decreases a
  {
    if a == 0 || b == 0 then 0
    else 2 * And(a / 2, b / 2) + (if a % 2 == 1 && b % 2 == 1 then 1 else 0)
  }

  /** C's `a | b` on unsigned values. */
  function Or(a: nat, b: nat): nat
    decreases a
  {
    if a == 0 then b
    else if b == 0 then a
    else 2 * Or(a / 2, b / 2) + (if a % 2 == 1 || b % 2 == 1 then 1 else 0)
  }

  /** C's `a << k` at a width wide enough that no bit is lost. */
  function Shl(a: nat, k: nat): nat {
    a * Pow2(k)
  }

  lemma Pow2Split(k: nat)
    requires k > 0
    ensures Pow2(k) == 2 * Pow2(k - 1)
  {
  }

  /** Multiplying by a positive count does not shrink `d`. */
  lemma MulMono(d: nat, n: nat)
    requires n >= 1
    ensures d * n >= d
  {
    assert d * n == d * (n - 1) + d;
  }
  /** Quotient and remainder are the unique pair that rebuilds `a`. */
  lemma DivModUnique(a: nat, d: nat, q: nat, r: nat)
    requires d > 0 && a == d * q + r && r < d
    ensures a / d == q && a % d == r
  {
    var q', r' := a / d, a % d;
    assert a == d * q' + r';
    if q' < q {
      assert d * q - d * q' == d * (q - q');
      MulMono(d, q - q');
      assert false;
    } else if q' > q {
      assert d * q' - d * q == d * (q' - q);
      MulMono(d, q' - q);
      assert false;
    }
  }

  /** Dropping the lowest bit commutes with taking the low `k` bits. */
  lemma ModPow2Half(a: nat, k: nat)
    requires k > 0
    ensures a % Pow2(k) == 2 * ((a / 2) % Pow2(k - 1)) + a % 2
  {
    var p := Pow2(k - 1);
    var q := a / 2;
    var s := q / p;
    var t := q % p;
    assert q == p * s + t;
    assert a == (2 * p) * s + (2 * t + a % 2);
    DivModUnique(a, 2 * p, s, 2 * t + a % 2);
  }

  /** Masking with `k` one-bits keeps exactly the value below `2^k`. */
  lemma {:induction false} AndLowOnes(a: nat, k: nat)
    requires a < Pow2(k)
    ensures And(a, Pow2(k) - 1) == a
  {
    if a == 0 || Pow2(k) - 1 == 0 {
    } else {
      assert k > 0;
      AndLowOnes(a / 2, k - 1);
      assert (Pow2(k) - 1) / 2 == Pow2(k - 1) - 1;
      assert (Pow2(k) - 1) % 2 == 1;
    }
  }

  lemma {:induction false} Pow2Add(k: nat, j: nat)
    ensures Pow2(k + j) == Pow2(k) * Pow2(j)
    decreases j
  {
    if j > 0 {
      Pow2Add(k, j - 1);
      Pow2Split(k + j);
      Pow2Split(j);
      assert Pow2(k) * Pow2(j) == 2 * (Pow2(k) * Pow2(j - 1));
    }
  }

  /** The mask with one-bits in positions `k` to `k+j-1`. */
  function HighMask(k: nat, j: nat): (m: nat)
    ensures m == Pow2(k + j) - Pow2(k)
  {
    Pow2Add(k, j);
    Pow2(k) * (Pow2(j) - 1)
  }

  /** Masking a value below `2^(k+j)` with ones in bit positions `k` to
      `k+j-1` clears its `k` low bits and keeps the rest. */
  lemma {:induction false} AndHighMask(a: nat, k: nat, j: nat)
    requires a < Pow2(k + j)
    ensures And(a, HighMask(k, j)) == a - a % Pow2(k)
    decreases k
  {
    var m := HighMask(k, j);
    if j == 0 {
      assert m == 0;
      DivModUnique(a, Pow2(k), 0, a);
    } else if k == 0 {
      assert m == Pow2(j) - 1;
      AndLowOnes(a, j);
    } else if a == 0 {
    } else {
      Pow2Split(k);
      Pow2Split(k + j);
      var half := HighMask(k - 1, j);
      assert m == 2 * half;
      AndEvenStep(a, half);
      AndHighMask(a / 2, k - 1, j);
      ModPow2Half(a, k);
    }
  }

  /** An even mask drops the lowest bit and works on the rest. */
  lemma AndEvenStep(a: nat, half: nat)
    ensures And(a, 2 * half) == 2 * And(a / 2, half)
  {
    if a != 0 && half != 0 {
      assert (2 * half) / 2 == half && (2 * half) % 2 == 0;
    }
  }

  /** Or-ing a value into the clear low bits of a shifted value is addition. */
  lemma {:induction false} OrDisjoint(a: nat, b: nat, k: nat)
    requires b < Pow2(k)
    ensures Or(Shl(a, k), b) == Shl(a, k) + b
  {
    var x := Shl(a, k);
    if k == 0 {
      assert b == 0;
    } else if x == 0 || b == 0 {
    } else {
      Pow2Split(k);
      assert x == 2 * Shl(a, k - 1);
      assert x / 2 == Shl(a, k - 1) && x % 2 == 0;
      OrDisjoint(a, b / 2, k - 1);
    }
  }
}
