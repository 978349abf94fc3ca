/** Bitwise operators on natural numbers, and what the masks and shifts of the
    machine mean in arithmetic.

    The original works on C integers.  Here every machine quantity is an `int`
    in its C range, so `&`, `|` and `^` are defined bit by bit; the lemmas turn
    each idiom (masking, packing disjoint fields, testing one bit, clearing
    low bits) into division and remainder. */
module Bits {

  function Pow2(k: nat): (p: nat)
    ensures p > 0
  {
    if k == 0 then 1 else 2 * Pow2(k - 1)
  }

  /** Bit k of x. */
  predicate Bit(x: nat, k: nat) {
    if k == 0 then x % 2 == 1 else Bit(x / 2, k - 1)
  }

  function And(x: nat, y: nat): nat {
    if x == 0 || y == 0 then 0 else 2 * And(x / 2, y / 2) + (x % 2) * (y % 2)
  }

  function Or(x: nat, y: nat): nat {
    if x == 0 then y else if y == 0 then x
    else 2 * Or(x / 2, y / 2) + (if x % 2 == 1 || y % 2 == 1 then 1 else 0)
  }

  function Xor(x: nat, y: nat): nat
    decreases x + y
  {
    if x == 0 then y else if y == 0 then x
    else 2 * Xor(x / 2, y / 2) + (if x % 2 != y % 2 then 1 else 0)
  }

  function Shl(x: nat, k: nat): nat { x * Pow2(k) }

  function Shr(x: nat, k: nat): (r: nat)
    ensures r <= x
  {
    if k == 0 then x else Shr(x / 2, k - 1)
  }

  // ---- arithmetic helpers ----

  lemma DivUnique(x: int, p: nat, q: int, r: int)
    requires p > 0 && 0 <= r < p && x == p * q + r
    ensures x / p == q && x % p == r
  {
    var d := x / p - q;
    assert p * d == r - x % p by {
      assert x == p * (x / p) + x % p;
      assert p * d == p * (x / p) - p * q;
    }
    assert d >= 1 ==> p * d >= p;
    assert d <= -1 ==> p * d <= 0 - p;
  }

  /** Quotient and remainder are natural and no larger than the dividend. */
  lemma EuclidBound(x: nat, y: nat, q: int, r: nat)
    requires x == y * q + r && r < y
    ensures 0 <= q <= x && r <= x
  {
    assert q < 0 ==> y * q <= 0 - y;
    assert q >= 0 ==> y * q >= q;
  }

  /** A common factor cancels in a quotient. */
  lemma CancelFactor(x: nat, p: nat, q: nat)
    requires p > 0 && q > 0
    ensures p * q > 0 && (x * p) / (p * q) == x / q && (x * p) % (p * q) == (x % q) * p
  {
    var d, r := x / q, x % q;
    assert x == q * d + r;
    assert x * p == (p * q) * d + r * p by {
      assert x * p == (q * d) * p + r * p;
      assert (q * d) * p == (p * q) * d;
    }
    assert r * p < p * q by { assert p * q - r * p == p * (q - r); }
    DivUnique(x * p, p * q, d, r * p);
  }

  lemma DivByDouble(x: nat, p: nat)
    requires p > 0
    ensures x / (2 * p) == (x / 2) / p
    ensures x % (2 * p) == 2 * ((x / 2) % p) + x % 2
  {
    var h := x / 2;
    assert h == p * (h / p) + h % p;
    assert x == 2 * p * (h / p) + (2 * (h % p) + x % 2);
    DivUnique(x, 2 * p, h / p, 2 * (h % p) + x % 2);
  }

  lemma Pow2Add(a: nat, b: nat)
    ensures Pow2(a + b) == Pow2(a) * Pow2(b)
  {
    if a > 0 {
      Pow2Add(a - 1, b);
      assert Pow2(a + b) == 2 * (Pow2(a - 1) * Pow2(b));
    }
  }

  lemma Pow2Values()
    ensures Pow2(0) == 1 && Pow2(1) == 2 && Pow2(2) == 4 && Pow2(3) == 8
    ensures Pow2(4) == 0x10 && Pow2(8) == 0x100 && Pow2(9) == 0x200
    ensures Pow2(10) == 0x400 && Pow2(11) == 0x800 && Pow2(12) == 0x1000
    ensures Pow2(15) == 0x8000 && Pow2(16) == 0x10000
  {
    assert Pow2(4) == 16;
    assert Pow2(8) == 256;
    assert Pow2(12) == 4096;
    assert Pow2(16) == 65536;
  }

  // ---- what the operators do, bit by bit ----

  lemma {:induction false} ShrIsQuotient(x: nat, k: nat)
    ensures Shr(x, k) == x / Pow2(k)
  {
    if k > 0 {
      ShrIsQuotient(x / 2, k - 1);
      DivByDouble(x, Pow2(k - 1));
    }
  }

  lemma {:induction false} BitIsQuotient(x: nat, k: nat)
    ensures Bit(x, k) <==> x / Pow2(k) % 2 == 1
  {
    if k > 0 {
      BitIsQuotient(x / 2, k - 1);
      DivByDouble(x, Pow2(k - 1));
    }
  }

  lemma {:induction false} BitOfZero(k: nat)
    ensures !Bit(0, k)
  {
    if k > 0 { BitOfZero(k - 1); }
  }

  lemma {:induction false} BitOfAnd(x: nat, y: nat, k: nat)
    ensures Bit(And(x, y), k) <==> Bit(x, k) && Bit(y, k)
  {
    BitOfZero(k);
    if k > 0 && x > 0 && y > 0 {
      BitOfAnd(x / 2, y / 2, k - 1);
      assert And(x, y) / 2 == And(x / 2, y / 2);
    }
  }

  lemma {:induction false} BitOfXor(x: nat, y: nat, k: nat)
    ensures Bit(Xor(x, y), k) <==> (Bit(x, k) != Bit(y, k))
  {
    BitOfZero(k);
    if k > 0 && x > 0 && y > 0 {
      BitOfXor(x / 2, y / 2, k - 1);
      assert Xor(x, y) / 2 == Xor(x / 2, y / 2);
    }
  }

  /** Masking with 2^k - 1 is the remainder modulo 2^k. */
  lemma {:induction false} AndLowMask(x: nat, k: nat)
    ensures And(x, Pow2(k) - 1) == x % Pow2(k)
  {
    if k == 0 {
      assert Pow2(k) == 1;
    } else if x == 0 {
      DivUnique(0, Pow2(k), 0, 0);
    } else {
      var p := Pow2(k - 1);
      AndLowMask(x / 2, k - 1);
      DivByDouble(x, p);
      assert (2 * p - 1) / 2 == p - 1 && (2 * p - 1) % 2 == 1;
      assert And(x, 2 * p - 1) == 2 * And(x / 2, p - 1) + x % 2;
    }
  }

  /** Masking with the complement of the low k bits (in n bits) clears them. */
  lemma {:induction false} AndHighMask(x: nat, n: nat, k: nat)
    requires k <= n && x < Pow2(n)
    ensures Pow2(k) <= Pow2(n)
    ensures And(x, Pow2(n) - Pow2(k)) == x - x % Pow2(k)
  {
    if k == 0 {
      AndLowMask(x, n);
      DivUnique(x, Pow2(n), 0, x);
    } else {
      AndHighMask(x / 2, n - 1, k - 1);
      DivByDouble(x, Pow2(k - 1));
      assert (Pow2(n) - Pow2(k)) / 2 == Pow2(n - 1) - Pow2(k - 1);
    }
  }

  /** Masking with a single bit tests that bit. */
  lemma {:induction false} AndOneBit(x: nat, k: nat)
    ensures And(x, Pow2(k)) == if Bit(x, k) then Pow2(k) else 0
  {
    if x == 0 {
      BitOfZero(k);
    } else if k > 0 {
      AndOneBit(x / 2, k - 1);
    } else {
      assert Pow2(0) / 2 == 0;
    }
  }

  /** Or-ing in a single bit adds it when it was not there. */
  lemma {:induction false} OrOneBit(x: nat, k: nat)
    ensures Or(x, Pow2(k)) == if Bit(x, k) then x else x + Pow2(k)
  {
    if x == 0 {
      BitOfZero(k);
    } else if k > 0 {
      OrOneBit(x / 2, k - 1);
    } else {
      assert Pow2(0) / 2 == 0;
    }
  }

  /** Or-ing two fields that do not overlap is addition. */
  lemma {:induction false} OrDisjoint(hi: nat, lo: nat, k: nat)
    requires lo < Pow2(k)
    ensures Or(Shl(hi, k), lo) == Shl(hi, k) + lo
  {
    if k == 0 {
    } else if hi > 0 && lo > 0 {
      var x := Shl(hi, k);
      assert x == 2 * Shl(hi, k - 1);
      OrDisjoint(hi, lo / 2, k - 1);
      assert x / 2 == Shl(hi, k - 1) && x % 2 == 0;
    }
  }
}
