/** Bitwise operations on non-negative integers of any width, as in Python. */
module Bits {
  function Pow2(n: nat): (p: nat)
    ensures p > 0
  {
    if n == 0 then 1 else 2 * Pow2(n - 1)
  }

  function Shl(a: nat, n: nat): (r: nat) {
    if n == 0 then a else 2 * Shl(a, n - 1)
  }

  function Shr(a: nat, n: nat): (r: nat) {
    if n == 0 then a else Shr(a / 2, n - 1)
  }

  function Or(a: nat, b: nat): nat {
    if a == 0 then b
    else if b == 0 then a
    else 2 * Or(a / 2, b / 2) + (if a % 2 == 1 || b % 2 == 1 then 1 else 0)
  }

  function And(a: nat, b: nat): nat {
    if a == 0 || b == 0 then 0
    else 2 * And(a / 2, b / 2) + (if a % 2 == 1 && b % 2 == 1 then 1 else 0)
  }

  /** Putting `b` into the `n` empty low bits of a shifted value is addition. */
  lemma {:induction false} OrLow(a: nat, b: nat, n: nat)
    requires b < Pow2(n)
    ensures Or(Shl(a, n), b) == Shl(a, n) + b
  {
    if n != 0 {
      OrLow(a, b / 2, n - 1);
    }
  }

  /** A mask of `n` low ones keeps the remainder modulo 2^n. */
  lemma {:induction false} AndMask(a: nat, n: nat)
    ensures And(a, Pow2(n) - 1) == a % Pow2(n)
  {
    hide And, Pow2;
    AndZero(a);
    if n == 0 {
      Pow2Next(0);
    } else {
      var p := Pow2(n - 1);
      AndMask(a / 2, n - 1);
      Pow2Next(n - 1);
      AndOdd(a, p - 1);
      Halve(a, p);
    }
  }

  lemma AndOdd(a: nat, m: nat)
    ensures And(a, 2 * m + 1) == 2 * And(a / 2, m) + a % 2
  {
  }

  lemma AndZero(a: nat)
    ensures And(a, 0) == 0 && a % 1 == 0
  {
  }

  lemma AndOne(a: nat)
    ensures And(a, 1) == a % 2
  {
    AndOdd(a, 0);
  }

  /** Shifting right divides. */
  lemma {:induction false} ShrIsDiv(a: nat, n: nat)
    ensures Shr(a, n) == a / Pow2(n)
  {
    if n != 0 {
      ShrIsDiv(a / 2, n - 1);
      Halve(a, Pow2(n - 1));
    }
  }

  lemma {:induction false} ShrNext(a: nat, n: nat)
    ensures Shr(a, n + 1) == Shr(a, n) / 2
  {
    if n != 0 {
      ShrNext(a / 2, n - 1);
    }
  }

  lemma {:induction false} ShlMono(a: nat, b: nat, n: nat)
    requires a < b
    ensures Shl(a, n) < Shl(b, n)
  {
    if n != 0 {
      ShlMono(a, b, n - 1);
    }
  }

  lemma {:induction false} ShlGrows(a: nat, m: nat, n: nat)
    requires m <= n
    ensures Shl(a, m) <= Shl(a, n)
  {
    if m < n {
      ShlGrows(a, m, n - 1);
    }
  }

  lemma {:induction false} ShlOfPow2(m: nat, n: nat)
    ensures Shl(Pow2(m), n) == Pow2(m + n) == Pow2(m) * Pow2(n)
  {
    if n != 0 {
      ShlOfPow2(m, n - 1);
    }
  }

  /** Division by 2p in two steps. */
  lemma Halve(a: nat, p: nat)
    requires p > 0
    ensures a / (2 * p) == a / 2 / p && a % (2 * p) == 2 * (a / 2 % p) + a % 2
  {
    var q, r := a / 2 / p, a / 2 % p;
    assert a / 2 == p * q + r;
    assert a == 2 * p * q + (2 * r + a % 2);
    DivModUnique(a, 2 * p, q, 2 * r + a % 2);
  }

  lemma {:induction false} MulMono(d: nat, a: int, b: int)
    requires a < b
    ensures d * a + d <= d * b
    decreases b - a
  {
    assert d * (b - 1) + d == d * b;
    if a < b - 1 {
      MulMono(d, a, b - 1);
    }
  }

  /** Quotient and remainder are the only pair of their kind. */
  lemma DivModUnique(x: nat, d: nat, q: int, r: nat)
    requires d > 0 && x == d * q + r && r < d
    ensures x / d == q && x % d == r
  {
    var q0 := x / d;
    if q0 < q {
      MulMono(d, q0, q);
    } else if q0 > q {
      MulMono(d, q, q0);
    }
  }

  lemma Pow2Next(n: nat)
    ensures Pow2(0) == 1 && Pow2(n + 1) == 2 * Pow2(n)
  {
  }

  /** The powers that machine words are made of. */
  lemma WordSizes()
    ensures Pow2(6) == 64 && Pow2(8) == 256 && Pow2(16) == 0x1_0000
    ensures Pow2(31) == 0x8000_0000 && Pow2(32) == 0x1_0000_0000
  {
    hide Pow2, Shl;
    Pow2Next(0);
    Pow2Next(1);
    Pow2Next(2);
    Pow2Next(3);
    ShlOfPow2(3, 3);
    ShlOfPow2(4, 4);
    ShlOfPow2(8, 8);
    ShlOfPow2(16, 16);
    Pow2Next(31);
  }
}
