/** Bytes, powers of two and exclusive-or on natural numbers.

    The C code shifts, masks and xors unsigned words.  Here `x << n` is `x * Pow2(n)`, `x >> n` is
    `x / Pow2(n)`, `x & (2^n - 1)` is `x % Pow2(n)`, and xor works bit by bit on naturals.
 */
module Bitwise {

  type byte = x: int | 0 <= x < 256

  function Pow2(n: nat): (r: nat)
    ensures r > 0
  {
    if n == 0 then 1 else 2 * Pow2(n - 1)
  }

  function Quotient(x: nat, p: nat): nat
    requires p > 0
  {
    x / p
  }

  /** x >> n */
  function Shr(x: nat, n: nat): nat {
    Quotient(x, Pow2(n))
  }

  lemma {:induction false} Pow2Add(m: nat, n: nat)
    ensures Pow2(m + n) == Pow2(m) * Pow2(n)
  {
    if m > 0 {
      Pow2Add(m - 1, n);
      assert Pow2(m) * Pow2(n) == 2 * (Pow2(m - 1) * Pow2(n));
    }
  }

  lemma {:induction false} Pow2Monotone(m: nat, n: nat)
    requires m <= n
    ensures Pow2(m) <= Pow2(n)
  {
    if m < n {
      Pow2Monotone(m, n - 1);
    }
  }

  /** The exclusive-or of two parities. */
  function XorBit(a: nat, b: nat): nat {
    if a % 2 == b % 2 then 0 else 1
  }

  function Xor(a: nat, b: nat): nat
    decreases a
  {
    if a == 0 then b else XorBit(a, b) + 2 * Xor(a / 2, b / 2)
  }

  lemma {:induction false} XorZero(a: nat)
    ensures Xor(a, 0) == a
  {
    if a > 0 {
      XorZero(a / 2);
    }
  }

  lemma XorStep(a: nat, b: nat)
    ensures Xor(a, b) / 2 == Xor(a / 2, b / 2)
    ensures Xor(a, b) % 2 == XorBit(a, b)
    ensures Xor(a, b) == XorBit(a, b) + 2 * Xor(a / 2, b / 2)
  {
    if a == 0 {
      assert Xor(a / 2, b / 2) == b / 2;
    }
  }

  lemma {:induction false} XorCommutes(a: nat, b: nat)
    ensures Xor(a, b) == Xor(b, a)
    decreases a
  {
    if a == 0 {
      XorZero(b);
    } else {
      XorCommutes(a / 2, b / 2);
      XorStep(b, a);
    }
  }

  lemma {:induction false} XorAssociates(a: nat, b: nat, c: nat)
    ensures Xor(Xor(a, b), c) == Xor(a, Xor(b, c))
    decreases a
  {
    if a > 0 {
      XorAssociates(a / 2, b / 2, c / 2);
      hide Xor;
      XorStep(a, b);
      XorStep(b, c);
      XorStep(Xor(a, b), c);
      XorStep(a, Xor(b, c));
    }
  }

  lemma {:induction false} XorSelf(a: nat)
    ensures Xor(a, a) == 0
  {
    if a > 0 {
      XorSelf(a / 2);
    }
  }

  lemma XorCancels(h: nat, a: nat, b: nat)
    requires Xor(h, a) == Xor(h, b)
    ensures a == b
  {
    XorAssociates(h, h, a);
    XorAssociates(h, h, b);
    XorSelf(h);
  }

  lemma ModUnique(x: int, m: int, q: int, r: int)
    requires m > 0 && x == m * q + r && 0 <= r < m
    ensures x % m == r && x / m == q
  {
    var d := q - x / m;
    assert m * d == x % m - r;
    assert d > 0 ==> m * d >= m;
    assert d < 0 ==> m * d <= -m;
  }

  lemma SmallMod(x: nat, m: nat)
    requires x < m
    ensures x % m == x
  {
  }

  /** Reduction modulo 2m splits into the low bit and reduction of the rest modulo m. */
  lemma ModDouble(x: nat, m: nat)
    requires m > 0
    ensures x % (2 * m) == x % 2 + 2 * (x / 2 % m)
  {
    var q := x / 2 / m;
    assert x / 2 == m * q + x / 2 % m;
    assert x == 2 * (m * q) + 2 * (x / 2 % m) + x % 2;
    assert 2 * (m * q) == (2 * m) * q;
    ModUnique(x, 2 * m, q, x % 2 + 2 * (x / 2 % m));
  }

  lemma {:induction false} XorMod(a: nat, b: nat, k: nat)
    ensures Xor(a, b) % Pow2(k) == Xor(a % Pow2(k), b % Pow2(k))
  {
    if k > 0 {
      var m := Pow2(k - 1);
      XorMod(a / 2, b / 2, k - 1);
      hide Xor;
      ModDouble(Xor(a, b), m);
      ModDouble(a, m);
      ModDouble(b, m);
      XorStep(a, b);
      XorStep(a % (2 * m), b % (2 * m));
      assert a % (2 * m) / 2 == a / 2 % m && b % (2 * m) / 2 == b / 2 % m;
    }
  }

  lemma DoubleProduct(a: int, p: int)
    ensures a * (2 * p) == 2 * (a * p)
  {
  }

  lemma {:induction false} XorShift(a: nat, b: nat, s: nat)
    ensures Xor(a * Pow2(s), b * Pow2(s)) == Xor(a, b) * Pow2(s)
  {
    if s > 0 {
      var p := Pow2(s - 1);
      XorShift(a, b, s - 1);
      hide Xor;
      DoubleProduct(a, p);
      DoubleProduct(b, p);
      DoubleProduct(Xor(a, b), p);
      XorDouble(a * p, b * p);
    }
  }

  lemma XorDouble(u: nat, v: nat)
    ensures Xor(2 * u, 2 * v) == 2 * Xor(u, v)
  {
    XorStep(2 * u, 2 * v);
  }
}
