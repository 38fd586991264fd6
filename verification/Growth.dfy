/** Rounding a buffer size up to a power of two by or-ing shifted copies, as kms_request_str_reserve does. */
module Growth {
  import opened Bitwise

  /** Bitwise or on natural numbers. */
  function Or(a: nat, b: nat): nat
    decreases a
  {
    if a == 0 then b else (if a % 2 == 1 || b % 2 == 1 then 1 else 0) + 2 * Or(a / 2, b / 2)
  }

  lemma {:induction false} OrCovers(a: nat, b: nat)
    ensures Or(a, b) >= a && Or(a, b) >= b
    decreases a
  {
    if a > 0 {
      OrCovers(a / 2, b / 2);
    }
  }

  lemma {:induction false} OrFits(a: nat, b: nat, n: nat)
    requires a < Pow2(n) && b < Pow2(n)
    ensures Or(a, b) < Pow2(n)
    decreases a
  {
    if a > 0 {
      OrFits(a / 2, b / 2, n - 1);
    }
  }

  /** Bits above those of b are left alone. */
  lemma {:induction false} OrLow(h: nat, r: nat, b: nat, k: nat)
    requires r < Pow2(k) && b < Pow2(k)
    ensures Or(h * Pow2(k) + r, b) == h * Pow2(k) + Or(r, b)
    decreases k
  {
    hide Or;
    if k > 0 {
      var x, p := h * Pow2(k) + r, Pow2(k - 1);
      assert Pow2(k) == 2 * p;
      hide Pow2;
      HalvesOfSum(h, r, p);
      OrLow(h, r / 2, b / 2, k - 1);
      OrUnfold(x, b);
      OrUnfold(r, b);
      Doubles(h, p);
    } else {
      OrZero(h);
      OrZero(0);
    }
  }

  lemma HalvesOfSum(h: nat, r: nat, p: nat)
    ensures (h * (2 * p) + r) / 2 == h * p + r / 2 && (h * (2 * p) + r) % 2 == r % 2
  {
    Doubles(h, p);
  }

  lemma Doubles(h: nat, p: nat)
    ensures h * (2 * p) == 2 * (h * p)
  {
  }

  lemma {:induction false} OrZero(a: nat)
    ensures Or(a, 0) == a
    decreases a
  {
    if a > 0 {
      OrZero(a / 2);
    }
  }

  lemma OrUnfold(a: nat, b: nat)
    ensures Or(a, b) == (if a % 2 == 1 || b % 2 == 1 then 1 else 0) + 2 * Or(a / 2, b / 2)
  {
  }

  /** x has b bits, the top m of them set. */
  ghost predicate TopSet(x: nat, b: nat, m: nat) {
    m <= b && Pow2(b) <= x + Pow2(b - m) && x < Pow2(b)
  }

  /** The top bits stay, and the shifted copy shows below them. */
  lemma OrTop(x: nat, p: nat, q: nat, k: nat)
    requires p > 0 && q == Pow2(k) && p * q <= x + q && x < p * q
    ensures p * q - q + x / p <= Or(x, x / p) < p * q
  {
    hide Or, Pow2;
    TopBits(x, p, q);
    var r, y := x - (p - 1) * q, x / p;
    OrLow(p - 1, r, y, k);
    OrCovers(r, y);
    OrFits(r, y, k);
    OneLess(p, q);
  }

  lemma OneLess(p: nat, q: nat)
    requires p > 0
    ensures (p - 1) * q == p * q - q
  {
  }

  /** x |= x >> m: twice as many of the top bits are set. */
  lemma SmearDoubles(x: nat, b: nat, m: nat)
    requires TopSet(x, b, m)
    ensures TopSet(Or(x, Shr(x, m)), b, if 2 * m <= b then 2 * m else b)
  {
    var p, q := Pow2(m), Pow2(b - m);
    assert Pow2(0) == 1;
    Pow2Add(m, b - m);
    hide Or, Pow2;
    OrTop(x, p, q, b - m);
    if 2 * m <= b {
      Pow2Add(m, b - 2 * m);
      QuotientAtLeast(x, p, q, Pow2(b - 2 * m));
    } else {
      Pow2Monotone(b - m, m);
      QuotientAlmost(x, p, q);
    }
  }

  lemma TopBits(x: nat, p: nat, q: nat)
    requires p > 0 && q > 0 && p * q <= x + q && x < p * q
    ensures 0 <= x - (p - 1) * q < q && x / p < q
  {
    assert (p - 1) * q == p * q - q;
    if x / p >= q {
      MulAtLeast(q, x / p, p);
    }
  }

  lemma MulAtLeast(a: nat, b: nat, p: nat)
    requires a <= b
    ensures a * p <= b * p
  {
  }

  lemma QuotientAtLeast(x: nat, p: nat, q: nat, s: nat)
    requires p > 0 && q == p * s && p * q <= x + q
    ensures q <= x / p + s
  {
    assert x == p * (x / p) + x % p;
    if x / p + s < q {
      MulAtLeast(x / p + s + 1, q, p);
    }
  }

  lemma QuotientAlmost(x: nat, p: nat, q: nat)
    requires 0 < q <= p && p * q <= x + q
    ensures q <= x / p + 1
  {
    assert x == p * (x / p) + x % p;
    if x / p + 1 < q {
      MulAtLeast(x / p + 2, q, p);
    }
  }

  /** The five shifts, for 32 bits. */
  function Smear(x: nat): nat {
    var x1 := Or(x, Shr(x, 1));
    var x2 := Or(x1, Shr(x1, 2));
    var x4 := Or(x2, Shr(x2, 4));
    var x8 := Or(x4, Shr(x4, 8));
    Or(x8, Shr(x8, 16))
  }

  /** Whatever the size, no bit is lost. */
  lemma SmearCovers(x: nat)
    ensures Smear(x) >= x
  {
    hide Or;
    var x1 := Or(x, Shr(x, 1));
    var x2 := Or(x1, Shr(x1, 2));
    var x4 := Or(x2, Shr(x2, 4));
    var x8 := Or(x4, Shr(x4, 8));
    OrCovers(x, Shr(x, 1));
    OrCovers(x1, Shr(x1, 2));
    OrCovers(x2, Shr(x2, 4));
    OrCovers(x4, Shr(x4, 8));
    OrCovers(x8, Shr(x8, 16));
  }

  /** With at most 32 bits all of them end up set: adding one gives the next power of two. */
  lemma SmearFills(x: nat, b: nat)
    requires 0 < b <= 32 && Pow2(b - 1) <= x < Pow2(b)
    ensures Smear(x) + 1 == Pow2(b)
  {
    hide Or;
    assert Pow2(b) == 2 * Pow2(b - 1);
    hide Pow2;
    var x1 := Or(x, Shr(x, 1));
    var x2 := Or(x1, Shr(x1, 2));
    var x4 := Or(x2, Shr(x2, 4));
    var x8 := Or(x4, Shr(x4, 8));
    SmearDoubles(x, b, 1);
    SmearMore(x1, b, 2);
    SmearMore(x2, b, 4);
    SmearMore(x4, b, 8);
    SmearMore(x8, b, 16);
    AllSet(Smear(x), b);
  }

  /** The next round, from where all bits are set or m of them. */
  lemma SmearMore(x: nat, b: nat, m: nat)
    requires m > 0 && TopSet(x, b, if m <= b then m else b)
    ensures TopSet(Or(x, Shr(x, m)), b, if 2 * m <= b then 2 * m else b)
  {
    if m <= b {
      SmearDoubles(x, b, m);
    } else {
      Pow2Monotone(b, m);
      SmallQuotient(x, Pow2(m));
      OrZero(x);
    }
  }

  lemma SmallQuotient(x: nat, p: nat)
    requires x < p
    ensures x / p == 0
  {
  }

  lemma AllSet(x: nat, b: nat)
    requires TopSet(x, b, b)
    ensures x + 1 == Pow2(b)
  {
    assert Pow2(0) == 1;
  }

  /** The size reserved for n > 1 bytes: the least power of two that is not below n, for n up to 2^32. */
  lemma ReservesPowerOfTwo(n: nat, b: nat)
    requires 1 < n && 0 < b <= 32 && Pow2(b - 1) < n <= Pow2(b)
    ensures Smear(n - 1) + 1 == Pow2(b)
  {
    hide Smear;
    SmearFills(n - 1, b);
  }
}
