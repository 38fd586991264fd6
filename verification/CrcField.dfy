/** Polynomials over GF(2) modulo the CRC-32 polynomial p(x), 32 coefficients in a word with the
    lowest power in the most significant bit (crc32.c, comment at make_crc_table). */
module CrcField {

  type Word = bv32

  const POLY: Word := 0xedb88320
  const ONE: Word := 0x8000_0000

  /** Addition of polynomials is exclusive-or. */
  function Add(a: Word, b: Word): Word { a ^ b }

  function Half(a: Word): (r: Word)
    ensures a != 0 ==> r < a
  {
    a >> 1
  }

  predicate Bit(a: Word, m: Word) { a & m != 0 }

  function Pick(c: bool, b: Word): Word { if c then b else 0 }

  /** Multiplication by x: a right shift, with x^32 mod p(x) added when a bit is shifted out. */
  function TimesX(b: Word): Word {
    Add(Half(b), Pick(Bit(b, 1), POLY))
  }

  /** The terms of a times b for the coefficients of a at bit m and below. */
  function MulFrom(a: Word, m: Word, b: Word): Word
    decreases m
  {
    if m == 0 then 0 else Add(Pick(Bit(a, m), b), MulFrom(a, Half(m), TimesX(b)))
  }

  function Mul(a: Word, b: Word): Word {
    MulFrom(a, ONE, b)
  }

  /** a times x^n */
  function Shift(a: Word, n: nat): Word {
    if n == 0 then a else TimesX(Shift(a, n - 1))
  }

  function XPow(n: nat): Word {
    Shift(ONE, n)
  }

  function Power(a: Word, n: nat): Word {
    if n == 0 then ONE else Mul(a, Power(a, n - 1))
  }

  // ----- addition

  lemma AddZero(a: Word)
    ensures Add(a, 0) == a && Add(0, a) == a && Add(a, a) == 0
  {
  }

  lemma AddCommutes(a: Word, b: Word)
    ensures Add(a, b) == Add(b, a)
  {
  }

  lemma XorAssociates(a: Word, b: Word, c: Word)
    ensures (a ^ b) ^ c == a ^ (b ^ c)
  {
  }

  lemma AddAssociates(a: Word, b: Word, c: Word)
    ensures Add(Add(a, b), c) == Add(a, Add(b, c))
  {
    XorAssociates(a, b, c);
  }

  lemma AddSwap(a: Word, b: Word, c: Word, d: Word)
    ensures Add(Add(a, b), Add(c, d)) == Add(Add(a, c), Add(b, d))
  {
    hide Add;
    AddAssociates(a, b, Add(c, d));
    AddAssociates(b, c, d);
    AddCommutes(b, c);
    AddAssociates(c, b, d);
    AddAssociates(a, c, Add(b, d));
  }

  lemma AddIs(a: Word, b: Word)
    ensures Add(a, b) == a ^ b
  {
  }

  lemma HalfIs(b: Word)
    ensures Half(b) == b >> 1
  {
  }

  lemma PickLinear(c: bool, u: Word, v: Word)
    ensures Pick(c, Add(u, v)) == Add(Pick(c, u), Pick(c, v))
  {
    AddZero(0);
  }

  lemma PickDiffers(c: bool, d: bool, p: Word)
    ensures Pick(c != d, p) == Add(Pick(c, p), Pick(d, p))
  {
    AddZero(p);
    AddZero(0);
    hide Add;
    if c && d {
    } else if c {
    } else if d {
    }
  }

  lemma LowBitLinear(u: Word, v: Word)
    ensures Bit(Add(u, v), 1) == (Bit(u, 1) != Bit(v, 1))
  {
    assert (u ^ v) & 1 == (u & 1) ^ (v & 1);
    assert u & 1 == 0 || u & 1 == 1;
    assert v & 1 == 0 || v & 1 == 1;
  }

  lemma HalfLinear(u: Word, v: Word)
    ensures Half(Add(u, v)) == Add(Half(u), Half(v))
  {
  }

  // ----- multiplication by x

  lemma TimesXLinear(u: Word, v: Word)
    ensures TimesX(Add(u, v)) == Add(TimesX(u), TimesX(v))
  {
    LowBitLinear(u, v);
    HalfLinear(u, v);
    PickDiffers(Bit(u, 1), Bit(v, 1), POLY);
    hide Pick, Add, Half, Bit;
    AddSwap(Half(u), Half(v), Pick(Bit(u, 1), POLY), Pick(Bit(v, 1), POLY));
  }

  lemma TimesXZero()
    ensures TimesX(0) == 0
  {
  }

  lemma PickTimesX(c: bool, b: Word)
    ensures Pick(c, TimesX(b)) == TimesX(Pick(c, b))
  {
    TimesXZero();
    hide TimesX;
  }

  // ----- multiplication

  lemma {:induction false} MulLinear(a: Word, m: Word, u: Word, v: Word)
    ensures MulFrom(a, m, Add(u, v)) == Add(MulFrom(a, m, u), MulFrom(a, m, v))
    decreases m
  {
    if m == 0 {
      AddZero(0);
    } else {
      hide Pick, Add, Half, Bit, TimesX;
      MulLinear(a, Half(m), TimesX(u), TimesX(v));
      TimesXLinear(u, v);
      PickLinear(Bit(a, m), u, v);
      AddSwap(Pick(Bit(a, m), u), Pick(Bit(a, m), v),
              MulFrom(a, Half(m), TimesX(u)), MulFrom(a, Half(m), TimesX(v)));
    }
  }

  lemma {:induction false} MulTimesX(a: Word, m: Word, b: Word)
    ensures MulFrom(a, m, TimesX(b)) == TimesX(MulFrom(a, m, b))
    decreases m
  {
    TimesXZero();
    if m != 0 {
      hide Pick, Add, Half, Bit, TimesX;
      MulTimesX(a, Half(m), TimesX(b));
      PickTimesX(Bit(a, m), b);
      TimesXLinear(Pick(Bit(a, m), b), MulFrom(a, Half(m), TimesX(b)));
    }
  }

  lemma {:induction false} MulZero(a: Word, m: Word)
    ensures MulFrom(a, m, 0) == 0
    decreases m
  {
    if m != 0 {
      TimesXZero();
      AddZero(0);
      hide Add, Half, Bit, TimesX;
      MulZero(a, Half(m));
    }
  }

  /** The terms of b times a product with a fixed factor are that factor times the terms of b. */
  lemma {:induction false} MulInside(a: Word, b: Word, m: Word, c: Word)
    ensures MulFrom(b, m, Mul(a, c)) == Mul(a, MulFrom(b, m, c))
    decreases m
  {
    MulZero(a, ONE);
    if m == 0 {
      hide Add, Half, Bit, TimesX;
    } else {
      var rest := MulFrom(b, Half(m), TimesX(c));
      hide Add, Half, Bit, TimesX, MulFrom;
      MulInside(a, b, Half(m), TimesX(c));
      MulTimesX(a, ONE, c);
      MulUnfold(b, m, Mul(a, c));
      MulUnfold(b, m, c);
      PickInside(Bit(b, m), a, c);
      hide Pick;
      MulLinear(a, ONE, Pick(Bit(b, m), c), rest);
    }
  }

  lemma PickInside(b: bool, a: Word, c: Word)
    ensures Pick(b, Mul(a, c)) == Mul(a, Pick(b, c))
  {
    MulZero(a, ONE);
  }

  lemma MulUnfold(a: Word, m: Word, b: Word)
    requires m != 0
    ensures MulFrom(a, m, b) == Add(Pick(Bit(a, m), b), MulFrom(a, Half(m), TimesX(b)))
  {
  }

  lemma MulIs(a: Word, b: Word)
    ensures Mul(a, b) == MulFrom(a, ONE, b)
  {
    hide MulFrom;
  }

  predicate SingleBit(m: Word) { m & (m - 1) == 0 }

  /** The coefficients of b at bit m and below. */
  function UpTo(b: Word, m: Word): Word { b & (m | (m - 1)) }

  lemma SingleBitHalves(m: Word)
    requires m != 0 && SingleBit(m)
    ensures SingleBit(Half(m))
    ensures m != 1 ==> m & 1 == 0 && Half(m) != 0
  {
    if m != 1 {
      assert m & 1 == 0;
    }
  }

  lemma SingleBitHalfTimesX(m: Word)
    requires m != 0 && m != 1 && SingleBit(m)
    ensures TimesX(m) == Half(m)
  {
    SingleBitHalves(m);
    AddZero(Half(m));
    hide Add;
  }

  lemma MaskStep(m: Word)
    requires m != 0 && m != 1 && SingleBit(m)
    ensures m | (m - 1) == m ^ (Half(m) | (Half(m) - 1))
  {
  }

  lemma AndXor(b: Word, m: Word, k: Word)
    ensures b & (m ^ k) == (b & m) ^ (b & k)
  {
  }

  lemma AndSingle(b: Word, m: Word)
    requires SingleBit(m)
    ensures b & m == Pick(Bit(b, m), m)
  {
    assert b & m == 0 || b & m == m;
  }

  lemma UpToStep(b: Word, m: Word)
    requires m != 0 && m != 1 && SingleBit(m)
    ensures UpTo(b, m) == Add(Pick(Bit(b, m), m), UpTo(b, Half(m)))
  {
    MaskStep(m);
    AndXor(b, m, Half(m) | (Half(m) - 1));
    AndSingle(b, m);
    hide Half, Pick, Bit;
  }

  lemma {:induction false} MulOneFrom(b: Word, m: Word)
    requires m != 0 && SingleBit(m)
    ensures MulFrom(b, m, m) == UpTo(b, m)
    decreases m
  {
    if m == 1 {
      MulOneLast(b);
    } else {
      SingleBitHalves(m);
      SingleBitHalfTimesX(m);
      UpToStep(b, m);
      MulOneFrom(b, Half(m));
      hide *;
      MulUnfold(b, m, m);
    }
  }

  lemma MulOneLast(b: Word)
    ensures MulFrom(b, 1, 1) == UpTo(b, 1)
  {
    AndSingle(b, 1);
    AddZero(Pick(Bit(b, 1), 1));
    hide Add, Pick, Bit;
    assert Half(1) == 0;
  }

  /** x^0 is the unit. */
  lemma MulOne(b: Word)
    ensures Mul(b, ONE) == b
  {
    MulOneFrom(b, ONE);
  }

  lemma MulCommutes(a: Word, b: Word)
    ensures Mul(a, b) == Mul(b, a)
  {
    hide MulFrom;
    MulOne(a);
    MulOne(b);
    MulInside(a, b, ONE, ONE);
  }

  lemma MulAssociates(a: Word, b: Word, c: Word)
    ensures Mul(Mul(a, b), c) == Mul(a, Mul(b, c))
  {
    hide MulFrom;
    MulCommutes(Mul(a, b), c);
    MulInside(c, a, ONE, b);
    MulCommutes(b, c);
  }

  // ----- powers of x

  lemma ShiftOnce(a: Word, n: nat)
    ensures Shift(a, n + 1) == TimesX(Shift(a, n))
  {
  }

  lemma {:induction false} ShiftShift(a: Word, m: nat, n: nat)
    ensures Shift(Shift(a, m), n) == Shift(a, m + n)
  {
    if n > 0 {
      ShiftShift(a, m, n - 1);
    }
  }

  lemma {:induction false} ShiftLinear(u: Word, v: Word, n: nat)
    ensures Shift(Add(u, v), n) == Add(Shift(u, n), Shift(v, n))
  {
    if n > 0 {
      hide Add, TimesX;
      ShiftLinear(u, v, n - 1);
      TimesXLinear(Shift(u, n - 1), Shift(v, n - 1));
    }
  }

  lemma XPowIs(n: nat)
    ensures XPow(n) == Shift(ONE, n)
  {
    hide Shift;
  }

  /** Multiplying by x^n shifts n times. */
  lemma {:induction false} MulXPow(a: Word, n: nat)
    ensures Mul(a, XPow(n)) == Shift(a, n)
  {
    hide *;
    XPowIs(n);
    if n == 0 {
      ShiftNone(ONE);
      ShiftNone(a);
      MulOne(a);
    } else {
      MulXPow(a, n - 1);
      XPowIs(n - 1);
      ShiftOnce(ONE, n - 1);
      ShiftOnce(a, n - 1);
      MulIs(a, XPow(n - 1));
      MulIs(a, XPow(n));
      MulTimesX(a, ONE, XPow(n - 1));
    }
  }

  lemma ShiftNone(a: Word)
    ensures Shift(a, 0) == a
  {
  }

  lemma XPowAdd(m: nat, n: nat)
    ensures Mul(XPow(m), XPow(n)) == XPow(m + n)
  {
    MulXPow(XPow(m), n);
    ShiftShift(ONE, m, n);
  }

  lemma {:induction false} XPowTimes(m: nat, n: nat)
    ensures XPow(m * n) == Power(XPow(m), n)
  {
    hide *;
    PowerOnce(XPow(m), n);
    if n == 0 {
      XPowIs(0);
      ShiftNone(ONE);
    } else {
      var k := m * (n - 1);
      assert m + k == m * n;
      XPowTimes(m, n - 1);
      XPowAdd(m, k);
    }
  }

  lemma PowerOnce(a: Word, n: nat)
    ensures Power(a, n) == if n == 0 then ONE else Mul(a, Power(a, n - 1))
  {
    hide Mul;
  }

  /** No power of x vanishes: p(x) has a constant term. */
  lemma {:induction false} XPowNonzero(n: nat)
    ensures XPow(n) != 0
  {
    if n > 0 {
      XPowNonzero(n - 1);
      TimesXNonzero(XPow(n - 1));
    }
  }

  lemma TimesXNonzero(a: Word)
    requires a != 0
    ensures TimesX(a) != 0
  {
  }
}
