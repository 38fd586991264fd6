/** Polynomials over GF(2) of any degree, as an independent reading of the words of crc32.c. */
module Polynomials {
  import opened CrcField

  /** Coefficients, lowest power first. */
  type Poly = seq<bool>

  function Sum(p: Poly, q: Poly): Poly {
    if p == [] then q
    else if q == [] then p
    else [p[0] != q[0]] + Sum(p[1..], q[1..])
  }

  function Product(p: Poly, q: Poly): Poly {
    if p == [] then [] else Sum(if p[0] then q else [], [false] + Product(p[1..], q))
  }

  /** The word that stands for a polynomial modulo p(x). */
  function Residue(p: Poly): Word {
    if p == [] then 0 else Add(Pick(p[0], ONE), TimesX(Residue(p[1..])))
  }

  lemma ResidueUnfold(bit: bool, p: Poly)
    ensures Residue([bit] + p) == Add(Pick(bit, ONE), TimesX(Residue(p)))
  {
    assert ([bit] + p)[1..] == p;
  }

  lemma SumUnfold(p: Poly, q: Poly)
    requires p != [] && q != []
    ensures Sum(p, q) == [p[0] != q[0]] + Sum(p[1..], q[1..])
    ensures p == [p[0]] + p[1..] && q == [q[0]] + q[1..]
  {
  }

  lemma SumWithNone(p: Poly)
    ensures Sum([], p) == p && Sum(p, []) == p && Residue([]) == 0
  {
  }

  lemma {:induction false} ResidueOfSum(p: Poly, q: Poly)
    ensures Residue(Sum(p, q)) == Add(Residue(p), Residue(q))
  {
    hide *;
    if p == [] || q == [] {
      SumWithNone(p);
      SumWithNone(q);
      AddZero(Residue(p));
      AddZero(Residue(q));
    } else {
      var p', q' := p[1..], q[1..];
      SumUnfold(p, q);
      ResidueUnfold(p[0], p');
      ResidueUnfold(q[0], q');
      ResidueUnfold(p[0] != q[0], Sum(p', q'));
      ResidueOfSum(p', q');
      PickDiffers(p[0], q[0], ONE);
      TimesXLinear(Residue(p'), Residue(q'));
      AddSwap(Pick(p[0], ONE), Pick(q[0], ONE), TimesX(Residue(p')), TimesX(Residue(q')));
    }
  }

  lemma ResidueOfShift(p: Poly)
    ensures Residue([false] + p) == TimesX(Residue(p))
  {
    AddZero(TimesX(Residue(p)));
    hide Add, TimesX;
    assert ([false] + p)[1..] == p;
  }

  /** Mul is multiplication of polynomials modulo p(x). */
  lemma {:induction false} ResidueOfProduct(p: Poly, q: Poly)
    ensures Residue(Product(p, q)) == Mul(Residue(p), Residue(q))
  {
    var r := Residue(q);
    if p == [] {
      MulZero(r, ONE);
      MulCommutes(0, r);
    } else {
      hide Add, TimesX, Mul;
      ResidueOfProduct(p[1..], q);
      ResidueOfShift(Product(p[1..], q));
      ResidueOfSum(if p[0] then q else [], [false] + Product(p[1..], q));
      MulDistributes(r, p[0], Residue(p[1..]));
      MulCommutes(r, Residue(p[1..]));
      MulCommutes(r, Residue(p));
    }
  }

  lemma MulDistributes(r: Word, bit: bool, s: Word)
    ensures Mul(r, Add(Pick(bit, ONE), TimesX(s))) == Add(Pick(bit, r), TimesX(Mul(r, s)))
  {
    MulOne(r);
    MulZero(r, ONE);
    hide Add, TimesX;
    MulLinear(r, ONE, Pick(bit, ONE), TimesX(s));
    MulTimesX(r, ONE, s);
  }

  /** The coefficients of a word. */
  function Coefficients(a: Word, m: Word): Poly
    decreases m
  {
    if m == 0 then [] else [Bit(a, m)] + Coefficients(a, Half(m))
  }

  /** p(x) itself: x^32 above the coefficients of POLY. */
  function Modulus(): Poly {
    Coefficients(POLY, ONE) + [true]
  }

  lemma {:induction false} ResidueOfCoefficients(a: Word, m: Word, k: Word)
    ensures MulFrom(a, m, k) == Mul(Residue(Coefficients(a, m)), k)
    decreases m
  {
    if m == 0 {
      hide Add, Half, Bit, TimesX, Mul;
      MulZero(k, ONE);
      MulCommutes(0, k);
      assert Mul(k, 0) == MulFrom(k, ONE, 0) by { MulIs(k, 0); }
    } else {
      hide Add, Half, Bit, TimesX, MulFrom, Mul;
      var rest := Coefficients(a, Half(m));
      assert ([Bit(a, m)] + rest)[1..] == rest;
      ResidueOfCoefficients(a, Half(m), TimesX(k));
      MulUnfold(a, m, k);
      MulCommutes(Residue(rest), TimesX(k));
      MulCommutes(Residue(rest), k);
      MulTimesXRight(Residue(rest), k);
      MulCommutes(k, Residue(Coefficients(a, m)));
      MulDistributes(k, Bit(a, m), Residue(rest));
    }
  }

  lemma MulTimesXRight(a: Word, k: Word)
    ensures Mul(a, TimesX(k)) == TimesX(Mul(a, k))
  {
    MulTimesX(a, ONE, k);
  }

  /** A word stands for the polynomial of its coefficients. */
  lemma WordIsItsCoefficients(a: Word)
    ensures Residue(Coefficients(a, ONE)) == a
  {
    hide Residue, Coefficients, MulFrom;
    ResidueOfCoefficients(a, ONE, ONE);
    MulOne(a);
    MulOne(Residue(Coefficients(a, ONE)));
  }

  /** p(x) is zero modulo p(x). */
  lemma ModulusVanishes()
    ensures Residue(Modulus()) == 0
  {
    hide Residue, Coefficients;
    var c := Coefficients(POLY, ONE);
    CoefficientCount(POLY);
    ResidueOfTop(c);
    WordIsItsCoefficients(POLY);
    XToThe32();
    AddZero(POLY);
  }

  lemma {:induction false} ResidueOfTop(c: Poly)
    ensures Residue(c + [true]) == Add(Residue(c), XPow(|c|))
  {
    if c == [] {
      AddZero(ONE);
      TimesXZero();
      hide Add, TimesX;
      assert ([true])[1..] == [];
    } else {
      hide Add, TimesX;
      assert (c + [true])[1..] == c[1..] + [true];
      ResidueOfTop(c[1..]);
      TimesXLinear(Residue(c[1..]), XPow(|c| - 1));
      AddAssociates(Pick(c[0], ONE), TimesX(Residue(c[1..])), XPow(|c|));
    }
  }

  lemma CoefficientCount(a: Word)
    ensures |Coefficients(a, ONE)| == 32
  {
    hide Bit;
    Count4(a, 0x8000_0000);
    Count4(a, 0x0800_0000);
    Count4(a, 0x0080_0000);
    Count4(a, 0x0008_0000);
    Count4(a, 0x8000);
    Count4(a, 0x0800);
    Count4(a, 0x0080);
    Count4(a, 0x0008);
  }

  lemma Count4(a: Word, m: Word)
    requires m >= 8
    ensures |Coefficients(a, m)| == 4 + |Coefficients(a, m >> 4)|
  {
    hide Bit;
    assert (m >> 1) >> 1 == m >> 2 && (m >> 2) >> 1 == m >> 3 && (m >> 3) >> 1 == m >> 4;
    assert m >> 1 != 0 && m >> 2 != 0 && m >> 3 != 0;
    assert |Coefficients(a, m)| == 1 + |Coefficients(a, m >> 1)|;
    assert |Coefficients(a, m >> 1)| == 1 + |Coefficients(a, m >> 2)|;
    assert |Coefficients(a, m >> 2)| == 1 + |Coefficients(a, m >> 3)|;
  }

  /** x^32 is the rest of p(x). */
  lemma XToThe32()
    ensures XPow(32) == POLY
  {
    XPowSingle(31);
    LastBitOut();
    ShiftOnce(ONE, 31);
    hide TimesX, Shift;
  }

  lemma LastBitOut()
    ensures ONE >> 31 == 1 && TimesX(1) == POLY
  {
  }

  /** Below 32 a power of x is a single bit. */
  lemma {:induction false} XPowSingle(n: nat)
    requires n <= 31
    ensures XPow(n) == ONE >> n
  {
    if n > 0 {
      XPowSingle(n - 1);
      hide TimesX;
      HalveSingle(n - 1);
    }
  }

  lemma HalveSingle(n: nat)
    requires n < 31
    ensures TimesX(ONE >> n) == ONE >> (n + 1)
  {
    var k := n as bv6;
    assert k < 31;
    assert ((ONE >> k) & 1) == 0;
  }
}
