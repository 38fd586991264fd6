/** x2n_table: x raised to the powers of two, and why its index may wrap at 32. */
module PowerTable {
  import opened Bitwise
  import opened CrcField

  // ----- a product written out flat, for evaluating constants

  function X1(b: Word): Word { if b & 1 != 0 then (b >> 1) ^ 0xedb88320 else b >> 1 }

  function X4(b: Word): Word { X1(X1(X1(X1(b)))) }

  function X16(b: Word): Word { X4(X4(X4(X4(b)))) }

  function Term(a: Word, m: Word, b: Word): Word { if a & m != 0 then b else 0 }

  function Xor4(p: Word, q: Word, r: Word, s: Word): Word { Add(Add(p, q), Add(r, s)) }

  function Sum4(a: Word, m: Word, b: Word): Word {
    var b1 := X1(b);
    var b2 := X1(b1);
    var b3 := X1(b2);
    Xor4(Term(a, m, b), Term(a, m >> 1, b1), Term(a, m >> 2, b2), Term(a, m >> 3, b3))
  }

  function Sum16(a: Word, m: Word, b: Word): Word {
    var b1 := X4(b);
    var b2 := X4(b1);
    var b3 := X4(b2);
    Xor4(Sum4(a, m, b), Sum4(a, m >> 4, b1), Sum4(a, m >> 8, b2), Sum4(a, m >> 12, b3))
  }

  function FlatProduct(a: Word, b: Word): Word {
    Add(Sum16(a, 0x8000_0000, b), Sum16(a, 0x8000, X16(b)))
  }

  lemma X1Is(b: Word)
    ensures X1(b) == TimesX(b)
  {
    HalfIs(b);
    AddIs(b >> 1, POLY);
    AddZero(b >> 1);
    hide Add, Half;
  }

  lemma TermIs(a: Word, m: Word, b: Word)
    ensures Term(a, m, b) == Pick(Bit(a, m), b)
  {
  }

  /** Four sums before a rest. */
  lemma Xor4Is(p: Word, q: Word, r: Word, s: Word, rest: Word)
    ensures Add(Xor4(p, q, r, s), rest) == Add(p, Add(q, Add(r, Add(s, rest))))
  {
    hide Add;
    AddAssociates(r, s, rest);
    AddAssociates(p, q, Add(Add(r, s), rest));
    AddAssociates(Add(p, q), Add(r, s), rest);
    AddAssociates(p, q, Add(r, Add(s, rest)));
  }

  lemma Quarter(m: Word)
    requires m >= 8
    ensures Half(m) == m >> 1 && Half(m >> 1) == m >> 2 && Half(m >> 2) == m >> 3 && Half(m >> 3) == m >> 4
    ensures m != 0 && m >> 1 != 0 && m >> 2 != 0 && m >> 3 != 0
  {
  }

  /** Four terms of a product, flat. */
  lemma FourTerms(a: Word, m: Word, b: Word)
    requires m >= 8
    ensures MulFrom(a, m, b) == Add(Sum4(a, m, b), MulFrom(a, m >> 4, X4(b)))
  {
    var b1, b2, b3 := X1(b), X1(X1(b)), X1(X1(X1(b)));
    Quarter(m);
    hide TimesX, Add, Pick, Bit, Half, MulFrom, X1, Term, Xor4;
    OneTerm(a, m, b);
    OneTerm(a, m >> 1, b1);
    OneTerm(a, m >> 2, b2);
    OneTerm(a, m >> 3, b3);
    Xor4Is(Term(a, m, b), Term(a, m >> 1, b1), Term(a, m >> 2, b2), Term(a, m >> 3, b3), MulFrom(a, m >> 4, X1(b3)));
  }

  lemma OneTerm(a: Word, m: Word, b: Word)
    requires m != 0
    ensures MulFrom(a, m, b) == Add(Term(a, m, b), MulFrom(a, Half(m), X1(b)))
  {
    MulUnfold(a, m, b);
    X1Is(b);
    TermIs(a, m, b);
    hide *;
  }

  lemma UpperTerms(a: Word, b: Word)
    ensures MulFrom(a, 0x8000_0000, b) == Add(Sum16(a, 0x8000_0000, b), MulFrom(a, 0x8000, X16(b)))
  {
    Sum16Is(a, 0x8000_0000, b);
    hide *;
    SixteenTermsOf(a, 0x8000_0000, 0x0800_0000, 0x0080_0000, 0x0008_0000, 0x8000, b);
  }

  lemma LowerTerms(a: Word, b: Word)
    ensures MulFrom(a, 0x8000, b) == Add(Sum16(a, 0x8000, b), MulFrom(a, 0, X16(b)))
  {
    Sum16Is(a, 0x8000, b);
    hide *;
    SixteenTermsOf(a, 0x8000, 0x0800, 0x0080, 0x0008, 0, b);
  }

  lemma Sum16Is(a: Word, m: Word, b: Word)
    ensures var b1, b2, b3 := X4(b), X4(X4(b)), X4(X4(X4(b)));
      && Sum16(a, m, b) == Xor4(Sum4(a, m, b), Sum4(a, m >> 4, b1), Sum4(a, m >> 8, b2), Sum4(a, m >> 12, b3))
      && X16(b) == X4(b3)
  {
    hide X4, Sum4, Xor4;
  }

  lemma SixteenTermsOf(a: Word, m: Word, m1: Word, m2: Word, m3: Word, m4: Word, b: Word)
    requires m >= 8 && m1 >= 8 && m2 >= 8 && m3 >= 8
    requires m1 == m >> 4 && m2 == m1 >> 4 && m3 == m2 >> 4 && m4 == m3 >> 4
    ensures var b1, b2, b3 := X4(b), X4(X4(b)), X4(X4(X4(b)));
      MulFrom(a, m, b) ==
      Add(Xor4(Sum4(a, m, b), Sum4(a, m1, b1), Sum4(a, m2, b2), Sum4(a, m3, b3)), MulFrom(a, m4, X4(b3)))
  {
    hide *;
    var b1, b2, b3 := X4(b), X4(X4(b)), X4(X4(X4(b)));
    FourTermsTo(a, m, m1, b);
    FourTermsTo(a, m1, m2, b1);
    FourTermsTo(a, m2, m3, b2);
    FourTermsTo(a, m3, m4, b3);
    Xor4Is(Sum4(a, m, b), Sum4(a, m1, b1), Sum4(a, m2, b2), Sum4(a, m3, b3), MulFrom(a, m4, X4(b3)));
  }

  lemma FourTermsTo(a: Word, m: Word, next: Word, b: Word)
    requires m >= 8 && next == m >> 4
    ensures MulFrom(a, m, b) == Add(Sum4(a, m, b), MulFrom(a, next, X4(b)))
  {
    hide *;
    FourTerms(a, m, b);
  }

  lemma FlatProductIs(a: Word, b: Word)
    ensures Mul(a, b) == FlatProduct(a, b)
  {
    FlatProductIsSum(a, b);
    hide *;
    MulIsTop(a, b);
    UpperTerms(a, b);
    LowerTerms(a, X16(b));
    NoTerms(a, X16(X16(b)));
    AddZero(Sum16(a, 0x8000, X16(b)));
  }

  lemma MulIsTop(a: Word, b: Word)
    ensures Mul(a, b) == MulFrom(a, 0x8000_0000, b)
  {
    hide MulFrom;
  }

  lemma FlatProductIsSum(a: Word, b: Word)
    ensures FlatProduct(a, b) == Add(Sum16(a, 0x8000_0000, b), Sum16(a, 0x8000, X16(b)))
  {
    hide Sum16, X16, Add;
  }

  lemma NoTerms(a: Word, b: Word)
    ensures MulFrom(a, 0, b) == 0
  {
  }

  // ----- repeated squaring: x to the powers of two, as listed in x2n_table of crc32.h

  predicate Squares(a: Word, b: Word) {
    FlatProduct(a, a) == b
  }

  lemma Squares0()
    ensures Squares(0x40000000, 0x20000000) && Squares(0x20000000, 0x08000000)
  {
  }

  lemma Squares2()
    ensures Squares(0x08000000, 0x00800000) && Squares(0x00800000, 0x00008000)
  {
  }

  lemma Squares4()
    ensures Squares(0x00008000, 0xedb88320) && Squares(0xedb88320, 0xb1e6b092)
  {
  }

  lemma Squares6()
    ensures Squares(0xb1e6b092, 0xa06a2517) && Squares(0xa06a2517, 0xed627dae)
  {
  }

  lemma Squares8()
    ensures Squares(0xed627dae, 0x88d14467) && Squares(0x88d14467, 0xd7bbfe6a)
  {
  }

  lemma Squares10()
    ensures Squares(0xd7bbfe6a, 0xec447f11) && Squares(0xec447f11, 0x8e7ea170)
  {
  }

  lemma Squares12()
    ensures Squares(0x8e7ea170, 0x6427800e) && Squares(0x6427800e, 0x4d47bae0)
  {
  }

  lemma Squares14()
    ensures Squares(0x4d47bae0, 0x09fe548f) && Squares(0x09fe548f, 0x83852d0f)
  {
  }

  lemma Squares16()
    ensures Squares(0x83852d0f, 0x30362f1a) && Squares(0x30362f1a, 0x7b5a9cc3)
  {
  }

  lemma Squares18()
    ensures Squares(0x7b5a9cc3, 0x31fec169) && Squares(0x31fec169, 0x9fec022a)
  {
  }

  lemma Squares20()
    ensures Squares(0x9fec022a, 0x6c8dedc4) && Squares(0x6c8dedc4, 0x15d6874d)
  {
  }

  lemma Squares22()
    ensures Squares(0x15d6874d, 0x5fde7a4e) && Squares(0x5fde7a4e, 0xbad90e37)
  {
  }

  lemma Squares24()
    ensures Squares(0xbad90e37, 0x2e4e5eef) && Squares(0x2e4e5eef, 0x4eaba214)
  {
  }

  lemma Squares26()
    ensures Squares(0x4eaba214, 0xa8a472c0) && Squares(0xa8a472c0, 0x429a969e)
  {
  }

  lemma Squares28()
    ensures Squares(0x429a969e, 0x148d302a) && Squares(0x148d302a, 0xc40ba6d0)
  {
  }

  lemma Squares30()
    ensures Squares(0xc40ba6d0, 0xc4e22c3c) && Squares(0xc4e22c3c, 0x40000000)
  {
  }

  lemma Doubling(k: nat, a: Word, b: Word)
    requires XPow(Pow2(k)) == a && Squares(a, b)
    ensures XPow(Pow2(k + 1)) == b
  {
    FlatProductIs(a, a);
    hide Mul, FlatProduct, Shift;
    XPowAdd(Pow2(k), Pow2(k));
  }

  lemma FirstPower()
    ensures XPow(1) == 0x4000_0000
  {
    ShiftOnce(ONE, 0);
    assert TimesX(0x8000_0000) == 0x4000_0000;
    hide TimesX;
    assert Shift(ONE, 0) == ONE;
  }

  lemma Powers8()
    ensures XPow(Pow2(8)) == 0xed627dae
  {
    assert Pow2(0) == 1;
    hide *;
    FirstPower();
    Squares0();
    Doubling(0, 0x40000000, 0x20000000);
    Doubling(1, 0x20000000, 0x08000000);
    Squares2();
    Doubling(2, 0x08000000, 0x00800000);
    Doubling(3, 0x00800000, 0x00008000);
    Squares4();
    Doubling(4, 0x00008000, 0xedb88320);
    Doubling(5, 0xedb88320, 0xb1e6b092);
    Squares6();
    Doubling(6, 0xb1e6b092, 0xa06a2517);
    Doubling(7, 0xa06a2517, 0xed627dae);
  }

  lemma Powers16()
    requires XPow(Pow2(8)) == 0xed627dae
    ensures XPow(Pow2(16)) == 0x83852d0f
  {
    hide XPow, Pow2, Squares;
    Squares8();
    Doubling(8, 0xed627dae, 0x88d14467);
    Doubling(9, 0x88d14467, 0xd7bbfe6a);
    Squares10();
    Doubling(10, 0xd7bbfe6a, 0xec447f11);
    Doubling(11, 0xec447f11, 0x8e7ea170);
    Squares12();
    Doubling(12, 0x8e7ea170, 0x6427800e);
    Doubling(13, 0x6427800e, 0x4d47bae0);
    Squares14();
    Doubling(14, 0x4d47bae0, 0x09fe548f);
    Doubling(15, 0x09fe548f, 0x83852d0f);
  }

  lemma Powers24()
    requires XPow(Pow2(16)) == 0x83852d0f
    ensures XPow(Pow2(24)) == 0xbad90e37
  {
    hide XPow, Pow2, Squares;
    Squares16();
    Doubling(16, 0x83852d0f, 0x30362f1a);
    Doubling(17, 0x30362f1a, 0x7b5a9cc3);
    Squares18();
    Doubling(18, 0x7b5a9cc3, 0x31fec169);
    Doubling(19, 0x31fec169, 0x9fec022a);
    Squares20();
    Doubling(20, 0x9fec022a, 0x6c8dedc4);
    Doubling(21, 0x6c8dedc4, 0x15d6874d);
    Squares22();
    Doubling(22, 0x15d6874d, 0x5fde7a4e);
    Doubling(23, 0x5fde7a4e, 0xbad90e37);
  }

  lemma Powers32()
    requires XPow(Pow2(24)) == 0xbad90e37
    ensures XPow(Pow2(32)) == 0x40000000
  {
    hide XPow, Pow2, Squares;
    Squares24();
    Doubling(24, 0xbad90e37, 0x2e4e5eef);
    Doubling(25, 0x2e4e5eef, 0x4eaba214);
    Squares26();
    Doubling(26, 0x4eaba214, 0xa8a472c0);
    Doubling(27, 0xa8a472c0, 0x429a969e);
    Squares28();
    Doubling(28, 0x429a969e, 0x148d302a);
    Doubling(29, 0x148d302a, 0xc40ba6d0);
    Squares30();
    Doubling(30, 0xc40ba6d0, 0xc4e22c3c);
    Doubling(31, 0xc4e22c3c, 0x40000000);
  }

  /** Squaring x 32 times gives x again. */
  lemma XPowWraps()
    ensures XPow(Pow2(32)) == XPow(1)
  {
    hide *;
    FirstPower();
    Powers8();
    Powers16();
    Powers24();
    Powers32();
  }

  /** So the exponent of two may be reduced modulo 32, as the index k & 31 does. */
  lemma {:induction false} IndexWraps(k: nat)
    ensures XPow(Pow2(k)) == XPow(Pow2(k % 32))
  {
    if k >= 32 {
      IndexWraps(k - 32);
      PowerAdd32(k - 32);
    }
  }

  lemma PowerAdd32(j: nat)
    ensures XPow(Pow2(32 + j)) == XPow(Pow2(j))
  {
    hide *;
    XPowWraps();
    Pow2Add(32, j);
    XPowTimes(Pow2(32), Pow2(j));
    XPowTimes(1, Pow2(j));
  }
}
