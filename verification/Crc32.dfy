/** crc32.c: polynomial products, powers of x by repeated squaring, combination, and the tables. */
module Crc32 {
  import opened Bitwise
  import opened CrcField
  import opened CrcSpec
  import opened PowerTable

  /** Nothing is left of a product when no coefficient is left. */
  lemma {:induction false} NoMoreTerms(a: Word, m: Word, b: Word)
    requires m != 0 && SingleBit(m) && UpTo(a, m) == 0
    ensures MulFrom(a, m, b) == 0
    decreases m
  {
    MulUnfold(a, m, b);
    SingleBitHalves(m);
    NoBitLeft(a, m);
    AddZero(0);
    if m == 1 {
      assert Half(1) == 0;
      NoTerms(a, TimesX(b));
      hide Add, Half, TimesX, UpTo, SingleBit;
    } else {
      UpToStep(a, m);
      AddZero(UpTo(a, Half(m)));
      hide Add, Half, TimesX, UpTo, SingleBit, Bit, MulFrom;
      NoMoreTerms(a, Half(m), TimesX(b));
    }
  }

  lemma NoBitLeft(a: Word, m: Word)
    requires UpTo(a, m) == 0
    ensures !Bit(a, m)
  {
  }

  /** The test of multmodp for the last term. */
  lemma LastTerm(a: Word, m: Word, b: Word)
    requires m != 0 && SingleBit(m) && UpTo(a, m) != 0
    ensures Bit(a, m) && NothingBelow(a, m) ==> MulFrom(a, Half(m), b) == 0
    ensures !(Bit(a, m) && NothingBelow(a, m)) ==> Half(m) != 0 && SingleBit(Half(m)) && UpTo(a, Half(m)) != 0
  {
    SingleBitHalves(m);
    if m == 1 {
      OnlyLowBit(a);
      assert Half(1) == 0;
      NoTerms(a, b);
    } else {
      BelowIsRest(a, m);
      hide MulFrom, UpTo, Half, SingleBit;
      if UpTo(a, Half(m)) == 0 {
        NoMoreTerms(a, Half(m), b);
      }
    }
  }

  lemma OnlyLowBit(a: Word)
    requires UpTo(a, 1) != 0
    ensures Bit(a, 1) && a & 0 == 0
  {
  }

  lemma BelowIsRest(a: Word, m: Word)
    requires m != 0 && m != 1 && SingleBit(m) && UpTo(a, m) != 0
    ensures UpTo(a, Half(m)) == a & (m - 1)
    ensures !Bit(a, m) ==> a & (m - 1) != 0
  {
  }

  /** The condition (a & (m - 1)) == 0 of multmodp. */
  predicate NothingBelow(a: Word, m: Word) {
    a & (m - 1) == 0
  }

  /** multmodp.  a must not be zero, or the loop would run past the last bit. */
  method MultModP(a: Word, b: Word) returns (p: Word)
    requires a != 0
    ensures p == Mul(a, b)
  {
    hide *;
    FirstTerm(a, b);
    var m, b' := ONE, b;
    p := 0;
    while true
      invariant Ahead(a, m, b', p, Mul(a, b))
      decreases Rank(m)
    {
      Round(a, m, b', p, Mul(a, b));
      if Bit(a, m) {
        p := Add(p, b');
        if NothingBelow(a, m) {
          break;
        }
      }
      m := Half(m);
      b' := TimesX(b');
    }
  }

  /** A product still to be accumulated. */
  ghost predicate Ahead(a: Word, m: Word, b: Word, p: Word, product: Word) {
    m != 0 && SingleBit(m) && UpTo(a, m) != 0 && Add(p, MulFrom(a, m, b)) == product
  }

  /** How often m can be halved. */
  ghost function Rank(m: Word): nat
    decreases m
  {
    if m == 0 then 0 else 1 + Rank(Half(m))
  }

  lemma Round(a: Word, m: Word, b: Word, p: Word, product: Word)
    requires Ahead(a, m, b, p, product)
    ensures var p' := if Bit(a, m) then Add(p, b) else p;
      if Bit(a, m) && NothingBelow(a, m) then p' == product
      else Ahead(a, Half(m), TimesX(b), p', product) && Rank(Half(m)) < Rank(m)
  {
    LastTerm(a, m, TimesX(b));
    LoopStep(a, m, b, p);
    hide Add, SingleBit, UpTo, MulFrom, Bit, NothingBelow, Half, TimesX;
    AddZero(if Bit(a, m) then Add(p, b) else p);
  }

  lemma FirstTerm(a: Word, b: Word)
    requires a != 0
    ensures Ahead(a, ONE, b, 0, Mul(a, b))
  {
    AddZero(MulFrom(a, ONE, b));
    hide MulFrom, Add;
  }

  /** One round of multmodp in terms of the operators. */
  lemma LoopStep(a: Word, m: Word, b: Word, p: Word)
    requires m != 0
    ensures Add(p, MulFrom(a, m, b)) == Add(if Bit(a, m) then Add(p, b) else p, MulFrom(a, Half(m), TimesX(b)))
  {
    MulUnfold(a, m, b);
    hide Add, Half, TimesX, SingleBit, UpTo, MulFrom, Bit;
    var rest := MulFrom(a, Half(m), TimesX(b));
    AddAssociates(p, Pick(Bit(a, m), b), rest);
    AddZero(p);
    AddZero(rest);
  }

  // ----- the tables


  /** x2n_table: x to the powers of two. */
  ghost predicate PowersOk(t: seq<Word>) {
    |t| == 32 && forall k :: 0 <= k < 32 ==> t[k] == XPow(Pow2(k))
  }

  /** crc_table: what a byte shifted out of the register adds to it. */
  ghost predicate BytesOk(t: seq<Word>) {
    |t| == 256 && forall b: Octet :: t[Index(b)] == Shift(Low(b), 8)
  }

  lemma SquareOfPower(k: nat)
    ensures Mul(XPow(Pow2(k)), XPow(Pow2(k))) == XPow(Pow2(k + 1))
  {
    hide Mul, XPow;
    XPowAdd(Pow2(k), Pow2(k));
  }

  /** The part of make_crc_table that fills x2n_table. */
  method MakePowers() returns (t: array<Word>)
    ensures fresh(t) && PowersOk(t[..])
  {
    hide Mul, XPow, Pow2;
    var p: Word := 0x4000_0000;
    t := new Word[32];
    t[0] := p;
    FirstPower();
    assert Pow2(0) == 1 by { PowZero(); }
    var n := 1;
    while n < 32
      invariant 1 <= n <= 32 && p == t[n - 1]
      invariant forall k :: 0 <= k < n ==> t[k] == XPow(Pow2(k))
    {
      XPowNonzero(Pow2(n - 1));
      SquareOfPower(n - 1);
      p := MultModP(p, p);
      t[n] := p;
      n := n + 1;
    }
  }

  lemma PowZero()
    ensures Pow2(0) == 1
  {
  }

  /** The part of make_crc_table that fills crc_table. */
  method MakeBytes() returns (t: array<Word>)
    ensures fresh(t) && BytesOk(t[..])
  {
    hide Shift, TimesX, Low, Index, Count;
    t := new Word[256];
    var i: bv16 := 0;
    while i < 256
      invariant i <= 256
      invariant forall c: Octet :: Count(c) < i ==> t[Index(c)] == Shift(Low(c), 8)
      decreases 256 - i
    {
      var b := i as Octet;
      CountUp(i);
      t[Index(b)] := ByteEntry(b);
      forall c: Octet | Index(c) == Index(b)
        ensures c == b
      {
        IndexInjective(b, c);
      }
      i := i + 1;
    }
    forall c: Octet
      ensures Count(c) < 256
    {
      AllCounted(c);
    }
  }

  method ByteEntry(b: Octet) returns (p: Word)
    ensures p == Shift(Low(b), 8)
  {
    hide Shift, TimesX, Low;
    p := Low(b);
    ShiftNone(p);
    var j: nat := 0;
    while j < 8
      invariant j <= 8 && p == Shift(Low(b), j)
    {
      ShiftOnce(Low(b), j);
      p := TimesX(p);
      j := j + 1;
    }
  }

  lemma XPowOfNone()
    ensures XPow(0) == ONE
  {
  }

  /** x2nmodp: x^(n * 2^k), by the bits of n; the table index wraps at 32. */
  method X2NModP(t: seq<Word>, n0: nat, k0: nat) returns (p: Word)
    requires PowersOk(t)
    ensures p == XPow(n0 * Pow2(k0))
  {
    hide Mul, XPow, Pow2;
    p := ONE;
    var n: nat, k: nat := n0, k0;
    XPowOfNone();
    MulOne(XPow(n0 * Pow2(k0)));
    while n != 0
      invariant Mul(XPow(n * Pow2(k)), p) == XPow(n0 * Pow2(k0))
    {
      PowersLeft(n, k);
      if n % 2 == 1 {
        IndexWraps(k);
        XPowNonzero(Pow2(k % 32));
        MulAssociates(XPow(n / 2 * Pow2(k + 1)), XPow(Pow2(k)), p);
        p := MultModP(t[k % 32], p);
      }
      n := n / 2;
      k := k + 1;
    }
    assert 0 * Pow2(k) == 0;
    MulCommutes(ONE, p);
    MulOne(p);
  }

  lemma PowersLeft(n: nat, k: nat)
    ensures n % 2 == 0 ==> n / 2 * Pow2(k + 1) == n * Pow2(k)
    ensures n % 2 == 1 ==> XPow(n * Pow2(k)) == Mul(XPow(n / 2 * Pow2(k + 1)), XPow(Pow2(k)))
  {
    hide Mul, XPow;
    var h := n / 2;
    HalfProduct(h, n % 2, Pow2(k));
    XPowAdd(h * Pow2(k + 1), Pow2(k));
  }

  lemma HalfProduct(h: nat, r: nat, p: nat)
    ensures (2 * h + r) * p == h * (2 * p) + r * p
  {
  }

  /** crc32_combine64 */
  method Combine(t: seq<Word>, crc1: Word, crc2: Word, len2: nat) returns (crc: Word)
    requires PowersOk(t)
    ensures crc == Add(Mul(XPow(8 * len2), crc1), crc2)
    ensures forall s, u :: crc1 == Crc32Of(0, s) && crc2 == Crc32Of(0, u) && |u| == len2 ==> crc == Crc32Of(0, s + u)
  {
    hide Mul, XPow, Pow2, Crc32Of, Add;
    var op := X2NModP(t, len2, 3);
    Eight();
    assert len2 * 8 == 8 * len2;
    XPowNonzero(8 * len2);
    var product := MultModP(op, crc1);
    crc := Add(product, crc2);
    forall s, u | crc1 == Crc32Of(0, s) && crc2 == Crc32Of(0, u) && |u| == len2
      ensures crc == Crc32Of(0, s + u)
    {
      CrcCombines(s, u);
    }
  }

  lemma Eight()
    ensures Pow2(3) == 8
  {
    assert Pow2(1) == 2;
  }
}
