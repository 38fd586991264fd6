/** The CRC-32 register as a polynomial: feeding bytes, zero bytes, and the polynomials behind it. */
module CrcSpec {
  import opened CrcField

  type Octet = bv8

  /** A byte in the low end of the register. */
  function Low(b: Octet): Word { b as Word }

  /** The byte at the low end of the register. */
  function LowByte(a: Word): Octet { (a & 0xff) as Octet }

  /** A byte as a table index. */
  function Index(b: Octet): (i: nat)
    ensures i < 256
  {
    b as int
  }

  lemma IndexInjective(b: Octet, c: Octet)
    requires Index(b) == Index(c)
    ensures b == c
  {
    assert ((b as int) as Octet) == b;
    assert ((c as int) as Octet) == c;
  }

  /** Bytes counted in a wider word, as the table loops do. */
  function Count(b: Octet): bv16 { b as bv16 }

  lemma CountUp(i: bv16)
    requires i < 256
    ensures i + 1 <= 256 && i < i + 1
    ensures forall c: Octet :: Count(c) < i + 1 ==> Count(c) < i || c == i as Octet
    ensures Count(i as Octet) == i && (i != 0 ==> i as Octet != 0)
  {
  }

  lemma AllCounted(c: Octet)
    ensures Count(c) < 256
  {
  }

  /** Feed one byte to the register: add it at the low end, then multiply by x^8. */
  function Feed(crc: Word, b: Octet): Word {
    Shift(Add(crc, Low(b)), 8)
  }

  /** The register after all bytes, without conditioning. */
  function Crc(crc: Word, s: seq<Octet>): Word {
    if s == [] then crc else Feed(Crc(crc, s[..|s| - 1]), s[|s| - 1])
  }

  /** The CRC-32 of RFC 1952 section 8, continued from an earlier value. */
  function Crc32Of(crc: Word, s: seq<Octet>): Word {
    Add(Crc(Add(crc, 0xffff_ffff), s), 0xffff_ffff)
  }

  lemma CrcSnoc(crc: Word, s: seq<Octet>, b: Octet)
    ensures Crc(crc, s + [b]) == Feed(Crc(crc, s), b)
  {
    assert (s + [b])[..|s|] == s;
  }

  lemma {:induction false} CrcConcat(crc: Word, s: seq<Octet>, t: seq<Octet>)
    ensures Crc(crc, s + t) == Crc(Crc(crc, s), t)
  {
    if t == [] {
      assert s + t == s;
    } else {
      var u := t[..|t| - 1];
      CrcConcat(crc, s, u);
      assert s + t == (s + u) + [t[|t| - 1]];
      CrcSnoc(crc, s + u, t[|t| - 1]);
    }
  }

  /** What is in the register beforehand just moves along: n bytes multiply it by x^(8n). */
  lemma {:induction false} CrcLinear(c: Word, d: Word, s: seq<Octet>)
    ensures Crc(Add(c, d), s) == Add(Shift(c, 8 * |s|), Crc(d, s))
  {
    if s != [] {
      var u, b := s[..|s| - 1], s[|s| - 1];
      CrcLinear(c, d, u);
      hide Add, TimesX, Low;
      FeedLinear(Shift(c, 8 * |u|), Crc(d, u), b);
      ShiftShift(c, 8 * |u|, 8);
    }
  }

  lemma FeedLinear(c: Word, d: Word, b: Octet)
    ensures Feed(Add(c, d), b) == Add(Shift(c, 8), Feed(d, b))
  {
    AddAssociates(c, d, Low(b));
    ShiftLinear(c, Add(d, Low(b)), 8);
    hide Shift, Add;
  }

  lemma CrcFromZero(c: Word, s: seq<Octet>)
    ensures Crc(c, s) == Add(Shift(c, 8 * |s|), Crc(0, s))
  {
    AddZero(c);
    CrcLinear(c, 0, s);
  }

  lemma TimesXEven(a: Word)
    requires a & 1 == 0
    ensures TimesX(a) == a >> 1
  {
    AddZero(a >> 1);
    hide Add;
  }

  lemma ShiftTwo(a: Word)
    requires a & 3 == 0
    ensures Shift(a, 2) == a >> 2
  {
    TimesXEven(a);
    TimesXEven(a >> 1);
    hide TimesX;
    assert Shift(a, 1) == TimesX(a);
    assert (a >> 1) >> 1 == a >> 2;
  }

  lemma ShiftFour(a: Word)
    requires a & 0xf == 0
    ensures Shift(a, 4) == a >> 4
  {
    assert a & 3 == 0 && (a >> 2) & 3 == 0 && (a >> 2) >> 2 == a >> 4;
    ShiftTwo(a);
    ShiftTwo(a >> 2);
    ShiftShift(a, 2, 2);
    hide Shift;
  }

  /** A clear low byte is shifted out without reduction. */
  lemma ShiftClearByte(a: Word)
    requires a & 0xff == 0
    ensures Shift(a, 8) == a >> 8
  {
    assert a & 0xf == 0 && (a >> 4) & 0xf == 0 && (a >> 4) >> 4 == a >> 8;
    ShiftFour(a);
    ShiftFour(a >> 4);
    ShiftShift(a, 4, 4);
    hide Shift;
  }

  lemma SplitLowByte(a: Word)
    ensures a == Add(a & 0xffff_ff00, Low(LowByte(a)))
    ensures (a & 0xffff_ff00) & 0xff == 0 && (a & 0xffff_ff00) >> 8 == a >> 8
  {
  }

  /** Eight shifts are one table lookup: the rest of the register plus the shifted low byte. */
  lemma TableStep(a: Word)
    ensures Shift(a, 8) == Add(a >> 8, Shift(Low(LowByte(a)), 8))
  {
    SplitLowByte(a);
    ShiftClearByte(a & 0xffff_ff00);
    ShiftLinear(a & 0xffff_ff00, Low(LowByte(a)), 8);
    hide Shift, Add, Low, LowByte;
  }

  /** A byte in the high end of the register: the polynomial of its coefficients below x^8. */
  function High(b: Octet): Word { Low(b) << 24 }

  /** A byte at the high end is the byte at the low end before 24 shifts. */
  lemma HighByte(b: Octet)
    ensures Shift(High(b), 24) == Low(b)
  {
    var a := High(b);
    HighBytes(b);
    hide Low, High;
    ShiftClearByte(a);
    ShiftClearByte(a >> 8);
    ShiftClearByte(a >> 16);
    hide Shift;
    ShiftShift(a, 8, 8);
    ShiftShift(a, 16, 8);
  }

  lemma HighBytes(b: Octet)
    ensures var a := High(b);
      && a & 0xff == 0 && (a >> 8) & 0xff == 0 && (a >> 16) & 0xff == 0
      && (a >> 8) >> 8 == a >> 16 && (a >> 16) >> 8 == Low(b)
  {
  }

  /** CRCs combine: conditioning included, the CRC of a concatenation follows from the CRCs of its parts. */
  lemma CrcCombines(s: seq<Octet>, t: seq<Octet>)
    ensures Crc32Of(0, s + t) == Add(Mul(XPow(8 * |t|), Crc32Of(0, s)), Crc32Of(0, t))
  {
    var ones: Word := 0xffff_ffff;
    var a, b := Crc(ones, s), Crc(ones, t);
    AddZero(ones);
    CrcConcat(ones, s, t);
    AddZero(a);
    AddAssociates(a, ones, ones);
    CrcLinear(Add(a, ones), ones, t);
    MulXPow(Add(a, ones), 8 * |t|);
    MulCommutes(Add(a, ones), XPow(8 * |t|));
    hide Add, Mul, Shift, Crc;
    AddAssociates(Shift(Add(a, ones), 8 * |t|), b, ones);
  }
}
