/** What the register means: the remainder of the message polynomial times x^32. */
module CrcMeaning {
  import opened CrcField
  import opened CrcSpec
  import opened Polynomials
  import PowerTable

  const MASKS: seq<Octet> := [1, 2, 4, 8, 0x10, 0x20, 0x40, 0x80]

  /** The k least significant bits of a byte; the very least has the highest power. */
  function LowBits(b: Octet, k: nat): (p: Poly)
    requires k <= 8
    ensures |p| == k
  {
    if k == 0 then [] else [b & MASKS[k - 1] != 0] + LowBits(b, k - 1)
  }

  function ByteBits(b: Octet): Poly {
    LowBits(b, 8)
  }

  /** The message as a polynomial: the first bit of the first byte has the highest power. */
  function Message(s: seq<Octet>): Poly {
    if s == [] then [] else ByteBits(s[|s| - 1]) + Message(s[..|s| - 1])
  }

  /** p times x^n. */
  function Raised(p: Poly, n: nat): Poly {
    if n == 0 then p else [false] + Raised(p, n - 1)
  }

  lemma {:induction false} ResidueOfRaised(p: Poly, n: nat)
    ensures Residue(Raised(p, n)) == Shift(Residue(p), n)
  {
    hide Residue, TimesX;
    if n > 0 {
      ResidueOfRaised(p, n - 1);
      ResidueOfShift(Raised(p, n - 1));
    }
  }

  lemma {:induction false} ResidueOfJoined(p: Poly, q: Poly)
    ensures Residue(p + q) == Add(Residue(p), Shift(Residue(q), |p|))
  {
    if p == [] {
      assert p + q == q;
      AddZero(Residue(q));
    } else {
      hide Add, TimesX, Pick, Shift;
      var rest := p[1..];
      ResidueOfJoined(rest, q);
      assert p == [p[0]] + rest && p + q == [p[0]] + (rest + q);
      ResidueUnfold(p[0], rest);
      ResidueUnfold(p[0], rest + q);
      TimesXLinear(Residue(rest), Shift(Residue(q), |rest|));
      ShiftOnce(Residue(q), |rest|);
      AddAssociates(Pick(p[0], ONE), TimesX(Residue(rest)), Shift(Residue(q), |p|));
    }
  }

  // One more bit: what is there moves up one power, the new bit is the lowest.

  lemma Bit0(b: Octet)
    ensures Add(Pick(b & 0x1 != 0, ONE), TimesX(0)) == (Low(b) & 0x1) << 31
  {
  }

  lemma Bit1(b: Octet)
    ensures Add(Pick(b & 0x2 != 0, ONE), TimesX((Low(b) & 0x1) << 31)) == (Low(b) & 0x3) << 30
  {
  }

  lemma Bit2(b: Octet)
    ensures Add(Pick(b & 0x4 != 0, ONE), TimesX((Low(b) & 0x3) << 30)) == (Low(b) & 0x7) << 29
  {
  }

  lemma Bit3(b: Octet)
    ensures Add(Pick(b & 0x8 != 0, ONE), TimesX((Low(b) & 0x7) << 29)) == (Low(b) & 0xf) << 28
  {
  }

  lemma Bit4(b: Octet)
    ensures Add(Pick(b & 0x10 != 0, ONE), TimesX((Low(b) & 0xf) << 28)) == (Low(b) & 0x1f) << 27
  {
  }

  lemma Bit5(b: Octet)
    ensures Add(Pick(b & 0x20 != 0, ONE), TimesX((Low(b) & 0x1f) << 27)) == (Low(b) & 0x3f) << 26
  {
  }

  lemma Bit6(b: Octet)
    ensures Add(Pick(b & 0x40 != 0, ONE), TimesX((Low(b) & 0x3f) << 26)) == (Low(b) & 0x7f) << 25
  {
  }

  lemma Bit7(b: Octet)
    ensures Add(Pick(b & 0x80 != 0, ONE), TimesX((Low(b) & 0x7f) << 25)) == (Low(b) & 0xff) << 24
  {
  }

  /** The word of the k least significant bits. */
  function Part(b: Octet, k: nat): Word
    requires k <= 8
  {
    match k
    case 0 => 0
    case 1 => (Low(b) & 0x1) << 31
    case 2 => (Low(b) & 0x3) << 30
    case 3 => (Low(b) & 0x7) << 29
    case 4 => (Low(b) & 0xf) << 28
    case 5 => (Low(b) & 0x1f) << 27
    case 6 => (Low(b) & 0x3f) << 26
    case 7 => (Low(b) & 0x7f) << 25
    case 8 => (Low(b) & 0xff) << 24
  }

  lemma PartStep(b: Octet, k: nat)
    requires k < 8
    ensures Add(Pick(b & MASKS[k] != 0, ONE), TimesX(Part(b, k))) == Part(b, k + 1)
  {
    hide Add, Pick, TimesX, Low;
    match k
    case 0 => Bit0(b);
    case 1 => Bit1(b);
    case 2 => Bit2(b);
    case 3 => Bit3(b);
    case 4 => Bit4(b);
    case 5 => Bit5(b);
    case 6 => Bit6(b);
    case 7 => Bit7(b);
  }

  lemma WholeByte(b: Octet)
    ensures Part(b, 8) == High(b)
  {
  }

  lemma {:induction false} LowBitsAre(b: Octet, k: nat)
    requires k <= 8
    ensures Residue(LowBits(b, k)) == Part(b, k)
  {
    hide Add, Pick, TimesX, Low, Residue;
    if k == 0 {
      SumWithNone([]);
    } else {
      LowBitsAre(b, k - 1);
      ResidueUnfold(b & MASKS[k - 1] != 0, LowBits(b, k - 1));
      PartStep(b, k - 1);
    }
  }

  lemma ByteBitsAre(b: Octet)
    ensures Residue(ByteBits(b)) == High(b)
  {
    LowBitsAre(b, 8);
    WholeByte(b);
  }

  /** Starting from zero, the register is the remainder of the message times x^32. */
  lemma {:induction false} CrcIsRemainder(s: seq<Octet>)
    ensures Crc(0, s) == Residue(Raised(Message(s), 32))
  {
    hide Residue, Shift, Add, Low, High, ByteBits, Raised;
    ResidueOfRaised(Message(s), 32);
    if s == [] {
      SumWithNone([]);
      ZeroShifted(32);
    } else {
      var front, b := s[..|s| - 1], s[|s| - 1];
      CrcIsRemainder(front);
      ResidueOfRaised(Message(front), 32);
      var m := Residue(Message(front));
      EightBits(b);
      ResidueOfJoined(ByteBits(b), Message(front));
      ByteBitsAre(b);
      ShiftLinear(High(b), Shift(m, 8), 32);
      ShiftShift(m, 8, 32);
      ShiftShift(m, 32, 8);
      HighByte(b);
      ShiftShift(High(b), 24, 8);
      ShiftLinear(Shift(m, 32), Low(b), 8);
      AddCommutes(Shift(m, 40), Shift(Low(b), 8));
    }
  }

  lemma EightBits(b: Octet)
    ensures |ByteBits(b)| == 8
  {
  }

  lemma {:induction false} ZeroShifted(n: nat)
    ensures Shift(0, n) == 0
  {
    if n > 0 {
      ZeroShifted(n - 1);
      TimesXZero();
    }
  }

  /** From any start, that start moves along: it is added at the front of the message. */
  lemma CrcFromIsRemainder(c: Word, s: seq<Octet>)
    ensures Crc(c, s) == Add(Shift(c, 8 * |s|), Residue(Raised(Message(s), 32)))
  {
    hide Residue, Shift, Add;
    CrcIsRemainder(s);
    AddZero(c);
    CrcLinear(c, 0, s);
  }

  // ----- the conditioned checksum

  /** The complement of a byte. */
  function NotByte(b: Octet): Octet { !b }

  /** The complement of a word. */
  function Not(a: Word): Word { !a }

  /** The first 32 bits complemented. */
  function Flipped(s: seq<Octet>): seq<Octet>
    requires |s| >= 4
  {
    [NotByte(s[0]), NotByte(s[1]), NotByte(s[2]), NotByte(s[3])] + s[4..]
  }

  /** The CRC-32 of a message of 32 bits or more is the complement of the remainder of the message, its first 32 bits
      complemented, times x^32. */
  lemma Crc32IsRemainder(s: seq<Octet>)
    requires |s| >= 4
    ensures Crc32Of(0, s) == Not(Residue(Raised(Message(Flipped(s)), 32)))
  {
    ConditionedIs(0, s);
    ZeroComplemented();
    hide *;
    FirstFlipped(s);
    CrcIsRemainder(Flipped(s));
  }

  /** Continued from any value, and for any length, the complement of that value goes in front of the message. */
  lemma Crc32FromIsRemainder(crc: Word, s: seq<Octet>)
    ensures Crc32Of(crc, s) == Not(Add(Shift(Not(crc), 8 * |s|), Residue(Raised(Message(s), 32))))
  {
    ConditionedIs(crc, s);
    hide *;
    CrcFromIsRemainder(Not(crc), s);
  }

  lemma ConditionedIs(crc: Word, s: seq<Octet>)
    ensures Crc32Of(crc, s) == Not(Crc(Not(crc), s))
  {
    Complements(crc);
    Complements(Crc(Not(crc), s));
    hide Not, Add, Crc;
  }

  lemma Complements(a: Word)
    ensures Add(a, 0xffff_ffff) == Not(a)
  {
  }

  lemma ZeroComplemented()
    ensures Not(0) == 0xffff_ffff
  {
  }

  /** Ones in the register complement the bytes that meet them. */
  lemma FirstFlipped(s: seq<Octet>)
    requires |s| >= 4
    ensures Crc(0xffff_ffff, s) == Crc(0, Flipped(s))
  {
    hide Crc, Feed, NotByte;
    var t := [NotByte(s[0]), NotByte(s[1]), NotByte(s[2]), NotByte(s[3])];
    FourFlipped(s[0], s[1], s[2], s[3]);
    FourFed(0xffff_ffff, s[0], s[1], s[2], s[3]);
    FourFed(0, t[0], t[1], t[2], t[3]);
    assert s == [s[0], s[1], s[2], s[3]] + s[4..];
    CrcConcat(0xffff_ffff, [s[0], s[1], s[2], s[3]], s[4..]);
    CrcConcat(0, t, s[4..]);
  }

  lemma FourFed(crc: Word, s0: Octet, s1: Octet, s2: Octet, s3: Octet)
    ensures Crc(crc, [s0, s1, s2, s3]) == Feed(Feed(Feed(Feed(crc, s0), s1), s2), s3)
  {
    CrcSnoc(crc, [], s0);
    CrcSnoc(crc, [s0], s1);
    CrcSnoc(crc, [s0, s1], s2);
    CrcSnoc(crc, [s0, s1, s2], s3);
    NothingFed(crc);
    hide *;
    assert [] + [s0] == [s0] && [s0] + [s1] == [s0, s1];
    assert [s0, s1] + [s2] == [s0, s1, s2] && [s0, s1, s2] + [s3] == [s0, s1, s2, s3];
  }

  lemma NothingFed(crc: Word)
    ensures Crc(crc, []) == crc
  {
  }

  lemma FourFlipped(s0: Octet, s1: Octet, s2: Octet, s3: Octet)
    ensures Feed(Feed(Feed(Feed(0xffff_ffff, s0), s1), s2), s3)
         == Feed(Feed(Feed(Feed(0, NotByte(s0)), NotByte(s1)), NotByte(s2)), NotByte(s3))
  {
    OnesLeave();
    hide *;
    var a := Feed(0, NotByte(s0));
    var b := Feed(a, NotByte(s1));
    var c := Feed(b, NotByte(s2));
    FlipStep(0xffff_ffff, 0, s0);
    FlipStep(0xff_ffff, a, s1);
    FlipStep(0xffff, b, s2);
    FlipStep(0xff, c, s3);
    AddZero(0xffff_ffff);
    AddZero(Feed(c, NotByte(s3)));
  }

  lemma OnesLeave()
    ensures (0xffff_ffff as Word) & 0xff == 0xff && (0xff_ffff as Word) & 0xff == 0xff
    ensures (0xffff as Word) & 0xff == 0xff && (0xff as Word) & 0xff == 0xff
    ensures (0xffff_ffff as Word) >> 8 == 0xff_ffff && (0xff_ffff as Word) >> 8 == 0xffff
    ensures (0xffff as Word) >> 8 == 0xff && (0xff as Word) >> 8 == 0
  {
  }

  /** Eight ones at the low end meet a byte: they complement it, and the rest moves down. */
  lemma FlipStep(m: Word, d: Word, b: Octet)
    requires m & 0xff == 0xff
    ensures Feed(Add(m, d), b) == Add(m >> 8, Feed(d, NotByte(b)))
  {
    MeetOnes(m, d, b);
    var rest := m & 0xffff_ff00;
    hide Shift, Add, Low, NotByte;
    ShiftLinear(rest, Add(d, Low(NotByte(b))), 8);
    ShiftClearByte(rest);
  }

  lemma MeetOnes(m: Word, d: Word, b: Octet)
    requires m & 0xff == 0xff
    ensures var rest := m & 0xffff_ff00;
      Add(Add(m, d), Low(b)) == Add(rest, Add(d, Low(NotByte(b)))) && rest & 0xff == 0 && rest >> 8 == m >> 8
  {
  }

  // ----- the check value

  lemma FeedIs(crc: Word, b: Octet)
    ensures Feed(crc, b) == PowerTable.X4(PowerTable.X4(crc ^ Low(b)))
  {
    AddIs(crc, Low(b));
    hide Add, TimesX, PowerTable.X1, Low;
    Four(crc ^ Low(b));
    Four(PowerTable.X4(crc ^ Low(b)));
    ShiftShift(crc ^ Low(b), 4, 4);
  }

  lemma Four(a: Word)
    ensures Shift(a, 4) == PowerTable.X4(a)
  {
    hide TimesX, PowerTable.X1;
    PowerTable.X1Is(a);
    PowerTable.X1Is(PowerTable.X1(a));
    PowerTable.X1Is(PowerTable.X1(PowerTable.X1(a)));
    PowerTable.X1Is(PowerTable.X1(PowerTable.X1(PowerTable.X1(a))));
    assert Shift(a, 0) == a && Shift(a, 1) == TimesX(a) && Shift(a, 2) == TimesX(TimesX(a));
  }

  lemma CheckFirst()
    ensures Feed(0xffff_ffff, 0x31) == 0x7c23_1048 && Feed(0x7c23_1048, 0x32) == 0xb0ac_bb32
    ensures Feed(0xb0ac_bb32, 0x33) == 0x77b7_9c2d
  {
    FeedIs(0xffff_ffff, 0x31);
    FeedIs(0x7c23_1048, 0x32);
    FeedIs(0xb0ac_bb32, 0x33);
    hide Feed;
  }

  lemma CheckSecond()
    ensures Feed(0x77b7_9c2d, 0x34) == 0x641c_1f5c && Feed(0x641c_1f5c, 0x35) == 0x340a_c5e3
    ensures Feed(0x340a_c5e3, 0x36) == 0xf68d_2c9e
  {
    FeedIs(0x77b7_9c2d, 0x34);
    FeedIs(0x641c_1f5c, 0x35);
    FeedIs(0x340a_c5e3, 0x36);
    hide Feed;
  }

  lemma CheckThird()
    ensures Feed(0xf68d_2c9e, 0x37) == 0xaffc_9660 && Feed(0xaffc_9660, 0x38) == 0x651f_2550
    ensures Feed(0x651f_2550, 0x39) == 0x340b_c6d9
  {
    FeedIs(0xf68d_2c9e, 0x37);
    FeedIs(0xaffc_9660, 0x38);
    FeedIs(0x651f_2550, 0x39);
    hide Feed;
  }

  /** The CRC-32 of the nine digits "123456789". */
  lemma CheckValue()
    ensures Crc32Of(0, [0x31, 0x32, 0x33, 0x34] + [0x35, 0x36, 0x37, 0x38] + [0x39]) == 0xcbf4_3926
  {
    CheckFirst();
    CheckSecond();
    CheckThird();
    CheckEnds();
    ConditionedIs(0, [0x31, 0x32, 0x33, 0x34] + [0x35, 0x36, 0x37, 0x38] + [0x39]);
    hide *;
    CrcSnoc(0xffff_ffff, [0x31, 0x32, 0x33, 0x34] + [0x35, 0x36, 0x37, 0x38], 0x39);
    CrcConcat(0xffff_ffff, [0x31, 0x32, 0x33, 0x34], [0x35, 0x36, 0x37, 0x38]);
    FourFed(0xffff_ffff, 0x31, 0x32, 0x33, 0x34);
    FourFed(0x641c_1f5c, 0x35, 0x36, 0x37, 0x38);
  }

  lemma CheckEnds()
    ensures Not(0) == 0xffff_ffff && Not(0x340b_c6d9) == 0xcbf4_3926
  {
  }
}
