/** Four or eight bytes at a time: the words of the braided CRC. */
module CrcWords {
  import opened CrcField
  import opened CrcSpec

  /** How many bytes a word has. */
  type Width = w: nat | w == 4 || w == 8 witness 8

  /** w * j */
  function Size(w: Width, j: nat): nat {
    if w == 4 then 4 * j else 8 * j
  }

  lemma SizeOnce(w: Width, j: nat)
    ensures Size(w, 0) == 0 && Size(w, 1) == w && Size(w, j + 1) == Size(w, j) + w
  {
  }

  lemma SizeGrows(w: Width, i: nat, j: nat)
    requires i <= j
    ensures Size(w, i) <= Size(w, j)
  {
  }

  /** A word; one of four bytes has nothing in its upper half. */
  type Wide = bv64

  predicate Fits(d: Wide, w: Width) {
    w == 4 ==> d >> 32 == 0
  }

  function Widen(a: Word): Wide { a as Wide }

  function Narrow(d: Wide): Word { (d & 0xffff_ffff) as Word }

  /** Exclusive-or of wide words. */
  function Mix(a: Wide, b: Wide): Wide { a ^ b }

  /** Drop the lowest byte. */
  function Next(d: Wide): Wide { d >> 8 }

  /** The lowest byte. */
  function First(d: Wide): Octet { (d & 0xff) as Octet }

  /** d >> (8 * k) */
  function Drop(d: Wide, k: nat): Wide {
    if k == 0 then d else Next(Drop(d, k - 1))
  }

  /** Byte k of a word, the least significant first: (d >> (k << 3)) & 0xff. */
  function ByteAt(d: Wide, k: nat): Octet {
    First(Drop(d, k))
  }

  /** The first k bytes of a word in memory order. */
  function Bytes(d: Wide, k: nat): (s: seq<Octet>)
    ensures |s| == k
  {
    if k == 0 then [] else Bytes(d, k - 1) + [ByteAt(d, k - 1)]
  }

  function Pack(b0: Octet, b1: Octet, b2: Octet, b3: Octet, b4: Octet, b5: Octet, b6: Octet, b7: Octet): Wide {
    (((b0 as Wide) | ((b1 as Wide) << 8)) | (((b2 as Wide) << 16) | ((b3 as Wide) << 24))) |
    ((((b4 as Wide) << 32) | ((b5 as Wide) << 40)) | (((b6 as Wide) << 48) | ((b7 as Wide) << 56)))
  }

  /** A little-endian load. */
  function Load(s: seq<Octet>): Wide
    requires |s| == 4 || |s| == 8
  {
    if |s| == 4 then Pack(s[0], s[1], s[2], s[3], 0, 0, 0, 0)
    else Pack(s[0], s[1], s[2], s[3], s[4], s[5], s[6], s[7])
  }

  lemma PackFits(b0: Octet, b1: Octet, b2: Octet, b3: Octet)
    ensures Pack(b0, b1, b2, b3, 0, 0, 0, 0) >> 32 == 0
  {
  }

  lemma LoadFits(s: seq<Octet>)
    requires |s| == 4 || |s| == 8
    ensures Fits(Load(s), |s|)
  {
    if |s| == 4 {
      PackFits(s[0], s[1], s[2], s[3]);
    }
  }

  lemma MixFits(d: Wide, c: Word, w: Width)
    requires Fits(d, w)
    ensures Fits(Mix(d, Widen(c)), w)
  {
    MixUpper(d, c);
  }

  lemma MixUpper(d: Wide, c: Word)
    ensures Mix(d, Widen(c)) >> 32 == d >> 32
  {
  }

  lemma PackLow(b0: Octet, b1: Octet, b2: Octet, b3: Octet, b4: Octet, b5: Octet, b6: Octet, b7: Octet)
    ensures var d := Pack(b0, b1, b2, b3, b4, b5, b6, b7);
      First(d) == b0 && First(d >> 8) == b1 && First(d >> 16) == b2 && First(d >> 24) == b3
  {
  }

  lemma PackHigh(b0: Octet, b1: Octet, b2: Octet, b3: Octet, b4: Octet, b5: Octet, b6: Octet, b7: Octet)
    ensures var d := Pack(b0, b1, b2, b3, b4, b5, b6, b7);
      First(d >> 32) == b4 && First(d >> 40) == b5 && First(d >> 48) == b6 && First(d >> 56) == b7
  {
  }

  lemma DropOnce(d: Wide, k: nat)
    ensures Drop(d, 0) == d && Drop(d, k + 1) == Next(Drop(d, k))
  {
  }

  lemma NextShifts(d: Wide)
    ensures Next(d) == d >> 8 && Next(d >> 8) == d >> 16 && Next(d >> 16) == d >> 24 && Next(d >> 24) == d >> 32
    ensures Next(d >> 32) == d >> 40 && Next(d >> 40) == d >> 48 && Next(d >> 48) == d >> 56 && Next(d >> 56) == 0
  {
  }

  lemma Drops(d: Wide)
    ensures Drop(d, 0) == d
    ensures Drop(d, 1) == d >> 8 && Drop(d, 2) == d >> 16 && Drop(d, 3) == d >> 24 && Drop(d, 4) == d >> 32
    ensures Drop(d, 5) == d >> 40 && Drop(d, 6) == d >> 48 && Drop(d, 7) == d >> 56 && Drop(d, 8) == 0
  {
    NextShifts(d);
    hide Next, Drop;
    DropOnce(d, 0);
    DropOnce(d, 1);
    DropOnce(d, 2);
    DropOnce(d, 3);
    DropOnce(d, 4);
    DropOnce(d, 5);
    DropOnce(d, 6);
    DropOnce(d, 7);
  }

  lemma BytesOnce(d: Wide, k: nat)
    ensures Bytes(d, 0) == [] && Bytes(d, k + 1) == Bytes(d, k) + [ByteAt(d, k)]
  {
  }

  lemma FourBytes(d: Wide)
    ensures Bytes(d, 4) == [ByteAt(d, 0), ByteAt(d, 1), ByteAt(d, 2), ByteAt(d, 3)]
  {
    hide Bytes, ByteAt;
    BytesOnce(d, 0);
    BytesOnce(d, 1);
    BytesOnce(d, 2);
    BytesOnce(d, 3);
  }

  lemma AllBytes(d: Wide)
    ensures Bytes(d, 8) == [ByteAt(d, 0), ByteAt(d, 1), ByteAt(d, 2), ByteAt(d, 3),
                            ByteAt(d, 4), ByteAt(d, 5), ByteAt(d, 6), ByteAt(d, 7)]
  {
    hide Bytes, ByteAt;
    FourBytes(d);
    BytesOnce(d, 4);
    BytesOnce(d, 5);
    BytesOnce(d, 6);
    BytesOnce(d, 7);
  }

  lemma PackedLow(b0: Octet, b1: Octet, b2: Octet, b3: Octet, b4: Octet, b5: Octet, b6: Octet, b7: Octet)
    ensures var d := Pack(b0, b1, b2, b3, b4, b5, b6, b7);
      ByteAt(d, 0) == b0 && ByteAt(d, 1) == b1 && ByteAt(d, 2) == b2 && ByteAt(d, 3) == b3
  {
    hide Pack, First, Drop;
    PackLow(b0, b1, b2, b3, b4, b5, b6, b7);
    Drops(Pack(b0, b1, b2, b3, b4, b5, b6, b7));
  }

  lemma PackedHigh(b0: Octet, b1: Octet, b2: Octet, b3: Octet, b4: Octet, b5: Octet, b6: Octet, b7: Octet)
    ensures var d := Pack(b0, b1, b2, b3, b4, b5, b6, b7);
      ByteAt(d, 4) == b4 && ByteAt(d, 5) == b5 && ByteAt(d, 6) == b6 && ByteAt(d, 7) == b7
  {
    hide Pack, First, Drop;
    PackHigh(b0, b1, b2, b3, b4, b5, b6, b7);
    Drops(Pack(b0, b1, b2, b3, b4, b5, b6, b7));
  }

  /** The bytes of a loaded word are the bytes it was loaded from. */
  lemma LoadedBytes(s: seq<Octet>)
    requires |s| == 4 || |s| == 8
    ensures Bytes(Load(s), |s|) == s
  {
    hide Pack, ByteAt, Bytes;
    if |s| == 4 {
      PackedLow(s[0], s[1], s[2], s[3], 0, 0, 0, 0);
      FourBytes(Load(s));
    } else {
      PackedLow(s[0], s[1], s[2], s[3], s[4], s[5], s[6], s[7]);
      PackedHigh(s[0], s[1], s[2], s[3], s[4], s[5], s[6], s[7]);
      AllBytes(Load(s));
    }
  }

  // ----- the register widened to a word

  /** One round of crc_word: data >> 8 with a table entry added. */
  function WordStep(d: Wide): Wide {
    Mix(Next(d), Widen(Shift(Low(First(d)), 8)))
  }

  function WordSteps(d: Wide, k: nat): Wide {
    if k == 0 then d else WordStep(WordSteps(d, k - 1))
  }

  lemma MixLaws(a: Wide, b: Wide, c: Word, d: Word)
    ensures Next(Mix(a, Widen(c))) == Mix(Next(a), Widen(c >> 8))
    ensures First(Mix(a, Widen(c))) == LowByte(Add(c, Low(First(a))))
    ensures Mix(Widen(c), Widen(d)) == Widen(Add(c, d))
    ensures Narrow(Widen(c)) == c && Mix(0, Widen(c)) == Widen(c)
  {
  }

  lemma MixAssociates(a: Wide, b: Wide, c: Wide)
    ensures Mix(Mix(a, b), c) == Mix(a, Mix(b, c))
  {
    hide Mix;
    MixIs(a, b);
    MixIs(b, c);
    MixIs(Mix(a, b), c);
    MixIs(a, Mix(b, c));
    XorAssociates(a, b, c);
  }

  lemma MixIs(a: Wide, b: Wide)
    ensures Mix(a, b) == a ^ b
  {
  }

  lemma XorAssociates(a: Wide, b: Wide, c: Wide)
    ensures (a ^ b) ^ c == a ^ (b ^ c)
  {
  }

  lemma LowShiftedOut(c: Word, b: Octet)
    ensures Add(c, Low(b)) >> 8 == c >> 8
  {
  }

  /** A register mixed into the word ahead takes its bytes in. */
  lemma StepFeeds(w: Wide, c: Word)
    ensures WordStep(Mix(w, Widen(c))) == Mix(Next(w), Widen(Feed(c, First(w))))
  {
    var a := Add(c, Low(First(w)));
    MixLaws(w, 0, c, 0);
    TableStep(a);
    LowShiftedOut(c, First(w));
    var t := Shift(Low(LowByte(a)), 8);
    hide Next, First, Mix, Widen, Shift, Add, Low, LowByte;
    MixLaws(w, 0, c >> 8, t);
    MixAssociates(Next(w), Widen(c >> 8), Widen(t));
  }

  lemma WordStepsOnce(d: Wide, k: nat)
    ensures WordSteps(d, 0) == d && WordSteps(d, k + 1) == WordStep(WordSteps(d, k))
  {
    hide WordStep;
  }

  lemma ByteAtIs(d: Wide, k: nat)
    ensures ByteAt(d, k) == First(Drop(d, k))
  {
    hide First, Drop;
  }

  lemma CrcNone(c: Word)
    ensures Crc(c, []) == c
  {
  }

  lemma {:induction false} StepsFeed(w: Wide, c: Word, k: nat)
    ensures WordSteps(Mix(w, Widen(c)), k) == Mix(Drop(w, k), Widen(Crc(c, Bytes(w, k))))
  {
    hide *;
    if k == 0 {
      WordStepsOnce(Mix(w, Widen(c)), 0);
      DropOnce(w, 0);
      BytesOnce(w, 0);
      CrcNone(c);
    } else {
      StepsFeed(w, c, k - 1);
      WordStepsOnce(Mix(w, Widen(c)), k - 1);
      DropOnce(w, k - 1);
      BytesOnce(w, k - 1);
      ByteAtIs(w, k - 1);
      StepFeeds(Drop(w, k - 1), Crc(c, Bytes(w, k - 1)));
      CrcSnoc(c, Bytes(w, k - 1), ByteAt(w, k - 1));
    }
  }

  /** After all bytes of a word nothing is left of it. */
  lemma AllDropped(d: Wide, w: Width)
    requires Fits(d, w)
    ensures Drop(d, w) == 0
  {
    Drops(d);
    hide Drop;
  }

  lemma WordStepsAreCrc(d: Wide, c: Word, w: Width)
    requires Fits(d, w)
    ensures WordSteps(Mix(d, Widen(c)), w) == Widen(Crc(c, Bytes(d, w)))
    ensures Narrow(WordSteps(Mix(d, Widen(c)), w)) == Crc(c, Bytes(d, w))
  {
    hide WordSteps, Drop, Bytes, Crc, Fits;
    StepsFeed(d, c, w);
    AllDropped(d, w);
    MixLaws(0, 0, Crc(c, Bytes(d, w)), 0);
    hide Narrow, Mix, Widen;
  }

  /** Mixing the register into a word is the same as starting from it. */
  lemma MixedWord(d: Wide, c: Word, w: Width)
    requires Fits(d, w)
    ensures Crc(0, Bytes(Mix(d, Widen(c)), w)) == Crc(c, Bytes(d, w))
  {
    hide *;
    WordStepsAreCrc(d, c, w);
    MixFits(d, c, w);
    WordStepsAreCrc(Mix(d, Widen(c)), 0, w);
    MixNothing(Mix(d, Widen(c)));
  }

  lemma MixNothing(d: Wide)
    ensures Mix(d, Widen(0)) == d
  {
  }
}
