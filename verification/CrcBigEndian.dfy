/** The big-endian half of crc32_z: the same calculation with every word byte-swapped. */
module CrcBigEndian {
  import opened CrcField
  import opened CrcSpec
  import opened CrcWords
  import opened Braiding
  import opened PowerTable
  import opened Crc32
  import opened CrcStream

  /** byte_swap */
  function Swap(d: Wide, w: Width): Wide {
    if w == 4 then Swap4(d) else Swap8(d)
  }

  function Swap4(d: Wide): Wide {
    (((d & 0xff00_0000) >> 24) | ((d & 0xff_0000) >> 8)) | (((d & 0xff00) << 8) | ((d & 0xff) << 24))
  }

  function Swap8(d: Wide): Wide {
    (((d & 0xff00_0000_0000_0000) >> 56) | ((d & 0xff_0000_0000_0000) >> 40)) |
    (((d & 0xff00_0000_0000) >> 24) | ((d & 0xff_0000_0000) >> 8)) |
    ((((d & 0xff00_0000) << 8) | ((d & 0xff_0000) << 24)) |
     (((d & 0xff00) << 40) | ((d & 0xff) << 56)))
  }

  lemma SwapTwice4(d: Wide)
    requires d >> 32 == 0
    ensures Swap4(Swap4(d)) == d
  {
  }

  lemma SwapTwice8(d: Wide)
    ensures Swap8(Swap8(d)) == d
  {
  }

  lemma SwapTwice(d: Wide, w: Width)
    requires Fits(d, w)
    ensures Swap(Swap(d, w), w) == d
  {
    hide Swap4, Swap8;
    if w == 4 {
      SwapTwice4(d);
    } else {
      SwapTwice8(d);
    }
  }

  lemma SwapMixed4(a: Wide, b: Wide)
    ensures Swap4(Mix(a, b)) == Mix(Swap4(a), Swap4(b))
  {
  }

  lemma SwapMixed8(a: Wide, b: Wide)
    ensures Swap8(Mix(a, b)) == Mix(Swap8(a), Swap8(b))
  {
  }

  lemma SwapMixed(a: Wide, b: Wide, w: Width)
    ensures Swap(Mix(a, b), w) == Mix(Swap(a, w), Swap(b, w))
  {
    hide Swap4, Swap8, Mix;
    SwapMixed4(a, b);
    SwapMixed8(a, b);
  }

  /** One byte up; the highest is lost. */
  function Up(d: Wide, w: Width): Wide {
    if w == 4 then Up4(d) else Up8(d)
  }

  function Up4(d: Wide): Wide { (d << 8) & 0xffff_ffff }

  function Up8(d: Wide): Wide { d << 8 }

  /** The highest byte. */
  function Top(d: Wide, w: Width): Octet {
    if w == 4 then Top4(d) else Top8(d)
  }

  function Top4(d: Wide): Octet { First(d >> 24) }

  function Top8(d: Wide): Octet { First(d >> 56) }

  lemma SwapNext4(d: Wide)
    requires Fits(d, 4)
    ensures Swap4(Next(d)) == Up4(Swap4(d)) && Top4(Swap4(d)) == First(d)
  {
  }

  lemma SwapNext8(d: Wide)
    ensures Swap8(Next(d)) == Up8(Swap8(d)) && Top8(Swap8(d)) == First(d)
  {
  }

  lemma SwapNext(d: Wide, w: Width)
    requires Fits(d, w)
    ensures Swap(Next(d), w) == Up(Swap(d, w), w) && Top(Swap(d, w), w) == First(d)
  {
    hide Swap4, Swap8, Next, First, Up4, Up8, Top4, Top8, Fits;
    if w == 4 {
      SwapNext4(d);
    } else {
      SwapNext8(d);
    }
  }

  lemma SwappedFour(d: Wide)
    ensures First(Swap4(d)) == First(d >> 24) && First(Swap4(d) >> 8) == First(d >> 16)
    ensures First(Swap4(d) >> 16) == First(d >> 8) && First(Swap4(d) >> 24) == First(d)
  {
  }

  lemma SwappedLow(d: Wide)
    ensures First(Swap8(d)) == First(d >> 56) && First(Swap8(d) >> 8) == First(d >> 48)
    ensures First(Swap8(d) >> 16) == First(d >> 40) && First(Swap8(d) >> 24) == First(d >> 32)
  {
  }

  lemma SwappedHigh(d: Wide)
    ensures First(Swap8(d) >> 32) == First(d >> 24) && First(Swap8(d) >> 40) == First(d >> 16)
    ensures First(Swap8(d) >> 48) == First(d >> 8) && First(Swap8(d) >> 56) == First(d)
  {
  }

  /** Swapping reverses the bytes of a word. */
  lemma SwapReverses(d: Wide, w: Width, k: nat)
    requires k < w
    ensures ByteAt(Swap(d, w), k) == ByteAt(d, w - 1 - k)
  {
    hide Swap4, Swap8, ByteAt;
    if w == 4 {
      SwapReverses4(d, k);
    } else {
      SwapReverses8(d, k);
    }
  }

  lemma SwapReverses4(d: Wide, k: nat)
    requires k < 4
    ensures ByteAt(Swap4(d), k) == ByteAt(d, 3 - k)
  {
    SwappedFour(d);
    Drops(d);
    Drops(Swap4(d));
    hide Swap4, First, Drop;
  }

  lemma SwapReverses8(d: Wide, k: nat)
    requires k < 8
    ensures ByteAt(Swap8(d), k) == ByteAt(d, 7 - k)
  {
    SwappedLow(d);
    SwappedHigh(d);
    Drops(d);
    Drops(Swap8(d));
    hide Swap8, First, Drop;
  }

  /** A big-endian load. */
  function LoadBig(s: seq<Octet>): Wide
    requires |s| == 4 || |s| == 8
  {
    if |s| == 4 then Pack(s[3], s[2], s[1], s[0], 0, 0, 0, 0)
    else Pack(s[7], s[6], s[5], s[4], s[3], s[2], s[1], s[0])
  }

  lemma SwapPacked4(b0: Octet, b1: Octet, b2: Octet, b3: Octet)
    ensures Swap4(Pack(b0, b1, b2, b3, 0, 0, 0, 0)) == Pack(b3, b2, b1, b0, 0, 0, 0, 0)
  {
  }

  lemma SwapPacked8(b0: Octet, b1: Octet, b2: Octet, b3: Octet, b4: Octet, b5: Octet, b6: Octet, b7: Octet)
    ensures Swap8(Pack(b0, b1, b2, b3, b4, b5, b6, b7)) == Pack(b7, b6, b5, b4, b3, b2, b1, b0)
  {
  }

  lemma LoadsSwapped(s: seq<Octet>)
    requires |s| == 4 || |s| == 8
    ensures LoadBig(s) == Swap(Load(s), |s|)
  {
    hide Swap4, Swap8, Pack;
    if |s| == 4 {
      SwapPacked4(s[0], s[1], s[2], s[3]);
    } else {
      SwapPacked8(s[0], s[1], s[2], s[3], s[4], s[5], s[6], s[7]);
    }
  }

  /** A register as the big-endian code keeps it. */
  function Reversed(c: Word, w: Width): Wide {
    Swap(Widen(c), w)
  }

  lemma ReversedAdds(c: Word, d: Word, w: Width)
    ensures Mix(Reversed(c, w), Reversed(d, w)) == Reversed(Add(c, d), w)
  {
    SwapMixed(Widen(c), Widen(d), w);
    MixLaws(0, 0, c, d);
    hide Swap, Mix, Widen, Add;
  }

  /** One round of crc_word_big is one round of crc_word. */
  lemma StepReversed(v: Wide, w: Width)
    requires Fits(v, w)
    ensures Mix(Up(Swap(v, w), w), Reversed(Shift(Low(First(v)), 8), w)) == Swap(WordStep(v), w)
  {
    SwapNext(v, w);
    SwapMixed(Next(v), Widen(Shift(Low(First(v)), 8)), w);
    hide Swap, Mix, Up, Next, First, Top, Widen, Low, Shift;
  }

  lemma NextFits(v: Wide, w: Width)
    requires Fits(v, w)
    ensures Fits(Next(v), w)
  {
  }

  lemma StepFits(v: Wide, w: Width)
    requires Fits(v, w)
    ensures Fits(WordStep(v), w)
  {
    hide Fits, Next, Mix, Widen, Shift, Low, First;
    NextFits(v, w);
    MixFits(Next(v), Shift(Low(First(v)), 8), w);
  }

  lemma WidenFits(c: Word, w: Width)
    ensures Fits(Widen(c), w)
  {
  }

  // ----- the sum of the table entries, in the other order

  /** The last k entries of EntrySum, the last one first. */
  function DownSum(d: Wide, w: Width, n: nat, k: nat): Word
    requires n > 0 && k <= w
  {
    if k == 0 then 0 else Add(DownSum(d, w, n, k - 1), Shift(Low(ByteAt(d, w - k)), Reach(w, n, w - k)))
  }

  lemma DownSumOnce(d: Wide, w: Width, n: nat, k: nat)
    requires n > 0 && k < w
    ensures DownSum(d, w, n, 0) == 0
    ensures DownSum(d, w, n, k + 1) == Add(DownSum(d, w, n, k), Shift(Low(ByteAt(d, w - 1 - k)), Reach(w, n, w - 1 - k)))
  {
    hide ByteAt, Shift, Low, Add, Reach;
  }

  /** Upper and lower entries together are all of them. */
  lemma {:induction false} SumsMeet(d: Wide, w: Width, n: nat, k: nat)
    requires n > 0 && k <= w
    ensures Add(DownSum(d, w, n, k), EntrySum(d, w, n, w - k)) == EntrySum(d, w, n, w)
  {
    hide *;
    if k == 0 {
      DownSumOnce(d, w, n, 0);
      AddZero(EntrySum(d, w, n, w));
    } else {
      SumsMeet(d, w, n, k - 1);
      DownSumOnce(d, w, n, k - 1);
      EntrySumOnce(d, w, n, w - k);
      var e := Shift(Low(ByteAt(d, w - k)), Reach(w, n, w - k));
      var low, up := EntrySum(d, w, n, w - k), DownSum(d, w, n, k - 1);
      AddCommutes(low, e);
      AddAssociates(up, e, low);
    }
  }

  lemma DownSumIsAll(d: Wide, w: Width, n: nat)
    requires n > 0
    ensures DownSum(d, w, n, w) == EntrySum(d, w, n, w)
  {
    hide DownSum, Add, Shift, Low, ByteAt;
    SumsMeet(d, w, n, w);
    EntrySumOnce(d, w, n, 0);
    AddZero(DownSum(d, w, n, w));
  }

  /** Registers as the big-endian code keeps them. */
  ghost predicate AllReversed(bs: seq<Wide>, cs: seq<Word>, w: Width) {
    |bs| == |cs| && forall j :: 0 <= j < |bs| ==> bs[j] == Reversed(cs[j], w)
  }

  class EndianTables {
    const little: CrcTables
    const bigTable: array<Wide>             // crc_big_table
    const braidBigTable: array2<Wide>       // crc_braid_big_table

    ghost predicate BigOk()
      reads bigTable, little.crcTable
    {
      && bigTable.Length == 256 && little.crcTable.Length == 256
      && forall b: Octet :: bigTable[Index(b)] == Reversed(little.crcTable[Index(b)], little.w)
    }

    ghost predicate BraidBigOk()
      reads braidBigTable, little.braidTable
    {
      && braidBigTable.Length0 == little.w && braidBigTable.Length1 == 256
      && little.braidTable.Length0 == little.w && little.braidTable.Length1 == 256
      && forall k, b: Octet :: 0 <= k < little.w ==> braidBigTable[k, Index(b)] == Reversed(little.braidTable[little.w - 1 - k, Index(b)], little.w)
    }

    ghost predicate Valid()
      reads little.crcTable, little.x2nTable, little.braidTable, bigTable, braidBigTable
    {
      little.Valid() && BigOk() && BraidBigOk()
    }

    /** The byte-swapped halves of make_crc_table and braid. */
    constructor (n: nat, w: Width)
      requires n > 0
      ensures Valid() && little.n == n && little.w == w
    {
      little := new CrcTables(n, w);
      bigTable := new Wide[256];
      braidBigTable := new Wide[w, 256];
      new;
      hide Reversed, BytesOk, PowersOk, Index, BigOk, BraidBigOk;
      LittleLengths();
      FillBytes();
      FillBraid();
    }

    method FillBytes()
      requires bigTable.Length == 256 && little.crcTable.Length == 256
      modifies bigTable
      ensures BigOk()
    {
      hide Reversed, Index;
      forall i | 0 <= i < 256 {
        bigTable[i] := Reversed(little.crcTable[i], little.w);
      }
    }

    method FillBraid()
      requires braidBigTable.Length0 == little.w && braidBigTable.Length1 == 256
      requires little.braidTable.Length0 == little.w && little.braidTable.Length1 == 256
      modifies braidBigTable
      ensures BraidBigOk()
    {
      hide Reversed, Index;
      var w := little.w;
      forall k, i | 0 <= k < w && 0 <= i < 256 {
        braidBigTable[k, i] := Reversed(little.braidTable[w - 1 - k, i], w);
      }
    }

    lemma LittleLengths()
      requires little.Valid()
      ensures little.crcTable.Length == 256 && little.braidTable.Length0 == little.w && little.braidTable.Length1 == 256
    {
    }

    /** crc_word_big: the register after the bytes of a word, reversed. */
    method CrcWordBig(data0: Wide, ghost v: Wide) returns (data: Wide)
      requires Valid() && data0 == Swap(v, little.w) && Fits(v, little.w)
      ensures data == Reversed(Crc(0, Bytes(v, little.w)), little.w)
    {
      hide BraidBigOk, Index, Shift, WordSteps, Bytes, Crc, Low, First, Next, Mix, Widen, Swap, Up, Top, Reversed, Fits;
      var w := little.w;
      data := data0;
      WordStepsOnce(v, 0);
      var k: nat := 0;
      while k < w
        invariant k <= w && data == Swap(WordSteps(v, k), w) && Fits(WordSteps(v, k), w)
      {
        WordStepsOnce(v, k);
        SwapNext(WordSteps(v, k), w);
        StepReversed(WordSteps(v, k), w);
        StepFits(WordSteps(v, k), w);
        TableEntry(Top(data, w));
        data := Mix(Up(data, w), bigTable[Index(Top(data, w))]);
        k := k + 1;
      }
      StepsEnd(v, w);
    }

    lemma TableEntry(b: Octet)
      requires Valid()
      ensures Index(b) < bigTable.Length && bigTable[Index(b)] == Reversed(Shift(Low(b), 8), little.w)
    {
      hide BraidBigOk, PowersOk, Index, Shift, Low, Reversed;
    }

    /** After a whole word nothing is left of it in the upper half. */
    static lemma StepsEnd(v: Wide, w: Width)
      requires Fits(v, w)
      ensures Swap(WordSteps(v, w), w) == Reversed(Crc(0, Bytes(v, w)), w)
    {
      hide Swap, Bytes, Crc, WordSteps, Widen, Mix, Fits;
      WordStepsAreCrc(v, 0, w);
      MixNothing(v);
    }

    /** The sum of the table entries for the bytes of a word. */
    method LookUpBig(word: Wide, ghost v: Wide) returns (crc: Wide)
      requires Valid() && word == Swap(v, little.w)
      ensures crc == Reversed(EntrySum(v, little.w, little.n, little.w), little.w)
    {
      hide BigOk, BytesOk, PowersOk, Index, Shift, Low, ByteAt, Add, Mix, Swap, Reversed, Reach;
      var w, n := little.w, little.n;
      BraidEntryBig(word, v, 0);
      DownSumOnce(v, w, n, 0);
      AddZero(Shift(Low(ByteAt(v, w - 1)), Reach(w, n, w - 1)));
      crc := braidBigTable[0, Index(ByteAt(word, 0))];
      var k: nat := 1;
      while k < w
        invariant 1 <= k <= w && crc == Reversed(DownSum(v, w, n, k), w)
      {
        BraidEntryBig(word, v, k);
        DownSumOnce(v, w, n, k);
        ReversedAdds(DownSum(v, w, n, k), Shift(Low(ByteAt(v, w - 1 - k)), Reach(w, n, w - 1 - k)), w);
        crc := Mix(crc, braidBigTable[k, Index(ByteAt(word, k))]);
        k := k + 1;
      }
      DownSumIsAll(v, w, n);
    }

    lemma BraidEntryBig(word: Wide, v: Wide, k: nat)
      requires Valid() && word == Swap(v, little.w) && k < little.w
      ensures little.n > 0 && braidBigTable.Length0 == little.w && braidBigTable.Length1 == 256
      ensures var at := little.w - 1 - k;
        braidBigTable[k, Index(ByteAt(word, k))]
        == Reversed(Shift(Low(ByteAt(v, at)), Reach(little.w, little.n, at)), little.w)
    {
      hide BigOk, BytesOk, PowersOk, Index, Shift, Low, ByteAt, Swap, Reversed, Reach;
      SwapReverses(v, little.w, k);
    }

    /** Word j of the block at pos, as a big-endian machine loads it. */
    function WordBig(buf: seq<Octet>, pos: nat, j: nat): Wide
      requires pos + Size(little.w, j + 1) <= |buf|
    {
      LoadBig(buf[pos + Size(little.w, j)..pos + Size(little.w, j + 1)])
    }

    /** The word with the register mixed in. */
    lemma WordIs(buf: seq<Octet>, pos: nat, j: nat, c: Word)
      requires pos + Size(little.w, j + 1) <= |buf|
      ensures Mix(Reversed(c, little.w), WordBig(buf, pos, j)) == Swap(Mix(little.WordAt(buf, pos, j), Widen(c)), little.w)
    {
      LoadsSwapped(buf[pos + Size(little.w, j)..pos + Size(little.w, j + 1)]);
      var d := little.WordAt(buf, pos, j);
      SwapMixed(d, Widen(c), little.w);
      hide Swap, Widen, Load, LoadBig;
      MixSwaps(Reversed(c, little.w), Swap(d, little.w));
    }

    static lemma MixSwaps(a: Wide, b: Wide)
      ensures Mix(a, b) == Mix(b, a)
    {
    }

    /** One block but the last: every register passes its own word and skips the others. */
    method PassBlockBig(bs: array<Wide>, buf: seq<Octet>, pos: nat, ghost crc: Word, ghost cs: seq<Word>)
      returns (ghost next: seq<Word>)
      requires Valid() && bs.Length == little.n && pos + Size(little.w, little.n) <= |buf| && bs != bigTable
      requires AllReversed(bs[..], cs, little.w) && Braided(crc, cs, little.w)
      modifies bs
      ensures AllReversed(bs[..], next, little.w) && Braided(Crc(crc, buf[pos..pos + Size(little.w, little.n)]), next, little.w)
    {
      hide BytesOk, PowersOk, BigOk, BraidBigOk, Shift, Crc, Bytes, Load, Mix, Widen, Outstanding, Combined, BlockBytes, Reversed,
           Braided, Passed, Skipped, Size;
      ghost var n := little.n;
      ghost var ws := little.BlockWords(buf, pos, n);
      ghost var ds := Passed(cs, ws, little.w);
      next := seq(n, j requires 0 <= j < n => Shift(ds[j], 8 * Size(little.w, n - 1)));
      PassWordsBig(bs, buf, pos, cs);
      CrcTables.SkippedIs(ds, 8 * Size(little.w, n - 1), next);
      BlockKeepsBraid(crc, cs, ws, little.w);
      little.BlockBytesAre(buf, pos, n);
    }

    method PassWordsBig(bs: array<Wide>, buf: seq<Octet>, pos: nat, ghost cs: seq<Word>)
      requires Valid() && bs.Length == little.n && pos + Size(little.w, little.n) <= |buf| && bs != bigTable
      requires AllReversed(bs[..], cs, little.w)
      modifies bs
      ensures forall j :: 0 <= j < little.n ==>
        bs[j] == Reversed(Shift(Passed(cs, little.BlockWords(buf, pos, little.n), little.w)[j], 8 * Size(little.w, little.n - 1)), little.w)
    {
      hide BytesOk, PowersOk, BigOk, BraidBigOk, Shift, Crc, Bytes, Load, Mix, Widen, Passed, Reversed, Swap, LoadBig;
      ghost var n := little.n;
      ghost var ws := little.BlockWords(buf, pos, n);
      ghost var ds := Passed(cs, ws, little.w);
      assert forall i :: 0 <= i < n ==> bs[..][i] == Reversed(cs[i], little.w);
      var j: nat := 0;
      while j < little.n
        invariant j <= n && Valid()
        invariant forall i :: 0 <= i < j ==> bs[i] == Reversed(Shift(ds[i], 8 * Size(little.w, n - 1)), little.w)
        invariant forall i :: j <= i < n ==> bs[i] == Reversed(cs[i], little.w)
      {
        SizeGrows(little.w, j + 1, n);
        ghost var d := little.WordAt(buf, pos, j);
        little.WordFits(buf, pos, j);
        little.BlockWordsAt(buf, pos, n, j);
        CrcTables.PassedAt(cs, ws, little.w, j);
        BraidSum(d, cs[j], little.w, n);
        WordIs(buf, pos, j, cs[j]);
        bs[j] := LookUpBig(Mix(bs[j], WordBig(buf, pos, j)), Mix(d, Widen(cs[j])));
        j := j + 1;
      }
    }

    /** The last block: the registers are combined from braid to braid. */
    method LastBlockBig(bs: seq<Wide>, buf: seq<Octet>, pos: nat, ghost crc: Word, ghost cs: seq<Word>)
      returns (comb: Wide)
      requires Valid() && |bs| == little.n && pos + Size(little.w, little.n) <= |buf|
      requires AllReversed(bs, cs, little.w) && Braided(crc, cs, little.w)
      ensures comb == Reversed(Crc(crc, buf[pos..pos + Size(little.w, little.n)]), little.w)
    {
      hide BytesOk, PowersOk, BigOk, BraidBigOk, Shift, Crc, Bytes, Load, Mix, Widen, Outstanding, BlockBytes, Add,
           Reversed, Swap, LoadBig, Size, Combined, Passed, Braided;
      ghost var n := little.n;
      SizeOnce(little.w, 0);
      NothingReversed(little.w);
      NothingPassed(cs[..0], little.BlockWords(buf, pos, 0));
      comb := 0;
      var j: nat := 0;
      while j < little.n
        invariant j <= n && pos + Size(little.w, j) <= |buf|
        invariant comb == Reversed(Combined(Passed(cs[..j], little.BlockWords(buf, pos, j), little.w), 8 * little.w), little.w)
      {
        SizeGrows(little.w, j + 1, n);
        ghost var before := Combined(Passed(cs[..j], little.BlockWords(buf, pos, j), little.w), 8 * little.w);
        comb := NextComb(bs[j], comb, buf, pos, j, cs[j], before);
        little.Handed(cs, buf, pos, j, before);
        j := j + 1;
      }
      assert cs[..n] == cs;
      BlockKeepsBraid(crc, cs, little.BlockWords(buf, pos, n), little.w);
      little.BlockBytesAre(buf, pos, n);
    }

    lemma NothingPassed(cs: seq<Word>, ws: seq<Wide>)
      requires cs == [] && ws == []
      ensures Combined(Passed(cs, ws, little.w), 8 * little.w) == 0
    {
    }

    static lemma NothingReversed(w: Width)
      ensures Reversed(0, w) == 0
    {
    }

    /** The combined register mixed into word j, and passed over it. */
    method NextComb(b: Wide, comb0: Wide, buf: seq<Octet>, pos: nat, j: nat, ghost c: Word, ghost before: Word)
      returns (comb: Wide)
      requires Valid() && pos + Size(little.w, j + 1) <= |buf| && b == Reversed(c, little.w) && comb0 == Reversed(before, little.w)
      ensures comb == Reversed(Crc(Add(c, before), Bytes(little.WordAt(buf, pos, j), little.w)), little.w)
    {
      hide BytesOk, PowersOk, BigOk, BraidBigOk, Crc, Bytes, Load, Mix, Widen, Add, Reversed, Swap, LoadBig;
      ghost var d := little.WordAt(buf, pos, j);
      ReversedAdds(c, before, little.w);
      MixAround(b, WordBig(buf, pos, j), comb0);
      WordIs(buf, pos, j, Add(c, before));
      little.WordFits(buf, pos, j);
      MixFits(d, Add(c, before), little.w);
      MixedWord(d, Add(c, before), little.w);
      comb := CrcWordBig(Mix(Mix(b, WordBig(buf, pos, j)), comb0), Mix(d, Widen(Add(c, before))));
    }

    static lemma MixAround(a: Wide, b: Wide, c: Wide)
      ensures Mix(Mix(a, b), c) == Mix(Mix(a, c), b)
    {
      hide Mix;
      MixAssociates(a, b, c);
      MixAssociates(a, c, b);
      MixSwaps(b, c);
    }

    /** The braided calculation of the big-endian branch. */
    method BraidedBlocksBig(crc0: Word, buf: seq<Octet>, start: nat, blks0: nat) returns (crc: Word)
      requires Valid() && blks0 > 0 && start + blks0 * (Size(little.w, little.n)) <= |buf|
      ensures crc == Crc(crc0, buf[start..start + blks0 * (Size(little.w, little.n))])
    {
      hide BytesOk, PowersOk, BigOk, BraidBigOk, Crc, Braided, Reversed, Swap, Widen, Narrow;
      var n := little.n;
      NothingReversed(little.w);
      var bs := new Wide[n](_ => 0);
      bs[0] := Reversed(crc0, little.w);
      FirstBraid(crc0, n, little.w);
      ghost var cs := [crc0] + seq(n - 1, _ => 0);
      assert AllReversed(bs[..], cs, little.w);
      var pos, blks: nat := start, blks0 - 1;
      CrcNone(crc0);
      assert buf[start..start] == [];
      while blks != 0
        invariant Valid() && bs.Length == n && pos >= start && |cs| == n
        invariant pos + (blks + 1) * (Size(little.w, n)) == start + blks0 * (Size(little.w, n))
        invariant Braided(Crc(crc0, buf[start..pos]), cs, little.w) && AllReversed(bs[..], cs, little.w)
      {
        little.NextBlock(buf, start, pos, blks, crc0);
        cs := PassBlockBig(bs, buf, pos, Crc(crc0, buf[start..pos]), cs);
        pos := pos + Size(little.w, n);
        blks := blks - 1;
      }
      little.NextBlock(buf, start, pos, blks, crc0);
      var comb := LastBlockBig(bs[..], buf, pos, Crc(crc0, buf[start..pos]), cs);
      SwappedBack(Crc(crc0, buf[start..pos + Size(little.w, n)]), little.w);
      crc := Narrow(Swap(comb, little.w));
    }

    static lemma SwappedBack(c: Word, w: Width)
      ensures Narrow(Swap(Reversed(c, w), w)) == c
    {
      WidenFits(c, w);
      SwapTwice(Widen(c), w);
      MixLaws(0, 0, c, 0);
      hide Swap, Widen, Narrow;
    }

    /** crc32_z for a buffer at any address, on a machine of either byte order. */
    method Crc32Z(crc0: Word, buf: seq<Octet>, address: nat, littleEndian: bool) returns (crc: Word)
      requires Valid()
      ensures crc == Crc32Of(crc0, buf)
    {
      hide BytesOk, PowersOk, BigOk, BraidBigOk, Crc, Add;
      var n := little.n;
      crc := Add(crc0, 0xffff_ffff);
      ghost var first := crc;
      CrcNone(first);
      var pos: nat := 0;
      if |buf| >= Size(little.w, n) + little.w - 1 {
        crc, pos := little.Align(crc, buf, address);
        var size := Size(little.w, n);
        var blks := (|buf| - pos) / size;
        CrcTables.BlocksFit(|buf| - pos, size);
        CrcConcat(first, buf[..pos], buf[pos..pos + blks * size]);
        assert buf[..pos] + buf[pos..pos + blks * size] == buf[..pos + blks * size];
        if littleEndian {
          crc := little.BraidedBlocks(crc, buf, pos, blks);
        } else {
          crc := BraidedBlocksBig(crc, buf, pos, blks);
        }
        pos := pos + blks * size;
      }
      CrcConcat(first, buf[..pos], buf[pos..]);
      assert buf[..pos] + buf[pos..] == buf;
      crc := little.FeedBytes(crc, buf, pos);
      crc := Add(crc, 0xffff_ffff);
    }
  }
}
