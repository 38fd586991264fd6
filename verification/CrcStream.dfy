/** The pieces of crc32_z: bytes one at a time, and words in braids on a little-endian machine. */
module CrcStream {
  import opened Bitwise
  import opened CrcField
  import opened CrcSpec
  import opened CrcWords
  import opened Braiding
  import opened PowerTable
  import opened Crc32

  class CrcTables {
    const n: nat                        // number of braids
    const w: Width                      // bytes in a word
    const crcTable: array<Word>
    const x2nTable: array<Word>
    const braidTable: array2<Word>

    ghost predicate Valid()
      reads crcTable, x2nTable, braidTable
    {
      && n > 0
      && BytesOk(crcTable[..]) && PowersOk(x2nTable[..])
      && BraidOk(braidTable)
    }

    /** Entry b of table k is the byte b, at byte k of a word, seen from the next word of the same braid. */
    ghost predicate BraidOk(t: array2<Word>)
      reads t
    {
      && n > 0 && t.Length0 == w && t.Length1 == 256
      && forall k, b: Octet :: 0 <= k < w ==> t[k, Index(b)] == Entry(k, b)
    }

    ghost function Entry(k: nat, b: Octet): Word
      requires n > 0 && k < w
    {
      Shift(Low(b), Reach(w, n, k))
    }

    /** make_crc_table */
    constructor (n: nat, w: Width)
      requires n > 0
      ensures Valid() && this.n == n && this.w == w
    {
      this.n, this.w := n, w;
      var powers := MakePowers();
      x2nTable := powers;
      var bytes := MakeBytes();
      crcTable := bytes;
      braidTable := new Word[w, 256];
      new;
      hide BytesOk, PowersOk, Entry;
      Braid();
    }

    /** braid: fill the tables for n braids of words of w bytes. */
    method Braid()
      requires n > 0 && PowersOk(x2nTable[..]) && braidTable.Length0 == w && braidTable.Length1 == 256
      modifies braidTable
      ensures BraidOk(braidTable)
    {
      hide PowersOk, Entry, Index;
      var k: nat := 0;
      while k < w
        invariant k <= w
        invariant forall k', b: Octet :: 0 <= k' < k ==> braidTable[k', Index(b)] == Entry(k', b)
      {
        var p := X2NModP(x2nTable[..], (Size(w, n) + 3 - k) * 8, 0);
        FillRow(k, p);
        k := k + 1;
      }
    }

    method FillRow(k: nat, p: Word)
      requires n > 0 && k < w && braidTable.Length0 == w && braidTable.Length1 == 256
      requires p == XPow((Size(w, n) + 3 - k) * 8 * Pow2(0))
      modifies braidTable
      ensures forall b: Octet :: braidTable[k, Index(b)] == Entry(k, b)
      ensures forall k', i :: 0 <= k' < w && k' != k && 0 <= i < 256 ==> braidTable[k', i] == old(braidTable[k', i])
    {
      hide XPow, Entry, Mul, Index, Count, High;
      RowEntry(k, p, 0);
      NoByte(p);
      braidTable[k, Index(0)] := 0;
      var i: bv16 := 1;
      OnlyZero();
      while i < 256
        invariant 1 <= i <= 256
        invariant forall c: Octet :: Count(c) < i ==> braidTable[k, Index(c)] == Entry(k, c)
        invariant forall k', i' :: 0 <= k' < w && k' != k && 0 <= i' < 256 ==>
          braidTable[k', i'] == old(braidTable[k', i'])
        decreases 256 - i
      {
        var b := i as Octet;
        CountUp(i);
        RowEntry(k, p, b);
        HighNonzero(b);
        var q := MultModP(High(b), p);
        braidTable[k, Index(b)] := q;
        forall c: Octet | Index(c) == Index(b)
          ensures c == b
        {
          IndexInjective(b, c);
        }
        i := i + 1;
      }
      forall c: Octet
        ensures Count(c) < 256
      {
        AllCounted(c);
      }
    }

    static lemma OnlyZero()
      ensures forall c: Octet :: Count(c) < 1 ==> c == 0
    {
    }

    lemma RowEntry(k: nat, p: Word, b: Octet)
      requires n > 0 && k < w
      requires p == XPow((Size(w, n) + 3 - k) * 8 * Pow2(0))
      ensures Mul(High(b), p) == Entry(k, b)
    {
      hide XPow, Mul, Low, High, Shift;
      BraidEntry(b, w, n, k);
      assert (Size(w, n) + 3 - k) * 8 * Pow2(0) == 8 * (Size(w, n) + 3 - k);
    }

    static lemma NoByte(p: Word)
      ensures Mul(High(0 as Octet), p) == 0
    {
      assert High(0) == 0;
      MulCommutes(0, p);
      MulZero(p, ONE);
      hide High, MulFrom;
    }

    static lemma HighNonzero(b: Octet)
      requires b != 0
      ensures High(b) != 0
    {
    }

    /** One byte through the table. */
    method FeedByte(crc: Word, b: Octet) returns (r: Word)
      requires Valid()
      ensures r == Feed(crc, b)
    {
      hide Shift, BraidOk, PowersOk, Index;
      var a := Add(crc, Low(b));
      TableStep(a);
      LowShiftedOut(crc, b);
      hide Add, Low, LowByte;
      r := Add(crc >> 8, crcTable[Index(LowByte(a))]);
    }

    /** Feeding the bytes from one index to the next. */
    static lemma FedTo(crc0: Word, buf: seq<Octet>, start: nat, from: nat, to: nat)
      requires start <= from <= to <= |buf|
      ensures Crc(crc0, buf[start..to]) == Crc(Crc(crc0, buf[start..from]), buf[from..to])
    {
      hide Crc;
      CrcConcat(crc0, buf[start..from], buf[from..to]);
      assert buf[start..from] + buf[from..to] == buf[start..to];
    }

    static lemma FedByte(crc0: Word, buf: seq<Octet>, start: nat, from: nat)
      requires start <= from < |buf|
      ensures Crc(crc0, buf[start..from + 1]) == Feed(Crc(crc0, buf[start..from]), buf[from])
    {
      hide Crc, Feed;
      CrcSnoc(crc0, buf[start..from], buf[from]);
      assert buf[start..from] + [buf[from]] == buf[start..from + 1];
    }

    /** The closing loops: bytes one at a time, eight to a round while they last. */
    method FeedBytes(crc0: Word, buf: seq<Octet>, start: nat) returns (crc: Word)
      requires Valid() && start <= |buf|
      ensures crc == Crc(crc0, buf[start..])
    {
      hide Feed, Crc, BytesOk, PowersOk, BraidOk;
      crc := crc0;
      CrcNone(crc0);
      assert buf[start..start] == [];
      var pos: nat, len: nat := start, |buf| - start;
      while len >= 8
        invariant start <= pos && pos + len == |buf| && crc == Crc(crc0, buf[start..pos])
      {
        len := len - 8;
        FedTo(crc0, buf, start, pos, pos + 8);
        crc := FeedEight(crc, buf, pos);
        pos := pos + 8;
      }
      while len != 0
        invariant start <= pos && pos + len == |buf| && crc == Crc(crc0, buf[start..pos])
      {
        len := len - 1;
        FedByte(crc0, buf, start, pos);
        crc := FeedByte(crc, buf[pos]);
        pos := pos + 1;
      }
      assert buf[start..pos] == buf[start..];
    }

    method FeedEight(crc0: Word, buf: seq<Octet>, pos: nat) returns (crc: Word)
      requires Valid() && pos + 8 <= |buf|
      ensures crc == Crc(crc0, buf[pos..pos + 8])
    {
      hide Feed;
      crc := crc0;
      CrcNone(crc);
      var i := 0;
      while i < 8
        invariant i <= 8 && crc == Crc(crc0, buf[pos..pos + i])
      {
        FedByte(crc0, buf, pos, pos + i);
        crc := FeedByte(crc, buf[pos + i]);
        i := i + 1;
      }
    }

    /** crc_word */
    method CrcWord(data0: Wide) returns (crc: Word)
      requires Valid() && Fits(data0, w)
      ensures crc == Crc(0, Bytes(data0, w))
    {
      hide BraidOk, PowersOk, Index, Shift, WordSteps, Bytes, Crc, Low, First, Next, Mix, Widen, Narrow;
      var data := data0;
      WordStepsOnce(data0, 0);
      var k: nat := 0;
      while k < w
        invariant k <= w && data == WordSteps(data0, k)
      {
        WordStepsOnce(data0, k);
        data := Mix(Next(data), Widen(crcTable[Index(First(data))]));
        k := k + 1;
      }
      WordStepsAreCrc(data0, 0, w);
      MixNothing(data0);
      crc := Narrow(data);
    }

    /** Word j of the block at pos. */
    function WordAt(buf: seq<Octet>, pos: nat, j: nat): Wide
      requires pos + Size(w, j + 1) <= |buf|
    {
      Load(buf[pos + Size(w, j)..pos + Size(w, j + 1)])
    }

    lemma WordFits(buf: seq<Octet>, pos: nat, j: nat)
      requires pos + Size(w, j + 1) <= |buf|
      ensures Fits(WordAt(buf, pos, j), w)
    {
      LoadFits(buf[pos + Size(w, j)..pos + Size(w, j + 1)]);
    }

    /** Words j of a block for all braids. */
    ghost function BlockWords(buf: seq<Octet>, pos: nat, j: nat): (ws: seq<Wide>)
      requires pos + Size(w, j) <= |buf|
      ensures |ws| == j
    {
      if j == 0 then [] else BlockWords(buf, pos, j - 1) + [WordAt(buf, pos, j - 1)]
    }

    lemma {:induction false} BlockBytesAre(buf: seq<Octet>, pos: nat, j: nat)
      requires pos + Size(w, j) <= |buf|
      ensures BlockBytes(BlockWords(buf, pos, j), w) == buf[pos..pos + Size(w, j)]
    {
      hide Load, Bytes, BlockWords, BlockBytes;
      if j == 0 {
        NoBlocks(buf, pos);
      } else {
        BlockBytesAre(buf, pos, j - 1);
        BlockWordsOnce(buf, pos, j);
        BlockBytesSnoc(BlockWords(buf, pos, j - 1), WordAt(buf, pos, j - 1), w);
        LoadedBytes(buf[pos + Size(w, j - 1)..pos + Size(w, j)]);
        JoinSlices(buf, pos, pos + Size(w, j - 1), pos + Size(w, j));
      }
    }

    lemma NoBlocks(buf: seq<Octet>, pos: nat)
      requires pos <= |buf|
      ensures BlockBytes(BlockWords(buf, pos, 0), w) == buf[pos..pos]
    {
    }

    static lemma JoinSlices(buf: seq<Octet>, a: nat, b: nat, c: nat)
      requires a <= b <= c <= |buf|
      ensures buf[a..b] + buf[b..c] == buf[a..c]
    {
    }

    lemma BlockWordsOnce(buf: seq<Octet>, pos: nat, j: nat)
      requires j > 0 && pos + Size(w, j) <= |buf|
      ensures BlockWords(buf, pos, j) == BlockWords(buf, pos, j - 1) + [WordAt(buf, pos, j - 1)]
    {
      hide Load;
    }

    /** The sum of the table entries for the bytes of a word. */
    method LookUp(word: Wide) returns (crc: Word)
      requires Valid()
      ensures crc == EntrySum(word, w, n, w)
    {
      hide BytesOk, PowersOk, Index, Shift, Low, ByteAt, Add;
      EntrySumOnce(word, w, n, 0);
      AddZero(braidTable[0, Index(ByteAt(word, 0))]);
      crc := braidTable[0, Index(ByteAt(word, 0))];
      var k: nat := 1;
      while k < w
        invariant 1 <= k <= w && crc == EntrySum(word, w, n, k)
      {
        EntrySumOnce(word, w, n, k);
        crc := Add(crc, braidTable[k, Index(ByteAt(word, k))]);
        k := k + 1;
      }
    }

    /** One block but the last: every register passes its own word and skips the others. */
    method PassBlock(cs: array<Word>, buf: seq<Octet>, pos: nat, ghost crc: Word)
      requires Valid() && cs.Length == n && pos + Size(w, n) <= |buf|
      requires cs != crcTable && cs != x2nTable
      requires Braided(crc, cs[..], w)
      modifies cs
      ensures Braided(Crc(crc, buf[pos..pos + Size(w, n)]), cs[..], w)
    {
      hide BytesOk, PowersOk, BraidOk, Shift, Crc, Bytes, Load, Mix, Widen, Outstanding, Combined, BlockBytes;
      ghost var old_ := cs[..];
      ghost var ws := BlockWords(buf, pos, n);
      ghost var ds := Passed(old_, ws, w);
      PassWords(cs, buf, pos);
      SkippedIs(ds, 8 * Size(w, n - 1), cs[..]);
      BlockKeepsBraid(crc, old_, ws, w);
      BlockBytesAre(buf, pos, n);
    }

    static lemma SkippedIs(ds: seq<Word>, e: nat, cs: seq<Word>)
      requires |cs| == |ds| && forall i :: 0 <= i < |ds| ==> cs[i] == Shift(ds[i], e)
      ensures cs == Skipped(ds, e)
    {
      forall i | 0 <= i < |ds|
        ensures cs[i] == Skipped(ds, e)[i]
      {
        SkippedAt(ds, e, i);
      }
    }

    method PassWords(cs: array<Word>, buf: seq<Octet>, pos: nat)
      requires Valid() && cs.Length == n && pos + Size(w, n) <= |buf|
      requires cs != crcTable && cs != x2nTable
      modifies cs
      ensures forall i :: 0 <= i < n ==>
        cs[i] == Shift(Passed(old(cs[..]), BlockWords(buf, pos, n), w)[i], 8 * Size(w, n - 1))
    {
      hide BytesOk, PowersOk, BraidOk, Shift, Crc, Bytes, Load, Mix, Widen, Passed, BlockWords;
      ghost var old_ := cs[..];
      ghost var ws := BlockWords(buf, pos, n);
      ghost var ds := Passed(old_, ws, w);
      var j: nat := 0;
      while j < n
        invariant j <= n && Valid()
        invariant forall i :: 0 <= i < j ==> cs[i] == Shift(ds[i], 8 * Size(w, n - 1))
        invariant forall i :: j <= i < n ==> cs[i] == old_[i]
      {
        SizeGrows(w, j + 1, n);
        var d := WordAt(buf, pos, j);
        WordFits(buf, pos, j);
        BlockWordsAt(buf, pos, n, j);
        PassedAt(old_, ws, w, j);
        BraidSum(d, cs[j], w, n);
        cs[j] := LookUp(Mix(d, Widen(cs[j])));
        j := j + 1;
      }
    }

    lemma {:induction false} BlockWordsAt(buf: seq<Octet>, pos: nat, m: nat, j: nat)
      requires j < m && pos + Size(w, m) <= |buf|
      ensures BlockWords(buf, pos, m)[j] == WordAt(buf, pos, j)
    {
      if j < m - 1 {
        BlockWordsAt(buf, pos, m - 1, j);
      }
    }

    static lemma {:induction false} PassedAt(cs: seq<Word>, ws: seq<Wide>, w: Width, j: nat)
      requires |cs| == |ws| && j < |cs|
      ensures Passed(cs, ws, w)[j] == Crc(cs[j], Bytes(ws[j], w))
    {
      if j < |cs| - 1 {
        PassedAt(cs[..|cs| - 1], ws[..|ws| - 1], w, j);
      }
    }

    /** The last block: the registers are combined from braid to braid. */
    method LastBlock(cs: seq<Word>, buf: seq<Octet>, pos: nat, ghost crc: Word) returns (comb: Word)
      requires Valid() && |cs| == n && pos + Size(w, n) <= |buf|
      requires Braided(crc, cs, w)
      ensures comb == Crc(crc, buf[pos..pos + Size(w, n)])
    {
      hide BytesOk, PowersOk, BraidOk, Shift, Crc, Bytes, WordAt, Mix, Widen, Outstanding, BlockBytes, Add, Size;
      SizeOnce(w, 0);
      comb := 0;
      var j: nat := 0;
      while j < n
        invariant j <= n && pos + Size(w, j) <= |buf|
        invariant comb == Combined(Passed(cs[..j], BlockWords(buf, pos, j), w), 8 * w)
      {
        SizeGrows(w, j + 1, n);
        Handed(cs, buf, pos, j, comb);
        comb := NextComb(cs[j], comb, buf, pos, j);
        j := j + 1;
      }
      assert cs[..n] == cs;
      BlockKeepsBraid(crc, cs, BlockWords(buf, pos, n), w);
      BlockBytesAre(buf, pos, n);
    }

    /** The combined register mixed into word j, and passed over it. */
    method NextComb(c: Word, comb0: Word, buf: seq<Octet>, pos: nat, j: nat) returns (comb: Word)
      requires Valid() && pos + Size(w, j + 1) <= |buf|
      ensures comb == Crc(Add(c, comb0), Bytes(WordAt(buf, pos, j), w))
    {
      hide BytesOk, PowersOk, BraidOk, Shift, Crc, Bytes, Load, Mix, Widen, Add, Fits;
      WordFits(buf, pos, j);
      var d := WordAt(buf, pos, j);
      MixFits(d, Add(c, comb0), w);
      MixedWord(d, Add(c, comb0), w);
      comb := CrcWord(Mix(d, Widen(Add(c, comb0))));
    }

    /** Handing the combined register to braid j leaves the register of j + 1 braids combined. */
    lemma Handed(cs: seq<Word>, buf: seq<Octet>, pos: nat, j: nat, comb: Word)
      requires j < |cs| && pos + Size(w, j + 1) <= |buf|
      requires comb == Combined(Passed(cs[..j], BlockWords(buf, pos, j), w), 8 * w)
      ensures Crc(Add(cs[j], comb), Bytes(WordAt(buf, pos, j), w))
        == Combined(Passed(cs[..j + 1], BlockWords(buf, pos, j + 1), w), 8 * w)
    {
      hide Crc, Bytes, Add, WordAt, Combined;
      var d, ws := WordAt(buf, pos, j), BlockWords(buf, pos, j);
      assert cs[..j + 1][..j] == cs[..j] && BlockWords(buf, pos, j + 1)[..j] == ws;
      HandOver(Passed(cs[..j], ws, w), cs[j], comb, Bytes(d, w));
    }

    /** The braided calculation over blks whole blocks. */
    method BraidedBlocks(crc0: Word, buf: seq<Octet>, start: nat, blks0: nat) returns (crc: Word)
      requires Valid() && blks0 > 0 && start + blks0 * (Size(w, n)) <= |buf|
      ensures crc == Crc(crc0, buf[start..start + blks0 * (Size(w, n))])
    {
      hide BytesOk, PowersOk, BraidOk, Crc, Braided;
      var cs := new Word[n](_ => 0);
      cs[0] := crc0;
      FirstBraid(crc0, n, w);
      assert cs[..] == [crc0] + seq(n - 1, _ => 0 as Word);
      var pos, blks: nat := start, blks0 - 1;
      CrcNone(crc0);
      assert buf[start..start] == [];
      while blks != 0
        invariant Valid() && cs.Length == n && pos >= start
        invariant pos + (blks + 1) * (Size(w, n)) == start + blks0 * (Size(w, n))
        invariant Braided(Crc(crc0, buf[start..pos]), cs[..], w)
      {
        NextBlock(buf, start, pos, blks, crc0);
        PassBlock(cs, buf, pos, Crc(crc0, buf[start..pos]));
        pos := pos + Size(w, n);
        blks := blks - 1;
      }
      NextBlock(buf, start, pos, blks, crc0);
      crc := LastBlock(cs[..], buf, pos, Crc(crc0, buf[start..pos]));
    }

    lemma NextBlock(buf: seq<Octet>, start: nat, pos: nat, blks: nat, crc0: Word)
      requires start <= pos && pos + (blks + 1) * (Size(w, n)) <= |buf|
      ensures pos + (blks + 1) * (Size(w, n)) == pos + Size(w, n) + blks * (Size(w, n)) && blks * (Size(w, n)) >= 0
      ensures Crc(crc0, buf[start..pos + Size(w, n)]) == Crc(Crc(crc0, buf[start..pos]), buf[pos..pos + Size(w, n)])
    {
      hide Crc;
      var size := Size(w, n);
      Distribute(blks, size);
      CrcConcat(crc0, buf[start..pos], buf[pos..pos + size]);
      assert buf[start..pos] + buf[pos..pos + size] == buf[start..pos + size];
    }

    static lemma Distribute(b: nat, size: nat)
      ensures (b + 1) * size == size + b * size && b * size >= 0
    {
    }

    predicate Unaligned(address: nat) {
      address % w != 0
    }

    /** Bytes up to a word boundary. */
    method Align(crc0: Word, buf: seq<Octet>, address: nat) returns (crc: Word, pos: nat)
      requires Valid() && |buf| >= w - 1
      ensures pos <= w - 1 && pos <= |buf| && crc == Crc(crc0, buf[..pos])
      ensures !Unaligned(address + pos)
    {
      hide BytesOk, PowersOk, BraidOk, Crc;
      crc := crc0;
      CrcNone(crc);
      pos := 0;
      AlignedSoon(address);
      while pos < |buf| && Unaligned(address + pos)
        invariant pos <= |buf| && crc == Crc(crc0, buf[..pos])
        invariant forall q :: address <= q < address + pos ==> Unaligned(q)
      {
        FedByte(crc0, buf, 0, pos);
        crc := FeedByte(crc, buf[pos]);
        pos := pos + 1;
      }
    }

    /** A word boundary is at most seven bytes away. */
    lemma AlignedSoon(address: nat)
      ensures exists q :: address <= q <= address + w - 1 && !Unaligned(q)
    {
      var q := address + (w - address % w) % w;
      assert !Unaligned(q);
    }

    static lemma BlocksFit(len: nat, size: nat)
      requires len >= size > 0
      ensures len / size > 0 && len / size * size <= len
    {
    }
  }
}
