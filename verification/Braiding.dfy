/** Why N interleaved registers, each skipping the words of the others, add up to one. */
module Braiding {
  import opened CrcField
  import opened CrcSpec
  import opened CrcWords

  /** What the registers of the braids stand for at the start of a block: register j still has to pass
      the words of braids j and later.  `bits` shifts pass a word. */
  function Outstanding(cs: seq<Word>, bits: nat): Word {
    if cs == [] then 0 else Shift(Add(Outstanding(cs[..|cs| - 1], bits), cs[|cs| - 1]), bits)
  }

  /** The register at the end of a block, when register j has just passed word j. */
  function Combined(ds: seq<Word>, bits: nat): Word {
    if ds == [] then 0 else Add(Shift(Combined(ds[..|ds| - 1], bits), bits), ds[|ds| - 1])
  }

  lemma OutstandingSnoc(cs: seq<Word>, c: Word, bits: nat)
    ensures Outstanding(cs + [c], bits) == Shift(Add(Outstanding(cs, bits), c), bits)
  {
    assert (cs + [c])[..|cs|] == cs;
  }

  lemma CombinedSnoc(ds: seq<Word>, d: Word, bits: nat)
    ensures Combined(ds + [d], bits) == Add(Shift(Combined(ds, bits), bits), d)
  {
    assert (ds + [d])[..|ds|] == ds;
  }

  /** The words of a block in memory order. */
  function BlockBytes(ws: seq<Wide>, w: Width): (s: seq<Octet>)
    ensures |s| == Size(w, |ws|)
  {
    if ws == [] then [] else BlockBytes(ws[..|ws| - 1], w) + Bytes(ws[|ws| - 1], w)
  }

  lemma BlockBytesSnoc(ws: seq<Wide>, d: Wide, w: Width)
    ensures BlockBytes(ws + [d], w) == BlockBytes(ws, w) + Bytes(d, w)
  {
    hide Bytes;
    assert (ws + [d])[..|ws|] == ws;
  }

  /** Each register after its own word. */
  function Passed(cs: seq<Word>, ws: seq<Wide>, w: Width): (ds: seq<Word>)
    requires |cs| == |ws|
    ensures |ds| == |cs|
  {
    if cs == [] then []
    else Passed(cs[..|cs| - 1], ws[..|ws| - 1], w) + [Crc(cs[|cs| - 1], Bytes(ws[|ws| - 1], w))]
  }

  /** A block's bytes added to what was outstanding make the combined register. */
  lemma {:induction false} BlockCombines(cs: seq<Word>, ws: seq<Wide>, w: Width)
    requires |cs| == |ws|
    ensures Add(Outstanding(cs, 8 * w), Crc(0, BlockBytes(ws, w))) == Combined(Passed(cs, ws, w), 8 * w)
  {
    if cs == [] {
      AddZero(0);
    } else {
      var cs', c, ws', d := cs[..|cs| - 1], cs[|cs| - 1], ws[..|ws| - 1], ws[|ws| - 1];
      BlockCombines(cs', ws', w);
      CombinedSnoc(Passed(cs', ws', w), Crc(c, Bytes(d, w)), 8 * w);
      CrcConcat(0, BlockBytes(ws', w), Bytes(d, w));
      LinkWord(Outstanding(cs', 8 * w), Crc(0, BlockBytes(ws', w)), c, Bytes(d, w));
    }
  }

  /** Passing one more word, register and earlier words at once. */
  lemma LinkWord(o: Word, r: Word, c: Word, s: seq<Octet>)
    ensures Add(Shift(Add(o, c), 8 * |s|), Crc(r, s)) == Add(Shift(Add(o, r), 8 * |s|), Crc(c, s))
  {
    hide *;
    var z, bits := Crc(0, s), 8 * |s|;
    CrcFromZero(r, s);
    CrcFromZero(c, s);
    ShiftLinear(o, c, bits);
    ShiftLinear(o, r, bits);
    var so, sc, sr := Shift(o, bits), Shift(c, bits), Shift(r, bits);
    AddSwap(so, sc, sr, z);
  }

  /** Each register shifted past the other braids' words. */
  function Skipped(ds: seq<Word>, e: nat): (cs: seq<Word>)
    ensures |cs| == |ds|
  {
    if ds == [] then [] else Skipped(ds[..|ds| - 1], e) + [Shift(ds[|ds| - 1], e)]
  }

  lemma {:induction false} SkippedAt(ds: seq<Word>, e: nat, j: nat)
    requires j < |ds|
    ensures Skipped(ds, e)[j] == Shift(ds[j], e)
  {
    if j < |ds| - 1 {
      SkippedAt(ds[..|ds| - 1], e, j);
    }
  }

  lemma {:induction false} SkippedOutstanding(ds: seq<Word>, e: nat, bits: nat)
    ensures Outstanding(Skipped(ds, e), bits) == Shift(Combined(ds, bits), e + bits)
  {
    if ds == [] {
      ShiftZero(e + bits);
    } else {
      var ds', d := ds[..|ds| - 1], ds[|ds| - 1];
      SkippedOutstanding(ds', e, bits);
      OutstandingSnoc(Skipped(ds', e), Shift(d, e), bits);
      hide *;
      CombinedLast(ds, bits);
      SkippedLast(ds, e);
      ShiftShift(Combined(ds', bits), bits, e);
      ShiftLinear(Shift(Combined(ds', bits), bits), d, e);
      ShiftShift(Combined(ds, bits), e, bits);
    }
  }

  lemma CombinedLast(ds: seq<Word>, bits: nat)
    requires ds != []
    ensures Combined(ds, bits) == Add(Shift(Combined(ds[..|ds| - 1], bits), bits), ds[|ds| - 1])
  {
  }

  lemma SkippedLast(ds: seq<Word>, e: nat)
    requires ds != []
    ensures Skipped(ds, e) == Skipped(ds[..|ds| - 1], e) + [Shift(ds[|ds| - 1], e)]
  {
  }

  lemma {:induction false} ShiftZero(n: nat)
    ensures Shift(0, n) == 0
  {
    if n > 0 {
      ShiftZero(n - 1);
      TimesXZero();
    }
  }

  /** The registers cs stand for the single register crc at the start of a block. */
  ghost predicate Braided(crc: Word, cs: seq<Word>, w: Width) {
    Shift(crc, 8 * Size(w, |cs|)) == Outstanding(cs, 8 * w)
  }

  /** One block: if every register passes its word and skips the other N - 1, they stand for the register
      after the whole block. */
  lemma BlockKeepsBraid(crc: Word, cs: seq<Word>, ws: seq<Wide>, w: Width)
    requires |cs| == |ws| > 0 && Braided(crc, cs, w)
    ensures var ds := Passed(cs, ws, w);
      && Crc(crc, BlockBytes(ws, w)) == Combined(ds, 8 * w)
      && Braided(Crc(crc, BlockBytes(ws, w)), Skipped(ds, 8 * Size(w, |cs| - 1)), w)
  {
    hide Shift, Outstanding, Combined, Passed, BlockBytes, Crc, Skipped, Size;
    var n := |cs|;
    CrcFromZero(crc, BlockBytes(ws, w));
    BlockCombines(cs, ws, w);
    SkippedOutstanding(Passed(cs, ws, w), 8 * Size(w, n - 1), 8 * w);
    SizeOnce(w, n - 1);
  }

  /** The last block: handing the register from braid to braid combines them. */
  lemma HandOver(ds: seq<Word>, c: Word, previous: Word, s: seq<Octet>)
    requires previous == Combined(ds, 8 * |s|)
    ensures Crc(Add(c, previous), s) == Combined(ds + [Crc(c, s)], 8 * |s|)
  {
    hide *;
    CombinedSnoc(ds, Crc(c, s), 8 * |s|);
    AddCommutes(c, previous);
    CrcLinear(previous, c, s);
  }

  /** At the start only the first register is loaded. */
  lemma {:induction false} FirstBraid(crc: Word, n: nat, w: Width)
    requires n > 0
    ensures Braided(crc, [crc] + seq(n - 1, _ => 0), w)
  {
    var cs := [crc] + seq(n - 1, _ => 0 as Word);
    SizeOnce(w, n - 1);
    hide Size, Shift, Outstanding, Add;
    if n == 1 {
      assert cs == [] + [crc];
      OutstandingSnoc([], crc, 8 * w);
      NothingOutstanding(8 * w);
      AddZero(crc);
    } else {
      var cs' := [crc] + seq(n - 2, _ => 0 as Word);
      FirstBraid(crc, n - 1, w);
      assert cs == cs' + [0];
      OutstandingSnoc(cs', 0, 8 * w);
      AddZero(Outstanding(cs', 8 * w));
      ShiftShift(crc, 8 * Size(w, n - 1), 8 * w);
    }
  }

  lemma NothingOutstanding(bits: nat)
    ensures Outstanding([], bits) == 0
  {
  }

  // ----- the braid tables

  /** How far byte k of a word is from the start of the next word of the same braid. */
  function Reach(w: Width, n: nat, k: nat): nat
    requires n > 0 && k <= w
  {
    8 * Size(w, n) - 8 * k
  }

  lemma ReachIs(w: Width, n: nat, k: nat)
    requires n > 0 && k < w
    ensures Size(w, n) >= k && 24 + Reach(w, n, k) == 8 * (Size(w, n) + 3 - k)
  {
  }

  /** Entry b of table k: byte k of a word, at the start of the next word of the same braid. */
  lemma BraidEntry(b: Octet, w: Width, n: nat, k: nat)
    requires n > 0 && k < w
    ensures Mul(High(b), XPow(8 * (Size(w, n) + 3 - k))) == Shift(Low(b), Reach(w, n, k))
  {
    hide *;
    var a := High(b);
    var e := Reach(w, n, k);
    ReachIs(w, n, k);
    HighByte(b);
    MulXPow(a, 24 + e);
    ShiftShift(a, 24, e);
  }

  /** The sum of the first k table entries for the bytes of a word. */
  function EntrySum(d: Wide, w: Width, n: nat, k: nat): Word
    requires n > 0 && k <= w
  {
    if k == 0 then 0
    else Add(EntrySum(d, w, n, k - 1), Shift(Low(ByteAt(d, k - 1)), Reach(w, n, k - 1)))
  }

  lemma EntrySumOnce(d: Wide, w: Width, n: nat, k: nat)
    requires n > 0 && k < w
    ensures EntrySum(d, w, n, 0) == 0
    ensures EntrySum(d, w, n, k + 1) == Add(EntrySum(d, w, n, k), Shift(Low(ByteAt(d, k)), Reach(w, n, k)))
  {
    hide Add, Shift, Low, ByteAt, Reach;
  }

  lemma FeedIs(c: Word, b: Octet)
    ensures Feed(c, b) == Shift(Add(c, Low(b)), 8)
  {
    hide Shift;
  }

  lemma ReachOnce(w: Width, n: nat, k: nat)
    requires n > 0 && k < w
    ensures Reach(w, n, k) == 8 + Reach(w, n, k + 1)
  {
  }

  lemma {:induction false} EntrySumIs(d: Wide, w: Width, n: nat, k: nat)
    requires n > 0 && k <= w
    ensures EntrySum(d, w, n, k) == Shift(Crc(0, Bytes(d, k)), Reach(w, n, k))
  {
    hide *;
    if k == 0 {
      EntrySumOnce(d, w, n, 0);
      BytesOnce(d, 0);
      CrcNone(0);
      ShiftZero(Reach(w, n, 0));
    } else {
      var c, b := Crc(0, Bytes(d, k - 1)), ByteAt(d, k - 1);
      var e := Reach(w, n, k);
      EntrySumIs(d, w, n, k - 1);
      EntrySumOnce(d, w, n, k - 1);
      BytesOnce(d, k - 1);
      CrcSnoc(0, Bytes(d, k - 1), b);
      FeedIs(c, b);
      ReachOnce(w, n, k - 1);
      ShiftShift(Add(c, Low(b)), 8, e);
      ShiftLinear(c, Low(b), 8 + e);
    }
  }

  lemma ReachBehind(w: Width, n: nat)
    requires n > 0
    ensures Reach(w, n, w) == 8 * Size(w, n - 1)
  {
  }

  /** The table sum for a word with the register mixed in: the register passes the word and skips N - 1 more. */
  lemma BraidSum(d: Wide, c: Word, w: Width, n: nat)
    requires n > 0 && Fits(d, w)
    ensures EntrySum(Mix(d, Widen(c)), w, n, w) == Shift(Crc(c, Bytes(d, w)), 8 * Size(w, n - 1))
  {
    hide *;
    EntrySumIs(Mix(d, Widen(c)), w, n, w);
    MixedWord(d, c, w);
    ReachBehind(w, n);
  }
}
