/** The hash chains of the matcher as a relation between positions of the input text.

    `base` is the position of window index 0 in the text, `inserted` the set of text positions ever
    put in the dictionary since it was last cleared, and `next` an exclusive upper bound of it.
 */
module HashChains {
  import opened Bitwise
  import opened RollingHash

  /** A window index kept in 16 bits (Pos); index 0 doubles as NIL. */
  type Pos = x: int | 0 <= x < 0x1_0000

  const NIL: Pos := 0

  /** The key of the three bytes of the text at p. */
  function KeyAt(bits: HashBits, text: seq<byte>, p: nat): (r: nat)
    requires p + 2 < |text|
    ensures r < HashSize(bits)
  {
    Key(bits, text[p], text[p + 1], text[p + 2])
  }

  ghost predicate InsertedOk(text: seq<byte>, inserted: set<nat>, next: int) {
    forall p :: p in inserted ==> p < next && p + 2 < |text|
  }

  /** v is the window index of the latest inserted string with this key before text position
      `below`, or NIL when there is none after window index 0. */
  ghost predicate Latest(bits: HashBits, text: seq<byte>, base: nat, inserted: set<nat>, v: Pos, key: nat, below: int) {
    && (v != NIL ==>
          base + v in inserted && base + v < below && base + v + 2 < |text| && KeyAt(bits, text, base + v) == key)
    && forall q :: q in inserted && base < q < below && q + 2 < |text| && KeyAt(bits, text, q) == key ==>
         v != NIL && q <= base + v
  }

  /** Each head is the latest inserted string with its key. */
  ghost predicate HeadsOk(bits: HashBits, text: seq<byte>, base: nat, inserted: set<nat>, next: int, head: seq<Pos>) {
    forall h :: 0 <= h < |head| ==> Latest(bits, text, base, inserted, head[h], h, next)
  }

  /** prev[] slot of an inserted window index. */
  function Slot(index: nat, wSize: nat): (r: nat)
    requires wSize > 0
    ensures r < wSize
  {
    index % wSize
  }

  /** The link of p is the latest inserted string before p with the key of p. */
  ghost predicate LinkOk(bits: HashBits, text: seq<byte>, base: nat, inserted: set<nat>, prev: seq<Pos>, p: nat)
    requires |prev| > 0 && base <= p && p + 2 < |text|
  {
    Latest(bits, text, base, inserted, prev[Slot(p - base, |prev|)], KeyAt(bits, text, p), p)
  }

  /** Links hold for the strings whose slot no string before `horizon` can have reused. */
  ghost predicate LinksOk(bits: HashBits, text: seq<byte>, base: nat, inserted: set<nat>, horizon: int, prev: seq<Pos>)
    requires |prev| > 0
  {
    forall p :: p in inserted && base <= p && horizon <= p + |prev| && p + 2 < |text| ==>
      LinkOk(bits, text, base, inserted, prev, p)
  }

  ghost predicate ChainsOk(bits: HashBits, text: seq<byte>, base: nat, inserted: set<nat>, next: int,
                           horizon: int, head: seq<Pos>, prev: seq<Pos>)
  {
    && |prev| > 0
    && InsertedOk(text, inserted, next)
    && HeadsOk(bits, text, base, inserted, next, head)
    && LinksOk(bits, text, base, inserted, horizon, prev)
  }

  /** Where the link of an inserted string leads, if anywhere: to an older string with the same key. */
  lemma LinkLeads(bits: HashBits, text: seq<byte>, base: nat, inserted: set<nat>, next: int, horizon: int,
                  head: seq<Pos>, prev: seq<Pos>, p: nat)
    requires ChainsOk(bits, text, base, inserted, next, horizon, head, prev)
    requires p in inserted && base <= p && horizon <= p + |prev| && p + 2 < |text|
    ensures var v := prev[Slot(p - base, |prev|)];
      v != NIL ==>
        base + v in inserted && base + v < p && base + v + 2 < |text| && KeyAt(bits, text, base + v) == KeyAt(bits, text, p)
  {
    hide KeyAt, Slot, HeadsOk, InsertedOk;
    assert LinkOk(bits, text, base, inserted, prev, p);
  }

  lemma SlotsDiffer(i: nat, j: nat, wSize: nat)
    requires i < j < i + wSize
    ensures Slot(i, wSize) != Slot(j, wSize)
  {
    var d := j / wSize - i / wSize;
    assert wSize * d == (j - i) - (j % wSize - i % wSize);
    assert d > 0 ==> wSize * d >= wSize;
    assert d <= 0 ==> wSize * d <= 0;
  }

  lemma SlotSlides(i: nat, wSize: nat)
    requires wSize > 0 && wSize <= i
    ensures Slot(i - wSize, wSize) == Slot(i, wSize)
  {
    ModUnique(i, wSize, (i - wSize) / wSize + 1, (i - wSize) % wSize);
  }

  function Later(a: int, b: int): int { if a < b then b else a }

  /** INSERT_STRING keeps the chains right, for a string newer than everything inserted. */
  lemma InsertKeepsChains(bits: HashBits, text: seq<byte>, base: nat, inserted: set<nat>, next: int,
                          horizon: int, head: seq<Pos>, prev: seq<Pos>, str: Pos)
    requires ChainsOk(bits, text, base, inserted, next, horizon, head, prev)
    requires |head| == HashSize(bits)
    requires next <= base + str && base + str + 2 < |text|
    ensures var key := KeyAt(bits, text, base + str);
      ChainsOk(bits, text, base, inserted + {base + str}, base + str + 1, Later(horizon, base + str + 1),
               head[key := str], prev[Slot(str, |prev|) := head[key]])
  {
    hide KeyAt, Slot;
    var key := KeyAt(bits, text, base + str);
    var inserted' := inserted + {base + str};
    var prev' := prev[Slot(str, |prev|) := head[key]];
    forall p | p in inserted' && base <= p && Later(horizon, base + str + 1) <= p + |prev'|
      ensures p + 2 < |text| && LinkOk(bits, text, base, inserted', prev', p)
    {
      if p != base + str {
        SlotsDiffer(p - base, str, |prev|);
        assert LinkOk(bits, text, base, inserted, prev, p);
      }
    }
  }

  /** What slide_hash does to one table entry. */
  function SlideEntry(v: Pos, wSize: nat): Pos {
    if v >= wSize then v - wSize else NIL
  }

  ghost predicate IsSlid(old_: seq<Pos>, new_: seq<Pos>, wSize: nat) {
    |old_| == |new_| && forall i :: 0 <= i < |old_| ==> new_[i] == SlideEntry(old_[i], wSize)
  }

  /** Sliding the window and both tables together keeps the chains right. */
  lemma SlideKeepsChains(bits: HashBits, text: seq<byte>, base: nat, inserted: set<nat>, next: int,
                         horizon: int, head: seq<Pos>, prev: seq<Pos>, head': seq<Pos>, prev': seq<Pos>)
    requires ChainsOk(bits, text, base, inserted, next, horizon, head, prev)
    requires IsSlid(head, head', |prev|) && IsSlid(prev, prev', |prev|)
    ensures ChainsOk(bits, text, base + |prev|, inserted, next, horizon, head', prev')
  {
    hide KeyAt, Slot;
    var wSize := |prev|;
    forall p | p in inserted && base + wSize <= p && horizon <= p + wSize && p + 2 < |text|
      ensures LinkOk(bits, text, base + wSize, inserted, prev', p)
    {
      SlotSlides(p - base, wSize);
      assert LinkOk(bits, text, base, inserted, prev, p);
    }
  }

  /** More text after what is there changes no key. */
  lemma MoreTextKeepsChains(bits: HashBits, text: seq<byte>, more: seq<byte>, base: nat, inserted: set<nat>,
                            next: int, horizon: int, head: seq<Pos>, prev: seq<Pos>)
    requires ChainsOk(bits, text, base, inserted, next, horizon, head, prev)
    ensures ChainsOk(bits, text + more, base, inserted, next, horizon, head, prev)
  {
    hide Slot, Key;
    forall p | p in inserted && base <= p && horizon <= p + |prev|
      ensures LinkOk(bits, text + more, base, inserted, prev, p)
    {
      assert LinkOk(bits, text, base, inserted, prev, p);
    }
  }

  /** With every inserted string before an earlier bound, the bound can be lowered. */
  lemma LowerBoundKeepsChains(bits: HashBits, text: seq<byte>, base: nat, inserted: set<nat>,
                              next: int, next': int, horizon: int, head: seq<Pos>, prev: seq<Pos>)
    requires ChainsOk(bits, text, base, inserted, next, horizon, head, prev)
    requires InsertedOk(text, inserted, next')
    ensures ChainsOk(bits, text, base, inserted, next', horizon, head, prev)
  {
    hide KeyAt, Slot;
  }

  lemma LaterBoundKeepsChains(bits: HashBits, text: seq<byte>, base: nat, inserted: set<nat>,
                              next: int, horizon: int, next': int, horizon': int, head: seq<Pos>, prev: seq<Pos>)
    requires ChainsOk(bits, text, base, inserted, next, horizon, head, prev)
    requires next <= next' && horizon <= horizon'
    ensures ChainsOk(bits, text, base, inserted, next', horizon', head, prev)
  {
    hide KeyAt, Slot;
  }

  /** CLEAR_HASH forgets every chain, wherever the window then starts. */
  lemma ClearedChains(bits: HashBits, text: seq<byte>, base: nat, next: int, horizon: int, head: seq<Pos>, prev: seq<Pos>)
    requires |prev| > 0 && forall h :: 0 <= h < |head| ==> head[h] == NIL
    ensures ChainsOk(bits, text, base, {}, next, horizon, head, prev)
  {
  }
}
