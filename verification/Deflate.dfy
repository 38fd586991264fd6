/** The compressor's sliding window, dictionary and token output (deflate.c and the macros of deflate.h). */
module Deflate {
  import opened Bitwise
  import opened RollingHash
  import opened HashChains
  import opened Lz77
  import opened MatchSearch
  import opened Symbols
  import opened Wrappers

  const MIN_LOOKAHEAD := MAX_MATCH + MIN_MATCH + 1
  const WIN_INIT := MAX_MATCH
  const TOO_FAR := 4096
  const UINT_RANGE := 0x1_0000_0000

  /** Unsigned 32-bit subtraction, which wraps. */
  function Minus(a: int, b: int): (r: nat)
    ensures r < UINT_RANGE
  {
    (a - b) % UINT_RANGE
  }

  function Min(a: int, b: int): int { if a < b then a else b }
  function Max(a: int, b: int): int { if a < b then b else a }

  datatype Flush = NoFlush | PartialFlush | SyncFlush | FullFlush | Finish | Block

  datatype BlockState = NeedMore | BlockDone | FinishStarted | FinishDone

  /** The search parameters of one compression level. */
  datatype Config = Config(goodLength: nat, maxLazy: nat, niceLength: nat, maxChain: nat)

  /** The code requires max_lazy >= MIN_MATCH and max_chain >= 4. */
  predicate Usable(c: Config) {
    MIN_MATCH <= c.maxLazy <= MAX_MATCH && 4 <= c.maxChain
  }

  /** configuration_table for the levels that look for matches. */
  function Configuration(level: nat): (c: Config)
    requires 1 <= level <= 9
    ensures Usable(c)
  {
    match level
    case 1 => Config(4, 4, 8, 4)
    case 2 => Config(4, 5, 16, 8)
    case 3 => Config(4, 6, 32, 32)
    case 4 => Config(4, 4, 16, 16)
    case 5 => Config(8, 16, 32, 32)
    case 6 => Config(8, 16, 128, 128)
    case 7 => Config(8, 32, 128, 256)
    case 8 => Config(32, 128, 258, 1024)
    case _ => Config(32, 258, 258, 4096)
  }

  datatype Strategy = DefaultStrategy | Filtered | HuffmanOnly | Rle | Fixed

  class DeflateState {
    const level: nat
    const strategy: Strategy
    const wSize: nat
    const hashBits: HashBits
    const config: Config
    const litBufsize: nat
    const window: array<byte>
    const prev: array<Pos>
    const head: array<Pos>
    const symBuf: array<byte>

    var strstart: nat
    var lookahead: nat
    var insert: nat
    var insH: nat
    var matchStart: nat
    var matchLength: nat
    var prevLength: nat
    var prevMatch: nat
    var matchAvailable: bool
    var blockStart: int
    var highWater: nat
    var nextIn: seq<byte>
    var symNext: nat
    var finished: bool              // status is FINISH_STATE
    var out: seq<Token>             // what the blocks flushed so far tell a decoder

    ghost var text: seq<byte>       // everything read so far
    ghost var base: nat             // position of window[0] in text
    ghost var inserted: set<nat>    // positions put in the dictionary since it was cleared
    ghost var tallied: seq<Token>   // every token tallied so far
    ghost var written: nat          // window[..written] has been initialised
    ghost var starved: nat          // how many flushes found the output space used up
    ghost var markers: nat          // how many empty stored blocks mark a flush

    ghost predicate Shape() {
      && Usable(config) && litBufsize >= 128 && symBuf.Length == 3 * litBufsize
      && 512 <= wSize <= 0x8000
      && window.Length == 2 * wSize && prev.Length == wSize && head.Length == HashSize(hashBits)
      && prev != head && window != symBuf
    }

    function MaxDist(): int { wSize - MIN_LOOKAHEAD }

    /** The window holds the latest text, up to strstart + lookahead. */
    ghost predicate Buffered()
      reads this`strstart, this`lookahead, this`text, this`base, this`written, this`highWater, this`insert, window
    {
      && Shape()
      && strstart + lookahead <= 2 * wSize
      && |text| == base + strstart + lookahead
      && (forall i :: 0 <= i < strstart + lookahead ==> window[i] == text[base + i])
      && strstart + lookahead <= written && highWater <= written <= 2 * wSize
      && insert <= 2 && insert <= strstart
    }

    /** The window holds the text from base on. */
    ghost predicate Windowed()
      reads this`text, this`base, window
    {
      && Shape()
      && base <= |text| <= base + 2 * wSize
      && (forall i :: 0 <= i < |text| - base ==> window[i] == text[base + i])
    }

    ghost predicate Chained(next: int, horizon: int)
      reads this`text, this`base, this`inserted, head, prev
    {
      ChainsOk(hashBits, text, base, inserted, next, horizon, head[..], prev[..])
    }

    /** All input ever given to the compressor: what has been read and what has not. */
    ghost function Input(): seq<byte>
      reads this`text, this`nextIn
    {
      text + nextIn
    }

    /** The running hash is ready for the string at window index p. */
    ghost predicate PrimedAt(p: nat)
      reads this`insH, window
    {
      p + 1 < window.Length && Primes(hashBits, insH, window[p], window[p + 1])
    }

    /** With a whole string in sight, the running hash is ready for it. */
    ghost predicate Primed()
      reads this`strstart, this`lookahead, this`insH, window
    {
      lookahead >= MIN_MATCH ==> PrimedAt(strstart)
    }

    /** UPDATE_HASH with a byte of the string keeps the running hash ready for the next string. */
    method RollHash(p: nat)
      requires Shape() && p + 2 < window.Length
      requires PrimedAt(p)
      modifies this`insH
      ensures insH == Key(hashBits, window[p], window[p + 1], window[p + 2])
      ensures PrimedAt(p + 1)
    {
      insH := UpdateHash(hashBits, insH, window[p + 2]);
      forall c: byte
        ensures UpdateHash(hashBits, insH, c) == Key(hashBits, window[p + 1], window[p + 2], c)
      {
        OldestByteForgotten(hashBits, window[p], window[p + 1], window[p + 2], c);
      }
    }

    /** Start the running hash afresh at window index p. */
    method PrimeHash(p: nat)
      requires Shape() && p + 1 < window.Length
      modifies this`insH
      ensures PrimedAt(p)
    {
      insH := window[p];
      insH := UpdateHash(hashBits, insH, window[p + 1]);
    }

    /** INSERT_STRING: the head before the insertion is the latest earlier string with the same key. */
    method InsertString(str: nat, ghost horizon: int) returns (matchHead: Pos)
      requires Windowed() && PrimedAt(str)
      requires base + str + 2 < |text|
      requires Chained(base + str, horizon)
      modifies this`insH, this`inserted, head, prev
      ensures Windowed() && PrimedAt(str + 1)
      ensures var key := KeyAt(hashBits, text, base + str);
        && insH == key
        && Latest(hashBits, text, base, old(inserted), matchHead, key, base + str)
        && matchHead == old(head[key])
        && head[..] == old(head[..])[key := str]
        && prev[..] == old(prev[..])[Slot(str, wSize) := matchHead]
      ensures inserted == old(inserted) + {base + str}
      ensures Chained(base + str + 1, Later(horizon, base + str + 1))
    {
      hide Key, UpdateHash, ChainsOk, Latest, Slot;
      RollHash(str);
      assert insH == KeyAt(hashBits, text, base + str);
      matchHead := Link(str, insH, horizon);
    }

    /** The dictionary part of INSERT_STRING. */
    method Link(str: nat, key: nat, ghost horizon: int) returns (matchHead: Pos)
      requires Shape() && str < 2 * wSize
      requires base + str + 2 < |text| && key == KeyAt(hashBits, text, base + str)
      requires Chained(base + str, horizon)
      modifies this`inserted, head, prev
      ensures Latest(hashBits, text, base, old(inserted), matchHead, key, base + str)
      ensures matchHead == old(head[key])
      ensures head[..] == old(head[..])[key := str]
      ensures prev[..] == old(prev[..])[Slot(str, wSize) := matchHead]
      ensures inserted == old(inserted) + {base + str}
      ensures Chained(base + str + 1, Later(horizon, base + str + 1))
    {
      hide KeyAt, Latest, Slot, LinksOk, InsertedOk;
      InsertKeepsChains(hashBits, text, base, inserted, base + str, horizon, head[..], prev[..], str);
      matchHead := head[key];
      prev[Slot(str, wSize)] := matchHead;
      head[key] := str;
      inserted := inserted + {base + str};
      hide HeadsOk, ChainsOk;
      assert head[..] == old(head[..])[key := str];
      assert prev[..] == old(prev[..])[Slot(str, wSize) := matchHead];
    }

    /** One table of slide_hash: entries that leave the window become NIL. */
    method SlideTable(table: array<Pos>)
      modifies table
      ensures IsSlid(old(table[..]), table[..], wSize)
    {
      var n := table.Length;
      while n > 0
        invariant 0 <= n <= table.Length
        invariant forall i :: 0 <= i < n ==> table[i] == old(table[i])
        invariant forall i :: n <= i < table.Length ==> table[i] == SlideEntry(old(table[i]), wSize)
      {
        n := n - 1;
        var m := table[n];
        table[n] := if m >= wSize then m - wSize else NIL;
      }
    }

    /** slide_hash. */
    method SlideHash(ghost next: int, ghost horizon: int)
      requires Shape() && Chained(next, horizon)
      modifies head, prev
      ensures ChainsOk(hashBits, text, base + wSize, inserted, next, horizon, head[..], prev[..])
    {
      hide ChainsOk, IsSlid;
      ghost var head0, prev0 := head[..], prev[..];
      SlideTable(head);
      assert prev[..] == prev0;
      SlideTable(prev);
      SlideKeepsChains(hashBits, text, base, inserted, next, horizon, head0, prev0, head[..], prev[..]);
    }

    /** The upper half of the window moves down; n of its bytes are data. */
    method MoveDown(n: int)
      requires n <= wSize && window.Length == 2 * wSize
      modifies window
      ensures forall i :: 0 <= i < n ==> window[i] == old(window[i + wSize])
    {
      forall i | 0 <= i < n {
        window[i] := window[i + wSize];
      }
    }

    /** Move the upper half of the window down, together with everything that points into it. */
    method Slide(more: nat)
      requires Buffered() && Chained(base + strstart - insert, base + strstart)
      requires strstart >= wSize + MaxDist() && more == 2 * wSize - lookahead - strstart
      modifies this`strstart, this`matchStart, this`blockStart, this`insert, this`base, window, head, prev
      ensures Buffered() && Chained(base + strstart - insert, base + strstart)
      ensures base == old(base) + wSize && strstart == old(strstart) - wSize && insert == old(insert)
      ensures base + blockStart == old(base + blockStart)
      ensures Minus(strstart, matchStart) == old(Minus(strstart, matchStart))
      ensures lookahead >= MIN_MATCH && old(PrimedAt(strstart)) ==> PrimedAt(strstart)
    {
      hide ChainsOk, PrimedAt, Minus;
      SlideHash(base + strstart - insert, base + strstart);
      ghost var head1, prev1 := head[..], prev[..];
      SlideWindow(more);
      assert head[..] == head1 && prev[..] == prev1;
    }

    method SlideWindow(more: nat)
      requires Buffered() && strstart >= wSize + MaxDist() && more == 2 * wSize - lookahead - strstart
      modifies this`strstart, this`matchStart, this`blockStart, this`insert, this`base, window
      ensures Buffered()
      ensures base == old(base) + wSize && strstart == old(strstart) - wSize && insert == old(insert)
      ensures base + blockStart == old(base + blockStart)
      ensures Minus(strstart, matchStart) == old(Minus(strstart, matchStart))
      ensures lookahead >= MIN_MATCH && old(PrimedAt(strstart)) ==> PrimedAt(strstart)
    {
      hide Primes;
      MoveDown(wSize - more);
      matchStart := Minus(matchStart, wSize);
      strstart := strstart - wSize;
      blockStart := blockStart - wSize;
      insert := Min(insert, strstart);
      base := base + wSize;
    }

    /** The copy of read_buf; it never leaves a gap after the bytes written before. */
    method CopyIn(end: nat, bytes: seq<byte>)
      requires Shape() && end <= written && end + |bytes| <= 2 * wSize
      modifies this`written, window
      ensures forall i :: 0 <= i < end ==> window[i] == old(window[i])
      ensures forall i :: end <= i < end + |bytes| ==> window[i] == bytes[i - end]
      ensures written == Max(old(written), end + |bytes|)
    {
      forall i | 0 <= i < |bytes| {
        window[end + i] := bytes[i];
      }
      written := Max(written, end + |bytes|);
    }

    /** read_buf: take what the input has, up to size bytes, to the end of the data in the window. */
    method ReadBuf(size: nat) returns (len: nat)
      requires Buffered() && Chained(base + strstart - insert, base + strstart)
      requires strstart + lookahead + size <= 2 * wSize
      modifies this`nextIn, this`lookahead, this`text, this`written, window
      ensures Buffered() && Chained(base + strstart - insert, base + strstart)
      ensures len == Min(size, |old(nextIn)|)
      ensures |nextIn| == |old(nextIn)| - len && Input() == old(Input()) && old(text) <= text
      ensures lookahead == old(lookahead) + len
    {
      hide ChainsOk;
      len := |nextIn|;
      if len > size {
        len := size;
      }
      if len == 0 {
        return;
      }
      ghost var bytes := nextIn[..len];
      CopyIn(strstart + lookahead, nextIn[..len]);
      MoreTextKeepsChains(hashBits, text, bytes, base, inserted, base + strstart - insert,
                          base + strstart, head[..], prev[..]);
      assert text + nextIn == (text + bytes) + nextIn[len..];
      text := text + bytes;
      nextIn := nextIn[len..];
      lookahead := lookahead + len;
    }

    /** With three bytes in sight, start the running hash and insert the strings left over from the last flush. */
    method InsertPending()
      requires Buffered() && Chained(base + strstart - insert, base + strstart)
      modifies this`insH, this`inserted, this`insert, head, prev
      ensures Buffered() && Chained(base + strstart - insert, base + strstart)
      ensures old(lookahead + insert) >= MIN_MATCH ==> insert == 0 || lookahead + insert < MIN_MATCH
      ensures old(lookahead + insert) < MIN_MATCH ==> insert == old(insert)
      ensures old(insert) == 0 ==> insert == 0 && inserted == old(inserted)
      ensures old(lookahead + insert) >= MIN_MATCH && lookahead >= MIN_MATCH ==> PrimedAt(strstart)
    {
      hide Key, UpdateHash, KeyAt, ChainsOk, PrimedAt, Latest, Slot;
      if lookahead + insert >= MIN_MATCH {
        var str := strstart - insert;
        PrimeHash(str);
        while insert > 0
          invariant insert <= old(insert) && str == strstart - insert
          invariant old(insert) == 0 ==> inserted == old(inserted)
          invariant insert > 0 ==> lookahead + insert >= MIN_MATCH
          invariant Buffered() && Chained(base + str, base + strstart) && PrimedAt(str)
        {
          var _ := InsertString(str, base + strstart);
          str := str + 1;
          insert := insert - 1;
          if lookahead + insert < MIN_MATCH {
            break;
          }
        }
      }
    }

    /** Zero what the matcher may look at beyond the data, once. */
    method ZeroBeyondData()
      requires Buffered()
      modifies this`highWater, this`written, window
      ensures Buffered()
      ensures written >= Min(2 * wSize, strstart + lookahead + WIN_INIT)
      ensures forall p :: 0 <= p && p + 1 < strstart + lookahead && old(PrimedAt(p)) ==> PrimedAt(p)
    {
      var windowSize := 2 * wSize;
      if highWater < windowSize {
        var curr := strstart + lookahead;
        if highWater < curr {
          var init := windowSize - curr;
          if init > WIN_INIT {
            init := WIN_INIT;
          }
          forall i | curr <= i < curr + init {
            window[i] := 0;
          }
          written := Max(written, curr + init);
          highWater := curr + init;
        } else if highWater < curr + WIN_INIT {
          var init := curr + WIN_INIT - highWater;
          if init > windowSize - highWater {
            init := windowSize - highWater;
          }
          forall i | highWater <= i < highWater + init {
            window[i] := 0;
          }
          written := Max(written, highWater + init);
          highWater := highWater + init;
        }
      }
    }

    /** One round of fill_window: slide if the upper end is reached, then read. */
    method FillOnce()
      requires Buffered() && Chained(base + strstart - insert, base + strstart)
      requires lookahead < MIN_LOOKAHEAD
      requires insert == 0 || lookahead + insert < MIN_MATCH
      modifies this`strstart, this`lookahead, this`insert, this`insH, this`matchStart, this`blockStart,
               this`nextIn, this`text, this`base, this`inserted, this`written, window, head, prev
      ensures Buffered() && Chained(base + strstart - insert, base + strstart)
      ensures insert == 0 || lookahead + insert < MIN_MATCH
      ensures old(Primed()) ==> Primed()
      ensures Input() == old(Input()) && old(text) <= text
      ensures base + strstart == old(base + strstart) && base + blockStart == old(base + blockStart)
      ensures old(strstart) > 0 ==> strstart > 0
      ensures old(insert) == 0 ==> insert == 0 && inserted == old(inserted)
      ensures Minus(strstart, matchStart) == old(Minus(strstart, matchStart))
      ensures |nextIn| <= |old(nextIn)| - Min(2, |old(nextIn)|)
      ensures strstart <= 2 * wSize - MIN_LOOKAHEAD
    {
      hide Key, UpdateHash, KeyAt, ChainsOk, PrimedAt;
      var more := 2 * wSize - lookahead - strstart;
      if strstart >= wSize + MaxDist() {
        Slide(more);
        more := more + wSize;
      }
      if |nextIn| == 0 {
        return;
      }
      assert more >= 2;
      var n := ReadBuf(more);
      InsertPending();
    }

    /** Make sure of enough lookahead, as long as there is input. */
    method FillWindow()
      requires Buffered() && Chained(base + strstart - insert, base + strstart)
      requires lookahead < MIN_LOOKAHEAD
      requires insert == 0 || lookahead + insert < MIN_MATCH
      modifies this`strstart, this`lookahead, this`insert, this`insH, this`matchStart, this`blockStart,
               this`highWater, this`nextIn, this`text, this`base, this`inserted, this`written, window, head, prev
      ensures Buffered() && Chained(base + strstart - insert, base + strstart)
      ensures insert == 0 || lookahead + insert < MIN_MATCH
      ensures old(Primed()) ==> Primed()
      ensures Input() == old(Input()) && old(text) <= text
      ensures base + strstart == old(base + strstart) && base + blockStart == old(base + blockStart)
      ensures old(strstart) > 0 ==> strstart > 0
      ensures old(insert) == 0 ==> insert == 0 && inserted == old(inserted)
      ensures Minus(strstart, matchStart) == old(Minus(strstart, matchStart))
      ensures lookahead >= MIN_LOOKAHEAD || nextIn == []
      ensures strstart <= 2 * wSize - MIN_LOOKAHEAD
      ensures written >= Min(2 * wSize, strstart + lookahead + WIN_INIT)
    {
      hide Key, UpdateHash, KeyAt, ChainsOk, PrimedAt;
      FillOnce();
      while lookahead < MIN_LOOKAHEAD && |nextIn| != 0
        invariant Buffered() && Chained(base + strstart - insert, base + strstart)
        invariant insert == 0 || lookahead + insert < MIN_MATCH
        invariant old(Primed()) ==> Primed()
        invariant Input() == old(Input()) && old(text) <= text
        invariant base + strstart == old(base + strstart) && base + blockStart == old(base + blockStart)
        invariant old(strstart) > 0 ==> strstart > 0
        invariant old(insert) == 0 ==> insert == 0 && inserted == old(inserted)
        invariant Minus(strstart, matchStart) == old(Minus(strstart, matchStart))
        invariant strstart <= 2 * wSize - MIN_LOOKAHEAD
        decreases |nextIn|
      {
        FillOnce();
      }
      ZeroBeyondData();
    }

    /** The unrolled comparison loop, entered when three bytes are known to agree. */
    method ScanMatch(cur: nat) returns (len: nat)
      requires Buffered()
      requires cur < strstart && strstart + MAX_MATCH < 2 * wSize && strstart + MAX_MATCH < written
      requires Agree(window[..], cur, strstart, 3)
      ensures len == CommonLength(window[..], cur, strstart)
    {
      ghost var w := window[..];
      AgreeOnTwo(w, cur, strstart);
      hide Agree, CommonFrom;
      var k: nat := 2;
      var equal := true;
      while equal && k < MAX_MATCH
        invariant 2 <= k <= MAX_MATCH && (equal ==> (k - 2) % 8 == 0)
        invariant Agree(w, cur, strstart, k)
        invariant equal <==> w[cur + k] == w[strstart + k]
        decreases MAX_MATCH - k, equal
      {
        k, equal := ScanEight(cur, k);
      }
      len := k;
      CommonFromIs(w, cur, strstart, 0, k);
    }

    /** Eight comparisons without a bounds check: stop at the first difference. */
    method ScanEight(cur: nat, start: nat) returns (k: nat, equal: bool)
      requires Buffered()
      requires cur < strstart && strstart + MAX_MATCH < 2 * wSize && strstart + MAX_MATCH < written
      requires start + 8 <= MAX_MATCH
      requires window[cur + start] == window[strstart + start] && Agree(window[..], cur, strstart, start)
      ensures start < k <= start + 8 && (equal ==> k == start + 8)
      ensures Agree(window[..], cur, strstart, k)
      ensures equal <==> window[cur + k] == window[strstart + k]
    {
      ghost var w := window[..];
      assert forall j :: cur <= j < cur + start ==> w[j] == w[j - cur + strstart];
      k, equal := start, true;
      while equal && k < start + 8
        invariant start <= k <= start + 8
        invariant !equal ==> start < k
        invariant forall j :: cur <= j < cur + k ==> w[j] == w[j - cur + strstart]
        invariant equal <==> window[cur + k] == window[strstart + k]
        decreases start + 8 - k, equal
      {
        k := k + 1;
        assert strstart + k < written;
        equal := window[strstart + k] == window[cur + k];
      }
    }

    /** Matches are not looked for at or below this index. */
    function Limit(): nat
      requires Shape()
      reads this`strstart
    {
      if strstart > MaxDist() then strstart - MaxDist() else NIL
    }

    /** The search is cut short when the length to beat is already good. */
    function ChainLength(least: nat): nat {
      if least >= config.goodLength then config.maxChain / 4 else config.maxChain
    }

    /** How far and how long is searched, in numbers. */
    lemma SearchRules(least: nat)
      requires Shape()
      ensures MaxDist() == wSize - 262 && Limit() == if strstart > wSize - 262 then strstart - (wSize - 262) else 0
      ensures ChainLength(least) == if least < config.goodLength then config.maxChain else config.maxChain / 4
    {
    }

    /** The outcome of comparing every candidate of the chain from cur in full. */
    ghost function FullSearch(cur: nat): Best
      requires Shape() && cur < strstart <= 2 * wSize - MIN_LOOKAHEAD
      reads this`strstart, this`lookahead, this`prevLength, this`matchStart, window, prev
    {
      Search(window[..], prev[..], Limits(strstart, Limit(), Min(config.niceLength, lookahead)),
             cur, ChainLength(prevLength), Best(prevLength, matchStart))
    }

    /** cur is a dictionary entry for the string at strstart, within reach. */
    ghost predicate Candidate(cur: nat)
      reads this`strstart, this`lookahead, this`text, this`base, this`inserted
    {
      && base + strstart + 2 < |text|
      && cur < strstart <= cur + MaxDist()
      && base + cur in inserted && base + cur + 2 < |text|
      && KeyAt(hashBits, text, base + cur) == KeyAt(hashBits, text, base + strstart)
    }

    /** Candidates that agree on their first two bytes agree on the third. */
    lemma ThirdByteAgrees(cur: nat)
      requires Buffered() && Candidate(cur) && lookahead >= MIN_MATCH
      requires window[cur] == window[strstart] && window[cur + 1] == window[strstart + 1]
      ensures Agree(window[..], cur, strstart, 3)
    {
      hide Key;
      KeyFixesThirdByte(hashBits, window[cur], window[cur + 1], window[cur + 2], window[strstart + 2]);
      var w := window[..];
      assert w[cur] == w[strstart] && w[cur + 1] == w[strstart + 1] && w[cur + 2] == w[strstart + 2];
    }

    /** The link of a candidate, when above the limit, is an older candidate. */
    lemma LinkIsCandidate(cur: nat)
      requires Buffered() && Candidate(cur) && Chained(base + strstart + 1, base + strstart + 1)
      ensures var older := prev[Slot(cur, wSize)];
        older > Limit() ==> Candidate(older) && older < cur
    {
      hide KeyAt, Slot, ChainsOk;
      LinkLeads(hashBits, text, base, inserted, base + strstart + 1, base + strstart + 1, head[..], prev[..], base + cur);
    }

    /** One candidate: rejected by four bytes, or compared from the third byte on. */
    method MatchLength(cur: nat, bestLen: nat) returns (len: nat)
      requires Buffered() && Candidate(cur) && lookahead >= MIN_MATCH
      requires strstart + MAX_MATCH < 2 * wSize && strstart + MAX_MATCH < written
      requires 1 <= bestLen <= MAX_MATCH
      ensures var n := CommonLength(window[..], cur, strstart);
        if n > bestLen then len == n else len <= bestLen
    {
      assert cur + bestLen < strstart + bestLen < written;
      ghost var w := window[..];
      CommonFromIs(w, cur, strstart, 0, CommonLength(w, cur, strstart));
      if window[cur + bestLen] != window[strstart + bestLen] ||
         window[cur + bestLen - 1] != window[strstart + bestLen - 1] ||
         window[cur] != window[strstart] ||
         window[cur + 1] != window[strstart + 1] {
        len := 0;
      } else {
        ThirdByteAgrees(cur);
        len := ScanMatch(cur);
      }
    }

    /** longest_match: the shortcuts find what the full search finds, cut to the lookahead. */
    method LongestMatch(curMatch: nat) returns (len: nat)
      requires Buffered() && Chained(base + strstart + 1, base + strstart + 1)
      requires lookahead >= MIN_MATCH && strstart <= 2 * wSize - MIN_LOOKAHEAD
      requires written >= Min(2 * wSize, strstart + lookahead + WIN_INIT)
      requires 1 <= prevLength <= MAX_MATCH
      requires Candidate(curMatch)
      modifies this`matchStart
      ensures var best := old(FullSearch(curMatch));
        len == Min(best.length, lookahead) && matchStart == best.start
      ensures len > prevLength ==>
        && matchStart < strstart && strstart - matchStart <= MaxDist() && len <= MAX_MATCH
        && Repeats(text, base + strstart, len, strstart - matchStart)
    {
      hide KeyAt, CommonLength, Slot, ChainsOk, Agree, Repeats;
      var chain := ChainLength(prevLength);
      var niceMatch := Min(config.niceLength, lookahead);
      var limit := Limit();
      var bestLen := prevLength;
      var cur: nat := curMatch;
      ghost var w, links := window[..], prev[..];
      ghost var at := Limits(strstart, limit, niceMatch);
      ghost var result := Search(w, links, at, cur, chain, Best(bestLen, matchStart));
      SearchIsSound(w, links, at, cur, chain, Best(bestLen, matchStart));
      while true
        invariant Candidate(cur) && cur < strstart && chain > 0
        invariant prevLength <= bestLen <= MAX_MATCH
        invariant Search(w, links, at, cur, chain, Best(bestLen, matchStart)) == result
        invariant window[..] == w && prev[..] == links
        decreases chain
      {
        assert strstart + MAX_MATCH < written;
        len := MatchLength(cur, bestLen);
        if len > bestLen {
          matchStart := cur;
          bestLen := len;
          if len >= niceMatch {
            break;
          }
        }
        LinkIsCandidate(cur);
        cur := prev[Slot(cur, wSize)];
        if !(cur > limit) {
          break;
        }
        chain := chain - 1;
        if chain == 0 {
          break;
        }
      }
      assert Best(bestLen, matchStart) == result;
      len := if bestLen <= lookahead then bestLen else lookahead;
      if len > prevLength {
        FoundRepeats(matchStart, bestLen, len);
      }
    }

    /** Agreement inside the window is repetition in the text. */
    lemma FoundRepeats(start: nat, found: nat, len: nat)
      requires Buffered() && start < strstart && len <= found && len <= lookahead
      requires strstart + found <= 2 * wSize && Agree(window[..], start, strstart, found)
      ensures Repeats(text, base + strstart, len, strstart - start)
    {
      var w, d := window[..], strstart - start;
      forall k | base + strstart <= k < base + strstart + len
        ensures text[k] == text[k - d]
      {
        assert w[k - base - d] == w[k - base];
      }
    }

    function SymEnd(): int { (litBufsize - 1) * 3 }

    /** The tokens tallied since the last flush. */
    ghost function Pending(): seq<Token>
      requires symNext <= symBuf.Length
      reads this`symNext, symBuf
    {
      ReadSymbols(symBuf[..symNext])
    }

    /** The flushed blocks stand for the text up to blockStart, and with the pending tokens for the
        text up to done, as do the tokens tallied; every back-reference is one DEFLATE can express. */
    ghost predicate OutputOk(done: int)
      reads this`out, this`tallied, this`symNext, this`blockStart, this`base, this`text, symBuf
    {
      && Shape()
      && symNext % 3 == 0 && symNext <= SymEnd()
      && 0 <= base + blockStart <= done <= |text|
      && Replay(out) == Some(text[..base + blockStart])
      && Replay(out + Pending()) == Some(text[..done])
      && Replay(tallied) == Some(text[..done])
      && AllExpressible(out + Pending(), MaxDist()) && AllExpressible(tallied, MaxDist())
    }

    lemma TokenExtends(ts: seq<Token>, t: Token, done: nat, done': nat)
      requires Shape() && done <= done' <= |text| && Replay(ts) == Some(text[..done])
      requires Apply(text[..done], t) == Some(text[..done'])
      requires AllExpressible(ts, MaxDist()) && Expressible(t, MaxDist())
      ensures Replay(ts + [t]) == Some(text[..done'])
      ensures AllExpressible(ts + [t], MaxDist())
    {
      ReplayAppend(ts, t);
    }

    /** Store one symbol; the result says whether the buffer is full. */
    method PutSymbol(lo: byte, hi: byte, lc: byte) returns (bflush: bool)
      requires Shape() && symNext % 3 == 0 && symNext < SymEnd()
      modifies this`symNext, symBuf
      ensures symNext == old(symNext) + 3
      ensures Pending() == old(Pending()) + [ReadSymbol(lo, hi, lc)]
      ensures bflush == (symNext == SymEnd())
    {
      ghost var before := symBuf[..symNext];
      symBuf[symNext] := lo;
      symBuf[symNext + 1] := hi;
      symBuf[symNext + 2] := lc;
      symNext := symNext + 3;
      assert symBuf[..symNext] == before + [lo, hi, lc];
      ReadSymbolsAppend(before, lo, hi, lc);
      bflush := symNext == SymEnd();
    }

    method PutMatch(distance: nat, lc: nat) returns (bflush: bool)
      requires Shape() && symNext % 3 == 0 && symNext < SymEnd()
      requires 1 <= distance < 0x1_0000 && lc < 256
      modifies this`symNext, symBuf
      ensures symNext == old(symNext) + 3
      ensures Pending() == old(Pending()) + [Match(lc + MIN_MATCH, distance)]
      ensures bflush == (symNext == SymEnd())
    {
      hide ReadSymbols;
      var dist := distance % 0x1_0000;
      MatchSurvivesCasts(distance, lc);
      bflush := PutSymbol(dist % 256, dist / 256 % 256, lc % 256);
    }

    /** _tr_tally_lit */
    method TallyLit(c: byte, ghost done: nat) returns (bflush: bool)
      requires OutputOk(done) && symNext < SymEnd()
      requires done < |text| && c == text[done]
      modifies this`symNext, this`tallied, symBuf
      ensures OutputOk(done + 1) && symNext == old(symNext) + 3
      ensures Pending() == old(Pending()) + [Literal(c)] && tallied == old(tallied) + [Literal(c)]
      ensures bflush == (symNext == SymEnd())
    {
      hide ReadSymbols, Replay;
      ghost var ts := out + Pending();
      bflush := PutSymbol(0, 0, c);
      assert text[..done] + [c] == text[..done + 1];
      TokenExtends(ts, Literal(c), done, done + 1);
      TokenExtends(tallied, Literal(c), done, done + 1);
      tallied := tallied + [Literal(c)];
      assert out + Pending() == ts + [Literal(c)];
    }

    /** _tr_tally_dist; its casts to 16 and 8 bits lose nothing here. */
    method TallyDist(distance: nat, lc: nat, ghost done: nat) returns (bflush: bool)
      requires OutputOk(done) && symNext < SymEnd()
      requires lc + MIN_MATCH <= MAX_MATCH && distance <= MaxDist()
      requires Repeats(text, done, lc + MIN_MATCH, distance)
      modifies this`symNext, this`tallied, symBuf
      ensures OutputOk(done + lc + MIN_MATCH) && symNext == old(symNext) + 3
      ensures Pending() == old(Pending()) + [Match(lc + MIN_MATCH, distance)]
      ensures tallied == old(tallied) + [Match(lc + MIN_MATCH, distance)]
      ensures bflush == (symNext == SymEnd())
    {
      hide Replay, CopyBack, ReadSymbols;
      ghost var ts := out + Pending();
      ghost var t := Match(lc + MIN_MATCH, distance);
      bflush := PutMatch(distance, lc);
      MatchIsRight(text, done, lc + MIN_MATCH, distance);
      TokenExtends(ts, t, done, done + lc + MIN_MATCH);
      TokenExtends(tallied, t, done, done + lc + MIN_MATCH);
      tallied := tallied + [t];
      assert out + Pending() == ts + [t];
    }

    /** compress_block: the symbols in the order they were tallied. */
    method CompressBlock() returns (tokens: seq<Token>)
      requires Shape() && symNext % 3 == 0 && symNext <= symBuf.Length
      ensures tokens == Pending()
    {
      hide ReadSymbols, ReadSymbol;
      tokens := [];
      NoSymbols(symBuf[..0]);
      var sx := 0;
      while sx < symNext
        invariant sx % 3 == 0 && sx <= symNext
        invariant tokens == ReadSymbols(symBuf[..sx])
      {
        ReadSymbolsNext(symBuf[..], sx);
        assert symBuf[..][..sx] == symBuf[..sx] && symBuf[..][..sx + 3] == symBuf[..sx + 3];
        tokens := tokens + [ReadSymbol(symBuf[sx], symBuf[sx + 1], symBuf[sx + 2])];
        sx := sx + 3;
      }
    }

    /** FLUSH_BLOCK_ONLY.  The encoder may choose a stored block when the block is still in the window;
        whether output space is left afterwards is up to the caller of the compressor. */
    method FlushBlock() returns (roomLeft: bool)
      requires Buffered() && OutputOk(base + strstart)
      modifies this`symNext, this`out, this`blockStart, this`starved
      ensures OutputOk(base + strstart) && symNext == 0 < SymEnd() && blockStart == strstart
      ensures starved == old(starved) + if roomLeft then 0 else 1
      ensures out == old(out + Pending())
           || (old(blockStart) >= 0 && out == old(out) + [Stored(window[old(blockStart)..strstart])])
    {
      hide Replay, ReadSymbols;
      var stored: bool := *;
      if blockStart >= 0 && stored {
        StoredBlockIsRight();
        out := out + [Stored(window[blockStart..strstart])];
      } else {
        var tokens := CompressBlock();
        out := out + tokens;
      }
      symNext := 0;
      blockStart := strstart;
      NothingPending();
      roomLeft := *;
      if !roomLeft {
        starved := starved + 1;
      }
    }

    lemma NothingPending()
      requires symNext == 0
      ensures out + Pending() == out
    {
    }

    /** The window bytes of a block are what its tokens stand for. */
    lemma StoredBlockIsRight()
      requires Buffered() && OutputOk(base + strstart) && blockStart >= 0
      ensures var t := Stored(window[blockStart..strstart]);
        Replay(out + [t]) == Some(text[..base + strstart]) && AllExpressible(out + [t], MaxDist())
    {
      hide Replay, ReadSymbols;
      var bytes := window[blockStart..strstart];
      assert bytes == text[base + blockStart..base + strstart];
      assert text[..base + blockStart] + bytes == text[..base + strstart];
      assert AllExpressible(out, MaxDist()) by {
        assert forall i :: 0 <= i < |out| ==> (out + Pending())[i] == out[i];
      }
      TokenExtends(out, Stored(bytes), base + blockStart, base + strstart);
    }

    /** Everything that holds between two steps of either strategy. */
    ghost predicate Between()
      reads this`strstart, this`lookahead, this`insert, this`insH, this`text, this`base, this`inserted, this`written,
            this`highWater, window, head, prev
    {
      && Buffered() && Chained(base + strstart - insert, base + strstart)
      && (insert == 0 || lookahead + insert < MIN_MATCH)
      && (lookahead > 0 ==> written >= Min(2 * wSize, strstart + lookahead + WIN_INIT))
    }

    /** A step may start: fill_window has done its work. */
    ghost predicate Ready()
      reads this`strstart, this`lookahead, this`insert, this`insH, this`text, this`base, this`inserted, this`written,
            this`highWater, window, head, prev
    {
      && Between() && Primed()
      && 0 < lookahead
      && strstart <= 2 * wSize - MIN_LOOKAHEAD
    }

    /** The longest match for the string at strstart longer than `least`, from the chain of its key as it
        is before the string itself is inserted; None when the chain is empty or too far away. */
    ghost function MatchHere(least: nat): Option<Best>
      requires Ready()
      reads this`strstart, this`lookahead, this`matchStart, this`insert, this`insH, this`text, this`base, this`inserted, this`written,
            this`highWater, window, head, prev
    {
      if lookahead < MIN_MATCH then None
      else
        var h := head[KeyAt(hashBits, text, base + strstart)];
        if h == NIL || strstart - h > MaxDist() || h >= strstart then None
        else
          var best := Search(window[..], prev[..][Slot(strstart, wSize) := h],
                             Limits(strstart, Limit(), Min(config.niceLength, lookahead)),
                             h, ChainLength(least), Best(least, matchStart));
          Some(best.(length := Min(best.length, lookahead)))
    }

    /** A match is found whenever the latest string with the same key is in reach, and at least as long a one as with
        that string. */
    lemma LatestIsMatched(least: nat)
      requires Ready() && lookahead >= MIN_MATCH
      requires var h := head[KeyAt(hashBits, text, base + strstart)]; h != NIL && h < strstart && strstart - h <= MaxDist()
      ensures var h := head[KeyAt(hashBits, text, base + strstart)];
        && MatchHere(least).Some?
        && MatchHere(least).value.length >= Min(CommonLength(window[..], h, strstart), lookahead)
    {
      var h := head[KeyAt(hashBits, text, base + strstart)];
      FirstCounts(window[..], prev[..][Slot(strstart, wSize) := h],
                  Limits(strstart, Limit(), Min(config.niceLength, lookahead)), h, ChainLength(least), Best(least, matchStart));
      hide KeyAt, Slot, Limit, Search, CommonLength, Chained, Primed;
    }

    /** Insert the current string and look for the longest match with an earlier one.
        The flag `search` is the extra condition of the lazy strategy. */
    method InsertAndMatch(search: bool) returns (found: bool)
      requires Ready() && 1 <= prevLength <= MAX_MATCH
      modifies this`insH, this`inserted, this`matchLength, this`matchStart, head, prev
      ensures Buffered()
      ensures if lookahead >= MIN_MATCH then Chained(base + strstart + 1, base + strstart + 1) else Chained(base + strstart - insert, base + strstart)
      ensures inserted == old(inserted) + (if lookahead >= MIN_MATCH then {base + strstart} else {})
      ensures lookahead >= MIN_MATCH ==> PrimedAt(strstart + 1)
      ensures found <==> search && old(MatchHere(prevLength)).Some?
      ensures found ==> var best := old(MatchHere(prevLength)).value;
        && matchLength == best.length && matchStart == best.start
        && Min(prevLength, MIN_MATCH) <= matchLength <= lookahead
        && (matchLength > prevLength ==>
              && matchStart < strstart && strstart - matchStart <= MaxDist() && matchLength <= MAX_MATCH
              && Repeats(text, base + strstart, matchLength, strstart - matchStart))
      ensures !found ==> matchLength == old(matchLength) && matchStart == old(matchStart)
    {
      hide KeyAt, UpdateHash, Key, Slot, ChainsOk, Search, Repeats;
      var hashHead: Pos := NIL;
      if lookahead >= MIN_MATCH {
        hashHead := InsertString(strstart, base + strstart);
      }
      if hashHead != NIL && search && strstart - hashHead <= MaxDist() {
        matchLength := LongestMatch(hashHead);
        found := true;
      } else {
        found := false;
      }
    }

    /** What deflate_fast emits for the string at strstart. */
    ghost function GreedyToken(): Token
      requires Ready()
      reads this, window, head, prev
    {
      match MatchHere(MIN_MATCH - 1)
      case Some(best) => if best.length >= MIN_MATCH then Match(best.length, Minus(strstart, best.start)) else Literal(window[strstart])
      case None => Literal(window[strstart])
    }

    /** deflate_fast emits a match whenever three bytes are repeated by the latest string with the same key in reach. */
    lemma GreedyTakes()
      requires Ready() && lookahead >= MIN_MATCH
      requires var h := head[KeyAt(hashBits, text, base + strstart)];
        && h != NIL && h < strstart && strstart - h <= MaxDist()
        && CommonLength(window[..], h, strstart) >= 3
      ensures var h := head[KeyAt(hashBits, text, base + strstart)];
        GreedyToken().Match? && GreedyToken().length >= Min(CommonLength(window[..], h, strstart), lookahead) >= 3
    {
      hide Between, Primed, MatchHere, CommonLength, KeyAt;
      LatestIsMatched(2);
    }

    ghost function Range(lo: nat, hi: nat): set<nat>
      decreases hi - lo
    {
      if lo >= hi then {} else Range(lo, hi - 1) + {hi - 1}
    }

    lemma {:induction false} RangeFirst(lo: nat, hi: nat)
      requires lo < hi
      ensures Range(lo, hi) == {lo} + Range(lo + 1, hi)
      decreases hi - lo
    {
      if lo + 1 < hi {
        RangeFirst(lo, hi - 1);
      }
    }

    lemma RangeOfOne(lo: nat)
      ensures Range(lo, lo + 1) == {lo}
    {
      assert Range(lo, lo) == {};
    }

    /** The strings of the text inserted by one greedy step. */
    ghost function GreedyInserts(): set<nat>
      requires Ready()
      reads this, window, head, prev
    {
      var n := if GreedyToken().Match? then GreedyToken().length else 1;
      var here := base + strstart;
      if lookahead < MIN_MATCH then {}
      else if n <= config.maxLazy && lookahead - n >= MIN_MATCH then Range(here, here + n)
      else {here}
    }

    /** Insert the rest of a match just emitted; strstart ends behind it. */
    method InsertMatch()
      requires Windowed() && Chained(base + strstart + 1, base + strstart + 1) && PrimedAt(strstart + 1)
      requires matchLength > 1 && base + strstart + matchLength + 1 < |text|
      modifies this`strstart, this`matchLength, this`insH, this`inserted, head, prev
      ensures matchLength == 0 && strstart == old(strstart + matchLength)
      ensures Chained(base + strstart, base + strstart) && PrimedAt(strstart)
      ensures inserted == old(inserted) + Range(old(base + strstart + 1), base + strstart)
    {
      hide Key, UpdateHash, ChainsOk, PrimedAt, Latest, KeyAt, Slot;
      matchLength := matchLength - 1;
      while true
        invariant matchLength > 0 && strstart + matchLength + 1 == old(strstart + matchLength)
        invariant Chained(base + strstart + 1, base + strstart + 1) && PrimedAt(strstart + 1)
        invariant inserted == old(inserted) + Range(old(base + strstart + 1), base + strstart + 1)
        decreases matchLength
      {
        strstart := strstart + 1;
        var _ := InsertString(strstart, base + strstart);
        matchLength := matchLength - 1;
        if matchLength == 0 {
          break;
        }
      }
      strstart := strstart + 1;
    }

    /** One round of deflate_fast after fill_window. */
    method FastStep() returns (bflush: bool)
      requires Ready() && OutputOk(base + strstart) && symNext < SymEnd()
      requires matchLength < MIN_MATCH && prevLength == MIN_MATCH - 1
      modifies this`strstart, this`lookahead, this`matchLength, this`matchStart, this`insH, this`inserted,
               this`symNext, this`tallied, head, prev, symBuf
      ensures Between() && Primed() && OutputOk(base + strstart) && matchLength < MIN_MATCH
      ensures symNext == old(symNext) + 3 <= SymEnd() && bflush == (symNext == SymEnd())
      ensures strstart > old(strstart) && strstart + lookahead == old(strstart + lookahead)
      ensures tallied == old(tallied) + [old(GreedyToken())]
      ensures inserted == old(inserted) + old(GreedyInserts())
    {
      hide Key, UpdateHash, KeyAt, ChainsOk, Latest, Slot, Replay, Repeats, Search, ReadSymbols, OutputOk, PrimedAt, Range;
      var _ := InsertAndMatch(true);
      if matchLength >= MIN_MATCH {
        RangeFirst(base + strstart, base + strstart + matchLength);
        bflush := FastMatch();
      } else {
        RangeOfOne(base + strstart);
        bflush := FastLiteral();
      }
    }

    /** Emit the match found for the string at strstart. */
    method FastMatch() returns (bflush: bool)
      requires Buffered() && Chained(base + strstart + 1, base + strstart + 1)
      requires insert == 0 && strstart <= 2 * wSize - MIN_LOOKAHEAD
      requires written >= Min(2 * wSize, strstart + lookahead + WIN_INIT)
      requires OutputOk(base + strstart) && symNext < SymEnd()
      requires PrimedAt(strstart + 1)
      requires MIN_MATCH <= matchLength <= Min(MAX_MATCH, lookahead)
      requires matchStart < strstart && strstart - matchStart <= MaxDist()
      requires Repeats(text, base + strstart, matchLength, strstart - matchStart)
      modifies this`strstart, this`lookahead, this`matchLength, this`insH, this`inserted,
               this`symNext, this`tallied, head, prev, symBuf
      ensures Between() && Primed() && OutputOk(base + strstart) && matchLength == 0
      ensures symNext == old(symNext) + 3 <= SymEnd() && bflush == (symNext == SymEnd())
      ensures strstart == old(strstart + matchLength) && strstart + lookahead == old(strstart + lookahead)
      ensures tallied == old(tallied) + [old(Match(matchLength, Minus(strstart, matchStart)))]
      ensures inserted == old(inserted) +
        if old(matchLength) <= config.maxLazy && lookahead >= MIN_MATCH
        then Range(old(base + strstart + 1), base + strstart) else {}
    {
      hide Key, UpdateHash, KeyAt, ChainsOk, Latest, Slot, Replay, Repeats, ReadSymbols, PrimedAt;
      bflush := TallyDist(Minus(strstart, matchStart), matchLength - MIN_MATCH, base + strstart);
      PassMatch();
    }

    /** Move behind a match just emitted, inserting its strings when it is short enough. */
    method PassMatch()
      requires Buffered() && Chained(base + strstart + 1, base + strstart + 1)
      requires insert == 0 && strstart <= 2 * wSize - MIN_LOOKAHEAD
      requires written >= Min(2 * wSize, strstart + lookahead + WIN_INIT)
      requires PrimedAt(strstart + 1)
      requires MIN_MATCH <= matchLength <= Min(MAX_MATCH, lookahead)
      modifies this`strstart, this`lookahead, this`matchLength, this`insH, this`inserted, head, prev
      ensures Between() && Primed() && matchLength == 0
      ensures strstart == old(strstart + matchLength) && strstart + lookahead == old(strstart + lookahead)
      ensures inserted == old(inserted) +
        if old(matchLength) <= config.maxLazy && lookahead >= MIN_MATCH
        then Range(old(base + strstart + 1), base + strstart) else {}
    {
      hide Key, UpdateHash, KeyAt, ChainsOk, Latest, Slot, PrimedAt, Range;
      lookahead := lookahead - matchLength;
      if matchLength <= config.maxLazy && lookahead >= MIN_MATCH {
        InsertMatch();
      } else {
        LaterBoundKeepsChains(hashBits, text, base, inserted, base + strstart + 1, base + strstart + 1,
                              base + strstart + matchLength, base + strstart + matchLength, head[..], prev[..]);
        strstart := strstart + matchLength;
        matchLength := 0;
        PrimeHash(strstart);
      }
    }

    /** Emit the byte at strstart as it is. */
    method FastLiteral() returns (bflush: bool)
      requires Buffered() && lookahead > 0
      requires if lookahead >= MIN_MATCH then Chained(base + strstart + 1, base + strstart + 1) else Chained(base + strstart - insert, base + strstart)
      requires insert == 0 || lookahead + insert < MIN_MATCH
      requires lookahead >= MIN_MATCH ==> PrimedAt(strstart + 1)
      requires written >= Min(2 * wSize, strstart + lookahead + WIN_INIT)
      requires OutputOk(base + strstart) && symNext < SymEnd()
      modifies this`strstart, this`lookahead, this`symNext, this`tallied, symBuf
      ensures Between() && Primed() && OutputOk(base + strstart)
      ensures symNext == old(symNext) + 3 <= SymEnd() && bflush == (symNext == SymEnd())
      ensures strstart == old(strstart) + 1 && lookahead == old(lookahead) - 1
      ensures tallied == old(tallied) + [Literal(old(window[strstart]))]
    {
      hide Key, UpdateHash, KeyAt, ChainsOk, Latest, Slot, Replay, Repeats, ReadSymbols;
      bflush := TallyLit(window[strstart], base + strstart);
      Advance();
    }

    /** The lazy strategy has handled the text up to here. */
    ghost function Done(): int
      reads this`strstart, this`base, this`matchAvailable
    {
      base + strstart - if matchAvailable then 1 else 0
    }

    /** A match kept from the previous step is one for the string at strstart - 1, whose start may have
        slid to window index -1, kept in match_start as the largest unsigned number. */
    ghost predicate LazyOk()
      reads this`strstart, this`lookahead, this`matchLength, this`matchStart, this`matchAvailable,
            this`text, this`base
    {
      && Shape() && (matchAvailable ==> strstart > 0)
      && MIN_MATCH - 1 <= matchLength <= MAX_MATCH
      && (matchLength >= MIN_MATCH ==>
            && matchAvailable && matchLength <= lookahead + 1
            && Minus(strstart - 1, matchStart) <= MaxDist()
            && Repeats(text, base + strstart - 1, matchLength, Minus(strstart - 1, matchStart)))
    }

    /** The length deflate_slow settles on for the string at strstart: 2 unless a match longer than the
        previous one is looked for and found, and is not a short match too far away. */
    ghost function NextLength(): nat
      requires Ready()
      reads this, window, head, prev
    {
      var found := if matchLength < config.maxLazy then MatchHere(matchLength) else None;
      match found
      case None => MIN_MATCH - 1
      case Some(best) =>
        if best.length <= 5 &&
           (strategy == Filtered || (best.length == MIN_MATCH && Minus(strstart, best.start) > TOO_FAR))
        then MIN_MATCH - 1 else best.length
    }

    /** The previous match is emitted when the current one is not longer. */
    ghost predicate TakesPrevious()
      requires Ready()
      reads this, window, head, prev
    {
      matchLength >= MIN_MATCH && NextLength() <= matchLength
    }

    /** The rules of lazy matching in numbers: no search when the match at hand is long enough, matches of three bytes
        more than 4096 back do not count, nor do those of up to five with the strategy for filtered data; and a match is
        taken when the next one is not longer. */
    lemma LazyRules()
      requires Ready() && LazyOk()
      ensures matchLength >= config.maxLazy || MatchHere(matchLength) == None ==> NextLength() == 2
      ensures matchLength < config.maxLazy && MatchHere(matchLength).Some? ==>
        var best := MatchHere(matchLength).value;
        NextLength() == if (best.length == 3 && Minus(strstart, best.start) > 4096) || (strategy == Filtered && best.length <= 5)
                        then 2 else best.length
      ensures TakesPrevious() <==> 3 <= matchLength && NextLength() <= matchLength
    {
      hide MatchHere, Between, Primed, LazyOk;
    }

    /** What one round of deflate_slow tallies. */
    ghost function LazyTokens(): seq<Token>
      requires Ready() && LazyOk()
      reads this, window, head, prev
    {
      if TakesPrevious() then [Match(matchLength, Minus(strstart - 1, matchStart))]
      else if matchAvailable then [Literal(window[strstart - 1])]
      else []
    }

    /** Shift the current match to the previous one and look for a new one. */
    method SlowDecide()
      requires Ready() && LazyOk()
      modifies this`insH, this`inserted, this`matchLength, this`matchStart, this`prevLength, this`prevMatch, head, prev
      ensures Decided()
      ensures inserted == old(inserted) + (if lookahead >= MIN_MATCH then {base + strstart} else {})
      ensures prevLength == old(matchLength) && prevMatch == old(matchStart)
      ensures matchLength == old(NextLength())
    {
      hide Buffered, Shape, Chained, MatchHere, Repeats, PrimedAt;
      ghost var found0 := MatchHere(matchLength);
      prevLength, prevMatch := matchLength, matchStart;
      matchLength := MIN_MATCH - 1;
      assert MatchHere(prevLength) == found0;
      var found := InsertAndMatch(prevLength < config.maxLazy);
      if found && matchLength <= 5 &&
         (strategy == Filtered || (matchLength == MIN_MATCH && Minus(strstart, matchStart) > TOO_FAR)) {
        matchLength := MIN_MATCH - 1;
      }
    }

    /** Insert the strings of the match just emitted, except those without three bytes in sight. */
    method InsertPrevious(maxInsert: nat)
      requires Windowed() && strstart + prevLength <= 2 * wSize
      requires prevLength > 0 && base + maxInsert + MIN_MATCH == |text|
      requires strstart <= maxInsert ==> Chained(base + strstart + 1, base + strstart + 1) && PrimedAt(strstart + 1)
      requires insert == 0 || maxInsert < strstart
      requires maxInsert < strstart ==> Chained(base + strstart - insert, base + strstart)
      modifies this`strstart, this`prevLength, this`insH, this`inserted, head, prev
      ensures strstart == old(strstart + prevLength) && prevLength == 0
      ensures Chained(base + strstart + 1 - insert, base + strstart + 1)
      ensures strstart <= maxInsert ==> PrimedAt(strstart + 1)
      ensures inserted == old(inserted) + Range(old(base + strstart + 1), base + Min(strstart, maxInsert) + 1)
    {
      hide Key, UpdateHash, KeyAt, ChainsOk, Latest, Slot, PrimedAt;
      ghost var next := if strstart <= maxInsert then base + strstart + 1 else base + strstart - insert;
      ghost var horizon := if strstart <= maxInsert then base + strstart + 1 else base + strstart;
      while true
        invariant prevLength > 0 && strstart + prevLength == old(strstart + prevLength)
        invariant Chained(next, horizon) && next <= base + strstart + 1 - insert && horizon <= base + strstart + 1
        invariant strstart <= maxInsert ==> next == base + strstart + 1 && PrimedAt(strstart + 1)
        invariant inserted == old(inserted) + Range(old(base + strstart + 1), base + Min(strstart, maxInsert) + 1)
        decreases prevLength
      {
        strstart := strstart + 1;
        if strstart <= maxInsert {
          var _ := InsertString(strstart, horizon);
          next, horizon := base + strstart + 1, base + strstart + 1;
        }
        prevLength := prevLength - 1;
        if prevLength == 0 {
          break;
        }
      }
      LaterBoundKeepsChains(hashBits, text, base, inserted, next, horizon,
                            base + strstart + 1 - insert, base + strstart + 1, head[..], prev[..]);
    }

    /** Emit the match kept from the previous step. */
    method SlowMatch() returns (bflush: bool)
      requires Buffered() && strstart > 0
      requires if lookahead >= MIN_MATCH then Chained(base + strstart + 1, base + strstart + 1) else Chained(base + strstart - insert, base + strstart)
      requires insert == 0 || lookahead + insert < MIN_MATCH
      requires lookahead >= MIN_MATCH ==> PrimedAt(strstart + 1)
      requires written >= Min(2 * wSize, strstart + lookahead + WIN_INIT)
      requires OutputOk(base + strstart - 1) && symNext < SymEnd()
      requires MIN_MATCH <= prevLength <= Min(MAX_MATCH, lookahead + 1)
      requires Minus(strstart - 1, prevMatch) <= MaxDist()
      requires Repeats(text, base + strstart - 1, prevLength, Minus(strstart - 1, prevMatch))
      modifies this`strstart, this`lookahead, this`prevLength, this`matchLength, this`matchAvailable,
               this`insH, this`inserted, this`symNext, this`tallied, head, prev, symBuf
      ensures Between() && Primed() && OutputOk(base + strstart)
      ensures !matchAvailable && matchLength == MIN_MATCH - 1
      ensures symNext == old(symNext) + 3 <= SymEnd() && bflush == (symNext == SymEnd())
      ensures strstart == old(strstart - 1 + prevLength) && strstart + lookahead == old(strstart + lookahead)
      ensures tallied == old(tallied) + [old(Match(prevLength, Minus(strstart - 1, prevMatch)))]
      ensures inserted == old(inserted) + Range(old(base + strstart + 1), Min(base + strstart, |text| - 2))
    {
      hide Key, UpdateHash, KeyAt, ChainsOk, Latest, Slot, Replay, Repeats, ReadSymbols, PrimedAt, Range;
      bflush := TallyDist(Minus(strstart - 1, prevMatch), prevLength - MIN_MATCH, base + strstart - 1);
      PassPrevious();
    }

    /** Move behind the match just emitted, inserting its strings. */
    method PassPrevious()
      requires Buffered() && strstart > 0
      requires if lookahead >= MIN_MATCH then Chained(base + strstart + 1, base + strstart + 1) else Chained(base + strstart - insert, base + strstart)
      requires insert == 0 || lookahead + insert < MIN_MATCH
      requires lookahead >= MIN_MATCH ==> PrimedAt(strstart + 1)
      requires written >= Min(2 * wSize, strstart + lookahead + WIN_INIT)
      requires MIN_MATCH <= prevLength <= lookahead + 1
      modifies this`strstart, this`lookahead, this`prevLength, this`matchLength, this`matchAvailable,
               this`insH, this`inserted, head, prev
      ensures Between() && Primed()
      ensures !matchAvailable && matchLength == MIN_MATCH - 1
      ensures strstart == old(strstart - 1 + prevLength) && strstart + lookahead == old(strstart + lookahead)
      ensures inserted == old(inserted) + Range(old(base + strstart + 1), Min(base + strstart, |text| - 2))
    {
      hide Key, UpdateHash, KeyAt, ChainsOk, Latest, Slot, PrimedAt, Range;
      var maxInsert := strstart + lookahead - MIN_MATCH;
      lookahead := lookahead - (prevLength - 1);
      prevLength := prevLength - 2;
      InsertPrevious(maxInsert);
      matchAvailable := false;
      matchLength := MIN_MATCH - 1;
      strstart := strstart + 1;
    }

    /** Emit the byte before strstart as it is, and keep what was found at strstart for the next step. */
    method SlowLiteral() returns (roomLeft: bool)
      requires Buffered() && lookahead > 0 && strstart > 0
      requires if lookahead >= MIN_MATCH then Chained(base + strstart + 1, base + strstart + 1) else Chained(base + strstart - insert, base + strstart)
      requires insert == 0 || lookahead + insert < MIN_MATCH
      requires lookahead >= MIN_MATCH ==> PrimedAt(strstart + 1)
      requires written >= Min(2 * wSize, strstart + lookahead + WIN_INIT)
      requires OutputOk(base + strstart - 1) && symNext < SymEnd()
      modifies this`strstart, this`lookahead, this`symNext, this`tallied, this`out, this`blockStart, this`starved, symBuf
      ensures Between() && Primed() && OutputOk(base + strstart - 1) && symNext < SymEnd()
      ensures starved == old(starved) + (if roomLeft then 0 else 1) && (!roomLeft ==> symNext == 0)
      ensures old(symNext) + 3 < SymEnd() ==> roomLeft && out == old(out)
      ensures strstart == old(strstart) + 1 && lookahead == old(lookahead) - 1
      ensures tallied == old(tallied) + [Literal(old(window[strstart - 1]))]
    {
      hide Key, UpdateHash, KeyAt, ChainsOk, Latest, Slot, Replay, Repeats, ReadSymbols, PrimedAt;
      var bflush := TallyLit(window[strstart - 1], base + strstart - 1);
      roomLeft := true;
      if bflush {
        roomLeft := FlushBlock();
      }
      Advance();
    }

    lemma HoldsText()
      requires Between()
      ensures Buffered()
    {
    }

    /** Move one byte on. */
    method Advance()
      requires Buffered() && lookahead > 0
      requires if lookahead >= MIN_MATCH then Chained(base + strstart + 1, base + strstart + 1) else Chained(base + strstart - insert, base + strstart)
      requires insert == 0 || lookahead + insert < MIN_MATCH
      requires lookahead >= MIN_MATCH ==> PrimedAt(strstart + 1)
      requires written >= Min(2 * wSize, strstart + lookahead + WIN_INIT)
      modifies this`strstart, this`lookahead
      ensures Between() && Primed()
      ensures strstart == old(strstart) + 1 && lookahead == old(lookahead) - 1
    {
      hide Key, UpdateHash, KeyAt, ChainsOk, Latest, Slot, PrimedAt;
      if lookahead < MIN_MATCH {
        LaterBoundKeepsChains(hashBits, text, base, inserted, base + strstart - insert, base + strstart,
                              base + strstart + 1 - insert, base + strstart + 1, head[..], prev[..]);
      }
      lookahead := lookahead - 1;
      strstart := strstart + 1;
    }

    /** One round of deflate_slow after fill_window. */
    method SlowStep() returns (roomLeft: bool)
      requires Ready() && LazyOk() && OutputOk(Done()) && symNext < SymEnd()
      modifies this`strstart, this`lookahead, this`matchLength, this`matchStart, this`prevLength, this`prevMatch,
               this`matchAvailable, this`insH, this`inserted, this`symNext, this`tallied, this`out, this`blockStart,
               this`starved, head, prev, symBuf
      ensures Between() && Primed() && LazyOk() && OutputOk(Done()) && symNext < SymEnd()
      ensures starved == old(starved) + (if roomLeft then 0 else 1) && (!roomLeft ==> symNext == 0)
      ensures old(symNext) + 3 < SymEnd() ==> roomLeft && out == old(out)
      ensures strstart > old(strstart) && strstart + lookahead == old(strstart + lookahead)
      ensures tallied == old(tallied) + old(LazyTokens())
      ensures matchLength == if old(TakesPrevious()) then MIN_MATCH - 1 else old(NextLength())
      ensures matchAvailable == !old(TakesPrevious())
    {
      hide KeyAt, Replay, PrimedAt, OutputOk, Chained, MatchHere, NextLength, Repeats;
      SlowDecide();
      roomLeft := SlowAct();
    }

    /** The string at strstart is inserted, and the matches there and one byte earlier are known. */
    ghost predicate Decided()
      reads this`strstart, this`lookahead, this`insert, this`insH, this`matchLength, this`matchStart, this`prevLength,
            this`prevMatch, this`matchAvailable, this`text, this`base, this`inserted, this`written, this`highWater,
            window, head, prev
    {
      && Buffered() && lookahead > 0 && (matchAvailable ==> strstart > 0)
      && (if lookahead >= MIN_MATCH then Chained(base + strstart + 1, base + strstart + 1) else Chained(base + strstart - insert, base + strstart))
      && (insert == 0 || lookahead + insert < MIN_MATCH)
      && (lookahead >= MIN_MATCH ==> PrimedAt(strstart + 1))
      && written >= Min(2 * wSize, strstart + lookahead + WIN_INIT)
      && MIN_MATCH - 1 <= prevLength <= MAX_MATCH && MIN_MATCH - 1 <= matchLength <= MAX_MATCH
      && (prevLength >= MIN_MATCH ==>
            && matchAvailable && prevLength <= lookahead + 1 && Minus(strstart - 1, prevMatch) <= MaxDist()
            && Repeats(text, base + strstart - 1, prevLength, Minus(strstart - 1, prevMatch)))
      && (matchLength > prevLength ==>
            && matchLength <= lookahead && matchStart < strstart && strstart - matchStart <= MaxDist()
            && Repeats(text, base + strstart, matchLength, strstart - matchStart))
    }

    /** Emit the previous match when the current one is not longer; else let go of the byte before. */
    method SlowAct() returns (roomLeft: bool)
      requires Decided() && OutputOk(Done()) && symNext < SymEnd()
      modifies this`strstart, this`lookahead, this`matchLength, this`prevLength, this`matchAvailable, this`insH,
               this`inserted, this`symNext, this`tallied, this`out, this`blockStart, this`starved, head, prev, symBuf
      ensures Between() && Primed() && LazyOk() && OutputOk(Done()) && symNext < SymEnd()
      ensures starved == old(starved) + (if roomLeft then 0 else 1) && (!roomLeft ==> symNext == 0)
      ensures old(symNext) + 3 < SymEnd() ==> roomLeft && out == old(out)
      ensures strstart > old(strstart) && strstart + lookahead == old(strstart + lookahead)
      ensures var takesPrevious := old(prevLength >= MIN_MATCH && matchLength <= prevLength);
        && matchAvailable == !takesPrevious
        && matchLength == (if takesPrevious then MIN_MATCH - 1 else old(matchLength))
        && tallied == old(tallied) +
             if takesPrevious then [old(Match(prevLength, Minus(strstart - 1, prevMatch)))]
             else if old(matchAvailable) then [Literal(old(window[strstart - 1]))] else []
    {
      hide PrimedAt, OutputOk, Chained, Repeats, Range, Between, Primed;
      roomLeft := true;
      if prevLength >= MIN_MATCH && matchLength <= prevLength {
        var bflush := SlowMatch();
        if bflush {
          HoldsText();
          roomLeft := FlushBlock();
        }
      } else if matchAvailable {
        roomLeft := SlowLiteral();
        hide LazyOk;
        KeepsMatch();
      } else {
        matchAvailable := true;
        Advance();
        hide LazyOk;
        KeepsMatch();
      }
    }

    /** A match found for the string at strstart - 1 just passed is kept for the next step. */
    lemma KeepsMatch()
      requires Shape() && matchAvailable && strstart > 0 && MIN_MATCH - 1 <= matchLength <= MAX_MATCH
      requires matchLength >= MIN_MATCH ==>
        && matchLength <= lookahead + 1 && matchStart < strstart - 1 && strstart - 1 - matchStart <= MaxDist()
        && Repeats(text, base + strstart - 1, matchLength, strstart - 1 - matchStart)
      ensures LazyOk()
    {
      assert matchStart < strstart - 1 <= matchStart + MaxDist() ==>
        Minus(strstart - 1, matchStart) == strstart - 1 - matchStart;
    }

    /** fill_window keeps everything the strategies rely on. */
    method Refill()
      requires Between() && lookahead < MIN_LOOKAHEAD
      modifies this`strstart, this`lookahead, this`insert, this`insH, this`matchStart, this`blockStart,
               this`highWater, this`nextIn, this`text, this`base, this`inserted, this`written, window, head, prev
      ensures Between() && (old(Primed()) ==> Primed())
      ensures Input() == old(Input()) && |nextIn| + lookahead == old(|nextIn| + lookahead)
      ensures base + strstart == old(base + strstart)
      ensures lookahead >= MIN_LOOKAHEAD || nextIn == []
      ensures strstart <= 2 * wSize - MIN_LOOKAHEAD
      ensures old(insert) == 0 ==> insert == 0 && inserted == old(inserted)
      ensures written >= Min(2 * wSize, strstart + lookahead + WIN_INIT)
      ensures old(LazyOk()) ==> LazyOk()
      ensures forall done :: old(OutputOk(done)) ==> OutputOk(done)
    {
      hide Chained, PrimedAt, Replay, ReadSymbols, CopyBack, Repeats, Minus;
      ghost var text0, where := text, base + strstart;
      FillWindow();
      assert |Input()| == |text| + |nextIn|;
      forall done | old(OutputOk(done))
        ensures OutputOk(done)
      {
        assert text[..base + blockStart] == text0[..base + blockStart];
        assert text[..done] == text0[..done];
      }
      if old(LazyOk()) {
        SameDistance(old(strstart), old(matchStart), strstart, matchStart);
        LazySurvives(text0);
      }
    }

    lemma SameDistance(s: int, m: int, s': int, m': int)
      requires Minus(s, m) == Minus(s', m')
      ensures Minus(s - 1, m) == Minus(s' - 1, m')
    {
    }

    /** More text does not spoil a match kept for the next step. */
    lemma LazySurvives(before: seq<byte>)
      requires Shape() && before <= text && (matchAvailable ==> strstart > 0)
      requires MIN_MATCH - 1 <= matchLength <= MAX_MATCH
      requires matchLength >= MIN_MATCH ==>
        && matchAvailable && matchLength <= lookahead + 1
        && Minus(strstart - 1, matchStart) <= MaxDist()
        && Repeats(before, base + strstart - 1, matchLength, Minus(strstart - 1, matchStart))
      ensures LazyOk()
    {
      if matchLength >= MIN_MATCH {
        RepeatsInLonger(before, text, base + strstart - 1, matchLength, Minus(strstart - 1, matchStart));
      }
    }

    /** The state between calls of deflate_fast. */
    ghost predicate FastOk()
      reads this`strstart, this`lookahead, this`insert, this`insH, this`matchStart, this`blockStart, this`highWater,
            this`nextIn, this`text, this`base, this`inserted, this`written, this`matchLength, this`prevLength,
            this`matchAvailable, this`symNext, this`tallied, this`out, window, head, prev, symBuf
    {
      && Between() && Primed() && OutputOk(base + strstart) && symNext < SymEnd()
      && matchLength < MIN_MATCH && prevLength == MIN_MATCH - 1
    }

    /** The state between calls of deflate_slow. */
    ghost predicate SlowOk()
      reads this`strstart, this`lookahead, this`insert, this`insH, this`matchStart, this`blockStart, this`highWater,
            this`nextIn, this`text, this`base, this`inserted, this`written, this`matchLength, this`prevLength,
            this`matchAvailable, this`symNext, this`tallied, this`out, window, head, prev, symBuf
    {
      Between() && Primed() && LazyOk() && OutputOk(Done()) && symNext < SymEnd()
    }

    /** The state between calls of deflate_rle and deflate_huff, which keep no dictionary. */
    ghost predicate RunOk()
      reads this`strstart, this`lookahead, this`insert, this`insH, this`matchStart, this`blockStart, this`highWater,
            this`nextIn, this`text, this`base, this`inserted, this`written, this`matchLength, this`prevLength,
            this`matchAvailable, this`symNext, this`tallied, this`out, window, head, prev, symBuf
    {
      && Between() && OutputOk(base + strstart) && symNext < SymEnd()
      && inserted == {} && insert == 0
    }

    /** The matcher may look at MAX_MATCH bytes from strstart on. */
    ghost predicate Roomy()
      reads this`strstart, this`lookahead, this`written
    {
      lookahead > 0 && strstart + MAX_MATCH < 2 * wSize && strstart + MAX_MATCH < written
    }

    /** The string at strstart is far enough from the end of the window. */
    ghost predicate Searchable()
      reads this`strstart, this`lookahead
    {
      lookahead > 0 && strstart <= 2 * wSize - MIN_LOOKAHEAD
    }

    /** fill_window between two rounds of any strategy. */
    method Replenish()
      requires Between() && lookahead < MIN_LOOKAHEAD
      modifies this`strstart, this`lookahead, this`insert, this`insH, this`matchStart, this`blockStart,
               this`highWater, this`nextIn, this`text, this`base, this`inserted, this`written, window, head, prev
      ensures Between() && Input() == old(Input()) && |nextIn| + lookahead == old(|nextIn| + lookahead)
      ensures lookahead >= MIN_LOOKAHEAD || nextIn == []
      ensures lookahead > 0 ==> Roomy() && Searchable()
      ensures old(FastOk()) ==> FastOk()
      ensures old(SlowOk()) ==> SlowOk()
      ensures old(RunOk()) ==> RunOk()
    {
      hide Between, OutputOk, LazyOk, Primed, Input, SymEnd;
      Refill();
    }

    /** All input is read, handled and flushed, and the output stands for it. */
    ghost predicate Complete()
      reads this`nextIn, this`lookahead, this`symNext, this`text, this`out, this`tallied
    {
      && nextIn == [] && lookahead == 0 && symNext == 0
      && Replay(out) == Some(Input()) && Replay(tallied) == Some(Input())
    }

    lemma FlushedIsComplete()
      requires nextIn == [] && lookahead == 0 && symNext == 0 && |text| == base + strstart
      requires OutputOk(base + strstart)
      ensures Complete()
    {
      assert out + Pending() == out;
      assert text[..base + strstart] == text && Input() == text;
    }

    /** deflate_fast.  Unless more input or more output space is needed, the job is complete. */
    method DeflateFast(flush: Flush) returns (state: BlockState)
      requires FastOk()
      modifies this`strstart, this`lookahead, this`insert, this`insH, this`matchStart, this`blockStart, this`highWater,
               this`nextIn, this`text, this`base, this`inserted, this`written, this`matchLength,
               this`symNext, this`tallied, this`out, this`starved, window, head, prev, symBuf
      ensures FastOk() && Input() == old(Input())
      ensures state != NeedMore ==> Complete()
      ensures state in {FinishStarted, FinishDone} <==> flush == Finish && state != NeedMore
      ensures state == NeedMore ==> starved > old(starved) || (flush == NoFlush && nextIn == [] && lookahead < MIN_LOOKAHEAD)
      ensures starved > old(starved) ==> state in {NeedMore, FinishStarted} && symNext == 0
      ensures starved >= old(starved) && (state == FinishStarted ==> starved > old(starved))
      ensures flush == NoFlush ==> state == NeedMore
    {
      hide *;
      while true
        invariant FastOk() && Input() == old(Input()) && starved == old(starved)
        decreases |nextIn| + lookahead
      {
        FastIsBetween();
        if lookahead < MIN_LOOKAHEAD {
          Replenish();
          if lookahead < MIN_LOOKAHEAD && flush == NoFlush {
            return NeedMore;
          }
          if lookahead == 0 {
            break;
          }
        }
        var roomLeft := FastRound();
        if !roomLeft {
          return NeedMore;
        }
      }
      state := FastEnd(flush);
    }

    lemma FastIsBetween()
      requires FastOk()
      ensures Between() && (lookahead >= MIN_LOOKAHEAD ==> Searchable())
    {
    }

    /** A round of deflate_fast and the flush that may follow it. */
    method FastRound() returns (roomLeft: bool)
      requires FastOk() && Searchable()
      modifies this`strstart, this`lookahead, this`insert, this`insH, this`matchStart, this`blockStart, this`highWater,
               this`nextIn, this`text, this`base, this`inserted, this`written, this`matchLength,
               this`symNext, this`tallied, this`out, this`starved, window, head, prev, symBuf
      ensures FastOk() && Input() == old(Input())
      ensures nextIn == old(nextIn) && lookahead < old(lookahead)
      ensures starved == old(starved) + (if roomLeft then 0 else 1) && (!roomLeft ==> symNext == 0)
      ensures old(symNext) + 3 < SymEnd() ==> roomLeft && out == old(out)
    {
      hide Chained, PrimedAt, OutputOk, GreedyToken, GreedyInserts;
      var bflush := FastStep();
      roomLeft := true;
      if bflush {
        roomLeft := FlushBlock();
      }
    }

    method FastEnd(flush: Flush) returns (state: BlockState)
      requires FastOk() && lookahead == 0 && nextIn == []
      modifies this`insert, this`symNext, this`out, this`blockStart, this`starved
      ensures FastOk()
      ensures state != NeedMore ==> Complete()
      ensures state in {FinishStarted, FinishDone} <==> flush == Finish && state != NeedMore
      ensures state == NeedMore ==> starved > old(starved)
      ensures starved > old(starved) ==> state in {NeedMore, FinishStarted} && symNext == 0
      ensures starved >= old(starved) && (state == FinishStarted ==> starved > old(starved))
    {
      hide Between, OutputOk, Complete;
      state := EndOfInput(flush);
    }

    /** The common end of the strategies: leave two strings for later, and flush. */
    method EndOfInput(flush: Flush) returns (state: BlockState)
      requires Between() && OutputOk(base + strstart) && symNext <= SymEnd()
      requires lookahead == 0 && nextIn == []
      modifies this`insert, this`symNext, this`out, this`blockStart, this`starved
      ensures Between() && OutputOk(base + strstart) && symNext < SymEnd()
      ensures insert == Min(strstart, MIN_MATCH - 1)
      ensures state != NeedMore ==> Complete()
      ensures state in {FinishStarted, FinishDone} <==> flush == Finish && state != NeedMore
      ensures state == NeedMore ==> starved > old(starved)
      ensures starved > old(starved) ==> state in {NeedMore, FinishStarted} && symNext == 0
      ensures starved >= old(starved) && (state == FinishStarted ==> starved > old(starved))
    {
      hide Between, Replay, ReadSymbols;
      KeepInsert();
      if flush == Finish {
        var roomLeft := FlushBlock();
        FlushedIsComplete();
        return if roomLeft then FinishDone else FinishStarted;
      }
      if symNext != 0 {
        var roomLeft := FlushBlock();
        if !roomLeft {
          return NeedMore;
        }
      }
      FlushedIsComplete();
      state := BlockDone;
    }

    /** The last two strings, or the only one, are left to be inserted later. */
    method KeepInsert()
      requires Between() && lookahead == 0
      modifies this`insert
      ensures Between() && Buffered() && |text| == base + strstart && insert == Min(strstart, MIN_MATCH - 1)
    {
      hide Chained;
      StringsInsertedEnd();
      insert := if strstart < MIN_MATCH - 1 then strstart else MIN_MATCH - 1;
    }

    /** With no lookahead, the last two strings have not been inserted. */
    lemma StringsInsertedEnd()
      requires Buffered() && lookahead == 0 && Chained(base + strstart - insert, base + strstart)
      ensures Chained(base + strstart - Min(strstart, MIN_MATCH - 1), base + strstart)
    {
      hide KeyAt, Slot;
      LowerBoundKeepsChains(hashBits, text, base, inserted, base + strstart - insert,
                            base + strstart - Min(strstart, MIN_MATCH - 1), base + strstart, head[..], prev[..]);
    }

    /** deflate_slow.  Unless more input or more output space is needed, the job is complete. */
    method DeflateSlow(flush: Flush) returns (state: BlockState)
      requires SlowOk()
      modifies this`strstart, this`lookahead, this`insert, this`insH, this`matchStart, this`blockStart, this`highWater,
               this`nextIn, this`text, this`base, this`inserted, this`written, this`matchLength,
               this`symNext, this`tallied, this`out, this`starved, this`prevLength, this`prevMatch,
               this`matchAvailable, window, head, prev, symBuf
      ensures SlowOk() && Input() == old(Input())
      ensures state != NeedMore ==> Complete() && !matchAvailable
      ensures state in {FinishStarted, FinishDone} <==> flush == Finish && state != NeedMore
      ensures state == NeedMore ==> starved > old(starved) || (flush == NoFlush && nextIn == [] && lookahead < MIN_LOOKAHEAD)
      ensures starved > old(starved) ==> state in {NeedMore, FinishStarted} && symNext == 0
      ensures starved >= old(starved) && (state == FinishStarted ==> starved > old(starved))
      ensures flush == NoFlush ==> state == NeedMore
    {
      hide *;
      while true
        invariant SlowOk() && Input() == old(Input()) && starved == old(starved)
        decreases |nextIn| + lookahead
      {
        SlowIsBetween();
        if lookahead < MIN_LOOKAHEAD {
          Replenish();
          if lookahead < MIN_LOOKAHEAD && flush == NoFlush {
            return NeedMore;
          }
          if lookahead == 0 {
            break;
          }
        }
        var roomLeft := SlowRound();
        if !roomLeft {
          return NeedMore;
        }
      }
      state := SlowEnd(flush);
    }

    lemma SlowIsBetween()
      requires SlowOk()
      ensures Between() && (lookahead >= MIN_LOOKAHEAD ==> Searchable())
    {
    }

    method SlowRound() returns (roomLeft: bool)
      requires SlowOk() && Searchable()
      modifies this`strstart, this`lookahead, this`insert, this`insH, this`matchStart, this`blockStart, this`highWater,
               this`nextIn, this`text, this`base, this`inserted, this`written, this`matchLength,
               this`symNext, this`tallied, this`out, this`starved, this`prevLength, this`prevMatch,
               this`matchAvailable, window, head, prev, symBuf
      ensures SlowOk() && Input() == old(Input())
      ensures nextIn == old(nextIn) && lookahead < old(lookahead)
      ensures starved == old(starved) + (if roomLeft then 0 else 1) && (!roomLeft ==> symNext == 0)
      ensures old(symNext) + 3 < SymEnd() ==> roomLeft && out == old(out)
    {
      hide Chained, PrimedAt, OutputOk, LazyOk, LazyTokens, TakesPrevious, NextLength;
      roomLeft := SlowStep();
    }

    method SlowEnd(flush: Flush) returns (state: BlockState)
      requires SlowOk() && lookahead == 0 && nextIn == []
      modifies this`insert, this`symNext, this`out, this`blockStart, this`starved, this`tallied, this`matchAvailable, symBuf
      ensures SlowOk()
      ensures state != NeedMore ==> Complete() && !matchAvailable
      ensures state in {FinishStarted, FinishDone} <==> flush == Finish && state != NeedMore
      ensures state == NeedMore ==> starved > old(starved)
      ensures starved > old(starved) ==> state in {NeedMore, FinishStarted} && symNext == 0
      ensures starved >= old(starved) && (state == FinishStarted ==> starved > old(starved))
    {
      hide Chained, PrimedAt, OutputOk, LazyOk, Complete;
      LastByte();
      state := EndOfInput(flush);
      NoMatchLeft();
    }

    /** At the end of the input the byte before strstart may still be owed. */
    method LastByte()
      requires SlowOk() && lookahead == 0
      modifies this`symNext, this`tallied, this`matchAvailable, symBuf
      ensures Between() && OutputOk(base + strstart) && symNext <= SymEnd()
      ensures !matchAvailable && matchLength == MIN_MATCH - 1
      ensures tallied == old(tallied) + if old(matchAvailable) then [Literal(window[old(strstart) - 1])] else []
    {
      hide Chained, PrimedAt, Replay, ReadSymbols, Repeats;
      if matchAvailable {
        var _ := TallyLit(window[strstart - 1], base + strstart - 1);
        matchAvailable := false;
      }
    }

    lemma NoMatchLeft()
      requires Shape() && !matchAvailable && matchLength == MIN_MATCH - 1
      ensures LazyOk()
    {
    }

    /** What deflate_rle emits at strstart: a run of the byte before, or that byte itself. */
    ghost function RunToken(): Token
      requires Between() && lookahead > 0 && strstart + MAX_MATCH <= 2 * wSize
      reads this, window, head, prev
    {
      var run := if lookahead >= MIN_MATCH && strstart > 0 then CommonLength(window[..], strstart - 1, strstart) else 0;
      if run >= MIN_MATCH then Match(Min(run, lookahead), 1) else Literal(window[strstart])
    }

    /** The rule of deflate_rle in numbers. */
    lemma RunRules()
      requires Between() && lookahead > 0 && strstart + MAX_MATCH <= 2 * wSize
      ensures lookahead >= 3 && strstart > 0 && CommonLength(window[..], strstart - 1, strstart) >= 3 ==>
        RunToken() == Match(Min(CommonLength(window[..], strstart - 1, strstart), lookahead), 1)
      ensures lookahead < 3 || strstart == 0 || CommonLength(window[..], strstart - 1, strstart) < 3 ==>
        RunToken() == Literal(window[strstart])
    {
      hide CommonLength, Chained;
    }

    /** The run of the byte before strstart; shorter than three counts as none. */
    method RunLength() returns (run: nat)
      requires Buffered() && strstart > 0
      requires strstart + MAX_MATCH < 2 * wSize && strstart + MAX_MATCH < written
      ensures var n := CommonLength(window[..], strstart - 1, strstart);
        run == if n >= MIN_MATCH then n else 0
    {
      hide CommonLength;
      var byte0 := window[strstart - 1];
      run := 0;
      if byte0 == window[strstart] && byte0 == window[strstart + 1] && byte0 == window[strstart + 2] {
        var k, equal := 2, true;
        while equal && k < MAX_MATCH
          invariant 2 <= k <= MAX_MATCH && (equal ==> (k - 2) % 8 == 0) && (k == 2 ==> equal)
          invariant forall j :: strstart - 1 <= j < strstart + k ==> window[j] == byte0
          invariant equal <==> window[strstart + k] == byte0
          decreases MAX_MATCH - k, equal
        {
          k, equal := RunOfEight(byte0, k);
        }
        run := k;
        RunIsCommon(byte0, k);
      } else {
        RunStarts();
      }
    }

    /** Eight comparisons with the repeated byte, stopping at the first difference. */
    method RunOfEight(byte0: byte, start: nat) returns (k: nat, equal: bool)
      requires Buffered()
      requires strstart + MAX_MATCH < 2 * wSize && strstart + MAX_MATCH < written
      requires start + 8 <= MAX_MATCH && window[strstart + start] == byte0
      ensures start < k <= start + 8 && (equal ==> k == start + 8)
      ensures forall j :: strstart + start <= j < strstart + k ==> window[j] == byte0
      ensures equal <==> window[strstart + k] == byte0
    {
      k, equal := start, true;
      while equal && k < start + 8
        invariant start <= k <= start + 8
        invariant !equal ==> start < k
        invariant forall j :: strstart + start <= j < strstart + k ==> window[j] == byte0
        invariant equal <==> window[strstart + k] == byte0
        decreases start + 8 - k, equal
      {
        k := k + 1;
        assert strstart + k < written;
        equal := window[strstart + k] == byte0;
      }
    }

    lemma RunIsCommon(byte0: byte, k: nat)
      requires Shape() && strstart > 0 && MIN_MATCH <= k <= MAX_MATCH && strstart + MAX_MATCH < 2 * wSize
      requires forall j :: strstart - 1 <= j < strstart + k ==> window[j] == byte0
      requires k < MAX_MATCH ==> window[strstart + k] != byte0
      ensures CommonLength(window[..], strstart - 1, strstart) == k
    {
      CommonFromIs(window[..], strstart - 1, strstart, 0, k);
    }

    lemma RunStarts()
      requires Shape() && strstart > 0 && strstart + MAX_MATCH < 2 * wSize
      ensures CommonLength(window[..], strstart - 1, strstart) >= MIN_MATCH ==>
        window[strstart - 1] == window[strstart] == window[strstart + 1] == window[strstart + 2]
    {
      var w := window[..];
      var n := CommonLength(w, strstart - 1, strstart);
      CommonFromIs(w, strstart - 1, strstart, 0, n);
      if n >= MIN_MATCH {
        assert w[strstart - 1] == w[strstart] && w[strstart] == w[strstart + 1] && w[strstart + 1] == w[strstart + 2];
      }
    }

    /** One round of deflate_rle after fill_window. */
    method RunStep() returns (bflush: bool)
      requires RunOk() && lookahead > 0
      requires strstart + MAX_MATCH < 2 * wSize && strstart + MAX_MATCH < written
      modifies this`strstart, this`lookahead, this`matchLength, this`symNext, this`tallied, symBuf
      ensures Between() && OutputOk(base + strstart)
      ensures symNext == old(symNext) + 3 <= SymEnd() && bflush == (symNext == SymEnd())
      ensures strstart > old(strstart) && strstart + lookahead == old(strstart + lookahead)
      ensures tallied == old(tallied) + [old(RunToken())]
    {
      hide CommonLength, Chained, Replay, ReadSymbols, Repeats, OutputOk;
      matchLength := 0;
      if lookahead >= MIN_MATCH && strstart > 0 {
        matchLength := RunLength();
        if matchLength > lookahead {
          matchLength := lookahead;
        }
      }
      if matchLength >= MIN_MATCH {
        RunRepeats(matchLength);
      }
      bflush := RunEmit();
    }

    method RunEmit() returns (bflush: bool)
      requires RunOk() && lookahead > 0
      requires matchLength <= Min(lookahead, MAX_MATCH)
      requires matchLength >= MIN_MATCH ==> Repeats(text, base + strstart, matchLength, 1)
      modifies this`strstart, this`lookahead, this`matchLength, this`symNext, this`tallied, symBuf
      ensures Between() && OutputOk(base + strstart)
      ensures symNext == old(symNext) + 3 <= SymEnd() && bflush == (symNext == SymEnd())
      ensures strstart > old(strstart) && strstart + lookahead == old(strstart + lookahead)
      ensures tallied == old(tallied) +
        [if old(matchLength) >= MIN_MATCH then Match(old(matchLength), 1) else Literal(window[old(strstart)])]
    {
      hide Between, OutputOk, Repeats, Pending;
      RunSays();
      if matchLength >= MIN_MATCH {
        bflush := TallyDist(1, matchLength - MIN_MATCH, base + strstart);
        MoveOn(matchLength);
        matchLength := 0;
      } else {
        bflush := TallyLit(window[strstart], base + strstart);
        MoveOn(1);
      }
      SymbolsFit(base + strstart);
    }

    lemma SymbolsFit(done: int)
      requires OutputOk(done)
      ensures symNext <= SymEnd()
    {
    }

    lemma RunSays()
      requires Between() && OutputOk(base + strstart) && lookahead > 0
      ensures base + strstart < |text| && window[strstart] == text[base + strstart] && strstart < window.Length
      ensures MaxDist() > 0 && symNext <= SymEnd() && Shape()
    {
    }

    /** n bytes of the lookahead are done with. */
    method MoveOn(n: nat)
      requires Between() && inserted == {} && insert == 0 && 0 < n <= lookahead
      modifies this`strstart, this`lookahead
      ensures Between() && strstart == old(strstart) + n && lookahead == old(lookahead) - n
    {
      hide Chained;
      RunMoves(n);
      lookahead := lookahead - n;
      strstart := strstart + n;
    }

    /** Without a dictionary strstart can move freely. */
    lemma RunMoves(n: nat)
      requires Shape() && inserted == {} && insert == 0
      requires Chained(base + strstart - insert, base + strstart)
      ensures Chained(base + strstart + n, base + strstart + n)
    {
      LaterBoundKeepsChains(hashBits, text, base, inserted, base + strstart, base + strstart,
                            base + strstart + n, base + strstart + n, head[..], prev[..]);
    }

    lemma RunRepeats(length: nat)
      requires Buffered() && 0 < strstart && length <= lookahead && strstart + MAX_MATCH <= 2 * wSize
      requires length <= CommonLength(window[..], strstart - 1, strstart)
      ensures Repeats(text, base + strstart, length, 1)
    {
      var w := window[..];
      CommonFromIs(w, strstart - 1, strstart, 0, CommonLength(w, strstart - 1, strstart));
      FoundRepeats(strstart - 1, CommonLength(w, strstart - 1, strstart), length);
    }

    /** deflate_rle */
    method DeflateRle(flush: Flush) returns (state: BlockState)
      requires RunOk()
      modifies this`strstart, this`lookahead, this`insert, this`insH, this`matchStart, this`blockStart, this`highWater,
               this`nextIn, this`text, this`base, this`inserted, this`written, this`matchLength,
               this`symNext, this`tallied, this`out, this`starved, window, head, prev, symBuf
      ensures RunOk() && Input() == old(Input())
      ensures state != NeedMore ==> Complete()
      ensures state in {FinishStarted, FinishDone} <==> flush == Finish && state != NeedMore
      ensures state == NeedMore ==> starved > old(starved) || (flush == NoFlush && nextIn == [] && lookahead <= MAX_MATCH)
      ensures starved > old(starved) ==> state in {NeedMore, FinishStarted} && symNext == 0
      ensures starved >= old(starved) && (state == FinishStarted ==> starved > old(starved))
      ensures flush == NoFlush ==> state == NeedMore
    {
      hide *;
      while true
        invariant RunOk() && Input() == old(Input()) && starved == old(starved)
        decreases |nextIn| + lookahead
      {
        RunIsBetween();
        if lookahead <= MAX_MATCH {
          Replenish();
          if lookahead <= MAX_MATCH && flush == NoFlush {
            return NeedMore;
          }
          if lookahead == 0 {
            break;
          }
        }
        var roomLeft := RunRound();
        if !roomLeft {
          return NeedMore;
        }
      }
      state := EndOfRun(flush);
    }

    lemma RunIsBetween()
      requires RunOk()
      ensures Between() && (lookahead > MAX_MATCH ==> Roomy()) && 0 < MAX_MATCH < MIN_LOOKAHEAD
    {
    }

    /** A round of deflate_rle and the flush that may follow it. */
    method RunRound() returns (roomLeft: bool)
      requires RunOk() && Roomy()
      modifies this`strstart, this`lookahead, this`insert, this`insH, this`matchStart, this`blockStart, this`highWater,
               this`nextIn, this`text, this`base, this`inserted, this`written, this`matchLength,
               this`symNext, this`tallied, this`out, this`starved, window, head, prev, symBuf
      ensures RunOk() && Input() == old(Input())
      ensures nextIn == old(nextIn) && lookahead < old(lookahead)
      ensures starved == old(starved) + (if roomLeft then 0 else 1) && (!roomLeft ==> symNext == 0)
      ensures old(symNext) + 3 < SymEnd() ==> roomLeft && out == old(out)
    {
      hide Chained, PrimedAt, OutputOk, RunToken;
      var bflush := RunStep();
      roomLeft := true;
      if bflush {
        roomLeft := FlushBlock();
      }
    }

    /** The common end of deflate_rle and deflate_huff. */
    method EndOfRun(flush: Flush) returns (state: BlockState)
      requires RunOk() && lookahead == 0 && nextIn == []
      modifies this`insert, this`symNext, this`out, this`blockStart, this`starved
      ensures RunOk()
      ensures state != NeedMore ==> Complete()
      ensures state in {FinishStarted, FinishDone} <==> flush == Finish && state != NeedMore
      ensures state == NeedMore ==> starved > old(starved)
      ensures starved > old(starved) ==> state in {NeedMore, FinishStarted} && symNext == 0
      ensures starved >= old(starved) && (state == FinishStarted ==> starved > old(starved))
    {
      hide PrimedAt, Replay, ReadSymbols, ChainsOk;
      insert := 0;
      if flush == Finish {
        var roomLeft := FlushBlock();
        FlushedIsComplete();
        return if roomLeft then FinishDone else FinishStarted;
      }
      if symNext != 0 {
        var roomLeft := FlushBlock();
        if !roomLeft {
          return NeedMore;
        }
      }
      FlushedIsComplete();
      state := BlockDone;
    }

    /** deflate_huff */
    method DeflateHuff(flush: Flush) returns (state: BlockState)
      requires RunOk()
      modifies this`strstart, this`lookahead, this`insert, this`insH, this`matchStart, this`blockStart, this`highWater,
               this`nextIn, this`text, this`base, this`inserted, this`written, this`matchLength,
               this`symNext, this`tallied, this`out, this`starved, window, head, prev, symBuf
      ensures RunOk() && Input() == old(Input())
      ensures state != NeedMore ==> Complete()
      ensures state in {FinishStarted, FinishDone} <==> flush == Finish && state != NeedMore
      ensures state == NeedMore ==> starved > old(starved) || (flush == NoFlush && nextIn == [] && lookahead == 0)
      ensures starved > old(starved) ==> state in {NeedMore, FinishStarted} && symNext == 0
      ensures starved >= old(starved) && (state == FinishStarted ==> starved > old(starved))
      ensures flush == NoFlush ==> state == NeedMore
    {
      hide *;
      while true
        invariant RunOk() && Input() == old(Input()) && starved == old(starved)
        decreases |nextIn| + lookahead
      {
        RunIsBetween();
        if lookahead == 0 {
          Replenish();
          if lookahead == 0 {
            if flush == NoFlush {
              return NeedMore;
            }
            break;
          }
        }
        var roomLeft := HuffRound();
        if !roomLeft {
          return NeedMore;
        }
      }
      state := EndOfRun(flush);
    }

    /** A round of deflate_huff: always a literal. */
    method HuffRound() returns (roomLeft: bool)
      requires RunOk() && lookahead > 0
      modifies this`strstart, this`lookahead, this`insert, this`insH, this`matchStart, this`blockStart, this`highWater,
               this`nextIn, this`text, this`base, this`inserted, this`written, this`matchLength,
               this`symNext, this`tallied, this`out, this`starved, window, head, prev, symBuf
      ensures RunOk() && Input() == old(Input())
      ensures nextIn == old(nextIn) && lookahead < old(lookahead)
      ensures starved == old(starved) + (if roomLeft then 0 else 1) && (!roomLeft ==> symNext == 0)
      ensures old(symNext) + 3 < SymEnd() ==> roomLeft && out == old(out)
      ensures tallied == old(tallied) + [Literal(old(window[strstart]))]
    {
      hide Chained, PrimedAt, OutputOk;
      matchLength := 0;
      var bflush := RunEmit();
      roomLeft := true;
      if bflush {
        roomLeft := FlushBlock();
      }
    }

    /** The state between calls of deflate. */
    ghost predicate Valid()
      reads this, window, head, prev, symBuf
    {
      && Between() && OutputOk(Done()) && symNext < SymEnd()
      && (finished ==> Complete())
      && (matchAvailable ==> IsLazy())
      && StrategyOk()
    }

    /** What each strategy needs beyond the common state. */
    ghost predicate StrategyOk()
      reads this`strstart, this`lookahead, this`insert, this`insH, this`matchStart, this`text, this`base,
            this`inserted, this`matchLength, this`prevLength, this`matchAvailable, window
    {
      if strategy == HuffmanOnly || strategy == Rle then inserted == {} && insert == 0
      else Primed() && if level <= 3 then matchLength < MIN_MATCH && prevLength == MIN_MATCH - 1 else LazyOk()
    }

    /** Only deflate_slow holds a byte back. */
    predicate IsLazy() {
      strategy != HuffmanOnly && strategy != Rle && level > 3
    }

    /** deflateInit2 and lm_init, for sizes that Sizes below allows. */
    constructor (level: nat, strategy: Strategy, wSize: nat, hashBits: HashBits, litBufsize: nat)
      requires 1 <= level <= 9 && 512 <= wSize <= 0x8000 && 128 <= litBufsize
      ensures Valid() && !finished && Input() == [] && out == [] && tallied == []
      ensures this.level == level && this.strategy == strategy && this.wSize == wSize
      ensures fresh(window) && fresh(head) && fresh(prev) && fresh(symBuf)
    {
      hide HashSize, Pow2, Chained, Repeats;
      this.level, this.strategy, config := level, strategy, Configuration(level);
      this.wSize, this.hashBits, this.litBufsize := wSize, hashBits, litBufsize;
      window := new byte[2 * wSize];
      prev := new Pos[wSize];
      head := new Pos[HashSize(hashBits)](_ => NIL);
      symBuf := new byte[3 * litBufsize];
      strstart, lookahead, insert, insH, matchStart, blockStart, highWater := 0, 0, 0, 0, 0, 0, 0;
      matchLength, prevLength, prevMatch, matchAvailable := MIN_MATCH - 1, MIN_MATCH - 1, 0, false;
      nextIn, symNext, out, finished := [], 0, [], false;
      text, base, inserted, tallied, written, starved, markers := [], 0, {}, [], 0, 0, 0;
      new;
      hide *;
      StartsValid();
    }

    /** With nothing read and every table empty, everything holds that later calls rely on. */
    lemma StartsValid()
      requires Shape() && forall h :: 0 <= h < head.Length ==> head[h] == NIL
      requires strstart == lookahead == insert == insH == highWater == blockStart == symNext == 0
      requires matchLength == prevLength == MIN_MATCH - 1 && !matchAvailable && !finished
      requires text == [] && base == 0 && inserted == {} && out == [] && tallied == [] && written == 0
      ensures Valid()
    {
      hide HashSize, Pow2, Chained, Repeats;
      NothingChained();
    }

    /** The sizes deflateInit2 computes from windowBits 9..15 and memLevel 1..9. */
    static lemma Sizes(windowBits: nat, memLevel: nat)
      requires 9 <= windowBits <= 15 && 1 <= memLevel <= 9
      ensures 512 <= Pow2(windowBits) <= 0x8000 && 128 <= Pow2(memLevel + 6)
    {
      assert Pow2(4) == 16 && Pow2(3) == 8 && Pow2(2) == 4 && Pow2(1) == 2;
      Pow2Add(4, 4);
      Pow2Add(8, 1);
      Pow2Add(8, 4);
      Pow2Add(12, 3);
      Pow2Add(4, 3);
      Pow2Monotone(9, windowBits);
      Pow2Monotone(windowBits, 15);
      Pow2Monotone(7, memLevel + 6);
    }

    /** The application hands over more input. */
    method Provide(data: seq<byte>)
      requires Valid() && !finished
      modifies this`nextIn
      ensures Valid() && Input() == old(Input()) + data
      ensures text == old(text) && out == old(out) && tallied == old(tallied)
    {
      hide OutputOk, Chained, PrimedAt;
      assert text + (nextIn + data) == (text + nextIn) + data;
      nextIn := nextIn + data;
    }

    /** CLEAR_HASH */
    method ClearHash()
      requires Shape()
      modifies this`inserted, head
      ensures inserted == {} && forall h :: 0 <= h < head.Length ==> head[h] == NIL
    {
      forall h | 0 <= h < head.Length {
        head[h] := NIL;
      }
      inserted := {};
    }

    /** Z_FULL_FLUSH: forget the dictionary, and empty the window when nothing is waiting in it. */
    method ForgetHistory()
      requires Valid() && Complete() && !matchAvailable
      modifies this`strstart, this`blockStart, this`insert, this`base, this`inserted, head
      ensures Valid() && Complete() && strstart == 0 && inserted == {}
    {
      hide Replay, ReadSymbols, PrimedAt, Chained, AllExpressible, HashSize, Repeats;
      ghost var whole := base + strstart;
      ClearHash();
      if lookahead == 0 {
        FlushedUpTo(whole);
        strstart := 0;
        blockStart := 0;
        insert := 0;
        base := whole;
      }
      assert forall next, horizon :: Chained(next, horizon) by { NothingChained(); }
    }

    lemma NothingChained()
      requires Shape() && inserted == {} && forall h :: 0 <= h < head.Length ==> head[h] == NIL
      ensures forall next, horizon :: Chained(next, horizon)
    {
      forall next, horizon
        ensures Chained(next, horizon)
      {
        ClearedChains(hashBits, text, base, next, horizon, head[..], prev[..]);
      }
    }

    /** With nothing pending, everything done is flushed. */
    lemma FlushedUpTo(done: nat)
      requires OutputOk(done) && symNext == 0
      ensures base + blockStart == done
    {
      assert out + Pending() == out;
      assert |text[..base + blockStart]| == |text[..done]|;
    }

    /** An empty stored block marks the flush point. */
    method EmptyBlock()
      requires Valid() && Complete()
      modifies this`out, this`markers
      ensures Valid() && Complete() && out == old(out) + [Stored([])] && markers == old(markers) + 1
    {
      hide Chained, PrimedAt, ReadSymbols, Replay, Expressible;
      ReplayAppend(out, Stored([]));
      assert forall s: seq<byte> :: s + [] == s;
      NothingPending();
      EmptyIsExpressible();
      out := out + [Stored([])];
      markers := markers + 1;
      NothingPending();
    }

    lemma EmptyIsExpressible()
      requires Shape()
      ensures Expressible(Stored([]), MaxDist())
    {
    }

    /** Unless a flush is asked for, the strategies wait for this much lookahead. */
    function LeastAhead(): nat {
      if strategy == HuffmanOnly then 1 else if strategy == Rle then MAX_MATCH + 1 else MIN_LOOKAHEAD
    }

    /** The strategy's function. */
    method RunStrategy(flush: Flush) returns (state: BlockState)
      requires Valid() && !finished
      modifies this, window, head, prev, symBuf
      ensures !finished && Valid() && Input() == old(Input()) && markers == old(markers)
      ensures state != NeedMore ==> Complete() && !matchAvailable
      ensures state in {FinishStarted, FinishDone} <==> flush == Finish && state != NeedMore
      ensures state == NeedMore ==> starved > old(starved) || (flush == NoFlush && nextIn == [] && lookahead < LeastAhead())
      ensures starved > old(starved) ==> state in {NeedMore, FinishStarted} && symNext == 0
      ensures starved >= old(starved) && (state == FinishStarted ==> starved > old(starved))
      ensures flush == NoFlush ==> state == NeedMore
    {
      hide Between, OutputOk, LazyOk, Primed, Complete;
      if strategy == HuffmanOnly {
        state := DeflateHuff(flush);
      } else if strategy == Rle {
        state := DeflateRle(flush);
      } else if level <= 3 {
        state := DeflateFast(flush);
      } else {
        state := DeflateSlow(flush);
      }
    }

    /** The part of deflate() that compresses.  Once it reports BlockDone or a finish, the flushed blocks
        stand for exactly the input given so far, however it was split. */
    method Deflate(flush: Flush) returns (state: BlockState)
      requires Valid() && !finished
      modifies this, window, head, prev, symBuf
      ensures Valid() && Input() == old(Input())
      ensures state != NeedMore ==> Complete()
      ensures finished <==> flush == Finish && state != NeedMore
      ensures finished <==> state in {FinishStarted, FinishDone}
      ensures state == NeedMore ==> starved > old(starved) || (flush == NoFlush && nextIn == [] && lookahead < LeastAhead())
      ensures starved > old(starved) ==> state in {NeedMore, FinishStarted} && symNext == 0
      ensures starved >= old(starved) && (state == FinishStarted ==> starved > old(starved))
      ensures flush == NoFlush ==> state == NeedMore
      ensures markers == old(markers) + if state == BlockDone && flush in {SyncFlush, FullFlush} then 1 else 0
      ensures state == BlockDone && flush in {SyncFlush, FullFlush} ==> out != [] && out[|out| - 1] == Stored([])
      ensures state == BlockDone && flush == FullFlush ==> strstart == 0 && inserted == {}
    {
      hide Between, OutputOk, LazyOk, Primed, Complete, StrategyOk;
      if nextIn == [] && lookahead == 0 && flush == NoFlush {
        return NeedMore;
      }
      state := RunStrategy(flush);
      if state == FinishStarted || state == FinishDone {
        finished := true;
      }
      if state == BlockDone && flush != PartialFlush && flush != Block {
        EmptyBlock();
        if flush == FullFlush {
          ForgetHistory();
        }
      }
    }
  }
}
