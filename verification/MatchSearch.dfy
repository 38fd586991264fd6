/** What longest_match computes, without its shortcuts: compare every candidate of the chain in full. */
module MatchSearch {
  import opened Bitwise
  import opened HashChains
  import opened Lz77

  /** How many of the first MAX_MATCH bytes at a and b agree, given that the first k do. */
  function CommonFrom(w: seq<byte>, a: nat, b: nat, k: nat): (n: nat)
    requires k <= MAX_MATCH && a + MAX_MATCH <= |w| && b + MAX_MATCH <= |w|
    ensures k <= n <= MAX_MATCH
    decreases MAX_MATCH - k
  {
    if k == MAX_MATCH || w[a + k] != w[b + k] then k else CommonFrom(w, a, b, k + 1)
  }

  function CommonLength(w: seq<byte>, a: nat, b: nat): (n: nat)
    requires a + MAX_MATCH <= |w| && b + MAX_MATCH <= |w|
    ensures n <= MAX_MATCH
  {
    CommonFrom(w, a, b, 0)
  }

  ghost predicate Agree(w: seq<byte>, a: nat, b: nat, n: nat)
    requires a + n <= |w| && b + n <= |w|
  {
    forall j :: a <= j < a + n ==> w[j] == w[j - a + b]
  }

  lemma AgreeOnTwo(w: seq<byte>, a: nat, b: nat)
    requires a + 3 <= |w| && b + 3 <= |w| && Agree(w, a, b, 3)
    ensures Agree(w, a, b, 0) && Agree(w, a, b, 2) && w[a + 2] == w[b + 2]
  {
    assert w[a + 2] == w[a + 2 - a + b];
  }

  /** CommonLength is the length n for which n bytes agree and the next one (if allowed) differs. */
  lemma {:induction false} CommonFromIs(w: seq<byte>, a: nat, b: nat, k: nat, n: nat)
    requires k <= n <= MAX_MATCH && a + MAX_MATCH <= |w| && b + MAX_MATCH <= |w|
    requires Agree(w, a, b, k)
    ensures CommonFrom(w, a, b, k) == n
       <==> Agree(w, a, b, n) && (n < MAX_MATCH ==> w[a + n] != w[b + n])
    decreases MAX_MATCH - k
  {
    if k < MAX_MATCH && w[a + k] == w[b + k] {
      if k < n {
        CommonFromIs(w, a, b, k + 1, n);
      }
    } else if k < n {
      assert w[a + k] != w[a + k - a + b];
    }
  }

  datatype Best = Best(length: nat, start: nat)

  datatype Limits = Limits(scan: nat, limit: nat, nice: nat)

  /** A candidate replaces the best match so far only when strictly longer. */
  function Consider(w: seq<byte>, scan: nat, cur: nat, best: Best): (r: Best)
    requires scan + MAX_MATCH <= |w| && cur < scan
    ensures r.length >= best.length
  {
    var n := CommonLength(w, cur, scan);
    if n > best.length then Best(n, cur) else best
  }

  /** Walk the chain from cur, at most `chain` candidates, stopping at a nice match or at the limit. */
  function Search(w: seq<byte>, prev: seq<Pos>, at: Limits, cur: nat, chain: nat, best: Best): (r: Best)
    requires at.scan + MAX_MATCH <= |w| && cur < at.scan && |prev| > 0 && chain > 0
    ensures r.length >= best.length
    decreases chain
  {
    var now := Consider(w, at.scan, cur, best);
    var older := prev[Slot(cur, |prev|)];
    if now != best && now.length >= at.nice then now
    else if at.limit < older < at.scan && chain > 1 then Search(w, prev, at, older, chain - 1, now)
    else now
  }

  /** A match found by the search is a real one, within the limit, and longer than asked for. */
  lemma {:induction false} SearchIsSound(w: seq<byte>, prev: seq<Pos>, at: Limits, cur: nat, chain: nat, best: Best)
    requires at.scan + MAX_MATCH <= |w| && cur < at.scan && |prev| > 0 && chain > 0
    ensures var r := Search(w, prev, at, cur, chain, best);
      r.length >= best.length &&
      (r != best ==>
         r.length > best.length && r.start < at.scan && (r.start == cur || r.start > at.limit) &&
         r.length <= MAX_MATCH && Agree(w, r.start, at.scan, r.length))
    decreases chain
  {
    CommonFromIs(w, cur, at.scan, 0, CommonLength(w, cur, at.scan));
    var now := Consider(w, at.scan, cur, best);
    var older := prev[Slot(cur, |prev|)];
    if !(now != best && now.length >= at.nice) && at.limit < older < at.scan && chain > 1 {
      SearchIsSound(w, prev, at, older, chain - 1, now);
    }
  }

  /** The candidates of a chain: at most `chain` of them, above the limit. */
  function Candidates(prev: seq<Pos>, at: Limits, cur: nat, chain: nat): (cs: seq<nat>)
    requires cur < at.scan && |prev| > 0 && chain > 0
    ensures |cs| > 0 && forall i :: 0 <= i < |cs| ==> cs[i] < at.scan
    decreases chain
  {
    var older := prev[Slot(cur, |prev|)];
    [cur] + if at.limit < older < at.scan && chain > 1 then Candidates(prev, at, older, chain - 1) else []
  }

  /** A candidate that agrees for longer than any before it. */
  ghost predicate IsRecord(w: seq<byte>, scan: nat, cs: seq<nat>, i: nat, r: Best)
    requires scan + MAX_MATCH <= |w| && forall k :: 0 <= k < |cs| ==> cs[k] < scan
  {
    && i < |cs| && r == Best(CommonLength(w, cs[i], scan), cs[i])
    && forall j :: 0 <= j < i ==> CommonLength(w, cs[j], scan) < r.length
  }

  /** The search finds the longest match of the chain, and of equally long ones the nearest; it looks no further than
      a match that is nice. */
  lemma {:induction false} SearchIsLongest(w: seq<byte>, prev: seq<Pos>, at: Limits, cur: nat, chain: nat, best: Best)
    returns (i: nat)
    requires at.scan + MAX_MATCH <= |w| && cur < at.scan && |prev| > 0 && chain > 0
    ensures var cs, r := Candidates(prev, at, cur, chain), Search(w, prev, at, cur, chain, best);
      && (r != best ==> r.length > best.length && IsRecord(w, at.scan, cs, i, r))
      && ((r != best && r.length >= at.nice) ||
          forall k :: 0 <= k < |cs| ==> CommonLength(w, cs[k], at.scan) <= r.length)
    decreases chain
  {
    hide *;
    i := 0;
    var now, cs := Consider(w, at.scan, cur, best), Candidates(prev, at, cur, chain);
    Unfolded(w, prev, at, cur, chain, best);
    if now != best {
      FirstIsRecord(w, at.scan, cs, now);
    }
    if Stops(prev, at, cur, chain, best, now) {
      assert |cs| == 1 ==> forall k :: 0 <= k < |cs| ==> cs[k] == cur;
    } else {
      var older := prev[Slot(cur, |prev|)];
      var rest, r := Candidates(prev, at, older, chain - 1), Search(w, prev, at, older, chain - 1, now);
      var next := SearchIsLongest(w, prev, at, older, chain - 1, now);
      RecordAfter(w, at.scan, cur, rest, next, r);
      if r != now {
        i := next + 1;
      }
    }
  }

  /** The candidate at the front of the chain always counts. */
  lemma FirstCounts(w: seq<byte>, prev: seq<Pos>, at: Limits, cur: nat, chain: nat, best: Best)
    requires at.scan + MAX_MATCH <= |w| && cur < at.scan && |prev| > 0 && chain > 0
    ensures Search(w, prev, at, cur, chain, best).length >= CommonLength(w, cur, at.scan)
  {
    Unfolded(w, prev, at, cur, chain, best);
    hide *;
  }

  /** The chain ends, or what has been found is nice enough. */
  predicate Stops(prev: seq<Pos>, at: Limits, cur: nat, chain: nat, best: Best, now: Best)
    requires |prev| > 0
  {
    (now != best && now.length >= at.nice) || !(at.limit < prev[Slot(cur, |prev|)] < at.scan && chain > 1)
  }

  lemma Unfolded(w: seq<byte>, prev: seq<Pos>, at: Limits, cur: nat, chain: nat, best: Best)
    requires at.scan + MAX_MATCH <= |w| && cur < at.scan && |prev| > 0 && chain > 0
    ensures var now, cs, older := Consider(w, at.scan, cur, best), Candidates(prev, at, cur, chain), prev[Slot(cur, |prev|)];
      && cs[0] == cur && CommonLength(w, cur, at.scan) <= now.length
      && (now != best ==> now.length > best.length && now == Best(CommonLength(w, cur, at.scan), cur))
      && if Stops(prev, at, cur, chain, best, now) then
           Search(w, prev, at, cur, chain, best) == now && (|cs| == 1 || (now != best && now.length >= at.nice))
         else
           && older < at.scan && chain > 1 && cs == [cur] + Candidates(prev, at, older, chain - 1)
           && Search(w, prev, at, cur, chain, best) == Search(w, prev, at, older, chain - 1, now)
  {
    hide CommonLength;
  }

  lemma FirstIsRecord(w: seq<byte>, scan: nat, cs: seq<nat>, r: Best)
    requires scan + MAX_MATCH <= |w| && |cs| > 0 && forall k :: 0 <= k < |cs| ==> cs[k] < scan
    requires r == Best(CommonLength(w, cs[0], scan), cs[0])
    ensures IsRecord(w, scan, cs, 0, r)
  {
  }

  /** One more candidate in front. */
  lemma RecordAfter(w: seq<byte>, scan: nat, cur: nat, cs: seq<nat>, i: nat, r: Best)
    requires scan + MAX_MATCH <= |w| && cur < scan && forall k :: 0 <= k < |cs| ==> cs[k] < scan
    ensures CommonLength(w, cur, scan) < r.length && IsRecord(w, scan, cs, i, r) ==> IsRecord(w, scan, [cur] + cs, i + 1, r)
    ensures CommonLength(w, cur, scan) <= r.length && (forall k :: 0 <= k < |cs| ==> CommonLength(w, cs[k], scan) <= r.length) ==>
      forall k :: 0 <= k < |cs| + 1 ==> CommonLength(w, ([cur] + cs)[k], scan) <= r.length
  {
    hide CommonLength;
    assert forall k :: 0 < k < |cs| + 1 ==> ([cur] + cs)[k] == cs[k - 1];
  }
}
