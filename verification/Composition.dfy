/** In-place canonical composition (Unicode Standard sections 3.11 and 3.12): what it computes and when it is
    undone by decomposition. */
module Composition {
  import opened CanonicalOrder
  import opened Wrappers

  const SBASE := 0xAC00
  const LBASE := 0x1100
  const VBASE := 0x1161
  const TBASE := 0x11A7
  const LCOUNT := 19
  const VCOUNT := 21
  const TCOUNT := 28
  const NCOUNT := 588
  const SCOUNT := 11172

  /** The data tables: combining classes, full decompositions, composable pairs (0 for none), exclusions. */
  datatype Ucd = Ucd(ccc: Classes, decomposed: int -> seq<int>, pair: (int, int) -> int, excluded: int -> bool)

  predicate IsL(c: int) { LBASE <= c < LBASE + LCOUNT }
  predicate IsV(c: int) { VBASE <= c < VBASE + VCOUNT }
  predicate IsT(c: int) { TBASE <= c < TBASE + TCOUNT }
  predicate IsSyllable(c: int) { SBASE <= c < SBASE + SCOUNT }
  predicate IsLV(c: int) { IsSyllable(c) && (c - SBASE) % TCOUNT == 0 }
  predicate IsHangul(c: int) { IsL(c) || IsV(c) || IsT(c) || IsSyllable(c) }

  /** The full canonical decomposition of a code point; Hangul syllables by arithmetic. */
  function Full(u: Ucd, c: int): seq<int> {
    if IsSyllable(c) then
      var sindex := c - SBASE;
      [LBASE + sindex / NCOUNT, VBASE + sindex % NCOUNT / TCOUNT]
        + if sindex % TCOUNT == 0 then [] else [TBASE + sindex % TCOUNT]
    else u.decomposed(c)
  }

  /** What the tables of the Unicode Character Database guarantee. */
  ghost predicate Sound(u: Ucd) {
    && (forall c :: IsHangul(c) ==> u.ccc(c) == 0)
    && (forall c :: IsL(c) || IsV(c) || IsT(c) ==> u.decomposed(c) == [c])
    && (forall c, i :: 0 <= i < |Full(u, c)| ==> Full(u, Full(u, c)[i]) == [Full(u, c)[i]])
    && (forall a, b :: u.ccc(a) == 0 && u.pair(a, b) > 0 ==> PairIsSound(u, a, b))
  }

  predicate PairIsSound(u: Ucd, a: int, b: int) {
    var c := u.pair(a, b);
    && !IsHangul(a) && !IsHangul(b) && !IsHangul(c)
    && u.ccc(c) == 0
    && Full(u, c) == Full(u, a) + Full(u, b)
  }

  /** The tables of a repertoire whose only composite is e with acute. */
  function Small(): Ucd {
    Ucd(c => if c == 0x301 then 230 else 0,
        c => if c == 0xE9 then [0x65, 0x301] else [c],
        (a, b) => if a == 0x65 && b == 0x301 then 0xE9 else 0,
        c => false)
  }

  lemma SmallIsSound()
    ensures Sound(Small())
  {
    forall c, i | 0 <= i < |Full(Small(), c)|
      ensures Full(Small(), Full(Small(), c)[i]) == [Full(Small(), c)[i]]
    {
    }
  }

  /** The code point that a starter and a following code point compose to. */
  function Primary(u: Ucd, stable: bool, a: int, b: int): Option<int> {
    if IsL(a) && IsV(b) then Some(SBASE + ((a - LBASE) * VCOUNT + (b - VBASE)) * TCOUNT)
    else if IsLV(a) && IsT(b) then Some(a + (b - TBASE))
    else
      var c := u.pair(a, b);
      if c > 0 && (!stable || !u.excluded(c)) then Some(c) else None
  }

  /** What the tables guarantee besides: decompositions are not empty and in canonical order, and the second code
      point of a pair does not decompose. */
  ghost predicate Tidy(u: Ucd) {
    && (forall c :: Full(u, c) != [] && Ordered(u.ccc, Full(u, c)))
    && (forall a, b :: u.ccc(a) == 0 && u.pair(a, b) > 0 ==> Full(u, b) == [b])
  }

  lemma SmallIsTidy()
    ensures Tidy(Small())
  {
  }

  // ----- the reference

  /** The position of the last starter, or -1. */
  function LastStarter(ccc: Classes, w: seq<int>): (p: int)
    ensures -1 <= p < |w|
    ensures p >= 0 ==> ccc(w[p]) == 0
    ensures forall q :: p < q < |w| ==> ccc(w[q]) > 0
  {
    if w == [] then -1
    else if ccc(w[|w| - 1]) == 0 then |w| - 1
    else LastStarter(ccc, w[..|w| - 1])
  }

  /** Definition D115: a mark between the starter and x keeps them apart. */
  ghost predicate Blocked(ccc: Classes, w: seq<int>, p: int, x: int)
    requires -1 <= p < |w|
  {
    exists q :: p < q < |w| && ccc(w[q]) >= ccc(x)
  }

  /** Definition D117: each code point, in turn, is absorbed by the last starter or appended. */
  ghost function Composed(u: Ucd, stable: bool, s: seq<int>): (w: seq<int>)
    ensures |w| <= |s|
  {
    if s == [] then []
    else
      var w, x := Composed(u, stable, s[..|s| - 1]), s[|s| - 1];
      var p := LastStarter(u.ccc, w);
      if p >= 0 && !Blocked(u.ccc, w, p, x) && Primary(u, stable, w[p], x).Some?
      then w[p := Primary(u, stable, w[p], x).value]
      else w + [x]
  }

  // ----- the loop

  /** max_combining_class: the highest class behind position p, or -1. */
  function Highest(ccc: Classes, w: seq<int>, p: int): (m: int)
    requires -1 <= p <= |w|
    ensures m >= -1
  {
    if |w| <= p + 1 then -1
    else
      var m := Highest(ccc, w[..|w| - 1], p);
      if ccc(w[|w| - 1]) > m then ccc(w[|w| - 1]) else m
  }

  lemma {:induction false} HighestBlocks(ccc: Classes, w: seq<int>, p: int, x: int)
    requires -1 <= p < |w|
    ensures Blocked(ccc, w, p, x) <==> ccc(x) <= Highest(ccc, w, p)
  {
    if |w| > p + 1 {
      var m := |w| - 1;
      HighestBlocks(ccc, w[..m], p, x);
      if ccc(w[m]) < ccc(x) && Blocked(ccc, w, p, x) {
        var q :| p < q < |w| && ccc(w[q]) >= ccc(x);
        assert ccc(w[..m][q]) >= ccc(x);
      }
      if Blocked(ccc, w[..m], p, x) {
        var q :| p < q < m && ccc(w[..m][q]) >= ccc(x);
        assert ccc(w[q]) >= ccc(x);
      }
      if ccc(w[m]) >= ccc(x) {
        assert Blocked(ccc, w, p, x);
      }
    }
  }

  /** Replacing the starter changes neither its place nor what stands behind it. */
  lemma {:induction false} StarterReplaced(ccc: Classes, w: seq<int>, p: int, c: int)
    requires 0 <= p < |w| && p == LastStarter(ccc, w) && ccc(c) == 0
    ensures LastStarter(ccc, w[p := c]) == p && Highest(ccc, w[p := c], p) == Highest(ccc, w, p)
  {
    var m := |w| - 1;
    if p < m {
      StarterReplaced(ccc, w[..m], p, c);
      assert w[p := c][..m] == w[..m][p := c];
    }
  }

  /** An appended code point: a mark raises the maximum, a starter begins anew. */
  lemma Appended(ccc: Classes, w: seq<int>, x: int)
    ensures var p := LastStarter(ccc, w);
      if ccc(x) == 0 then
        LastStarter(ccc, w + [x]) == |w| && Highest(ccc, w + [x], |w|) == -1
      else
        && LastStarter(ccc, w + [x]) == p
        && Highest(ccc, w + [x], p) == if ccc(x) > Highest(ccc, w, p) then ccc(x) else Highest(ccc, w, p)
  {
    assert (w + [x])[..|w|] == w;
  }

  /** One more code point, told by the maximum. */
  lemma ComposedSnoc(u: Ucd, stable: bool, s: seq<int>, x: int)
    ensures var w := Composed(u, stable, s);
      var p := LastStarter(u.ccc, w);
      Composed(u, stable, s + [x]) ==
        if p >= 0 && u.ccc(x) > Highest(u.ccc, w, p) && Primary(u, stable, w[p], x).Some?
        then w[p := Primary(u, stable, w[p], x).value]
        else w + [x]
  {
    hide Primary, Blocked;
    assert (s + [x])[..|s|] == s;
    var w := Composed(u, stable, s);
    HighestBlocks(u.ccc, w, LastStarter(u.ccc, w), x);
  }

  lemma PrimaryIsStarter(u: Ucd, stable: bool, a: int, b: int)
    requires Sound(u) && u.ccc(a) == 0 && Primary(u, stable, a, b).Some?
    ensures u.ccc(Primary(u, stable, a, b).value) == 0
    ensures !IsSyllable(a) || IsSyllable(Primary(u, stable, a, b).value)
  {
    var c := Primary(u, stable, a, b).value;
    if IsL(a) && IsV(b) {
      assert IsHangul(c);
    } else if IsLV(a) && IsT(b) {
      LVFits(a);
      assert IsHangul(c);
    } else {
      assert PairIsSound(u, a, b);
    }
  }

  lemma LVFits(a: int)
    requires IsLV(a)
    ensures a + TCOUNT <= SBASE + SCOUNT
  {
  }

  /** The composing loop of utf8proc_normalize_utf32: reading at rpos, writing at wpos, in one buffer. */
  method Compose(u: Ucd, stable: bool, buffer: array<int>, length: nat) returns (wpos: nat)
    requires Sound(u) && length <= buffer.Length
    modifies buffer
    ensures wpos <= length && buffer[..wpos] == Composed(u, stable, old(buffer[..length]))
    ensures buffer[length..] == old(buffer[length..])
  {
    hide Sound, Primary, Composed, Highest, LastStarter;
    ghost var s := buffer[..length];
    var starter: int := -1;
    var starterProperty: Option<int> := None;     // the code point whose property is at hand
    var maxCombiningClass: int := -1;
    var rpos: nat := 0;
    wpos := 0;
    Nothing(u, stable);
    assert s[..0] == [] && buffer[..0] == [];
    while rpos < length
      invariant wpos <= rpos <= length
      invariant forall k :: rpos <= k < buffer.Length ==> buffer[k] == old(buffer[k])
      invariant buffer[..wpos] == Composed(u, stable, s[..rpos])
      invariant starter == LastStarter(u.ccc, buffer[..wpos])
      invariant maxCombiningClass == Highest(u.ccc, buffer[..wpos], starter)
      invariant starterProperty.Some? ==> starter >= 0 && starterProperty.value == buffer[starter]
    {
      var current := buffer[rpos];
      ghost var w := buffer[..wpos];
      assert current == s[rpos];
      assert s[..rpos + 1] == s[..rpos] + [current];
      ComposedSnoc(u, stable, s[..rpos], current);
      var composition: Option<int> := None;
      if starter >= 0 && u.ccc(current) > maxCombiningClass {
        composition, starterProperty := Combine(u, stable, buffer[starter], starterProperty, current);
      }
      if composition.Some? {
        StarterReplaced(u.ccc, w, starter, composition.value);
        SetStarter(buffer, starter, wpos, rpos, composition.value);
        starterProperty := None;
      } else {
        Appended(u.ccc, w, current);
        Append(buffer, wpos, rpos, current);
        if u.ccc(current) > 0 {
          if u.ccc(current) > maxCombiningClass {
            maxCombiningClass := u.ccc(current);
          }
        } else {
          starter := wpos;
          starterProperty := None;
          maxCombiningClass := -1;
        }
        wpos := wpos + 1;
      }
      rpos := rpos + 1;
    }
    assert s[..length] == s;
  }

  /** The starter is replaced by what it has become. */
  method SetStarter(buffer: array<int>, starter: nat, wpos: nat, rpos: nat, c: int)
    requires starter < wpos <= rpos < buffer.Length
    modifies buffer
    ensures buffer[..wpos] == old(buffer[..wpos])[starter := c]
    ensures forall k :: rpos < k < buffer.Length ==> buffer[k] == old(buffer[k])
  {
    buffer[starter] := c;
  }

  /** buffer[wpos] = c, where the write index has not passed the read index */
  method Append(buffer: array<int>, wpos: nat, rpos: nat, c: int)
    requires wpos <= rpos < buffer.Length
    modifies buffer
    ensures buffer[..wpos] == old(buffer[..wpos]) && buffer[..wpos + 1] == old(buffer[..wpos]) + [c]
    ensures forall k :: rpos < k < buffer.Length ==> buffer[k] == old(buffer[k])
  {
    buffer[wpos] := c;
  }

  lemma Nothing(u: Ucd, stable: bool)
    ensures Composed(u, stable, []) == [] && LastStarter(u.ccc, []) == -1 && Highest(u.ccc, [], -1) == -1
  {
  }

  /** Hangul first, then the pair tables through the starter's property, fetched when it is not at hand. */
  method Combine(u: Ucd, stable: bool, starter: int, property0: Option<int>, current: int)
    returns (composition: Option<int>, property: Option<int>)
    requires Sound(u) && u.ccc(starter) == 0 && (property0.Some? ==> property0.value == starter)
    ensures composition == Primary(u, stable, starter, current)
    ensures composition.Some? ==> u.ccc(composition.value) == 0
    ensures property.Some? ==> property.value == starter
  {
    property := property0;
    if Primary(u, stable, starter, current).Some? {
      PrimaryIsStarter(u, stable, starter, current);
    }
    hide Sound;
    var lindex := starter - LBASE;
    if 0 <= lindex < LCOUNT {
      var vindex := current - VBASE;
      if 0 <= vindex < VCOUNT {
        return Some(SBASE + (lindex * VCOUNT + vindex) * TCOUNT), None;
      }
    }
    var sindex := starter - SBASE;
    if 0 <= sindex < SCOUNT && sindex % TCOUNT == 0 {
      var tindex := current - TBASE;
      if 0 <= tindex < TCOUNT {
        return Some(starter + tindex), None;
      }
    }
    if property == None {
      property := Some(starter);
    }
    var c := u.pair(property.value, current);
    composition := if c > 0 && (!stable || !u.excluded(c)) then Some(c) else None;
  }

  // ----- decomposing what was composed

  function DecomposeAll(u: Ucd, s: seq<int>): seq<int> {
    if s == [] then [] else DecomposeAll(u, s[..|s| - 1]) + Full(u, s[|s| - 1])
  }

  ghost predicate Decomposed(u: Ucd, s: seq<int>) {
    forall i :: 0 <= i < |s| ==> Full(u, s[i]) == [s[i]]
  }

  /** Canonically equivalent: the same after decomposing and reordering. */
  ghost predicate SameText(u: Ucd, a: seq<int>, b: seq<int>) {
    Canonical(u.ccc, DecomposeAll(u, a)) == Canonical(u.ccc, DecomposeAll(u, b))
  }

  lemma {:induction false} DecomposedIsFixed(u: Ucd, s: seq<int>)
    requires Decomposed(u, s)
    ensures DecomposeAll(u, s) == s
  {
    if s != [] {
      var m := |s| - 1;
      assert Full(u, s[m]) == [s[m]];
      hide Full;
      DecomposedIsFixed(u, s[..m]);
    }
  }

  lemma {:induction false} DecomposeConcat(u: Ucd, a: seq<int>, b: seq<int>)
    ensures DecomposeAll(u, a + b) == DecomposeAll(u, a) + DecomposeAll(u, b)
  {
    hide Full;
    if b == [] {
      assert a + b == a;
    } else {
      var m := |b| - 1;
      DecomposeConcat(u, a, b[..m]);
      assert (a + b)[..|a| + m] == a + b[..m];
    }
  }

  lemma DecomposeOne(u: Ucd, c: int)
    ensures DecomposeAll(u, [c]) == Full(u, c)
  {
    hide Full;
    assert [c][..0] == [];
    assert DecomposeAll(u, []) == [];
  }

  /** A replaced starter shows in its own decomposition only. */
  lemma DecomposeAround(u: Ucd, w: seq<int>, p: nat, c: int)
    requires p < |w|
    ensures DecomposeAll(u, w[p := c]) == DecomposeAll(u, w[..p]) + Full(u, c) + DecomposeAll(u, w[p + 1..])
  {
    hide Full, DecomposeAll;
    assert w[p := c] == w[..p] + [c] + w[p + 1..];
    DecomposeConcat(u, w[..p] + [c], w[p + 1..]);
    DecomposeConcat(u, w[..p], [c]);
    DecomposeOne(u, c);
  }

  /** ⟨L, V, U+11A7⟩ somewhere: a syllable followed by the code point before the first trailing consonant. */
  ghost predicate Triple(s: seq<int>, i: nat) {
    i + 2 < |s| && IsL(s[i]) && IsV(s[i + 1]) && s[i + 2] == TBASE
  }

  ghost predicate HasTriple(s: seq<int>) {
    exists i: nat :: Triple(s, i)
  }

  ghost predicate EndsWith(s: seq<int>, t: seq<int>) {
    |t| <= |s| && s[|s| - |t|..] == t
  }

  /** What one absorbed code point adds to the decomposition of its starter. */
  lemma PrimaryDecomposes(u: Ucd, stable: bool, a: int, x: int)
    requires Sound(u) && u.ccc(a) == 0 && Full(u, x) == [x] && Primary(u, stable, a, x).Some?
    ensures var c := Primary(u, stable, a, x).value;
      Full(u, c) == if IsLV(a) && x == TBASE then Full(u, a) else Full(u, a) + [x]
  {
    var c := Primary(u, stable, a, x).value;
    if IsL(a) && IsV(x) {
      LAndV(u, a, x);
      assert u.decomposed(a) == [a];
    } else if IsLV(a) && IsT(x) {
      LVAndT(u, a, x);
    } else {
      assert PairIsSound(u, a, x);
      assert !IsHangul(a);
    }
  }

  lemma LAndV(u: Ucd, l: int, v: int)
    requires IsL(l) && IsV(v)
    ensures var c := SBASE + ((l - LBASE) * VCOUNT + (v - VBASE)) * TCOUNT;
      IsLV(c) && Full(u, c) == [l, v]
  {
  }

  lemma LVAndT(u: Ucd, a: int, t: int)
    requires IsLV(a) && IsT(t)
    ensures IsSyllable(a + (t - TBASE))
    ensures Full(u, a + (t - TBASE)) == if t == TBASE then Full(u, a) else Full(u, a) + [t]
  {
    var k := t - TBASE;
    var s := a - SBASE;
    assert (s + k) % TCOUNT == k && (s + k) / NCOUNT == s / NCOUNT;
    assert (s + k) % NCOUNT / TCOUNT == s % NCOUNT / TCOUNT;
  }

  // ----- when composing keeps the text

  /** After composing s to w: decomposition gives s back, and what the last starter absorbed stands at its end. */
  ghost predicate Keeps(u: Ucd, s: seq<int>, w: seq<int>) {
    var p := LastStarter(u.ccc, w);
    && Canonical(u.ccc, DecomposeAll(u, w)) == Canonical(u.ccc, s)
    && (forall q :: p < q < |w| ==> Full(u, w[q]) == [w[q]])
    && (0 <= p == |w| - 1 ==> EndsWith(s, Full(u, w[p])))
  }

  /** A code point that is appended. */
  lemma AppendKeeps(u: Ucd, s: seq<int>, w: seq<int>, x: int)
    requires Keeps(u, s, w) && Full(u, x) == [x]
    ensures Keeps(u, s + [x], w + [x])
  {
    hide Canonical, Full;
    var p := LastStarter(u.ccc, w);
    assert (w + [x])[..|w|] == w;
    SameAppended(u.ccc, DecomposeAll(u, w), s, [x]);
    assert DecomposeAll(u, w + [x]) == DecomposeAll(u, w) + [x];
    Appended(u.ccc, w, x);
    hide LastStarter;
    forall q | LastStarter(u.ccc, w + [x]) < q < |w| + 1
      ensures Full(u, (w + [x])[q]) == [(w + [x])[q]]
    {
      assert q < |w| ==> Full(u, w[q]) == [w[q]];
    }
  }

  /** The text around an absorbed code point: it moves across marks of lower classes only. */
  lemma AbsorbedMoves(u: Ucd, w: seq<int>, p: nat, x: int, c: int)
    requires p == LastStarter(u.ccc, w) && !Blocked(u.ccc, w, p, x) && Full(u, c) == Full(u, w[p]) + [x]
    requires forall q :: p < q < |w| ==> Full(u, w[q]) == [w[q]]
    ensures Canonical(u.ccc, DecomposeAll(u, w[p := c])) == Canonical(u.ccc, DecomposeAll(u, w) + [x])
  {
    hide Canonical, Full, LastStarter;
    var marks := w[p + 1..];
    var head := DecomposeAll(u, w[..p]) + Full(u, w[p]);
    assert w[p := w[p]] == w;
    DecomposeAround(u, w, p, w[p]);
    DecomposeAround(u, w, p, c);
    DecomposedIsFixed(u, marks);
    assert DecomposeAll(u, w[p := c]) == head + [x] + marks;
    forall i | 0 <= i < |marks|
      ensures 0 < u.ccc(marks[i]) < u.ccc(x)
    {
      assert marks[i] == w[p + 1 + i];
    }
    if marks == [] {
      assert head + marks == head && head + [x] + marks == head + [x];
    } else {
      assert 0 < u.ccc(marks[0]) < u.ccc(x);
      MoveAcross(u.ccc, head, marks, x);
    }
  }

  /** A code point that the starter absorbs, its decomposition growing by it. */
  lemma AbsorbKeeps(u: Ucd, s: seq<int>, w: seq<int>, x: int, c: int)
    requires Keeps(u, s, w) && Full(u, x) == [x]
    requires var p := LastStarter(u.ccc, w);
      p >= 0 && !Blocked(u.ccc, w, p, x) && Full(u, c) == Full(u, w[p]) + [x] && u.ccc(c) == 0
    ensures Keeps(u, s + [x], w[LastStarter(u.ccc, w) := c])
  {
    hide Canonical, Full;
    var p := LastStarter(u.ccc, w);
    StarterReplaced(u.ccc, w, p, c);
    hide LastStarter;
    AbsorbedMoves(u, w, p, x, c);
    SameAppended(u.ccc, DecomposeAll(u, w), s, [x]);
    if p == |w| - 1 {
      var f := Full(u, w[p]);
      assert (s + [x])[|s| - |f|..] == s[|s| - |f|..] + [x];
    }
  }

  lemma TripleInLonger(s: seq<int>, x: int)
    requires HasTriple(s)
    ensures HasTriple(s + [x])
  {
    var i: nat :| Triple(s, i);
    assert Triple(s + [x], i);
  }

  /** A syllable at the end of the text came from its two letters. */
  lemma SyllableAtEnd(u: Ucd, s: seq<int>, a: int)
    requires IsLV(a) && EndsWith(s, Full(u, a))
    ensures HasTriple(s + [TBASE])
  {
    var f := Full(u, a);
    assert |f| == 2 && IsL(f[0]) && IsV(f[1]);
    var i := |s| - 2;
    assert s[i] == s[i..][0] && s[i + 1] == s[i..][1];
    assert Triple(s + [TBASE], i);
  }

  lemma {:induction false} NoTripleKeeps(u: Ucd, stable: bool, s: seq<int>)
    requires Sound(u) && Decomposed(u, s) && !HasTriple(s)
    ensures Keeps(u, s, Composed(u, stable, s))
  {
    if s != [] {
      var front, x := s[..|s| - 1], s[|s| - 1];
      assert front + [x] == s;
      if HasTriple(front) {
        TripleInLonger(front, x);
      }
      NoTripleKeeps(u, stable, front);
      var w := Composed(u, stable, front);
      var p := LastStarter(u.ccc, w);
      assert Full(u, x) == [x];
      if p >= 0 && !Blocked(u.ccc, w, p, x) && Primary(u, stable, w[p], x).Some? {
        if IsLV(w[p]) && x == TBASE {
          NoMarksBefore(u, w, p, x);
          SyllableAtEnd(u, front, w[p]);
          assert false;
        }
        PrimaryDecomposes(u, stable, w[p], x);
        PrimaryIsStarter(u, stable, w[p], x);
        AbsorbKeeps(u, front, w, x, Primary(u, stable, w[p], x).value);
      } else {
        AppendKeeps(u, front, w, x);
      }
    }
  }

  lemma AnythingBlocks(ccc: Classes, w: seq<int>, p: int, x: int)
    requires -1 <= p && p + 1 < |w| && ccc(x) == 0
    ensures Blocked(ccc, w, p, x)
  {
    assert ccc(w[p + 1]) >= ccc(x);
  }

  /** A class-0 code point reaches the starter only when it stands right behind it. */
  lemma NoMarksBefore(u: Ucd, w: seq<int>, p: int, x: int)
    requires 0 <= p == LastStarter(u.ccc, w) && !Blocked(u.ccc, w, p, x) && u.ccc(x) == 0
    ensures p == |w| - 1
  {
    if p + 1 < |w| {
      AnythingBlocks(u.ccc, w, p, x);
    }
  }

  // ----- when it does not

  lemma ReplacedLength(u: Ucd, w: seq<int>, p: nat, c: int)
    requires p < |w|
    ensures |DecomposeAll(u, w[p := c])| == |DecomposeAll(u, w)| - |Full(u, w[p])| + |Full(u, c)|
  {
    hide Full, DecomposeAll;
    assert w[p := w[p]] == w;
    DecomposeAround(u, w, p, w[p]);
    DecomposeAround(u, w, p, c);
  }

  /** Each code point adds at most one to the decomposition; the first absorbed U+11A7 adds nothing. */
  lemma StepLength(u: Ucd, stable: bool, s: seq<int>, x: int)
    requires Sound(u) && Full(u, x) == [x]
    ensures |DecomposeAll(u, Composed(u, stable, s + [x]))| <= |DecomposeAll(u, Composed(u, stable, s))| + 1
  {
    hide Canonical, Full, Primary;
    assert (s + [x])[..|s|] == s;
    var w := Composed(u, stable, s);
    var p := LastStarter(u.ccc, w);
    if p >= 0 && !Blocked(u.ccc, w, p, x) && Primary(u, stable, w[p], x).Some? {
      PrimaryDecomposes(u, stable, w[p], x);
      ReplacedLength(u, w, p, Primary(u, stable, w[p], x).value);
    } else {
      DecomposeConcat(u, w, [x]);
      DecomposeOne(u, x);
    }
  }

  lemma {:induction false} NeverLonger(u: Ucd, stable: bool, a: seq<int>, b: seq<int>)
    requires Sound(u) && Decomposed(u, b)
    ensures |DecomposeAll(u, Composed(u, stable, a + b))| <= |DecomposeAll(u, Composed(u, stable, a))| + |b|
  {
    hide Full, DecomposeAll, Composed, Sound;
    if b == [] {
      assert a + b == a;
    } else {
      var m := |b| - 1;
      NeverLonger(u, stable, a, b[..m]);
      assert Full(u, b[m]) == [b[m]];
      StepLength(u, stable, a + b[..m], b[m]);
      assert a + b[..m] + [b[m]] == a + b;
    }
  }

  /** A starter absorbs what stands right behind it, if the two compose. */
  lemma Adjacent(u: Ucd, stable: bool, s: seq<int>, w: seq<int>, a: int, x: int)
    requires Composed(u, stable, s) == w + [a] && u.ccc(a) == 0 && Primary(u, stable, a, x).Some?
    ensures Composed(u, stable, s + [x]) == w + [Primary(u, stable, a, x).value]
  {
    hide Primary, Composed;
    Appended(u.ccc, w, a);
    ComposedSnoc(u, stable, s, x);
    hide LastStarter, Highest;
    assert (w + [a])[|w|] == a;
    var c := Primary(u, stable, a, x).value;
    assert (w + [a])[|w| := c] == w + [c];
  }

  /** The syllable HAN is H, A, N. */
  lemma HanDecomposes(u: Ucd)
    ensures Full(u, 0xD55C) == [0x1112, 0x1161, 0x11AB]
  {
  }

  lemma HangulIsStarter(u: Ucd, c: int)
    requires Sound(u) && IsHangul(c)
    ensures u.ccc(c) == 0
  {
  }

  lemma NoPair(u: Ucd, a: int, l: int)
    requires Sound(u) && u.ccc(a) == 0 && IsHangul(l)
    ensures u.pair(a, l) <= 0
  {
  }

  /** A leading consonant is never absorbed. */
  lemma LetterAppended(u: Ucd, stable: bool, s: seq<int>, l: int)
    requires Sound(u) && IsL(l)
    ensures Composed(u, stable, s + [l]) == Composed(u, stable, s) + [l]
  {
    hide Sound;
    ComposedSnoc(u, stable, s, l);
    var w := Composed(u, stable, s);
    hide Composed;
    var p := LastStarter(u.ccc, w);
    if p >= 0 {
      NoPair(u, w[p], l);
    }
  }

  lemma LVAbsorbs(u: Ucd, stable: bool, l: int, v: int, lv: int)
    requires IsL(l) && IsV(v) && IsLV(lv) && lv == SBASE + ((l - LBASE) * VCOUNT + (v - VBASE)) * TCOUNT
    ensures IsHangul(l) && IsHangul(lv)
    ensures Primary(u, stable, l, v) == Some(lv) && Primary(u, stable, lv, TBASE) == Some(lv)
  {
  }

  /** L, V, U+11A7 leave the syllable LV behind. */
  lemma TripleAbsorbed(u: Ucd, stable: bool, s: seq<int>, l: int, v: int)
    requires Sound(u) && IsL(l) && IsV(v)
    ensures var w := Composed(u, stable, s) + [SBASE + ((l - LBASE) * VCOUNT + (v - VBASE)) * TCOUNT];
      Composed(u, stable, s + [l] + [v]) == w && Composed(u, stable, s + [l] + [v] + [TBASE]) == w
  {
    var w := Composed(u, stable, s);
    hide Sound, Primary, Full, Composed, IsLV, IsHangul;
    var lv := SBASE + ((l - LBASE) * VCOUNT + (v - VBASE)) * TCOUNT;
    LetterAppended(u, stable, s, l);
    LAndV(u, l, v);
    LVAbsorbs(u, stable, l, v, lv);
    HangulIsStarter(u, l);
    HangulIsStarter(u, lv);
    Adjacent(u, stable, s + [l], w, l, v);
    Adjacent(u, stable, s + [l] + [v], w, lv, TBASE);
  }

  lemma TripleParts(s: seq<int>, i: nat)
    requires Triple(s, i)
    ensures IsL(s[i]) && IsV(s[i + 1]) && s[..i + 2] == s[..i] + [s[i]] + [s[i + 1]]
    ensures s[..i + 3] == s[..i] + [s[i]] + [s[i + 1]] + [TBASE] && s == s[..i + 3] + s[i + 3..]
  {
  }

  lemma PartDecomposed(u: Ucd, s: seq<int>, i: nat, j: nat)
    requires Decomposed(u, s) && i <= j <= |s|
    ensures Decomposed(u, s[i..j])
  {
    hide Full;
  }

  lemma TripleLoses(u: Ucd, stable: bool, s: seq<int>)
    requires Sound(u) && Decomposed(u, s) && HasTriple(s)
    ensures |DecomposeAll(u, Composed(u, stable, s))| < |s|
  {
    var i: nat :| Triple(s, i);
    hide *;
    TripleParts(s, i);
    var none: seq<int> := [];
    var a, b, c, rest := s[..i], s[..i + 2], s[..i + 3], s[i + 3..];
    PartDecomposed(u, s, 0, i + 2);
    PartDecomposed(u, s, i + 3, |s|);
    TripleAbsorbed(u, stable, a, s[i], s[i + 1]);
    assert none + b == b;
    NeverLonger(u, stable, none, b);
    NeverLonger(u, stable, c, rest);
    NothingComposed(u, stable);
  }

  lemma NothingComposed(u: Ucd, stable: bool)
    ensures |DecomposeAll(u, Composed(u, stable, []))| == 0
  {
  }

  /** Composing a decomposed text keeps it, up to canonical equivalence, exactly when no U+11A7 follows a
      leading consonant and a vowel. */
  lemma ComposingKeepsText(u: Ucd, stable: bool, s: seq<int>)
    requires Sound(u) && Decomposed(u, s)
    ensures SameText(u, Composed(u, stable, s), s) <==> !HasTriple(s)
  {
    hide Full, Composed, Sound;
    DecomposedIsFixed(u, s);
    if HasTriple(s) {
      TripleLoses(u, stable, s);
    } else {
      NoTripleKeeps(u, stable, s);
    }
  }

  // ----- nothing is left to compose

  /** Two code points that composition leaves alone: no Hangul letters that belong together, and no pair of the
      tables, unless its composite is excluded and exclusions count. */
  predicate Apart(u: Ucd, stable: bool, a: int, b: int) {
    && !(IsL(a) && IsV(b))
    && !(IsLV(a) && IsT(b))
    && (u.pair(a, b) > 0 ==> stable && u.excluded(u.pair(a, b)))
  }

  /** Nothing between the starter at i and j keeps them apart. */
  ghost predicate Unblocked(ccc: Classes, w: seq<int>, i: int, j: int) {
    && 0 <= i < j < |w| && ccc(w[i]) == 0
    && forall q :: i < q < j ==> 0 < ccc(w[q]) < ccc(w[j])
  }

  ghost predicate Settled(u: Ucd, stable: bool, w: seq<int>) {
    forall i, j :: Unblocked(u.ccc, w, i, j) ==> Apart(u, stable, w[i], w[j])
  }

  lemma PrimaryUnlessApart(u: Ucd, stable: bool, a: int, b: int)
    ensures Primary(u, stable, a, b) == None <==> Apart(u, stable, a, b)
  {
  }

  /** A composite is never the second of a pair. */
  lemma CompositeNotSecond(u: Ucd, stable: bool, a: int, x: int, before: int)
    requires Sound(u) && Tidy(u) && u.ccc(a) == 0 && Primary(u, stable, a, x).Some? && u.ccc(before) == 0
    ensures Apart(u, stable, before, Primary(u, stable, a, x).value)
  {
    var c := Primary(u, stable, a, x).value;
    if (IsL(a) && IsV(x)) || (IsLV(a) && IsT(x)) {
      HangulComposite(u, stable, a, x);
      hide Primary, IsL, IsV, IsLV, IsT;
      NoPair(u, before, c);
    } else {
      assert PairIsSound(u, a, x) && Full(u, a) != [] && Full(u, x) != [];
      assert Full(u, c) == Full(u, a) + Full(u, x);
      hide Full;
      assert Full(u, c) != [c];
    }
  }

  lemma HangulComposite(u: Ucd, stable: bool, a: int, x: int)
    requires (IsL(a) && IsV(x)) || (IsLV(a) && IsT(x))
    ensures Primary(u, stable, a, x).Some? && var c := Primary(u, stable, a, x).value; IsHangul(c) && !IsV(c) && !IsT(c)
  {
    if IsL(a) && IsV(x) {
      LAndV(u, a, x);
    } else {
      LVFits(a);
    }
  }

  lemma NotOrdered(ccc: Classes, s: seq<int>, n: nat)
    requires n + 1 < |s| && 0 < ccc(s[n + 1]) < ccc(s[n])
    ensures !Ordered(ccc, s)
  {
    assert Reorderable(ccc, s[n], s[n + 1]);
  }

  /** What a starter has become by absorbing x is not paired with a mark of a lower class. */
  lemma CompositeApart(u: Ucd, stable: bool, a: int, x: int, y: int)
    requires Sound(u) && Tidy(u) && u.ccc(a) == 0 && Primary(u, stable, a, x).Some? && 0 < u.ccc(y) < u.ccc(x)
    ensures Apart(u, stable, Primary(u, stable, a, x).value, y)
  {
    var c := Primary(u, stable, a, x).value;
    assert !IsHangul(x) && !IsHangul(y);
    assert PairIsSound(u, a, x) && Full(u, x) == [x];
    if u.pair(c, y) > 0 {
      assert PairIsSound(u, c, y) && Full(u, y) == [y];
      var d := u.pair(c, y);
      assert Ordered(u.ccc, Full(u, d));
      hide Full, Primary, IsHangul;
      assert Full(u, d) == Full(u, a) + [x] + [y];
      var n := |Full(u, a)|;
      NotOrdered(u.ccc, Full(u, d), n);
    }
  }

  lemma AppendSettles(u: Ucd, stable: bool, w: seq<int>, x: int)
    requires Settled(u, stable, w)
    requires var p := LastStarter(u.ccc, w); p >= 0 && !Blocked(u.ccc, w, p, x) ==> Apart(u, stable, w[p], x)
    ensures Settled(u, stable, w + [x])
  {
    hide Apart, LastStarter;
    var v, p := w + [x], LastStarter(u.ccc, w);
    forall i, j | Unblocked(u.ccc, v, i, j)
      ensures Apart(u, stable, v[i], v[j])
    {
      assert forall q :: i <= q < j ==> v[q] == w[q];
      if j < |w| {
        assert Unblocked(u.ccc, w, i, j);
      } else {
        assert p == i;
        assert forall q :: p < q < |w| ==> u.ccc(v[q]) < u.ccc(x);
      }
    }
  }

  /** A starter that is replaced changes nothing for the pairs that it is not in. */
  lemma UnblockedBefore(ccc: Classes, w: seq<int>, p: nat, c: int, i: int, j: int)
    requires p < |w| && ccc(c) == 0 && i != p && j != p && Unblocked(ccc, w[p := c], i, j)
    ensures Unblocked(ccc, w, i, j)
  {
    var v := w[p := c];
    assert v[i] == w[i] && v[j] == w[j];
    forall q | i < q < j
      ensures 0 < ccc(w[q]) < ccc(w[j])
    {
      assert 0 < ccc(v[q]) < ccc(v[j]);
    }
  }

  lemma AbsorbSettles(u: Ucd, stable: bool, w: seq<int>, x: int)
    requires Sound(u) && Tidy(u) && Settled(u, stable, w)
    requires var p := LastStarter(u.ccc, w); p >= 0 && !Blocked(u.ccc, w, p, x) && Primary(u, stable, w[p], x).Some?
    ensures var p := LastStarter(u.ccc, w); Settled(u, stable, w[p := Primary(u, stable, w[p], x).value])
  {
    var p := LastStarter(u.ccc, w);
    var a, c := w[p], Primary(u, stable, w[p], x).value;
    PrimaryIsStarter(u, stable, a, x);
    hide Apart, LastStarter, Primary, Sound, Tidy;
    var v := w[p := c];
    forall i, j | Unblocked(u.ccc, v, i, j)
      ensures Apart(u, stable, v[i], v[j])
    {
      if j == p {
        CompositeNotSecond(u, stable, a, x, v[i]);
      } else if i == p {
        assert u.ccc(w[j]) < u.ccc(x);
        CompositeApart(u, stable, a, x, v[j]);
      } else {
        UnblockedBefore(u.ccc, w, p, c, i, j);
      }
    }
  }

  /** In a composed text no starter is followed by an unblocked code point that it could be composed with. */
  lemma {:induction false} ComposedIsSettled(u: Ucd, stable: bool, s: seq<int>)
    requires Sound(u) && Tidy(u)
    ensures Settled(u, stable, Composed(u, stable, s))
  {
    hide Sound, Tidy, Primary, Apart, Blocked, LastStarter;
    if s != [] {
      var front, x := s[..|s| - 1], s[|s| - 1];
      ComposedIsSettled(u, stable, front);
      var w := Composed(u, stable, front);
      var p := LastStarter(u.ccc, w);
      if p >= 0 {
        PrimaryUnlessApart(u, stable, w[p], x);
      }
      hide Settled;
      if p >= 0 && !Blocked(u.ccc, w, p, x) && Primary(u, stable, w[p], x).Some? {
        AbsorbSettles(u, stable, w, x);
      } else {
        AppendSettles(u, stable, w, x);
      }
    }
  }

  /** With the option for stable results, a code point that was not there before is no excluded composite. */
  lemma {:induction false} NothingExcluded(u: Ucd, s: seq<int>)
    ensures forall c :: c in Composed(u, true, s) ==> c in s || IsSyllable(c) || !u.excluded(c)
  {
    if s != [] {
      var front, x := s[..|s| - 1], s[|s| - 1];
      NothingExcluded(u, front);
      var w := Composed(u, true, front);
      var p := LastStarter(u.ccc, w);
      hide LastStarter, Blocked, Composed;
      if p >= 0 {
        NewIsAllowed(u, w[p], x);
      }
    }
  }

  lemma NewIsAllowed(u: Ucd, a: int, x: int)
    ensures var r := Primary(u, true, a, x); r.Some? ==> IsSyllable(r.value) || !u.excluded(r.value)
  {
    if IsL(a) && IsV(x) {
      LAndV(u, a, x);
    } else if IsLV(a) && IsT(x) {
      LVFits(a);
    }
  }

  // ----- normalization forms

  /** Decompose and reorder. */
  function Nfd(u: Ucd, text: seq<int>): seq<int> {
    Canonical(u.ccc, DecomposeAll(u, text))
  }

  /** Then compose. */
  ghost function Nfc(u: Ucd, stable: bool, text: seq<int>): seq<int> {
    Composed(u, stable, Nfd(u, text))
  }

  lemma {:induction false} DecomposeAllIsDecomposed(u: Ucd, s: seq<int>)
    requires Sound(u)
    ensures Decomposed(u, DecomposeAll(u, s))
  {
    hide Full;
    if s != [] {
      var m := |s| - 1;
      DecomposeAllIsDecomposed(u, s[..m]);
      var d, f := DecomposeAll(u, s[..m]), Full(u, s[m]);
      forall i | 0 <= i < |d + f|
        ensures Full(u, (d + f)[i]) == [(d + f)[i]]
      {
        if i >= |d| {
          assert (d + f)[i] == f[i - |d|];
        }
      }
    }
  }

  lemma NfdIsDecomposed(u: Ucd, text: seq<int>)
    requires Sound(u)
    ensures Decomposed(u, Nfd(u, text)) && DecomposeAll(u, Nfd(u, text)) == Nfd(u, text)
  {
    hide Full, Sound, Canonical;
    var d := DecomposeAll(u, text);
    DecomposeAllIsDecomposed(u, text);
    CanonicalPermutes(u.ccc, d);
    var n := Nfd(u, text);
    forall i | 0 <= i < |n|
      ensures Full(u, n[i]) == [n[i]]
    {
      assert n[i] in multiset(n);
      assert n[i] in d;
    }
    DecomposedIsFixed(u, n);
  }

  lemma NfdIsIdempotent(u: Ucd, text: seq<int>)
    requires Sound(u)
    ensures Nfd(u, Nfd(u, text)) == Nfd(u, text)
  {
    hide Full, Sound;
    NfdIsDecomposed(u, text);
    CanonicalIsOrdered(u.ccc, DecomposeAll(u, text));
    OrderedIsCanonical(u.ccc, Nfd(u, text));
  }

  /** NFC loses nothing, exactly when the decomposed text has no such triple; it is a fixed point in any case. */
  lemma NfcKeepsText(u: Ucd, stable: bool, text: seq<int>)
    requires Sound(u)
    ensures Nfd(u, Nfc(u, stable, text)) == Nfd(u, text) <==> !HasTriple(Nfd(u, text))
    ensures Nfc(u, stable, Nfc(u, stable, text)) == Nfc(u, stable, text)
  {
    hide Full, Sound, Composed, Canonical;
    NfdIsDecomposed(u, text);
    NfdIsIdempotent(u, text);
    ComposingKeepsText(u, stable, Nfd(u, text));
    CanonicalIsOrdered(u.ccc, DecomposeAll(u, text));
    ComposedIsFixed(u, stable, Nfd(u, text));
  }

  /** No starter of a composed normal form is followed by an unblocked code point that belongs to it: no vowel behind a
      leading consonant, no trailing consonant behind a syllable without one, and no pair of the tables, but for an
      excluded composite when results are to be stable. */
  lemma NfcLeavesNothing(u: Ucd, stable: bool, text: seq<int>, i: nat, j: nat)
    requires Sound(u) && Tidy(u)
    ensures var w := Nfc(u, stable, text);
      i < j < |w| && u.ccc(w[i]) == 0 && (forall q :: i < q < j ==> 0 < u.ccc(w[q]) < u.ccc(w[j])) ==>
        && !(IsL(w[i]) && IsV(w[j]))
        && !(IsLV(w[i]) && IsT(w[j]))
        && (u.pair(w[i], w[j]) > 0 ==> stable && u.excluded(u.pair(w[i], w[j])))
  {
    hide Sound, Tidy, Composed;
    ComposedIsSettled(u, stable, Nfd(u, text));
    var w := Nfc(u, stable, text);
    if i < j < |w| && u.ccc(w[i]) == 0 && forall q :: i < q < j ==> 0 < u.ccc(w[q]) < u.ccc(w[j]) {
      assert Unblocked(u.ccc, w, i, j);
    }
  }

  /** e and a combining acute accent compose to e with acute; to nothing if that were excluded. */
  lemma AcuteComposes(stable: bool)
    ensures Nfc(Small(), stable, [0x65, 0x301]) == [0xE9]
    ensures Nfc(Small().(excluded := c => true), stable, [0x65, 0x301]) == if stable then [0x65, 0x301] else [0xE9]
  {
    AcuteIn(Small(), stable);
    AcuteIn(Small().(excluded := c => true), stable);
  }

  lemma AcuteIn(u: Ucd, stable: bool)
    requires u == Small().(excluded := u.excluded)
    ensures Nfc(u, stable, [0x65, 0x301]) == if stable && u.excluded(0xE9) then [0x65, 0x301] else [0xE9]
  {
    assert Decomposed(u, [0x65, 0x301]);
    DecomposedIsFixed(u, [0x65, 0x301]);
    OrderedIsCanonical(u.ccc, [0x65, 0x301]);
    var none: seq<int> := [];
    assert none + [0x65] == [0x65] && [0x65] + [0x301] == [0x65, 0x301];
    Nothing(u, stable);
    ComposedSnoc(u, stable, none, 0x65);
    ComposedSnoc(u, stable, [0x65], 0x301);
    Appended(u.ccc, none, 0x65);
    hide Composed, Canonical, DecomposeAll, LastStarter, Highest;
  }

  /** Composing again what was composed changes nothing: an absorbed U+11A7 might as well not have been there. */
  lemma {:induction false} ComposedIsFixed(u: Ucd, stable: bool, s: seq<int>)
    requires Sound(u) && Decomposed(u, s) && Ordered(u.ccc, s)
    ensures Composed(u, stable, Nfd(u, Composed(u, stable, s))) == Composed(u, stable, s)
    decreases |s|
  {
    hide *;
    if HasTriple(s) {
      var i := WhereTriple(s);
      var shorter := s[..i + 2] + s[i + 3..];
      WithoutAbsorbed(u, stable, s, i);
      StillOrdered(u, s, i);
      ComposedIsFixed(u, stable, shorter);
    } else {
      NothingLost(u, stable, s);
    }
  }

  lemma WhereTriple(s: seq<int>) returns (i: nat)
    requires HasTriple(s)
    ensures Triple(s, i) && i + 2 < |s|
  {
    i :| Triple(s, i);
  }

  lemma NothingLost(u: Ucd, stable: bool, s: seq<int>)
    requires Sound(u) && Decomposed(u, s) && Ordered(u.ccc, s) && !HasTriple(s)
    ensures Nfd(u, Composed(u, stable, s)) == s
  {
    hide Full, Sound, Composed, HasTriple;
    ComposingKeepsText(u, stable, s);
    DecomposedIsFixed(u, s);
    OrderedIsCanonical(u.ccc, s);
  }

  lemma WithoutAbsorbed(u: Ucd, stable: bool, s: seq<int>, i: nat)
    requires Sound(u) && Triple(s, i) && i + 2 < |s|
    ensures Composed(u, stable, s) == Composed(u, stable, s[..i + 2] + s[i + 3..])
  {
    TripleParts(s, i);
    hide *;
    TripleAbsorbed(u, stable, s[..i], s[i], s[i + 1]);
    ComposedAlike(u, stable, s[..i + 3], s[..i + 2], s[i + 3..]);
  }

  /** What follows does not tell apart prefixes that compose to the same. */
  lemma {:induction false} ComposedAlike(u: Ucd, stable: bool, a: seq<int>, b: seq<int>, c: seq<int>)
    requires Composed(u, stable, a) == Composed(u, stable, b)
    ensures Composed(u, stable, a + c) == Composed(u, stable, b + c)
  {
    hide Composed, Primary;
    if c == [] {
      assert a + c == a && b + c == b;
    } else {
      var front, x := c[..|c| - 1], c[|c| - 1];
      ComposedAlike(u, stable, a, b, front);
      assert a + c == (a + front) + [x] && b + c == (b + front) + [x];
      ComposedSnoc(u, stable, a + front, x);
      ComposedSnoc(u, stable, b + front, x);
    }
  }

  lemma StillOrdered(u: Ucd, s: seq<int>, i: nat)
    requires Sound(u) && Decomposed(u, s) && Ordered(u.ccc, s) && Triple(s, i) && i + 2 < |s|
    ensures var shorter := s[..i + 2] + s[i + 3..];
      Decomposed(u, shorter) && Ordered(u.ccc, shorter) && |shorter| < |s|
  {
    HangulIsStarter(u, s[i + 1]);
    hide Full, Sound;
    var shorter := s[..i + 2] + s[i + 3..];
    forall k | 0 <= k < |shorter| - 1
      ensures !Reorderable(u.ccc, shorter[k], shorter[k + 1])
    {
      if k < i + 1 {
        assert shorter[k] == s[k] && shorter[k + 1] == s[k + 1];
      } else if k > i + 1 {
        assert shorter[k] == s[k + 1] && shorter[k + 1] == s[k + 2];
      }
    }
  }

  lemma GaDecomposes(u: Ucd)
    requires Sound(u)
    ensures DecomposeAll(u, [SBASE]) == [LBASE, VBASE]
    ensures DecomposeAll(u, [SBASE, TBASE]) == [LBASE, VBASE, TBASE]
  {
    LAndV(u, LBASE, VBASE);
    assert Full(u, TBASE) == [TBASE];
    hide Sound, Full, DecomposeAll;
    assert [SBASE, TBASE] == [SBASE] + [TBASE];
    DecomposeConcat(u, [SBASE], [TBASE]);
    DecomposeOne(u, SBASE);
    DecomposeOne(u, TBASE);
  }

  lemma GaComposes(u: Ucd, stable: bool)
    requires Sound(u)
    ensures Composed(u, stable, [LBASE, VBASE, TBASE]) == [SBASE]
  {
    hide Sound, Full, Composed, LastStarter, Highest;
    var none: seq<int> := [];
    TripleAbsorbed(u, stable, none, LBASE, VBASE);
    Nothing(u, stable);
    Three(none, LBASE, VBASE, TBASE);
    Three(none, SBASE, SBASE, SBASE);
  }

  lemma Three(none: seq<int>, a: int, b: int, c: int)
    requires none == []
    ensures none + [a] == [a] && none + [a] + [b] + [c] == [a, b, c]
  {
  }

  lemma StartersOrdered(u: Ucd)
    requires Sound(u)
    ensures Canonical(u.ccc, [LBASE, VBASE]) == [LBASE, VBASE]
    ensures Canonical(u.ccc, [LBASE, VBASE, TBASE]) == [LBASE, VBASE, TBASE]
  {
    HangulIsStarter(u, LBASE);
    HangulIsStarter(u, VBASE);
    HangulIsStarter(u, TBASE);
    hide Sound, Canonical;
    OrderedIsCanonical(u.ccc, [LBASE, VBASE, TBASE]);
    OrderedIsCanonical(u.ccc, [LBASE, VBASE]);
  }

  /** Hangul GA followed by U+11A7: composing loses the last code point. */
  lemma Counterexample(u: Ucd, stable: bool)
    requires Sound(u)
    ensures var text := [SBASE, TBASE];
      Nfd(u, Nfc(u, stable, text)) == [LBASE, VBASE] && Nfd(u, text) == [LBASE, VBASE, TBASE]
  {
    hide Sound, Full, Composed, Canonical, DecomposeAll;
    GaDecomposes(u);
    GaComposes(u, stable);
    StartersOrdered(u);
  }
}
