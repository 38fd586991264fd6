/** Grapheme cluster boundaries: a one-word state machine against the rules of UAX #29 section 3.1.1. */
module Graphemes {
  const START := 0
  const OTHER := 1
  const CR := 2
  const LF := 3
  const CONTROL := 4
  const EXTEND := 5
  const L := 6
  const V := 7
  const T := 8
  const LV := 9
  const LVT := 10
  const REGIONAL_INDICATOR := 11
  const SPACINGMARK := 12
  const PREPEND := 13
  const ZWJ := 14
  const EXTENDED_PICTOGRAPHIC := 19
  const E_ZWG := 20

  /** The classes that characters have; START and E_ZWG are states only. */
  predicate IsClass(c: int) {
    OTHER <= c <= EXTENDED_PICTOGRAPHIC
  }

  ghost predicate AllClasses(text: seq<int>) {
    forall i :: 0 <= i < |text| ==> IsClass(text[i])
  }

  // ----- the rules, evaluated on all of the text before the boundary

  predicate IsControl(c: int) { c == CR || c == LF || c == CONTROL }

  predicate Gb6(last: int, next: int) { last == L && (next == L || next == V || next == LV || next == LVT) }
  predicate Gb7(last: int, next: int) { (last == LV || last == V) && (next == V || next == T) }
  predicate Gb8(last: int, next: int) { (last == LVT || last == T) && next == T }
  predicate Gb9(last: int, next: int) {
    next == EXTEND || next == ZWJ || next == SPACINGMARK || last == PREPEND
  }

  /** A pictograph followed by nothing but extending marks. */
  ghost predicate EndsInEmoji(text: seq<int>) {
    exists i :: 0 <= i < |text| && text[i] == EXTENDED_PICTOGRAPHIC && forall k :: i < k < |text| ==> text[k] == EXTEND
  }

  /** The left side of GB11. */
  ghost predicate EndsInEmojiZwj(text: seq<int>) {
    text != [] && text[|text| - 1] == ZWJ && EndsInEmoji(text[..|text| - 1])
  }

  /** How many regional indicators the text ends in. */
  function Indicators(text: seq<int>): nat {
    if text == [] || text[|text| - 1] != REGIONAL_INDICATOR then 0 else 1 + Indicators(text[..|text| - 1])
  }

  ghost predicate Gb11(text: seq<int>, next: int) {
    next == EXTENDED_PICTOGRAPHIC && EndsInEmojiZwj(text)
  }

  ghost predicate Gb12And13(text: seq<int>, next: int) {
    next == REGIONAL_INDICATOR && Indicators(text) % 2 == 1
  }

  /** Whether a boundary stands between the text and the next character. */
  ghost predicate Boundary(text: seq<int>, next: int) {
    if text == [] then true                                   // GB1
    else
      var last := text[|text| - 1];
      if last == CR && next == LF then false                  // GB3
      else if IsControl(last) || IsControl(next) then true    // GB4, GB5
      else !(|| Gb6(last, next) || Gb7(last, next) || Gb8(last, next) || Gb9(last, next)
             || Gb11(text, next) || Gb12And13(text, next))    // otherwise GB999
  }

  // ----- the code

  /** grapheme_break_simple. */
  function Simple(lbc: int, tbc: int): bool {
    if lbc == START then true
    else if lbc == CR && tbc == LF then false
    else if CR <= lbc <= CONTROL then true
    else if CR <= tbc <= CONTROL then true
    else if lbc == L && (tbc == L || tbc == V || tbc == LV || tbc == LVT) then false
    else if (lbc == LV || lbc == V) && (tbc == V || tbc == T) then false
    else if (lbc == LVT || lbc == T) && tbc == T then false
    else if tbc == EXTEND || tbc == ZWJ || tbc == SPACINGMARK || lbc == PREPEND then false
    else if lbc == E_ZWG && tbc == EXTENDED_PICTOGRAPHIC then false
    else if lbc == REGIONAL_INDICATOR && tbc == REGIONAL_INDICATOR then false
    else true
  }

  /** What the one word remembers of a text. */
  ghost function StateOf(text: seq<int>): int {
    if text == [] then START
    else if EndsInEmojiZwj(text) then E_ZWG
    else if EndsInEmoji(text) then EXTENDED_PICTOGRAPHIC
    else if Indicators(text) > 0 && Indicators(text) % 2 == 0 then OTHER
    else text[|text| - 1]
  }

  lemma EmojiBefore(text: seq<int>, c: int)
    requires EndsInEmoji(text + [c]) && c != EXTENDED_PICTOGRAPHIC
    ensures c == EXTEND && EndsInEmoji(text)
  {
    var longer := text + [c];
    var i :| 0 <= i < |longer| && longer[i] == EXTENDED_PICTOGRAPHIC
      && forall k :: i < k < |longer| ==> longer[k] == EXTEND;
    assert longer[|text|] == c;
    forall k | i < k < |text|
      ensures text[k] == EXTEND
    {
      assert longer[k] == text[k];
    }
    assert text[i] == EXTENDED_PICTOGRAPHIC;
  }

  lemma EmojiSnoc(text: seq<int>, c: int)
    ensures EndsInEmoji(text + [c]) <==> c == EXTENDED_PICTOGRAPHIC || (c == EXTEND && EndsInEmoji(text))
    ensures EndsInEmojiZwj(text + [c]) <==> c == ZWJ && EndsInEmoji(text)
    ensures Indicators(text + [c]) == if c == REGIONAL_INDICATOR then Indicators(text) + 1 else 0
  {
    var longer := text + [c];
    assert longer[..|text|] == text;
    if c == EXTENDED_PICTOGRAPHIC {
      assert longer[|text|] == EXTENDED_PICTOGRAPHIC;
    } else if c == EXTEND && EndsInEmoji(text) {
      var i :| 0 <= i < |text| && text[i] == EXTENDED_PICTOGRAPHIC && forall k :: i < k < |text| ==> text[k] == EXTEND;
      assert longer[i] == EXTENDED_PICTOGRAPHIC;
    } else if EndsInEmoji(longer) {
      EmojiBefore(text, c);
    }
  }

  lemma EmojiEnd(text: seq<int>)
    requires EndsInEmoji(text)
    ensures text != [] && text[|text| - 1] in {EXTENDED_PICTOGRAPHIC, EXTEND}
  {
  }

  /** The state stands for the text: it decides the next boundary as the rules do. */
  lemma StateDecides(text: seq<int>, next: int)
    requires AllClasses(text) && IsClass(next)
    ensures Simple(StateOf(text), next) == Boundary(text, next)
  {
    if text != [] {
      if EndsInEmoji(text) {
        EmojiEnd(text);
      }
    }
  }

  class Breaker {
    var state: int
    ghost var text: seq<int>     // the classes of the characters so far

    ghost predicate Valid()
      reads this
    {
      AllClasses(text) && state == StateOf(text)
    }

    constructor ()
      ensures Valid() && text == []
    {
      state := START;
      text := [];
    }

    /** grapheme_break_extended with a state: is there a boundary before a character of class tbc?
        A fresh state takes its left character from lbc, which may be START for the start of the text. */
    method Extended(lbc: int, tbc: int) returns (permitted: bool)
      requires Valid() && IsClass(tbc) && (state == START ==> lbc == START || IsClass(lbc))
      modifies this
      ensures Valid()
      ensures var before := if old(text) == [] && lbc != START then [lbc] else old(text);
        text == before + [tbc] && permitted == Boundary(before, tbc)
    {
      StateIsClass(text);
      ghost var before := if text == [] && lbc != START then [lbc] else text;
      var lbcOverride;
      if state == START {
        state := lbc;
        lbcOverride := lbc;
        OneCharacter(lbc);
      } else {
        lbcOverride := state;
      }
      permitted := Simple(lbcOverride, tbc);
      StateDecides(before, tbc);
      StateMoves(before, tbc);
      if state == tbc && tbc == REGIONAL_INDICATOR {
        state := OTHER;
      } else if state == EXTENDED_PICTOGRAPHIC {
        if tbc == EXTEND {
          state := EXTENDED_PICTOGRAPHIC;
        } else if tbc == ZWJ {
          state := E_ZWG;
        } else {
          state := tbc;
        }
      } else {
        state := tbc;
      }
      text := before + [tbc];
    }
  }

  lemma StateIsClass(text: seq<int>)
    requires AllClasses(text)
    ensures StateOf(text) == START <==> text == []
  {
  }

  lemma OneCharacter(c: int)
    ensures StateOf([c]) == if c == START then START else c
  {
    EmojiSnoc([], c);
    assert [] + [c] == [c];
  }

  /** How the state follows the text. */
  lemma StateMoves(text: seq<int>, c: int)
    requires AllClasses(text) && IsClass(c)
    ensures StateOf(text + [c]) ==
      if StateOf(text) == REGIONAL_INDICATOR && c == REGIONAL_INDICATOR then OTHER
      else if StateOf(text) == EXTENDED_PICTOGRAPHIC && c == EXTEND then EXTENDED_PICTOGRAPHIC
      else if StateOf(text) == EXTENDED_PICTOGRAPHIC && c == ZWJ then E_ZWG
      else c
  {
    EmojiSnoc(text, c);
    if EndsInEmoji(text) {
      EmojiEnd(text);
    }
  }

  // ----- the rules as a table of pairs

  /** The classes that may not be parted from a character of class a in front of them. */
  function Joined(a: int): set<int> {
    match a
    case 2 => {3}
    case 3 => {}
    case 4 => {}
    case 6 => {5, 12, 14, 6, 7, 9, 10}
    case 7 => {5, 12, 14, 7, 8}
    case 8 => {5, 12, 14, 8}
    case 9 => {5, 12, 14, 7, 8}
    case 10 => {5, 12, 14, 8}
    case 11 => {5, 12, 14, 11}
    case 13 => {1, 5, 6, 7, 8, 9, 10, 11, 12, 13, 14, 15, 16, 17, 18, 19}
    case _ => {5, 12, 14}
  }

  /** Without a state the code answers by the table. */
  lemma SimpleIsTable(a: int, b: int)
    requires IsClass(a) && IsClass(b)
    ensures Simple(a, b) <==> b !in Joined(a)
  {
  }

  /** With all the text in front, a boundary is where the table has one, but for pictographs behind a joiner and for
      the two halves of one flag after the other. */
  lemma BoundaryByTable(text: seq<int>, next: int)
    requires text != [] && AllClasses(text) && IsClass(next)
    ensures Boundary(text, next) <==>
      && !(next == 19 && EndsInEmojiZwj(text))
      && (next !in Joined(text[|text| - 1]) || (next == 11 && text[|text| - 1] == 11 && Indicators(text) % 2 == 0))
  {
    SimpleIsTable(text[|text| - 1], next);
    SimpleIsWrongOnlyThere(text, next);
    hide Simple, Joined;
  }

  // ----- what follows from the rules

  /** Without a state the code misjudges exactly emoji sequences and every second pair of flags. */
  lemma SimpleIsWrongOnlyThere(text: seq<int>, next: int)
    requires text != [] && AllClasses(text) && IsClass(next)
    ensures Simple(text[|text| - 1], next) != Boundary(text, next) <==>
      || Gb11(text, next)
      || (text[|text| - 1] == REGIONAL_INDICATOR && next == REGIONAL_INDICATOR && Indicators(text) % 2 == 0)
  {
  }

  /** Between two flags there is a boundary, which the code misses without a state. */
  lemma TwoFlags()
    ensures var text := [REGIONAL_INDICATOR, REGIONAL_INDICATOR];
      Boundary(text, REGIONAL_INDICATOR) && !Simple(REGIONAL_INDICATOR, REGIONAL_INDICATOR)
  {
    var one, two := [REGIONAL_INDICATOR], [REGIONAL_INDICATOR, REGIONAL_INDICATOR];
    assert two[..1] == one && one[..0] == [];
    assert Indicators(two) == 1 + Indicators(one);
  }

  /** Two pictographs joined by ZWJ are one cluster, which the code breaks without a state. */
  lemma JoinedPictographs()
    ensures !Boundary([EXTENDED_PICTOGRAPHIC, ZWJ], EXTENDED_PICTOGRAPHIC) && Simple(ZWJ, EXTENDED_PICTOGRAPHIC)
  {
    var text := [EXTENDED_PICTOGRAPHIC, ZWJ];
    assert text[..1] == [EXTENDED_PICTOGRAPHIC];
    assert text[..1][0] == EXTENDED_PICTOGRAPHIC;
  }

  lemma {:induction false} IndicatorsAfter(text: seq<int>, next: int, rest: seq<int>)
    ensures var n := Indicators([next] + rest);
      Indicators(text + [next] + rest) == if n == |rest| + 1 then n + Indicators(text) else n
    decreases |rest|
  {
    if rest == [] {
      EmojiSnoc(text, next);
      EmojiSnoc([], next);
      assert text + [next] + rest == text + [next] && [next] + rest == [] + [next];
    } else {
      var m := |rest| - 1;
      IndicatorsAfter(text, next, rest[..m]);
      assert text + [next] + rest == (text + [next] + rest[..m]) + [rest[m]];
      assert [next] + rest == ([next] + rest[..m]) + [rest[m]];
      EmojiSnoc(text + [next] + rest[..m], rest[m]);
      EmojiSnoc([next] + rest[..m], rest[m]);
    }
  }

  lemma {:induction false} EmojiAfter(text: seq<int>, next: int, rest: seq<int>)
    requires (next == EXTEND || next == ZWJ) ==> !EndsInEmoji(text)
    ensures EndsInEmoji(text + [next] + rest) == EndsInEmoji([next] + rest)
    ensures EndsInEmojiZwj(text + [next] + rest) == EndsInEmojiZwj([next] + rest)
    decreases |rest|
  {
    if rest == [] {
      EmojiSnoc(text, next);
      EmojiSnoc([], next);
      assert text + [next] + rest == text + [next] && [next] + rest == [] + [next];
    } else {
      var m := |rest| - 1;
      EmojiAfter(text, next, rest[..m]);
      assert text + [next] + rest == (text + [next] + rest[..m]) + [rest[m]];
      assert [next] + rest == ([next] + rest[..m]) + [rest[m]];
      EmojiSnoc(text + [next] + rest[..m], rest[m]);
      EmojiSnoc([next] + rest[..m], rest[m]);
    }
  }

  /** The state may be reset after a boundary: later boundaries do not depend on what stands before it. */
  lemma ResetIsSafe(text: seq<int>, next: int, rest: seq<int>, c: int)
    requires AllClasses(text) && IsClass(next) && AllClasses(rest) && IsClass(c) && Boundary(text, next)
    ensures Boundary(text + [next] + rest, c) == Boundary([next] + rest, c)
  {
    if text == [] {
      assert text + [next] + rest == [next] + rest;
    } else {
      EmojiAfterBoundary(text, next, rest);
      IndicatorsAfter(text, next, rest);
      var a, b := text + [next] + rest, [next] + rest;
      assert a[|a| - 1] == b[|b| - 1];
      if Indicators(text) % 2 == 1 {
        IndicatorsEnd(text);
        IndicatorsStart(next, rest);
      }
    }
  }

  /** A boundary comes before an extending character only at the start or next to a control. */
  lemma EmojiAfterBoundary(text: seq<int>, next: int, rest: seq<int>)
    requires text != [] && Boundary(text, next)
    ensures EndsInEmojiZwj(text + [next] + rest) == EndsInEmojiZwj([next] + rest)
  {
    if EndsInEmoji(text) {
      EmojiEnd(text);
    }
    EmojiAfter(text, next, rest);
  }

  lemma IndicatorsEnd(text: seq<int>)
    requires Indicators(text) > 0
    ensures text[|text| - 1] == REGIONAL_INDICATOR
  {
  }

  lemma {:induction false} IndicatorsStart(next: int, rest: seq<int>)
    ensures Indicators([next] + rest) == |rest| + 1 ==> next == REGIONAL_INDICATOR
    decreases |rest|
  {
    if rest != [] {
      var m := |rest| - 1;
      IndicatorsStart(next, rest[..m]);
      assert ([next] + rest)[..m + 1] == [next] + rest[..m];
    }
  }
}
