/** The algorithm of RFC 3986 section 5.2.4 as it stands there, and the paths on which the normalizer agrees with it. */
module DotSegments {
  import opened Bitwise
  import opened RequestStr
  import opened Paths

  /** The first path segment: an initial slash, if any, and what follows up to the next slash. */
  function FirstEnd(input: seq<byte>, n: nat): (r: nat)
    requires n <= |input|
    ensures n <= r <= |input| && SLASH !in input[n..r] && (r < |input| ==> input[r] == SLASH)
    decreases |input| - n
  {
    if n == |input| || input[n] == SLASH then n else FirstEnd(input, n + 1)
  }

  /** Steps 2A to 2E. */
  function RemoveDotSegments(input: seq<byte>, output: seq<byte>): seq<byte>
    decreases |input|
  {
    if input == [] then output
    else if [DOT, DOT, SLASH] <= input then RemoveDotSegments(input[3..], output)
    else if [DOT, SLASH] <= input then RemoveDotSegments(input[2..], output)
    else if [SLASH, DOT, SLASH] <= input then RemoveDotSegments(input[2..], output)
    else if input == [SLASH, DOT] then RemoveDotSegments([SLASH], output)
    else if [SLASH, DOT, DOT, SLASH] <= input then RemoveDotSegments(input[3..], WithoutLast(output, false))
    else if input == [SLASH, DOT, DOT] then RemoveDotSegments([SLASH], WithoutLast(output, false))
    else if input == [DOT] || input == [DOT, DOT] then RemoveDotSegments([], output)
    else
      var n := FirstEnd(input, 1);
      RemoveDotSegments(input[n..], output + input[..n])
  }

  predicate IsDots(s: Segment) { IsDot(s) || IsDotDot(s) }

  // ----- the algorithm told by segments

  /** The output buffer: its segments, and whether a slash stands in front of the first. */
  datatype Output = Output(rooted: bool, pieces: seq<Segment>)

  function Text(o: Output): seq<byte> {
    if o.pieces == [] then [] else (if o.rooted then [SLASH] else []) + Join(o.pieces)
  }

  /** Only the first segment of a relative path has no slash in front. */
  ghost predicate Sound(o: Output) {
    && (forall i :: 0 <= i < |o.pieces| ==> SLASH !in o.pieces[i])
    && (!o.rooted ==> o.pieces != [] && o.pieces[0] != [])
  }

  function Put(o: Output, s: Segment): Output {
    Output(o.rooted, o.pieces + [s])
  }

  function Pop(o: Output): Output {
    if |o.pieces| <= 1 then Output(true, []) else Output(o.rooted, o.pieces[..|o.pieces| - 1])
  }

  function Take(o: Output, s: Segment): Output {
    if IsDot(s) then o else if IsDotDot(s) then Pop(o) else Put(o, s)
  }

  function TakeAll(o: Output, segments: seq<Segment>): Output
    decreases |segments|
  {
    if segments == [] then o else TakeAll(Take(o, segments[0]), segments[1..])
  }

  /** A dot segment at the very end leaves a slash. */
  function Ended(o: Output, last: Segment): Output {
    if IsDots(last) then Put(o, []) else o
  }

  function Outcome(segments: seq<Segment>): seq<byte>
    requires segments != []
    decreases |segments|
  {
    var last := segments[|segments| - 1];
    if segments[0] == [] then
      if |segments| == 1 then [] else Text(Ended(TakeAll(Output(true, []), segments[1..]), last))
    else if IsDots(segments[0]) then
      if |segments| == 1 then [] else Outcome(segments[1..])
    else if |segments| == 1 then segments[0]
    else Text(Ended(TakeAll(Output(false, [segments[0]]), segments[1..]), last))
  }

  lemma TextPut(o: Output, s: Segment)
    requires Sound(o)
    ensures Text(Put(o, s)) == Text(o) + [SLASH] + s
  {
    if o.pieces == [] {
      assert [] + [s] == [s];
      JoinOne(s);
    } else {
      JoinSnoc(o.pieces, s);
    }
  }

  lemma TextPop(o: Output)
    requires Sound(o)
    ensures WithoutLast(Text(o), false) == Text(Pop(o)) && Sound(Pop(o))
  {
    hide Join;
    var m := |o.pieces| - 1;
    if m >= 0 {
      var last := o.pieces[m];
      if m == 0 {
        assert o.pieces == [last];
        JoinOne(last);
        LastSlashIs(Text(o), if o.rooted then 0 else -1);
      } else {
        var front := o.pieces[..m];
        assert front + [last] == o.pieces;
        TextPut(Output(o.rooted, front), last);
        LastSlashIs(Text(o), |Text(Pop(o))|);
      }
    } else {
      LastSlashIs([], -1);
    }
  }

  /** The first segment stands in front, and the others behind the slash that follows it. */
  lemma {:induction false} Head(path: seq<byte>)
    ensures var s := Split(path)[0];
      && s <= path && SLASH !in s
      && if |Split(path)| == 1 then path == s
         else |s| < |path| && path[|s|] == SLASH && Split(path[|s| + 1..]) == Split(path)[1..]
    decreases |path|
  {
    if path != [] && path[0] != SLASH {
      Head(path[1..]);
      var r := Split(path[1..]);
      assert path == [path[0]] + path[1..];
      assert |r| > 1 ==> path[1..][|r[0]| + 1..] == path[|r[0]| + 2..];
    }
  }

  /** Step 2E for an input that starts with a slash. */
  lemma Moves(input: seq<byte>, output: seq<byte>, n: nat)
    requires 1 <= n <= |input| && input[0] == SLASH && SLASH !in input[1..n] && !IsDots(input[1..n])
    requires n < |input| ==> input[n] == SLASH
    ensures RemoveDotSegments(input, output) == RemoveDotSegments(input[n..], output + input[..n])
  {
    FirstEndIs(input, 1, n);
    NoDotsBehind(input, n);
  }

  lemma NoDotsBehind(input: seq<byte>, n: nat)
    requires 1 <= n <= |input| && input[0] == SLASH && SLASH !in input[1..n] && !IsDots(input[1..n])
    requires n < |input| ==> input[n] == SLASH
    ensures !DotsAhead(input)
  {
    assert forall k :: 1 <= k < n ==> input[k] == input[1..n][k - 1] != SLASH;
    assert n == 2 ==> input[1..n] == [input[1]];
    assert n == 3 ==> input[1..n] == [input[1], input[2]];
    StartsWith([DOT, DOT, SLASH], input);
    StartsWith([DOT, SLASH], input);
    StartsWith([SLASH, DOT, SLASH], input);
    StartsWith([SLASH, DOT, DOT, SLASH], input);
  }

  lemma FirstEndIs(input: seq<byte>, n: nat, r: nat)
    requires n <= r <= |input| && SLASH !in input[n..r] && (r < |input| ==> input[r] == SLASH)
    ensures FirstEnd(input, n) == r
    decreases |input| - n
  {
    if n < r {
      assert input[n] in input[n..r];
      assert forall k :: n + 1 <= k < r ==> input[k] in input[n..r];
      FirstEndIs(input, n + 1, r);
    }
  }

  /** From a slash on, the algorithm goes through the segments. */
  lemma {:induction false} FromSlash(input: seq<byte>, o: Output)
    requires input != [] && input[0] == SLASH && Sound(o)
    ensures var segments := Split(input[1..]);
      RemoveDotSegments(input, Text(o)) == Text(Ended(TakeAll(o, segments), segments[|segments| - 1]))
    decreases |input|
  {
    hide Split, Text, Join, WithoutLast;
    var segments := Split(input[1..]);
    var s := segments[0];
    Head(input[1..]);
    assert input[1..|s| + 1] == s;
    TakeOneOf(o, segments);
    if |segments| > 1 {
      var rest := input[|s| + 1..];
      assert rest[1..] == input[1..][|s| + 1..];
      assert rest[0] == input[1..][|s|] == SLASH;
      TakeIsSound(o, s);
      FromSlash(rest, Take(o, s));
      OneSegment(input, o, s);
    } else {
      assert input == [SLASH] + s;
      TakeOneOf(Take(o, s), segments[1..]);
      LastSegment(input, o, s);
    }
  }

  /** A segment with another slash behind it. */
  lemma OneSegment(input: seq<byte>, o: Output, s: Segment)
    requires Sound(o) && SLASH !in s && |s| + 1 < |input|
    requires input[0] == SLASH && input[1..|s| + 1] == s && input[|s| + 1] == SLASH
    ensures RemoveDotSegments(input, Text(o)) == RemoveDotSegments(input[|s| + 1..], Text(Take(o, s)))
  {
    hide Text, Join, WithoutLast, RemoveDotSegments;
    TextPut(o, s);
    TextPop(o);
    if !IsDots(s) {
      Moves(input, Text(o), |s| + 1);
      assert Text(o) + input[..|s| + 1] == Text(o) + [SLASH] + s;
    } else {
      assert input[..|s| + 2] == [SLASH] + s + [SLASH];
      DotsBehindSlash(input, Text(o), s);
    }
  }

  /** Steps 2B and 2C, before another slash. */
  lemma DotsBehindSlash(input: seq<byte>, output: seq<byte>, s: Segment)
    requires IsDots(s) && [SLASH] + s + [SLASH] <= input
    ensures RemoveDotSegments(input, output)
         == RemoveDotSegments(input[|s| + 1..], if IsDot(s) then output else WithoutLast(output, false))
  {
    assert input[0] == SLASH && input[1] == DOT && input[|s| + 1] == SLASH;
    assert [SLASH, DOT, DOT, SLASH] <= input <==> IsDotDot(s) by {
      assert IsDotDot(s) ==> [SLASH] + s + [SLASH] == [SLASH, DOT, DOT, SLASH];
      assert IsDot(s) ==> input[2] == SLASH;
    }
    assert [SLASH, DOT, SLASH] <= input <==> IsDot(s) by {
      assert IsDot(s) ==> [SLASH] + s + [SLASH] == [SLASH, DOT, SLASH];
      assert IsDotDot(s) ==> input[2] == DOT;
    }
  }

  /** Step 2A. */
  lemma DotsInFront(input: seq<byte>, output: seq<byte>, s: Segment)
    requires IsDots(s) && s + [SLASH] <= input
    ensures RemoveDotSegments(input, output) == RemoveDotSegments(input[|s| + 1..], output)
  {
    assert input[0] == DOT && input[|s|] == SLASH;
    assert [DOT, DOT, SLASH] <= input <==> IsDotDot(s) by {
      assert IsDotDot(s) ==> s + [SLASH] == [DOT, DOT, SLASH];
      assert IsDot(s) ==> input[1] == SLASH;
    }
    assert [DOT, SLASH] <= input <==> IsDot(s) by {
      assert IsDot(s) ==> s + [SLASH] == [DOT, SLASH];
      assert IsDotDot(s) ==> input[1] == DOT;
    }
  }

  /** Step 2E for an input that does not start with a slash. */
  lemma MovesFirst(input: seq<byte>, output: seq<byte>, s: Segment)
    requires s != [] && s <= input && SLASH !in s && !IsDots(s) && (|s| < |input| ==> input[|s|] == SLASH)
    ensures RemoveDotSegments(input, output) == RemoveDotSegments(input[|s|..], output + s)
  {
    assert input[1..|s|] == s[1..];
    FirstEndIs(input, 1, |s|);
    assert input[..|s|] == s;
    NoDotsAhead(input, s);
  }

  predicate DotsAhead(input: seq<byte>) {
    || [DOT, DOT, SLASH] <= input || [DOT, SLASH] <= input || [SLASH, DOT, SLASH] <= input || input == [SLASH, DOT]
    || [SLASH, DOT, DOT, SLASH] <= input || input == [SLASH, DOT, DOT] || input == [DOT] || input == [DOT, DOT]
  }

  lemma NoDotsAhead(input: seq<byte>, s: Segment)
    requires s != [] && s <= input && SLASH !in s && !IsDots(s) && (|s| < |input| ==> input[|s|] == SLASH)
    ensures !DotsAhead(input)
  {
    assert forall k :: 0 <= k < |s| ==> input[k] == s[k] != SLASH;
    assert |s| == 1 ==> s == [input[0]];
    assert |s| == 2 ==> s == [input[0], input[1]];
    StartsWith([DOT, DOT, SLASH], input);
    StartsWith([DOT, SLASH], input);
    StartsWith([SLASH, DOT, SLASH], input);
    StartsWith([SLASH, DOT, DOT, SLASH], input);
  }

  lemma StartsWith(p: seq<byte>, input: seq<byte>)
    requires |p| >= 2
    ensures p <= input ==>
      && |p| <= |input| && input[0] == p[0] && input[1] == p[1]
      && (|p| > 2 ==> input[2] == p[2]) && (|p| > 3 ==> input[3] == p[3])
  {
  }

  lemma LastSegment(input: seq<byte>, o: Output, s: Segment)
    requires Sound(o) && SLASH !in s && input == [SLASH] + s
    ensures RemoveDotSegments(input, Text(o)) == Text(Ended(Take(o, s), s))
  {
    hide Text, Join, WithoutLast;
    TextPut(o, s);
    TextPop(o);
    if IsDots(s) {
      var after := Take(o, s);
      TextPut(after, []);
      Moves([SLASH], Text(after), 1);
    } else {
      Moves(input, Text(o), |input|);
      assert Text(o) + input == Text(o) + [SLASH] + s;
      assert input[|input|..] == [];
    }
  }

  lemma TakeOneOf(o: Output, segments: seq<Segment>)
    ensures TakeAll(o, segments) == if segments == [] then o else TakeAll(Take(o, segments[0]), segments[1..])
  {
  }

  lemma TakeIsSound(o: Output, s: Segment)
    requires Sound(o) && SLASH !in s
    ensures Sound(Take(o, s))
  {
  }

  /** The whole algorithm, told by segments. */
  lemma {:induction false} AlgorithmIs(path: seq<byte>)
    ensures RemoveDotSegments(path, []) == Outcome(Split(path))
    decreases |path|
  {
    hide Join, TakeAll, RemoveDotSegments, Split;
    var segments := Split(path);
    var s := segments[0];
    Head(path);
    NothingLeft([]);
    if path == [] {
      assert s == [] && segments == [EMPTY];
    } else if path[0] == SLASH {
      SlashFirst(path);
      FromSlash(path, Output(true, []));
    } else if IsDots(s) {
      if |segments| > 1 {
        assert path[..|s| + 1] == s + [SLASH];
        DotsInFront(path, [], s);
        AlgorithmIs(path[|s| + 1..]);
      } else {
        OnlyDots(path);
      }
    } else {
      NoSlashFirst(path);
      MovesFirst(path, [], s);
      JoinOne(s);
      assert [] + s == s;
      if |segments| > 1 {
        var rest := path[|s|..];
        assert rest[1..] == path[|s| + 1..];
        FromSlash(rest, Output(false, [s]));
      } else {
        assert path[|s|..] == [];
        NothingLeft(s);
      }
    }
  }

  lemma NothingLeft(output: seq<byte>)
    ensures RemoveDotSegments([], output) == output
  {
  }

  lemma OnlyDots(path: seq<byte>)
    requires IsDots(path)
    ensures RemoveDotSegments(path, []) == []
  {
  }

  lemma SlashFirst(path: seq<byte>)
    requires path != [] && path[0] == SLASH
    ensures Split(path) == [EMPTY] + Split(path[1..]) && Split(path)[1..] == Split(path[1..])
  {
  }

  lemma NoSlashFirst(path: seq<byte>)
    requires path != [] && path[0] != SLASH
    ensures Split(path)[0] != []
  {
    var r := Split(path[1..]);
    assert Split(path)[0] == [path[0]] + r[0];
  }

  // ----- where the normalizer agrees

  /** What one pass over the segments has to remember: how many are in the output, whether the last of them is empty,
      whether none was put on top of an empty one since the output was last empty, and whether the output starts with
      a slash. */
  datatype Scan = Scan(depth: nat, empty: bool, clear: bool, rooted: bool)

  function Look(sc: Scan, s: Segment): Scan {
    if IsDot(s) then sc
    else if IsDotDot(s) then
      if sc.depth <= 1 then Scan(0, false, true, true) else Scan(sc.depth - 1, false, sc.clear, sc.rooted)
    else Scan(sc.depth + 1, s == [], sc.clear && !sc.empty, sc.rooted)
  }

  function LookAll(sc: Scan, segments: seq<Segment>): Scan
    decreases |segments|
  {
    if segments == [] then sc else LookAll(Look(sc, segments[0]), segments[1..])
  }

  /** A final dot segment must leave nothing; a relative path that has become absolute must be the root by now; else
      no segment may stand on top of an empty one. */
  predicate Agrees(isAbsolute: bool, sc: Scan, last: Segment) {
    if IsDots(last) then sc.depth == 0
    else if sc.rooted && !isAbsolute then sc.depth == 1 && last == []
    else sc.clear
  }

  predicate Follows(isAbsolute: bool, segments: seq<Segment>)
    requires segments != []
    decreases |segments|
  {
    var last := segments[|segments| - 1];
    if segments[0] == [] then
      |segments| > 1 && Agrees(isAbsolute, LookAll(Scan(0, false, true, true), segments[1..]), last)
    else if IsDots(segments[0]) then
      |segments| > 1 && Follows(isAbsolute, segments[1..])
    else
      |segments| == 1 || Agrees(isAbsolute, LookAll(Scan(1, false, true, false), segments[1..]), last)
  }

  /** The normalizer's stack: its names, and the slash behind them as an empty segment. */
  function Stack(st: State): seq<Segment> {
    st.names + if st.slash then [EMPTY] else []
  }

  ghost predicate Alike(o: Output, st: State, sc: Scan) {
    && Sound(o) && AllNames(st.names) && (st.slash ==> st.names != [])
    && sc.depth == |o.pieces| && sc.rooted == o.rooted
    && if !sc.clear then |Stack(st)| < |o.pieces|
       else if o.pieces == [] then st == State([], false) && !sc.empty
       else if o.pieces == [EMPTY] then st == State([], false) && sc.empty
       else st.names != [] && o.pieces == Stack(st) && sc.empty == st.slash
  }

  lemma StepAlike(o: Output, st: State, sc: Scan, s: Segment)
    requires Alike(o, st, sc) && SLASH !in s
    ensures Alike(Take(o, s), Step(st, s), Look(sc, s))
  {
    if IsDotDot(s) {
      PopAlike(o, st, sc);
    } else if !IsDot(s) {
      PutAlike(o, st, sc, s);
    }
  }

  lemma PopAlike(o: Output, st: State, sc: Scan)
    requires Alike(o, st, sc)
    ensures Alike(Pop(o), Step(st, [DOT, DOT]), Look(sc, [DOT, DOT]))
  {
  }

  lemma PutAlike(o: Output, st: State, sc: Scan, s: Segment)
    requires Alike(o, st, sc) && SLASH !in s && !IsDots(s)
    ensures Alike(Put(o, s), Step(st, s), Look(sc, s))
  {
  }

  lemma {:induction false} AllAlike(o: Output, st: State, sc: Scan, segments: seq<Segment>)
    requires Alike(o, st, sc) && forall i :: 0 <= i < |segments| ==> SLASH !in segments[i]
    ensures Alike(TakeAll(o, segments), FoldFrom(st, segments), LookAll(sc, segments))
    decreases |segments|
  {
    hide Alike, Step, Take, Look;
    if segments != [] {
      StepAlike(o, st, sc, segments[0]);
      AllAlike(Take(o, segments[0]), Step(st, segments[0]), Look(sc, segments[0]), segments[1..]);
    }
  }

  lemma {:induction false} AllButLast(o: Output, st: State, sc: Scan, front: seq<Segment>, last: Segment)
    ensures TakeAll(o, front + [last]) == Take(TakeAll(o, front), last)
    ensures FoldFrom(st, front + [last]) == Step(FoldFrom(st, front), last)
    ensures LookAll(sc, front + [last]) == Look(LookAll(sc, front), last)
    decreases |front|
  {
    hide Take, Step, Look;
    if front == [] {
      assert front + [last] == [last];
      assert TakeAll(o, [last]) == TakeAll(Take(o, last), []);
    } else {
      AllButLast(Take(o, front[0]), Step(st, front[0]), Look(sc, front[0]), front[1..], last);
      assert (front + [last])[1..] == front[1..] + [last];
    }
  }

  function SegmentsOfText(o: Output): seq<Segment> {
    (if o.rooted then [EMPTY] else []) + o.pieces
  }

  /** A text determines its segments. */
  lemma TextSplits(o: Output)
    requires Sound(o) && o.pieces != []
    ensures Split(Text(o)) == SegmentsOfText(o)
  {
    var all := SegmentsOfText(o);
    assert Text(o) == Join(all) by {
      if o.rooted {
        assert all[1..] == o.pieces;
      } else {
        assert all == o.pieces;
      }
    }
    SplitJoin(all);
  }

  /** The last segment decides: the two results are the same exactly when the scan says so. */
  lemma Verdict(isAbsolute: bool, o: Output, st: State, sc: Scan, last: Segment)
    requires Alike(o, st, sc) && SLASH !in last && (isAbsolute ==> o.rooted)
    ensures Text(Ended(Take(o, last), last)) == Render(isAbsolute, Step(st, last))
       <==> Agrees(isAbsolute, Look(sc, last), last)
  {
    hide Alike, Join, Split, Text, Render;
    var t, r := Ended(Take(o, last), last), Step(st, last);
    StepAlike(o, st, sc, last);
    SoundEnd(o, st, sc, last);
    TextSplits(t);
    RenderSplits(isAbsolute, r);
    assert Text(t) == Render(isAbsolute, r) <==> SegmentsOfText(t) == SegmentsOf(isAbsolute, r) by {
      JoinSplit(Text(t));
      JoinSplit(Render(isAbsolute, r));
    }
    SegmentsAgree(isAbsolute, o, st, sc, last);
  }

  lemma SoundEnd(o: Output, st: State, sc: Scan, last: Segment)
    requires Alike(o, st, sc) && SLASH !in last
    ensures var t := Ended(Take(o, last), last);
      Sound(t) && t.pieces != [] && AllNames(Step(st, last).names) && (Step(st, last).slash ==> Step(st, last).names != [])
  {
    StepAlike(o, st, sc, last);
  }

  lemma RenderSplits(isAbsolute: bool, st: State)
    requires AllNames(st.names) && (st.slash ==> st.names != [])
    ensures Split(Render(isAbsolute, st)) == SegmentsOf(isAbsolute, st)
  {
    RenderJoins(isAbsolute, st);
    SplitJoin(SegmentsOf(isAbsolute, st));
  }

  lemma SegmentsAgree(isAbsolute: bool, o: Output, st: State, sc: Scan, last: Segment)
    requires Alike(o, st, sc) && SLASH !in last && (isAbsolute ==> o.rooted)
    ensures SegmentsOfText(Ended(Take(o, last), last)) == SegmentsOf(isAbsolute, Step(st, last))
       <==> Agrees(isAbsolute, Look(sc, last), last)
  {
    var t, r := Ended(Take(o, last), last), Step(st, last);
    StepAlike(o, st, sc, last);
    if r.names == [] {
      SoundEnd(o, st, sc, last);
      assert SegmentsOf(isAbsolute, r) == [EMPTY, EMPTY] == [EMPTY] + [EMPTY];
      Cancel([EMPTY], t.pieces, [EMPTY]);
      if !t.rooted {
        assert SegmentsOfText(t)[0] == t.pieces[0] != EMPTY;
      }
    } else {
      assert IsName(r.names[0]);
      assert SegmentsOf(isAbsolute, r) == (if isAbsolute then [EMPTY] else []) + Stack(r);
      if t.rooted == isAbsolute {
        Cancel(if isAbsolute then [EMPTY] else [], t.pieces, Stack(r));
        assert SegmentsOfText(t) == SegmentsOf(isAbsolute, r) <==> t.pieces == Stack(r);
      } else {
        assert SegmentsOfText(t)[0] == EMPTY != SegmentsOf(isAbsolute, r)[0];
      }
    }
  }

  lemma Cancel(p: seq<Segment>, a: seq<Segment>, b: seq<Segment>)
    ensures p + a == p + b <==> a == b
  {
    assert (p + a)[|p|..] == a && (p + b)[|p|..] == b;
  }

  /** The normalizer does what the RFC says exactly on the paths that follow these rules. */
  lemma NormalizerFollows(path: seq<byte>)
    ensures Normalized(path) == RemoveDotSegments(path, []) <==> Follows(IsAbsolute(path), Split(path))
  {
    hide RemoveDotSegments, Split, Follows, Outcome, Fold, FoldFrom;
    AlgorithmIs(path);
    SplitHasNoSlash(path);
    Starts(path);
    FoldIsFoldFrom(Split(path));
    OutcomeFollows(IsAbsolute(path), Split(path));
  }

  lemma Starts(path: seq<byte>)
    ensures IsAbsolute(path) ==> |Split(path)| > 1 && Split(path)[0] == []
  {
  }

  lemma {:induction false} OutcomeFollows(isAbsolute: bool, segments: seq<Segment>)
    requires segments != [] && forall i :: 0 <= i < |segments| ==> SLASH !in segments[i]
    requires isAbsolute ==> |segments| > 1 && segments[0] == []
    ensures Render(isAbsolute, FoldFrom(State([], false), segments)) == Outcome(segments) <==> Follows(isAbsolute, segments)
    decreases |segments|
  {
    hide Text, Render, Alike, TakeAll, LookAll, Agrees, Look, Ended;
    var m := |segments| - 1;
    var s, rest := segments[0], segments[1..];
    var start := State([], false);
    assert [s] + rest == segments;
    FoldFromCons(start, s, rest);
    FoldFromNone(Step(start, s));
    RenderNothing();
    if m == 0 {
      assert rest == [];
      assert [] + [s] == [s];
      RenderName(s);
    } else if s == [] {
      StartsAlike([]);
      RestFollows(isAbsolute, Output(true, []), start, Scan(0, false, true, true), rest);
    } else if IsDots(s) {
      OutcomeFollows(false, rest);
    } else {
      StartsAlike(s);
      assert [] + [s] == [s];
      RestFollows(isAbsolute, Output(false, [s]), State([s], false), Scan(1, false, true, false), rest);
    }
  }

  lemma RestFollows(isAbsolute: bool, o: Output, st: State, sc: Scan, rest: seq<Segment>)
    requires Alike(o, st, sc) && rest != [] && forall i :: 0 <= i < |rest| ==> SLASH !in rest[i]
    requires isAbsolute ==> o.rooted
    ensures var last := rest[|rest| - 1];
      Text(Ended(TakeAll(o, rest), last)) == Render(isAbsolute, FoldFrom(st, rest)) <==>
      Agrees(isAbsolute, LookAll(sc, rest), last)
  {
    hide Text, Render, Alike, Agrees, Look, Take, Step, Ended;
    var m := |rest| - 1;
    var front, last := rest[..m], rest[m];
    assert front + [last] == rest;
    AllAlike(o, st, sc, front);
    AllButLast(o, st, sc, front, last);
    StaysRooted(o, front);
    Verdict(isAbsolute, TakeAll(o, front), FoldFrom(st, front), LookAll(sc, front), last);
  }

  lemma {:induction false} StaysRooted(o: Output, segments: seq<Segment>)
    ensures o.rooted ==> TakeAll(o, segments).rooted
    decreases |segments|
  {
    if segments != [] {
      StaysRooted(Take(o, segments[0]), segments[1..]);
    }
  }

  lemma StartsAlike(s: Segment)
    requires SLASH !in s && !IsDots(s)
    ensures Alike(Output(true, []), State([], false), Scan(0, false, true, true))
    ensures s != [] ==> Alike(Output(false, [s]), State([s], false), Scan(1, false, true, false))
  {
  }

  lemma RenderNothing()
    ensures Render(false, State([], false)) == [SLASH]
  {
  }

  lemma RenderName(s: Segment)
    ensures Render(false, State([s], false)) == s
  {
    JoinOne(s);
  }

  lemma FoldFromNone(st: State)
    ensures FoldFrom(st, []) == st
  {
  }

  /** In particular on every absolute path without empty segments inside and without a dot segment at the end. */
  lemma PlainPathsFollow(path: seq<byte>)
    requires IsAbsolute(path)
    requires var segments := Split(path[1..]);
      && !IsDots(segments[|segments| - 1]) && forall i :: 0 <= i < |segments| - 1 ==> segments[i] != []
    ensures Normalized(path) == RemoveDotSegments(path, [])
  {
    hide RemoveDotSegments, Split, Normalized, LookAll, Look;
    var segments := Split(path[1..]);
    var m := |segments| - 1;
    SlashFirst(path);
    NormalizerFollows(path);
    ClearThrough(Scan(0, false, true, true), segments[..m]);
    AllButLast(Output(true, []), State([], false), Scan(0, false, true, true), segments[..m], segments[m]);
    assert segments[..m] + [segments[m]] == segments;
    LookLast(LookAll(Scan(0, false, true, true), segments[..m]), segments[m]);
  }

  lemma {:induction false} ClearThrough(sc: Scan, segments: seq<Segment>)
    requires sc.clear && !sc.empty && forall i :: 0 <= i < |segments| ==> segments[i] != []
    ensures var end := LookAll(sc, segments); end.clear && !end.empty
    decreases |segments|
  {
    if segments != [] {
      ClearThrough(Look(sc, segments[0]), segments[1..]);
    }
  }

  lemma LookLast(sc: Scan, s: Segment)
    requires sc.clear && !sc.empty
    ensures Look(sc, s).clear
  {
  }

  const A: byte := 97

  lemma Segmented(path: seq<byte>, segments: seq<Segment>)
    requires segments != [] && (forall i :: 0 <= i < |segments| ==> SLASH !in segments[i]) && Join(segments) == path
    ensures Normalized(path) == Render(IsAbsolute(path), FoldFrom(State([], false), segments))
    ensures RemoveDotSegments(path, []) == Outcome(segments)
  {
    SplitJoin(segments);
    FoldIsFoldFrom(segments);
    AlgorithmIs(path);
  }

  lemma JoinCons(s: Segment, rest: seq<Segment>)
    requires rest != []
    ensures Join([s] + rest) == s + [SLASH] + Join(rest)
  {
    assert ([s] + rest)[1..] == rest;
  }

  /** "a/." gives "a", where the RFC says "a/". */
  lemma FinalDotDiffers()
    ensures var path := [A, SLASH, DOT];
      Normalized(path) == [A] && RemoveDotSegments(path, []) == [A, SLASH]
  {
    hide RemoveDotSegments, Normalized, Split, Fold;
    var rest := [[DOT]];
    var segments := [[A]] + rest;
    JoinOne([DOT]);
    JoinOne([A]);
    JoinCons([A], rest);
    Segmented([A, SLASH, DOT], segments);
    FoldFromCons(State([], false), [A], rest);
    FoldFromCons(State([[A]], false), [DOT], []);
    assert [[DOT]] + [] == rest;
    assert segments[1..] == rest && rest[1..] == [];
    assert TakeAll(Output(false, [[A]]), rest) == Output(false, [[A]]);
    JoinCons([A], [EMPTY]);
    JoinOne([]);
  }

  /** "a/../a" gives "a", where the RFC says "/a". */
  lemma EmptiedDiffers()
    ensures var path := [A, SLASH, DOT, DOT, SLASH, A];
      Normalized(path) == [A] && RemoveDotSegments(path, []) == [SLASH, A]
  {
    hide RemoveDotSegments, Normalized, Split, Fold;
    var last := [[A]];
    var rest := [[DOT, DOT]] + last;
    var segments := [[A]] + rest;
    JoinOne([A]);
    JoinCons([DOT, DOT], last);
    JoinCons([A], rest);
    Segmented([A, SLASH, DOT, DOT, SLASH, A], segments);
    FoldFromCons(State([], false), [A], rest);
    assert [[A]][..0] == [];
    FoldFromCons(State([[A]], false), [DOT, DOT], last);
    FoldFromCons(State([], false), [A], []);
    assert [[A]] + [] == last;
    assert segments[1..] == rest && rest[1..] == last && last[1..] == [];
    assert TakeAll(Output(false, [[A]]), rest) == TakeAll(Output(true, []), last) == Output(true, last);
  }

  /** "//" gives "/", where the RFC keeps both slashes. */
  lemma RepeatedSlashDiffers()
    ensures var path := [SLASH, SLASH];
      Normalized(path) == [SLASH] && RemoveDotSegments(path, []) == path
  {
    hide RemoveDotSegments, Normalized, Split, Fold, FoldFrom, Outcome;
    JoinOne([]);
    JoinCons([], [EMPTY]);
    JoinCons([], [EMPTY, EMPTY]);
    assert [EMPTY] + [EMPTY] == [EMPTY, EMPTY] && [EMPTY] + [EMPTY, EMPTY] == [EMPTY, EMPTY, EMPTY];
    Segmented([SLASH, SLASH], [EMPTY, EMPTY, EMPTY]);
    FoldOfSlashes();
    OutcomeOfSlashes();
  }

  lemma FoldOfSlashes()
    ensures FoldFrom(State([], false), [EMPTY, EMPTY, EMPTY]) == State([], false)
  {
    var start := State([], false);
    FoldFromCons(start, [], [EMPTY, EMPTY]);
    FoldFromCons(start, [], [EMPTY]);
    FoldFromCons(start, [], []);
    assert [EMPTY] + [] == [EMPTY] && [EMPTY] + [EMPTY] == [EMPTY, EMPTY];
    assert [EMPTY] + [EMPTY, EMPTY] == [EMPTY, EMPTY, EMPTY];
  }

  lemma OutcomeOfSlashes()
    ensures Outcome([EMPTY, EMPTY, EMPTY]) == [SLASH, SLASH]
  {
    var o := Output(true, []);
    assert [EMPTY, EMPTY, EMPTY][1..] == [EMPTY, EMPTY] && [EMPTY, EMPTY][1..] == [EMPTY] && [EMPTY][1..] == [];
    TakeOneOf(o, [EMPTY, EMPTY]);
    TakeOneOf(Put(o, []), [EMPTY]);
    TakeOneOf(Put(Put(o, []), []), []);
    TextPut(o, []);
    TextPut(Put(o, []), []);
  }
}
