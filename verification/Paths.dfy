/** Path normalization (adapted from RFC 3986 section 5.2.4), told by segments. */
module Paths {
  import opened Bitwise
  import opened RequestStr

  const DOT: byte := 46

  type Segment = seq<byte>

  const EMPTY: Segment := []

  /** The segments between slashes; at least one. */
  function Split(path: seq<byte>): (r: seq<Segment>)
    ensures |r| >= 1
    decreases |path|
  {
    if path == [] then [EMPTY]
    else
      var r := Split(path[1..]);
      if path[0] == SLASH then [EMPTY] + r else [[path[0]] + r[0]] + r[1..]
  }

  /** The segments with slashes between them. */
  function Join(segments: seq<Segment>): seq<byte> {
    if segments == [] then []
    else if |segments| == 1 then segments[0]
    else segments[0] + [SLASH] + Join(segments[1..])
  }

  predicate IsDot(s: Segment) { s == [DOT] }
  predicate IsDotDot(s: Segment) { s == [DOT, DOT] }

  /** A segment that names something. */
  predicate IsName(s: Segment) {
    s != [] && !IsDot(s) && !IsDotDot(s) && SLASH !in s
  }

  predicate AllNames(names: seq<Segment>) {
    forall i :: 0 <= i < |names| ==> IsName(names[i])
  }

  /** The names kept so far, and whether a slash stands behind the last one. */
  datatype State = State(names: seq<Segment>, slash: bool)

  /** An empty segment is a repeated or final slash; "." changes nothing; ".." takes back such a slash, or else a
      name. */
  function Step(st: State, s: Segment): State {
    if s == [] then State(st.names, st.names != [])
    else if IsDot(s) then st
    else if IsDotDot(s) then
      if st.slash || st.names == [] then State(st.names, false) else State(st.names[..|st.names| - 1], false)
    else State(st.names + [s], false)
  }

  function Fold(segments: seq<Segment>): State {
    if segments == [] then State([], false)
    else Step(Fold(segments[..|segments| - 1]), segments[|segments| - 1])
  }

  predicate IsAbsolute(path: seq<byte>) {
    path != [] && path[0] == SLASH
  }

  /** The text of a state, without the slash in front of an absolute path. */
  function Body(st: State): seq<byte> {
    Join(st.names) + if st.slash then [SLASH] else []
  }

  function Render(isAbsolute: bool, st: State): seq<byte> {
    if isAbsolute then [SLASH] + Body(st)
    else if st.names == [] then [SLASH]
    else Body(st)
  }

  function Normalized(path: seq<byte>): seq<byte> {
    Render(IsAbsolute(path), Fold(Split(path)))
  }

  // ----- splitting and joining

  lemma {:induction false} SplitHasNoSlash(path: seq<byte>)
    ensures forall i :: 0 <= i < |Split(path)| ==> SLASH !in Split(path)[i]
    decreases |path|
  {
    if path != [] {
      SplitHasNoSlash(path[1..]);
      var r := Split(path[1..]);
      assert SLASH !in r[0];
    }
  }

  lemma {:induction false} JoinSplit(path: seq<byte>)
    ensures Join(Split(path)) == path
    decreases |path|
  {
    if path != [] {
      JoinSplit(path[1..]);
      var r := Split(path[1..]);
      if path[0] == SLASH {
        assert ([EMPTY] + r)[1..] == r;
        assert Join([EMPTY] + r) == [] + [SLASH] + Join(r);
      } else {
        assert ([[path[0]] + r[0]] + r[1..])[1..] == r[1..];
      }
      assert path == [path[0]] + path[1..];
    }
  }

  lemma {:induction false} SplitJoin(segments: seq<Segment>)
    requires segments != [] && forall i :: 0 <= i < |segments| ==> SLASH !in segments[i]
    ensures Split(Join(segments)) == segments
    decreases |segments|, |segments[0]|
  {
    var s := segments[0];
    if s != [] {
      var shorter := [s[1..]] + segments[1..];
      assert shorter[1..] == segments[1..];
      JoinFirst(s[0], shorter);
      assert [s[0]] + s[1..] == s;
      SplitJoin(shorter);
      assert segments == [[s[0]] + shorter[0]] + shorter[1..];
    } else if |segments| > 1 {
      SplitJoin(segments[1..]);
      assert Join(segments) == [SLASH] + Join(segments[1..]);
      assert Join(segments)[1..] == Join(segments[1..]);
    } else {
      assert segments == [EMPTY];
    }
  }

  lemma JoinFirst(c: byte, segments: seq<Segment>)
    requires segments != []
    ensures Join([[c] + segments[0]] + segments[1..]) == [c] + Join(segments)
  {
    var longer := [[c] + segments[0]] + segments[1..];
    assert longer[1..] == segments[1..];
  }

  // ----- what normalization gives

  lemma {:induction false} FoldKeepsNames(segments: seq<Segment>)
    requires forall i :: 0 <= i < |segments| ==> SLASH !in segments[i]
    ensures AllNames(Fold(segments).names) && (Fold(segments).slash ==> Fold(segments).names != [])
  {
    if segments != [] {
      FoldKeepsNames(segments[..|segments| - 1]);
    }
  }

  lemma StepName(st: State, s: Segment)
    requires IsName(s)
    ensures Step(st, s) == State(st.names + [s], false)
  {
  }

  lemma FoldNone()
    ensures Fold([]) == State([], false)
  {
  }

  lemma FoldSnoc(segments: seq<Segment>, s: Segment)
    ensures Fold(segments + [s]) == Step(Fold(segments), s)
  {
    assert (segments + [s])[..|segments|] == segments;
  }

  /** Names are kept as they are. */
  lemma {:induction false} FoldOfNames(names: seq<Segment>)
    requires AllNames(names)
    ensures Fold(names) == State(names, false)
  {
    hide IsName, Step, Fold;
    if names == [] {
      FoldNone();
    } else {
      var front, last := names[..|names| - 1], names[|names| - 1];
      FoldOfNames(front);
      assert front + [last] == names;
      FoldSnoc(front, last);
      StepName(State(front, false), last);
    }
  }

  /** A leading empty segment, that of an absolute path, changes nothing. */
  lemma {:induction false} FoldRoot(segments: seq<Segment>)
    ensures Fold([EMPTY] + segments) == Fold(segments)
  {
    if segments == [] {
      assert [EMPTY] + segments == [EMPTY];
      assert Fold([]) == State([], false);
    } else {
      var m := |segments| - 1;
      FoldRoot(segments[..m]);
      assert ([EMPTY] + segments)[..m + 1] == [EMPTY] + segments[..m];
    }
  }

  /** The segments of a rendered state. */
  function SegmentsOf(isAbsolute: bool, st: State): seq<Segment> {
    (if isAbsolute || st.names == [] then [EMPTY] else []) + st.names
      + (if st.slash || st.names == [] then [EMPTY] else [])
  }

  lemma {:induction false} JoinSnocEmpty(segments: seq<Segment>)
    requires segments != []
    ensures Join(segments + [EMPTY]) == Join(segments) + [SLASH]
  {
    if |segments| == 1 {
      assert (segments + [EMPTY])[1..] == [EMPTY];
    } else {
      JoinSnocEmpty(segments[1..]);
      assert (segments + [EMPTY])[1..] == segments[1..] + [EMPTY];
    }
  }

  lemma RenderJoins(isAbsolute: bool, st: State)
    requires st.slash ==> st.names != []
    ensures Render(isAbsolute, st) == Join(SegmentsOf(isAbsolute, st))
  {
    var tail := if st.slash || st.names == [] then [EMPTY] else [];
    if st.names == [] {
      assert SegmentsOf(isAbsolute, st) == [EMPTY, EMPTY];
      assert Join([EMPTY, EMPTY]) == [SLASH] by { assert [EMPTY, EMPTY][1..] == [EMPTY]; }
    } else {
      if st.slash {
        JoinSnocEmpty(st.names);
      } else {
        assert st.names + tail == st.names;
      }
      assert Join(st.names + tail) == Body(st);
      if isAbsolute {
        var all := [EMPTY] + st.names + tail;
        assert all[1..] == st.names + tail;
        assert Join(all) == [] + [SLASH] + Join(st.names + tail);
      } else {
        assert [] + st.names + tail == st.names + tail;
      }
    }
  }

  /** Folding the segments of a rendered state gives the state back. */
  lemma FoldRendered(isAbsolute: bool, st: State)
    requires AllNames(st.names) && (st.slash ==> st.names != [])
    ensures Fold(SegmentsOf(isAbsolute, st)) == st
  {
    var tail := if st.slash || st.names == [] then [EMPTY] else [];
    FoldOfNames(st.names);
    if tail == [] {
      assert st.names + tail == st.names;
    } else {
      FoldSnoc(st.names, []);
    }
    assert Fold(st.names + tail) == st;
    FoldRoot(st.names + tail);
    assert [EMPTY] + st.names + tail == [EMPTY] + (st.names + tail);
    assert [] + st.names + tail == st.names + tail;
  }

  lemma SegmentsOfResult(path: seq<byte>)
    ensures var st := Fold(Split(path));
      && AllNames(st.names) && (st.slash ==> st.names != [])
      && Split(Normalized(path)) == SegmentsOf(IsAbsolute(path), st)
  {
    var st := Fold(Split(path));
    SplitHasNoSlash(path);
    FoldKeepsNames(Split(path));
    RenderJoins(IsAbsolute(path), st);
    SplitJoin(SegmentsOf(IsAbsolute(path), st));
  }

  /** A path without "." and ".." segments and without repeated slashes. */
  ghost predicate Clean(path: seq<byte>) {
    && path != []
    && (forall i :: 0 <= i < |Split(path)| ==> !IsDot(Split(path)[i]) && !IsDotDot(Split(path)[i]))
    && (forall i :: 0 <= i < |path| - 1 ==> !(path[i] == SLASH && path[i + 1] == SLASH))
  }

  /** Two slashes in a row are an empty segment inside. */
  lemma {:induction false} RepeatedSlash(path: seq<byte>, i: nat) returns (k: nat)
    requires i + 1 < |path| && path[i] == SLASH && path[i + 1] == SLASH
    ensures 0 < k < |Split(path)| - 1 && Split(path)[k] == []
    decreases i
  {
    if i > 0 {
      k := RepeatedSlash(path[1..], i - 1);
      if path[0] == SLASH {
        k := k + 1;
      }
    } else {
      k := 1;
      assert Split(path[1..])[0] == [];
    }
  }

  /** Between the first and the last segment of a result there are only names. */
  lemma InnerIsName(path: seq<byte>, k: nat)
    requires 0 < k < |Split(Normalized(path))| - 1
    ensures IsName(Split(Normalized(path))[k])
  {
    hide Split, Fold, Normalized, IsName;
    var st := Fold(Split(path));
    SegmentsOfResult(path);
    assert Split(Normalized(path))[k] == st.names[if IsAbsolute(path) then k - 1 else k];
  }

  lemma NoRepeatedSlash(path: seq<byte>, i: nat)
    requires i + 1 < |Normalized(path)|
    ensures var r := Normalized(path); !(r[i] == SLASH && r[i + 1] == SLASH)
  {
    hide Split, Fold, Normalized;
    var r := Normalized(path);
    if r[i] == SLASH && r[i + 1] == SLASH {
      var k := RepeatedSlash(r, i);
      InnerIsName(path, k);
    }
  }

  lemma NoDots(path: seq<byte>)
    ensures var r := Split(Normalized(path)); forall i :: 0 <= i < |r| ==> !IsDot(r[i]) && !IsDotDot(r[i])
  {
    hide Split, Fold, Normalized;
    SegmentsOfResult(path);
    var st := Fold(Split(path));
    var r := SegmentsOf(IsAbsolute(path), st);
    forall i | 0 <= i < |r|
      ensures !IsDot(r[i]) && !IsDotDot(r[i])
    {
      assert r[i] == EMPTY || r[i] in st.names;
    }
  }

  /** The result is clean; an absolute path stays absolute, and a relative one stays relative unless nothing is left. */
  lemma ResultIsClean(path: seq<byte>)
    ensures Clean(Normalized(path))
    ensures IsAbsolute(Normalized(path)) <==> IsAbsolute(path) || Fold(Split(path)).names == []
  {
    var r := Normalized(path);
    var st := Fold(Split(path));
    SegmentsOfResult(path);
    NoDots(path);
    if !IsAbsolute(path) && st.names != [] {
      assert IsName(st.names[0]);
      assert r[0] == st.names[0][0];
    }
    hide Normalized, Split, Fold;
    forall i | 0 <= i < |r| - 1
      ensures !(r[i] == SLASH && r[i + 1] == SLASH)
    {
      NoRepeatedSlash(path, i);
    }
  }

  /** Normalizing twice is normalizing once. */
  lemma NormalizedIsIdempotent(path: seq<byte>)
    ensures Normalized(Normalized(path)) == Normalized(path)
  {
    var st := Fold(Split(path));
    SegmentsOfResult(path);
    ResultIsClean(path);
    FoldRendered(IsAbsolute(path), st);
    if st.names == [] {
      assert Normalized(path) == [SLASH];
    }
  }

  // ----- the code

  function FoldFrom(st: State, segments: seq<Segment>): State
    decreases |segments|
  {
    if segments == [] then st else FoldFrom(Step(st, segments[0]), segments[1..])
  }

  lemma {:induction false} FoldFromSnoc(st: State, segments: seq<Segment>, s: Segment)
    ensures FoldFrom(st, segments + [s]) == Step(FoldFrom(st, segments), s)
    decreases |segments|
  {
    if segments == [] {
      assert segments + [s] == [s];
    } else {
      FoldFromSnoc(Step(st, segments[0]), segments[1..], s);
      assert (segments + [s])[1..] == segments[1..] + [s];
    }
  }

  lemma {:induction false} FoldIsFoldFrom(segments: seq<Segment>)
    ensures Fold(segments) == FoldFrom(State([], false), segments)
  {
    if segments != [] {
      var m := |segments| - 1;
      FoldIsFoldFrom(segments[..m]);
      FoldFromSnoc(State([], false), segments[..m], segments[m]);
      assert segments[..m] + [segments[m]] == segments;
    }
  }

  /** The first segment ends at the first slash. */
  lemma {:induction false} SplitAt(s: seq<byte>, n: nat)
    requires n <= |s| && SLASH !in s[..n] && (n < |s| ==> s[n] == SLASH)
    ensures Split(s) == [s[..n]] + if n == |s| then [] else Split(s[n + 1..])
    decreases n
  {
    if n > 0 {
      assert s[0] in s[..n];
      assert forall k :: 0 <= k < n - 1 ==> s[1..][k] in s[..n];
      assert SLASH !in s[1..][..n - 1];
      SplitAt(s[1..], n - 1);
      assert [s[0]] + s[1..][..n - 1] == s[..n];
      assert n < |s| ==> s[1..][n..] == s[n + 1..];
    }
  }

  /** The segments still to come: the slash in front of them, if any, belongs to the first. */
  function Todo(rest: seq<byte>): seq<Segment> {
    if rest == [] then [] else if rest[0] == SLASH then Split(rest[1..]) else Split(rest)
  }

  /** At the start a missing segment does not matter. */
  lemma FromTheStart(rest: seq<byte>)
    ensures FoldFrom(State([], false), Split(rest)) == FoldFrom(State([], false), Todo(rest))
  {
    if rest == [] {
      assert FoldFrom(State([], false), [EMPTY]) == FoldFrom(State([], false), []);
    } else if rest[0] == SLASH {
      assert ([EMPTY] + Split(rest[1..]))[1..] == Split(rest[1..]);
    }
  }

  /** One segment taken from what is left, `skip` counting the slash in front of it. */
  lemma TakeOne(st: State, rest: seq<byte>, skip: nat, n: nat)
    requires skip <= n <= |rest| && rest != [] && skip == if rest[0] == SLASH then 1 else 0
    requires SLASH !in rest[skip..n] && (n < |rest| ==> rest[n] == SLASH)
    ensures FoldFrom(st, Todo(rest)) == FoldFrom(Step(st, rest[skip..n]), Todo(rest[n..]))
  {
    var s := rest[skip..];
    assert s[..n - skip] == rest[skip..n];
    SplitAt(s, n - skip);
    assert Todo(rest) == Split(s);
    if n < |rest| {
      assert s[n - skip + 1..] == rest[n..][1..];
    }
    var tail := if n == |rest| then [] else Split(rest[n..][1..]);
    assert Todo(rest) == [rest[skip..n]] + tail;
    assert ([rest[skip..n]] + tail)[1..] == tail;
  }

  /** What the output buffer shows of a state; the root of an absolute path may still be missing. */
  ghost predicate Shows(out: seq<byte>, isAbsolute: bool, st: State) {
    && AllNames(st.names) && (st.slash ==> st.names != [])
    && if isAbsolute && st.names == [] then out == [] || out == [SLASH]
       else out == (if isAbsolute then [SLASH] else []) + Body(st)
  }

  lemma {:induction false} JoinSnoc(names: seq<Segment>, s: Segment)
    requires names != []
    ensures Join(names + [s]) == Join(names) + [SLASH] + s
  {
    if |names| == 1 {
      assert (names + [s])[1..] == [s];
    } else {
      JoinSnoc(names[1..], s);
      assert (names + [s])[1..] == names[1..] + [s];
    }
  }

  lemma {:induction false} JoinEnds(names: seq<Segment>)
    requires AllNames(names) && names != []
    ensures var j := Join(names); j != [] && j[|j| - 1] != SLASH && j[0] != SLASH
  {
    var m := |names| - 1;
    assert IsName(names[m]);
    assert IsName(names[0]);
    if m == 0 {
      assert names[0][0] in names[0] && names[0][|names[0]| - 1] in names[0];
    } else {
      JoinEnds(names[1..]);
      assert names[0][0] in names[0];
    }
  }

  /** Taking back the last name, or the slash behind it. */
  lemma ShowsWithoutLast(out: seq<byte>, isAbsolute: bool, st: State)
    requires Shows(out, isAbsolute, st)
    ensures Shows(WithoutLast(out, isAbsolute), isAbsolute, Step(st, [DOT, DOT]))
  {
    if st.names == [] {
      JoinNone();
      assert out == [] || out == [SLASH];
      LastSlashIs(out, |out| - 1);
    } else if st.slash {
      SlashTakenBack(out, isAbsolute, st);
    } else {
      NameTakenBack(out, isAbsolute, st);
    }
  }

  lemma SlashTakenBack(out: seq<byte>, isAbsolute: bool, st: State)
    requires Shows(out, isAbsolute, st) && st.slash
    ensures Shows(WithoutLast(out, isAbsolute), isAbsolute, State(st.names, false))
  {
    hide Join, IsName;
    var root := if isAbsolute then [SLASH] else [];
    JoinEnds(st.names);
    var text := root + Join(st.names);
    assert out == text + [SLASH];
    LastSlashIs(out, |out| - 1);
    assert out[..|out| - 1] == text;
    assert root + Body(State(st.names, false)) == text;
  }

  lemma NameTakenBack(out: seq<byte>, isAbsolute: bool, st: State)
    requires Shows(out, isAbsolute, st) && !st.slash && st.names != []
    ensures Shows(WithoutLast(out, isAbsolute), isAbsolute, State(st.names[..|st.names| - 1], false))
  {
    hide Join, IsName, WithoutLast;
    var root := if isAbsolute then [SLASH] else [];
    var m := |st.names| - 1;
    var front, last := st.names[..m], st.names[m];
    NameHasNoSlash(last);
    assert front + [last] == st.names;
    assert Body(st) == Join(st.names);
    JoinNone();
    if m == 0 {
      JoinOne(last);
      OnlyNameCut(out, isAbsolute, last);
    } else {
      JoinSnoc(front, last);
      JoinEnds(front);
      var text := root + Join(front);
      assert root + (Join(front) + [SLASH] + last) == text + [SLASH] + last;
      CutAtSlash(out, text, last);
      assert Body(State(front, false)) == Join(front);
    }
  }

  lemma OnlyNameCut(out: seq<byte>, isAbsolute: bool, name: Segment)
    requires out == (if isAbsolute then [SLASH] else []) + name && SLASH !in name && name != []
    ensures WithoutLast(out, isAbsolute) == if isAbsolute then [SLASH] else []
  {
    LastSlashIs(out, if isAbsolute then 0 else -1);
  }

  lemma CutAtSlash(out: seq<byte>, text: seq<byte>, last: Segment)
    requires out == text + [SLASH] + last && SLASH !in last && text != []
    ensures WithoutLast(out, true) == WithoutLast(out, false) == text
  {
    LastSlashIs(out, |text|);
  }

  lemma NameHasNoSlash(s: Segment)
    requires IsName(s)
    ensures SLASH !in s && s != []
  {
  }

  lemma JoinOne(s: Segment)
    ensures Join([s]) == s
  {
  }

  /** What the code appends for a segment that is neither "." nor "..": the slash in front of it only when the output
      neither ends in one nor is the empty output of a relative path. */
  function Chunk(out: seq<byte>, isAbsolute: bool, slash: bool, s: Segment): seq<byte> {
    if slash && !(out != [] && out[|out| - 1] == SLASH) && !(out == [] && !isAbsolute) then [SLASH] + s else s
  }

  lemma ShowsNext(out: seq<byte>, isAbsolute: bool, st: State, slash: bool, s: Segment)
    requires Shows(out, isAbsolute, st) && SLASH !in s && !IsDot(s) && !IsDotDot(s)
    requires slash || (!isAbsolute && st.names == [] && s != [])
    ensures Shows(out + Chunk(out, isAbsolute, slash, s), isAbsolute, Step(st, s))
  {
    hide Join;
    var root := if isAbsolute then [SLASH] else [];
    var next := Step(st, s);
    var chunk := Chunk(out, isAbsolute, slash, s);
    if st.names == [] {
      assert st.names + [s] == [s];
      JoinOne(s);
      JoinNone();
      assert out + chunk == if s == [] then root else root + s;
    } else {
      JoinEnds(st.names);
      assert Body(st) == Join(st.names) + if st.slash then [SLASH] else [];
      assert out + chunk == root + Join(st.names) + [SLASH] + s;
      if s != [] {
        JoinSnoc(st.names, s);
      }
    }
    assert AllNames(next.names);
  }

  lemma JoinNone()
    ensures Join([]) == []
  {
  }

  /** Append the first path segment of what is left to the output. */
  method AppendSegment(out: RequestStr, slash: RequestStr, input: seq<byte>, p0: nat, isAbsolute: bool, ghost st: State)
    returns (p: nat)
    requires out.Valid() && slash.Valid() && slash.Contents() == [SLASH]
    requires out != slash && out.str != slash.str
    requires p0 < |input| && Shows(out.Contents(), isAbsolute, st)
    requires input[p0] != SLASH ==> !isAbsolute && st.names == []
    requires var s := First(input[p0..]); !IsDot(s) && !IsDotDot(s)
    modifies out, out.str
    ensures out.Valid() && (out.str == old(out.str) || fresh(out.str)) && p0 < p <= |input|
    ensures Shows(out.Contents(), isAbsolute, Step(st, First(input[p0..])))
    ensures FoldFrom(st, Todo(input[p0..])) == FoldFrom(Step(st, First(input[p0..])), Todo(input[p..]))
    ensures p < |input| ==> input[p] == SLASH
  {
    hide Shows, FoldFrom, Todo, Step;
    var nextSlash := p0 + 1;
    while nextSlash < |input| && input[nextSlash] != SLASH
      invariant p0 < nextSlash <= |input|
      invariant forall k :: p0 < k < nextSlash ==> input[k] != SLASH
    {
      nextSlash := nextSlash + 1;
    }
    ghost var lead := input[p0] == SLASH;
    ghost var begin := if lead then p0 + 1 else p0;
    FirstIs(input, p0, nextSlash);
    assert First(input[p0..]) == input[begin..nextSlash];
    TakeOneAt(st, input, p0, nextSlash);
    ShowsNext(out.Contents(), isAbsolute, st, lead, First(input[p0..]));
    ghost var before := out.Contents();
    p := p0;
    var ends := out.EndsWith(slash);
    assert ends <==> before != [] && before[|before| - 1] == SLASH;
    if ends && input[p] == SLASH {
      p := p + 1;
    }
    if out.len == 0 && !isAbsolute && input[p] == SLASH {
      p := p + 1;
    }
    assert input[p..nextSlash] == Chunk(before, isAbsolute, lead, First(input[p0..]));
    out.AppendChars(input[p..nextSlash]);
    p := nextSlash;
  }

  /** The first segment of what is left, without the slash in front of it. */
  ghost function First(rest: seq<byte>): Segment
    requires rest != []
  {
    Todo(rest)[0]
  }

  lemma FirstIs(input: seq<byte>, p: nat, n: nat)
    requires p < n <= |input| && (forall k :: p < k < n ==> input[k] != SLASH) && (n < |input| ==> input[n] == SLASH)
    ensures First(input[p..]) == input[if input[p] == SLASH then p + 1 else p..n]
  {
    var b := if input[p] == SLASH then p + 1 else p;
    var s := input[b..];
    assert s[..n - b] == input[b..n];
    assert input[p..][1..] == input[p + 1..];
    SplitAt(s, n - b);
  }

  lemma TakeOneAt(st: State, input: seq<byte>, p: nat, n: nat)
    requires p < n <= |input| && (forall k :: p < k < n ==> input[k] != SLASH) && (n < |input| ==> input[n] == SLASH)
    ensures FoldFrom(st, Todo(input[p..])) == FoldFrom(Step(st, First(input[p..])), Todo(input[n..]))
  {
    hide FoldFrom, Todo, Step;
    FirstIs(input, p, n);
    var rest := input[p..];
    var b := if input[p] == SLASH then 1 else 0;
    assert rest[b..n - p] == input[p + b..n];
    assert rest[n - p..] == input[n..];
    TakeOne(st, rest, b, n - p);
  }

  /** A state before any name: nothing is shown yet. */
  lemma ShowsNothing(isAbsolute: bool)
    ensures Shows([], isAbsolute, State([], false))
  {
    JoinNone();
  }

  /** The finished output, "/" standing for an empty one. */
  lemma ShowsResult(out: seq<byte>, isAbsolute: bool, st: State)
    requires Shows(out, isAbsolute, st)
    ensures Render(isAbsolute, st) == if out == [] then [SLASH] else out
  {
    JoinNone();
    if st.names != [] {
      JoinEnds(st.names);
    }
  }

  /** All of the path is still to come. */
  lemma AtTheStart(path: seq<byte>)
    ensures Fold(Split(path)) == FoldFrom(State([], false), Todo(path))
  {
    hide Fold, FoldFrom, Split, Todo;
    FoldIsFoldFrom(Split(path));
    FromTheStart(path);
  }

  /** A "." or ".." at the very beginning is dropped together with its slash. */
  lemma DropsLeadingDots(input: seq<byte>, p: nat, n: nat)
    requires p + n <= |input| && 1 <= n <= 2 && (forall k :: p <= k < p + n ==> input[k] == DOT)
    requires p + n < |input| ==> input[p + n] == SLASH
    ensures var next := if p + n < |input| then p + n + 1 else p + n;
      FoldFrom(State([], false), Todo(input[p..])) == FoldFrom(State([], false), Todo(input[next..]))
  {
    hide FoldFrom, Split;
    var rest := input[p..];
    SplitAt(rest, n);
    assert rest[..n] == if n == 1 then [DOT] else [DOT, DOT];
    var tail := if n == |rest| then [] else Split(rest[n + 1..]);
    assert Split(rest) == [rest[..n]] + tail;
    FoldFromCons(State([], false), rest[..n], tail);
    if n < |rest| {
      assert rest[n + 1..] == input[p + n + 1..];
      FromTheStart(rest[n + 1..]);
    } else {
      assert input[p + n..] == [];
    }
  }

  lemma FoldFromCons(st: State, s: Segment, tail: seq<Segment>)
    ensures FoldFrom(st, [s] + tail) == FoldFrom(Step(st, s), tail)
  {
    assert ([s] + tail)[1..] == tail;
  }

  /** "/." and "/.." as complete segments. */
  lemma TakesDots(st: State, input: seq<byte>, p: nat, n: nat)
    requires p + 1 + n <= |input| && 1 <= n <= 2 && input[p] == SLASH
    requires (forall k :: p < k <= p + n ==> input[k] == DOT) && (p + 1 + n < |input| ==> input[p + 1 + n] == SLASH)
    ensures FoldFrom(st, Todo(input[p..])) ==
      FoldFrom(Step(st, if n == 1 then [DOT] else [DOT, DOT]), Todo(input[p + 1 + n..]))
  {
    hide FoldFrom, Todo, Step;
    FirstIs(input, p, p + 1 + n);
    TakeOneAt(st, input, p, p + 1 + n);
    assert input[p + 1..p + 1 + n] == if n == 1 then [DOT] else [DOT, DOT];
  }

  /** Whether what is left starts with the prefix. */
  predicate StartsWith(input: seq<byte>, p: nat, prefix: seq<byte>)
    requires p <= |input|
  {
    prefix <= input[p..]
  }

  /** One round of the loop: a dot segment or a name is taken.  Only the last round ends the loop early. */
  method Round(out: RequestStr, slash: RequestStr, input: seq<byte>, p0: nat, isAbsolute: bool, ghost st0: State)
    returns (p: nat, ghost st: State, more: bool)
    requires out.Valid() && slash.Valid() && slash.Contents() == [SLASH]
    requires out != slash && out.str != slash.str
    requires p0 < |input| && Shows(out.Contents(), isAbsolute, st0)
    requires input[p0] != SLASH ==> !isAbsolute && st0 == State([], false)
    modifies out, out.str
    ensures out.Valid() && (out.str == old(out.str) || fresh(out.str)) && p0 < p <= |input|
    ensures Shows(out.Contents(), isAbsolute, st)
    ensures FoldFrom(st0, Todo(input[p0..])) == FoldFrom(st, Todo(input[p..]))
    ensures p < |input| ==> input[p] == SLASH || (!isAbsolute && st == State([], false))
    ensures !more ==> p == |input|
  {
    hide Shows, FoldFrom, Todo, Step, First;
    st, more := st0, true;
    if StartsWith(input, p0, [DOT, DOT, SLASH]) {
      DropsLeadingDots(input, p0, 2);
      p := p0 + 3;
    } else if StartsWith(input, p0, [DOT, SLASH]) {
      DropsLeadingDots(input, p0, 1);
      p := p0 + 2;
    } else if StartsWith(input, p0, [SLASH, DOT, SLASH]) {
      TakesDots(st, input, p0, 1);
      StepDot(st);
      p := p0 + 2;
    } else if input[p0..] == [SLASH, DOT] {
      TakesDots(st, input, p0, 1);
      StepDot(st);
      p, more := |input|, false;
    } else if StartsWith(input, p0, [SLASH, DOT, DOT, SLASH]) {
      TakesDots(st, input, p0, 2);
      ShowsWithoutLast(out.Contents(), isAbsolute, st);
      st := Step(st, [DOT, DOT]);
      p := p0 + 3;
      out.DeleteLastSegment(isAbsolute);
    } else if input[p0..] == [SLASH, DOT, DOT] {
      TakesDots(st, input, p0, 2);
      ShowsWithoutLast(out.Contents(), isAbsolute, st);
      st := Step(st, [DOT, DOT]);
      out.DeleteLastSegment(isAbsolute);
      p, more := |input|, false;
    } else if input[p0..] == [DOT] || input[p0..] == [DOT, DOT] {
      DropsLeadingDots(input, p0, |input| - p0);
      p, more := |input|, false;
    } else {
      NotDots(input, p0);
      st := Step(st, First(input[p0..]));
      p := AppendSegment(out, slash, input, p0, isAbsolute, st0);
    }
  }

  /** The loop over the whole path. */
  method Rounds(out: RequestStr, slash: RequestStr, input: seq<byte>)
    requires out.Valid() && out.Contents() == [] && slash.Valid() && slash.Contents() == [SLASH]
    requires out != slash && out.str != slash.str
    modifies out, out.str
    ensures out.Valid() && (out.str == old(out.str) || fresh(out.str))
    ensures Shows(out.Contents(), IsAbsolute(input), Fold(Split(input)))
  {
    hide Shows, FoldFrom, Fold, Todo, Split, Step;
    var p: nat := 0;
    var isAbsolute := IsAbsolute(input);
    ghost var st := State([], false);
    ShowsNothing(isAbsolute);
    AtTheStart(input);
    assert input[0..] == input;
    while p < |input|
      invariant p <= |input| && slash.Valid() && slash.Contents() == [SLASH]
      invariant out.Valid() && (out.str == old(out.str) || fresh(out.str)) && out.str != slash.str
      invariant Shows(out.Contents(), isAbsolute, st)
      invariant Fold(Split(input)) == FoldFrom(st, Todo(input[p..]))
      invariant p < |input| && input[p] != SLASH ==> !isAbsolute && st == State([], false)
      decreases |input| - p
    {
      var more;
      p, st, more := Round(out, slash, input, p, isAbsolute, st);
      if !more {
        break;
      }
    }
    assert input[|input|..] == [];
    NothingLeft(st);
  }

  /** kms_request_str_path_normalized. */
  method PathNormalized(str: RequestStr) returns (out: RequestStr)
    requires str.Valid() && 0 !in str.Contents()
    ensures out.Valid() && fresh(out) && out.Contents() == Normalized(str.Contents())
  {
    hide Shows, Fold, Split, Body, Render;
    var slash := new RequestStr.FromChars([SLASH]);
    out := new RequestStr.New();
    var input := str.str[..str.len];
    if input == [SLASH] {
      OnlyRoot();
      ShowsNothing(true);
    } else {
      Rounds(out, slash, input);
    }
    ghost var text := out.Contents();
    ShowsResult(text, IsAbsolute(input), Fold(Split(input)));
    if out.len == 0 {
      out.AppendChar(SLASH);
      assert text + [SLASH] == [SLASH];
    }
  }

  lemma StepDot(st: State)
    ensures Step(st, [DOT]) == st
  {
  }

  lemma NothingLeft(st: State)
    ensures FoldFrom(st, Todo([])) == st
  {
  }

  lemma OnlyRoot()
    ensures Fold(Split([SLASH])) == State([], false)
  {
    var root: seq<byte> := [SLASH];
    assert root[1..] == [];
    FoldRoot([EMPTY]);
    FoldRoot([]);
    assert [EMPTY] + [] == [EMPTY];
  }

  /** The first segment, with its slash, is all that is left or is followed by a slash. */
  lemma FrontOf(input: seq<byte>, p: nat, n: nat, front: seq<byte>)
    requires p <= n <= |input| && front == input[p..n] && (n < |input| ==> input[n] == SLASH)
    ensures if n == |input| then input[p..] == front else front + [SLASH] <= input[p..]
  {
    if n < |input| {
      assert input[p..][..n - p] == front && input[p..][n - p] == SLASH;
    }
  }

  lemma SlashAnd(s: Segment)
    ensures IsDot(s) ==> [SLASH] + s == [SLASH, DOT] && s + [SLASH] == [DOT, SLASH]
    ensures IsDot(s) ==> [SLASH] + s + [SLASH] == [SLASH, DOT, SLASH]
    ensures IsDotDot(s) ==> [SLASH] + s == [SLASH, DOT, DOT] && s + [SLASH] == [DOT, DOT, SLASH]
    ensures IsDotDot(s) ==> [SLASH] + s + [SLASH] == [SLASH, DOT, DOT, SLASH]
  {
  }

  /** What none of the tests for dots accepts does not start with a dot segment. */
  lemma NotDots(input: seq<byte>, p: nat)
    requires p < |input|
    requires !StartsWith(input, p, [DOT, DOT, SLASH]) && !StartsWith(input, p, [DOT, SLASH])
    requires !StartsWith(input, p, [SLASH, DOT, SLASH]) && !StartsWith(input, p, [SLASH, DOT, DOT, SLASH])
    requires input[p..] != [SLASH, DOT] && input[p..] != [SLASH, DOT, DOT]
    requires input[p..] != [DOT] && input[p..] != [DOT, DOT]
    ensures var s := First(input[p..]); !IsDot(s) && !IsDotDot(s)
  {
    var n := p + 1;
    while n < |input| && input[n] != SLASH
      invariant p < n <= |input| && forall k :: p < k < n ==> input[k] != SLASH
    {
      n := n + 1;
    }
    FirstIs(input, p, n);
    hide First;
    var s := First(input[p..]);
    SlashAnd(s);
    if input[p] == SLASH {
      assert input[p..n] == [SLASH] + s;
      FrontOf(input, p, n, [SLASH] + s);
    } else {
      FrontOf(input, p, n, s);
    }
  }
}
