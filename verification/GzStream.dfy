/** What a gzip file stands for: its members decompressed one after the other, or the file itself. */
module GzStream {
  import opened Bitwise

  /** A decompressor: how long the gzip member at the front of some bytes is, and what it decompresses to. */
  datatype Decoder = Decoder(length: seq<byte> -> nat, content: seq<byte> -> seq<byte>)

  predicate IsGzip(rest: seq<byte>) {
    |rest| >= 2 && rest[0] == 31 && rest[1] == 139
  }

  /** Every member is there to its end. */
  ghost predicate Complete(d: Decoder, rest: seq<byte>)
    decreases |rest|
  {
    IsGzip(rest) ==> 0 < d.length(rest) <= |rest| && Complete(d, rest[d.length(rest)..])
  }

  /** Members, then possibly garbage that is ignored; a file that does not start with a member is taken as it is. */
  ghost function Uncompressed(d: Decoder, rest: seq<byte>, first: bool): seq<byte>
    requires Complete(d, rest)
    decreases |rest|
  {
    if IsGzip(rest) then d.content(rest) + Uncompressed(d, rest[d.length(rest)..], false)
    else if first then rest
    else []
  }

  /** s from position n on; nothing when n is behind its end. */
  function Tail<T>(s: seq<T>, n: nat): (r: seq<T>)
    ensures |r| == if n <= |s| then |s| - n else 0
  {
    if n <= |s| then s[n..] else []
  }

  lemma TailAgain<T>(s: seq<T>, n: nat, k: nat)
    ensures Tail(Tail(s, n), k) == Tail(s, n + k)
  {
  }

  function Min(a: int, b: int): int {
    if a < b then a else b
  }

  /** Where the reader stands in the file: looking for a header, done, copying, or inside a member. */
  datatype Source =
    | Looking(at: int, first: bool)
    | Ended
    | Copying(offset: nat)
    | Inflating(member: nat, produced: nat, at: int)

  ghost predicate Placed(d: Decoder, file: seq<byte>, src: Source) {
    match src
    case Looking(at, _) => 0 <= at <= |file| && Complete(d, file[at..])
    case Ended => true
    case Copying(_) => true
    case Inflating(member, produced, at) =>
      && member <= at <= |file| && IsGzip(file[member..]) && Complete(d, file[member..])
      && at < member + d.length(file[member..])
      && produced <= |d.content(file[member..])|
  }

  /** The uncompressed bytes still to come from there. */
  ghost function Future(d: Decoder, file: seq<byte>, src: Source): seq<byte>
    requires Placed(d, file, src)
  {
    match src
    case Looking(at, first) => Uncompressed(d, file[at..], first)
    case Ended => []
    case Copying(offset) => Tail(file, offset)
    case Inflating(member, produced, _) => Within(d, file[member..], produced)
  }

  /** What is left of a member, and what follows it. */
  ghost function Within(d: Decoder, rest: seq<byte>, produced: nat): seq<byte>
    requires IsGzip(rest) && Complete(d, rest) && produced <= |d.content(rest)|
  {
    d.content(rest)[produced..] + Uncompressed(d, rest[d.length(rest)..], false)
  }

  lemma MemberBegins(d: Decoder, file: seq<byte>, at: nat, first: bool)
    requires at <= |file| && Complete(d, file[at..]) && IsGzip(file[at..])
    ensures Placed(d, file, Inflating(at, 0, at))
    ensures Future(d, file, Looking(at, first)) == Future(d, file, Inflating(at, 0, at))
  {
  }

  lemma MemberGoesOn(d: Decoder, file: seq<byte>, src: Source, o: nat, at: int)
    requires src.Inflating? && Placed(d, file, src) && Placed(d, file, Inflating(src.member, src.produced + o, at))
    ensures var next := Inflating(src.member, src.produced + o, at);
      && o <= |Future(d, file, src)|
      && Future(d, file, next) == Future(d, file, src)[o..]
      && d.content(file[src.member..])[src.produced..src.produced + o] == Future(d, file, src)[..o]
  {
  }

  lemma MemberEnds(d: Decoder, file: seq<byte>, src: Source)
    requires src.Inflating? && Placed(d, file, src)
    ensures var rest := file[src.member..];
      var n := |d.content(rest)| - src.produced;
      var next := Looking(src.member + d.length(rest), false);
      && Placed(d, file, next) && n <= |Future(d, file, src)|
      && Future(d, file, next) == Future(d, file, src)[n..]
      && d.content(rest)[src.produced..] == Future(d, file, src)[..n]
  {
    var rest := file[src.member..];
    var at := src.member + d.length(rest);
    assert file[at..] == rest[d.length(rest)..];
  }

  lemma NothingBehindTheEnd(d: Decoder, file: seq<byte>, first: bool)
    requires Complete(d, file[|file|..])
    ensures Future(d, file, Looking(|file|, first)) == []
  {
    assert file[|file|..] == [];
  }

  // ----- files made of members

  /** A member that the decompressor knows by itself, whatever follows it. */
  ghost predicate Member(d: Decoder, m: seq<byte>) {
    && |m| >= 2 && m[0] == 31 && m[1] == 139
    && forall rest :: d.length(m + rest) == |m| && d.content(m + rest) == d.content(m)
  }

  function Joined(ms: seq<seq<byte>>): seq<byte> {
    if ms == [] then [] else ms[0] + Joined(ms[1..])
  }

  function Contents(d: Decoder, ms: seq<seq<byte>>): seq<byte> {
    if ms == [] then [] else d.content(ms[0]) + Contents(d, ms[1..])
  }

  /** Members one after the other stand for their contents one after the other; what follows and does not look like
      one more is ignored, but a file without any member is taken as it is. */
  lemma {:induction false} MembersThenGarbage(d: Decoder, ms: seq<seq<byte>>, garbage: seq<byte>, first: bool)
    requires forall i :: 0 <= i < |ms| ==> Member(d, ms[i])
    requires |garbage| < 2 || garbage[0] != 31 || garbage[1] != 139
    ensures Complete(d, Joined(ms) + garbage)
    ensures Uncompressed(d, Joined(ms) + garbage, first) == if ms == [] && first then garbage else Contents(d, ms)
    decreases |ms|
  {
    if ms == [] {
      assert Joined(ms) + garbage == garbage;
    } else {
      var m, rest := ms[0], Joined(ms[1..]) + garbage;
      MembersThenGarbage(d, ms[1..], garbage, false);
      assert Member(d, m);
      assert Joined(ms) + garbage == m + rest;
      assert (m + rest)[|m|..] == rest;
      assert d.length(m + rest) == |m|;
    }
  }
}
