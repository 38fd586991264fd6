/** The meaning of a DEFLATE token stream (RFC 1951 sections 2 and 3.2.3): replaying it byte by byte. */
module Lz77 {
  import opened Bitwise
  import opened Wrappers

  const MIN_MATCH := 3
  const MAX_MATCH := 258

  /** What a decoder sees after Huffman decoding: a literal, a back-reference or a stored block. */
  datatype Token =
    | Literal(value: byte)
    | Match(length: nat, distance: nat)
    | Stored(data: seq<byte>)

  /** A back-reference a DEFLATE block can express, reaching back at most maxDistance bytes. */
  predicate Expressible(t: Token, maxDistance: nat) {
    t.Match? ==> MIN_MATCH <= t.length <= MAX_MATCH && 1 <= t.distance <= maxDistance
  }

  predicate AllExpressible(ts: seq<Token>, maxDistance: nat) {
    forall i :: 0 <= i < |ts| ==> Expressible(ts[i], maxDistance)
  }

  /** Copies one byte at a time, so a copy may read bytes it has just written. */
  function CopyBack(out: seq<byte>, length: nat, distance: nat): (r: seq<byte>)
    requires 1 <= distance <= |out|
    ensures |r| == |out| + length
    decreases length
  {
    if length == 0 then out else CopyBack(out + [out[|out| - distance]], length - 1, distance)
  }

  lemma CopyBackStep(out: seq<byte>, length: nat, distance: nat)
    requires 1 <= distance <= |out| && length > 0
    ensures CopyBack(out, length, distance) == CopyBack(out + [out[|out| - distance]], length - 1, distance)
  {
  }

  lemma CopyBackNone(out: seq<byte>, distance: nat)
    requires 1 <= distance <= |out|
    ensures CopyBack(out, 0, distance) == out
  {
  }

  /** A copy can be made in two goes. */
  lemma {:induction false} CopyBackSplit(out: seq<byte>, m: nat, n: nat, distance: nat)
    requires 1 <= distance <= |out|
    ensures CopyBack(CopyBack(out, m, distance), n, distance) == CopyBack(out, m + n, distance)
    decreases m
  {
    if m > 0 {
      CopyBackSplit(out + [out[|out| - distance]], m - 1, n, distance);
    }
  }

  function Apply(out: seq<byte>, t: Token): Option<seq<byte>> {
    match t
    case Literal(b) => Some(out + [b])
    case Match(length, distance) =>
      if 1 <= distance <= |out| then Some(CopyBack(out, length, distance)) else None
    case Stored(data) => Some(out + data)
  }

  /** The bytes a token stream stands for, or None when a distance reaches before the start. */
  function Replay(ts: seq<Token>): Option<seq<byte>>
  {
    if ts == [] then Some([])
    else
      match Replay(ts[..|ts| - 1])
      case None => None
      case Some(out) => Apply(out, ts[|ts| - 1])
  }

  lemma ReplayAppend(ts: seq<Token>, t: Token)
    ensures Replay(ts + [t]) == match Replay(ts) case None => None case Some(out) => Apply(out, t)
  {
    assert (ts + [t])[..|ts|] == ts;
  }

  /** The length bytes at pos repeat the bytes distance earlier. */
  ghost predicate Repeats(text: seq<byte>, pos: nat, length: nat, distance: nat) {
    && 1 <= distance <= pos
    && pos + length <= |text|
    && forall k :: pos <= k < pos + length ==> text[k] == text[k - distance]
  }

  lemma RepeatsInLonger(text: seq<byte>, longer: seq<byte>, pos: nat, length: nat, distance: nat)
    requires text <= longer && Repeats(text, pos, length, distance)
    ensures Repeats(longer, pos, length, distance)
  {
    forall k | pos <= k < pos + length
      ensures longer[k] == longer[k - distance]
    {
      assert text[k] == text[k - distance];
    }
  }

  lemma {:induction false} CopyBackIsSlice(text: seq<byte>, pos: nat, length: nat, distance: nat)
    requires Repeats(text, pos, length, distance)
    ensures CopyBack(text[..pos], length, distance) == text[..pos + length]
    decreases length
  {
    if length > 0 {
      assert text[..pos] + [text[pos - distance]] == text[..pos + 1];
      CopyBackIsSlice(text, pos + 1, length - 1, distance);
    }
  }

  /** A back-reference is right for a position of the text exactly when the text repeats there. */
  lemma MatchIsRight(text: seq<byte>, pos: nat, length: nat, distance: nat)
    requires pos + length <= |text|
    ensures Apply(text[..pos], Match(length, distance)) == Some(text[..pos + length])
       <==> Repeats(text, pos, length, distance)
  {
    if 1 <= distance <= pos {
      if CopyBack(text[..pos], length, distance) == text[..pos + length] {
        SliceRepeats(text, pos, length, distance);
      }
      if Repeats(text, pos, length, distance) {
        CopyBackIsSlice(text, pos, length, distance);
      }
    }
  }

  lemma {:induction false} CopyBackKeeps(out: seq<byte>, length: nat, distance: nat)
    requires 1 <= distance <= |out|
    ensures CopyBack(out, length, distance)[..|out|] == out
    ensures length > 0 ==> CopyBack(out, length, distance)[|out|] == out[|out| - distance]
    decreases length
  {
    if length > 0 {
      var next := out + [out[|out| - distance]];
      CopyBackKeeps(next, length - 1, distance);
      var r := CopyBack(next, length - 1, distance);
      assert r[..|out|] == r[..|next|][..|out|];
      assert r[|out|] == r[..|next|][|out|];
    }
  }

  lemma {:induction false} SliceRepeats(text: seq<byte>, pos: nat, length: nat, distance: nat)
    requires 1 <= distance <= pos && pos + length <= |text|
    requires CopyBack(text[..pos], length, distance) == text[..pos + length]
    ensures Repeats(text, pos, length, distance)
    decreases length
  {
    if length > 0 {
      CopyBackKeeps(text[..pos], length, distance);
      assert text[pos] == text[..pos + length][pos] == text[pos - distance];
      assert text[..pos] + [text[pos - distance]] == text[..pos + 1];
      SliceRepeats(text, pos + 1, length - 1, distance);
    }
  }

  /** Replay by a decoder that remembers only the last `history` bytes. */
  function ReplayWithin(ts: seq<Token>, history: nat): Option<seq<byte>>
  {
    if ts == [] then Some([])
    else
      var t := ts[|ts| - 1];
      match ReplayWithin(ts[..|ts| - 1], history)
      case None => None
      case Some(out) => if t.Match? && t.distance > history then None else Apply(out, t)
  }

  lemma ReplayWithinAppend(ts: seq<Token>, t: Token, history: nat)
    ensures ReplayWithin(ts + [t], history)
         == match ReplayWithin(ts, history)
            case None => None
            case Some(out) => if t.Match? && t.distance > history then None else Apply(out, t)
  {
    assert (ts + [t])[..|ts|] == ts;
  }

  /** A decoder with enough history sees what the tokens stand for. */
  lemma {:induction false} EnoughHistory(ts: seq<Token>, history: nat)
    requires AllExpressible(ts, history)
    ensures ReplayWithin(ts, history) == Replay(ts)
  {
    if ts != [] {
      EnoughHistory(ts[..|ts| - 1], history);
    }
  }

  /** Once a token fails, so does everything that starts with it. */
  lemma {:induction false} FailureIsFinal(ts: seq<Token>, n: nat, history: nat)
    requires n <= |ts| && ReplayWithin(ts[..n], history) == None
    ensures ReplayWithin(ts, history) == None
  {
    if n == |ts| {
      assert ts[..n] == ts;
    } else {
      assert ts[..|ts| - 1][..n] == ts[..n];
      FailureIsFinal(ts[..|ts| - 1], n, history);
    }
  }

  /** What the first tokens stand for is where the rest goes on. */
  lemma {:induction false} ReplayGrows(ts: seq<Token>, n: nat, history: nat)
    requires n <= |ts| && ReplayWithin(ts, history).Some?
    ensures ReplayWithin(ts[..n], history).Some?
    ensures ReplayWithin(ts[..n], history).value <= ReplayWithin(ts, history).value
  {
    if n == |ts| {
      assert ts[..n] == ts;
    } else {
      var front, t := ts[..|ts| - 1], ts[|ts| - 1];
      assert front[..n] == ts[..n];
      ReplayGrows(front, n, history);
      if t.Match? {
        CopyBackKeeps(ReplayWithin(front, history).value, t.length, t.distance);
      }
    }
  }

  lemma NothingToReplay(ts: seq<Token>, history: nat)
    ensures ReplayWithin(ts[..0], history) == Some([])
  {
  }
}
