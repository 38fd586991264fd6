/** utf8proc_reencode: UTF-8 written over the buffer of 32-bit code points that is being read. */
module Reencode {
  import opened Bitwise
  import opened Utf8
  import opened Wrappers

  /** Four bytes of a little-endian machine, read as a signed 32-bit integer. */
  function Word(a: byte, b: byte, c: byte, d: byte): int {
    var u := a + 0x100 * b + 0x1_0000 * c + 0x100_0000 * d;
    if u < 0x8000_0000 then u else u - UINT32
  }

  /** The code points in a buffer's bytes. */
  function CodePoints(bytes: seq<byte>, n: nat): (r: seq<int>)
    requires 4 * n <= |bytes|
    ensures |r| == n
  {
    if n == 0 then []
    else
      var b := 4 * (n - 1);
      CodePoints(bytes, n - 1) + [Word(bytes[b], bytes[b + 1], bytes[b + 2], bytes[b + 3])]
  }

  /** One code point as reencode writes it: boundary marks only with the CHARBOUND option. */
  function Encoded(uc: int, charbound: bool): seq<byte> {
    if charbound then CharboundEncodeChar(uc) else EncodeChar(uc)
  }

  function EncodedAll(cs: seq<int>, charbound: bool): seq<byte> {
    if cs == [] then [] else EncodedAll(cs[..|cs| - 1], charbound) + Encoded(cs[|cs| - 1], charbound)
  }

  /** Store one encoding at `at`; everything else stays. */
  method Store(buffer: array<byte>, at: nat, uc: int, charbound: bool) returns (n: nat)
    requires at + 4 <= buffer.Length
    modifies buffer
    ensures n == |Encoded(uc, charbound)| <= 4
    ensures buffer[..at + n] == old(buffer[..at]) + Encoded(uc, charbound)
    ensures forall k :: at + 4 <= k < buffer.Length ==> buffer[k] == old(buffer[k])
  {
    hide EncodeChar;
    var bytes := Encoded(uc, charbound);
    n := |bytes|;
    var i: nat := 0;
    while i < n
      invariant i <= n
      invariant buffer[..at + i] == old(buffer[..at]) + bytes[..i]
      invariant forall k :: at + 4 <= k < buffer.Length ==> buffer[k] == old(buffer[k])
    {
      ghost var before := buffer[..at + i];
      buffer[at + i] := bytes[i];
      assert buffer[..at + i + 1] == before + [bytes[i]];
      assert bytes[..i + 1] == bytes[..i] + [bytes[i]];
      i := i + 1;
    }
    assert bytes[..n] == bytes;
  }

  /** The encoding loop: the write position never passes the code points still to be read. */
  method Encode(buffer: array<byte>, length: nat, charbound: bool) returns (wpos: nat)
    requires 4 * length + 1 <= buffer.Length
    modifies buffer
    ensures wpos <= 4 * length
    ensures buffer[..wpos] == EncodedAll(CodePoints(old(buffer[..]), length), charbound)
    ensures buffer[wpos] == 0
  {
    hide Encoded, Word;
    ghost var cs := CodePoints(buffer[..], length);
    ghost var was := buffer[..];
    var rpos: nat := 0;
    wpos := 0;
    while rpos < length
      invariant rpos <= length && wpos <= 4 * rpos
      invariant buffer[..wpos] == EncodedAll(cs[..rpos], charbound)
      invariant forall k :: 4 * rpos <= k < buffer.Length ==> buffer[k] == was[k]
    {
      var b := 4 * rpos;
      var uc := Word(buffer[b], buffer[b + 1], buffer[b + 2], buffer[b + 3]);
      CodePointAt(was, length, rpos);
      assert uc == cs[rpos];
      assert cs[..rpos + 1] == cs[..rpos] + [uc];
      EncodedNext(cs[..rpos], uc, charbound);
      var n := Store(buffer, wpos, uc, charbound);
      wpos := wpos + n;
      rpos := rpos + 1;
    }
    assert cs[..length] == cs;
    ghost var text := buffer[..wpos];
    buffer[wpos] := 0;
    assert buffer[..wpos] == text;
  }

  lemma EncodedNext(cs: seq<int>, uc: int, charbound: bool)
    ensures EncodedAll(cs + [uc], charbound) == EncodedAll(cs, charbound) + Encoded(uc, charbound)
  {
    assert (cs + [uc])[..|cs|] == cs;
  }

  lemma {:induction false} CodePointAt(bytes: seq<byte>, n: nat, i: nat)
    requires i < n && 4 * n <= |bytes|
    ensures CodePoints(bytes, n)[i] == Word(bytes[4 * i], bytes[4 * i + 1], bytes[4 * i + 2], bytes[4 * i + 3])
  {
    if i < n - 1 {
      CodePointAt(bytes, n - 1, i);
    }
  }

  // ----- decoding what was written

  lemma {:induction false} EncodeAllSnoc(cs: seq<int>, c: int)
    ensures EncodeAll(cs + [c]) == EncodeAll(cs) + EncodeChar(c)
  {
    hide EncodeChar;
    if cs == [] {
      assert cs + [c] == [c];
      assert EncodeAll([c]) == EncodeChar(c) + EncodeAll([]);
    } else {
      EncodeAllSnoc(cs[1..], c);
      assert (cs + [c])[1..] == cs[1..] + [c];
    }
  }

  lemma {:induction false} BothEncode(cs: seq<int>)
    ensures EncodedAll(cs, false) == EncodeAll(cs)
  {
    hide EncodeChar;
    if cs != [] {
      var m := |cs| - 1;
      BothEncode(cs[..m]);
      EncodeAllSnoc(cs[..m], cs[m]);
      assert cs[..m] + [cs[m]] == cs;
    }
  }

  /** What is written for scalar values decodes to them. */
  lemma WrittenDecodes(cs: seq<int>)
    requires AllScalar(cs)
    ensures DecodeAll(EncodedAll(cs, false)) == Some(cs)
  {
    BothEncode(cs);
    DecodeUndoesEncode(cs);
  }

  /** The boundary bytes 0xFF occur in no encoding, so taking them out leaves the text itself. */
  function Unmarked(bytes: seq<byte>): seq<byte> {
    if bytes == [] then []
    else Unmarked(bytes[..|bytes| - 1]) + if bytes[|bytes| - 1] == 0xFF then [] else [bytes[|bytes| - 1]]
  }

  function WithoutMarks(cs: seq<int>): seq<int> {
    if cs == [] then [] else WithoutMarks(cs[..|cs| - 1]) + if cs[|cs| - 1] == -1 then [] else [cs[|cs| - 1]]
  }

  lemma {:induction false} UnmarkedConcat(a: seq<byte>, b: seq<byte>)
    ensures Unmarked(a + b) == Unmarked(a) + Unmarked(b)
  {
    if b == [] {
      assert a + b == a;
    } else {
      var m := |b| - 1;
      UnmarkedConcat(a, b[..m]);
      assert (a + b)[..|a| + m] == a + b[..m];
    }
  }

  lemma {:induction false} NothingToTakeOut(bytes: seq<byte>)
    requires 0xFF !in bytes
    ensures Unmarked(bytes) == bytes
  {
    if bytes != [] {
      NothingToTakeOut(bytes[..|bytes| - 1]);
    }
  }

  lemma OnlyMark()
    ensures Unmarked([0xFF]) == []
  {
    var mark: seq<byte> := [0xFF];
    assert mark[..0] == [];
  }

  lemma NoEncodingHasMark(uc: int)
    ensures 0xFF !in EncodeChar(uc)
  {
  }

  lemma {:induction false} MarksAreSeparate(cs: seq<int>)
    ensures Unmarked(EncodedAll(cs, true)) == EncodeAll(WithoutMarks(cs))
  {
    if cs != [] {
      hide EncodeChar;
      var front, c := cs[..|cs| - 1], cs[|cs| - 1];
      MarksAreSeparate(front);
      UnmarkedConcat(EncodedAll(front, true), Encoded(c, true));
      if c == -1 {
        OnlyMark();
        assert Unmarked(EncodedAll(front, true)) + [] == Unmarked(EncodedAll(front, true));
        assert WithoutMarks(front) + [] == WithoutMarks(front);
      } else {
        NoEncodingHasMark(c);
        NothingToTakeOut(EncodeChar(c));
        EncodeAllSnoc(WithoutMarks(front), c);
      }
    }
  }

  lemma {:induction false} EncodedConcat(a: seq<int>, b: seq<int>, charbound: bool)
    ensures EncodedAll(a + b, charbound) == EncodedAll(a, charbound) + EncodedAll(b, charbound)
  {
    hide Encoded;
    if b == [] {
      assert a + b == a;
    } else {
      var m := |b| - 1;
      EncodedConcat(a, b[..m], charbound);
      assert (a + b)[..|a| + m] == a + b[..m];
    }
  }

  /** A boundary mark between two texts is one byte 0xFF between their encodings, and the texts alone have none. */
  lemma MarkStands(a: seq<int>, b: seq<int>)
    ensures EncodedAll(a + [-1] + b, true) == EncodedAll(a, true) + [0xFF] + EncodedAll(b, true)
    ensures -1 !in a ==> 0xFF !in EncodedAll(a, true)
  {
    EncodedConcat(a + [-1], b, true);
    EncodedNext(a, -1, true);
    assert Encoded(-1, true) == [0xFF];
    if -1 !in a {
      NoMarks(a);
    }
  }

  lemma {:induction false} NoMarks(cs: seq<int>)
    requires -1 !in cs
    ensures 0xFF !in EncodedAll(cs, true)
  {
    hide EncodeChar;
    if cs != [] {
      var m := |cs| - 1;
      NoMarks(cs[..m]);
      NoEncodingHasMark(cs[m]);
      assert cs[m] in cs;
    }
  }
}
