/** UTF-8 (RFC 3629 sections 3 and 4): the decoder accepts exactly what the encoder writes for scalar values. */
module Utf8 {
  import opened Bitwise
  import opened Wrappers

  const UINT32 := 0x1_0000_0000

  /** A code point that has an encoding: in range and not a surrogate. */
  predicate Scalar(c: int) {
    0 <= c < 0xD800 || 0xE000 <= c < 0x110000
  }

  /** utf8proc_codepoint_valid: one unsigned comparison with wrap-around for the surrogates. */
  function CodepointValid(uc: int): (valid: bool)
    requires -0x8000_0000 <= uc < 0x8000_0000
    ensures valid <==> Scalar(uc)
  {
    var u := uc % UINT32;
    (u - 0xD800) % UINT32 > 0x07FF && u < 0x110000
  }

  // ----- encoding

  /** utf8proc_encode_char: nothing for what is out of range; surrogates are encoded. */
  function EncodeChar(uc: int): (r: seq<byte>)
    ensures |r| <= 4 && (|r| == 0 <==> uc < 0 || uc >= 0x110000)
  {
    if uc < 0 then []
    else if uc < 0x80 then [uc]
    else if uc < 0x800 then [0xC0 + uc / 64, 0x80 + uc % 64]
    else if uc < 0x10000 then [0xE0 + uc / 4096, 0x80 + uc / 64 % 64, 0x80 + uc % 64]
    else if uc < 0x110000 then [0xF0 + uc / 262144, 0x80 + uc / 4096 % 64, 0x80 + uc / 64 % 64, 0x80 + uc % 64]
    else []
  }

  /** charbound_encode_char: the same, with a byte 0xFF for the boundary mark -1. */
  function CharboundEncodeChar(uc: int): (r: seq<byte>)
    ensures |r| <= 4
  {
    if uc == -1 then [0xFF] else EncodeChar(uc)
  }

  function EncodeAll(cs: seq<int>): seq<byte> {
    if cs == [] then [] else EncodeChar(cs[0]) + EncodeAll(cs[1..])
  }

  // ----- decoding

  datatype Read = End | Invalid | Char(uc: int, size: nat)

  predicate Continues(b: byte) { b / 64 == 2 }

  /** The six bits a continuation byte carries. */
  function Low6(b: byte): (r: int)
    ensures 0 <= r < 64 && (Continues(b) ==> b == 0x80 + r)
  {
    b % 64
  }

  ghost predicate NulTerminated(str: seq<byte>) {
    exists i :: 0 <= i < |str| && str[i] == 0
  }

  function Two(a: int, b: byte): int { a % 32 * 64 + Low6(b) }
  function Three(a: int, b: byte, c: byte): int { a % 16 * 4096 + Low6(b) * 64 + Low6(c) }
  function Four(a: int, b: byte, c: byte, d: byte): int {
    a % 8 * 262144 + Low6(b) * 4096 + Low6(c) * 64 + Low6(d)
  }

  /** utf8proc_iterate: one character; a negative strlen says that the string is terminated by a NUL. */
  function Iterate(str: seq<byte>, strlen: int): (r: Read)
    requires if strlen < 0 then NulTerminated(str) else strlen <= |str|
    ensures r.Char? ==> 1 <= r.size <= |str| && (strlen >= 0 ==> r.size <= strlen)
  {
    if strlen == 0 then End
    else
      var end := if strlen < 0 then 4 else strlen;
      var uc: int := str[0];
      if uc < 0x80 then Char(uc, 1)
      else if uc < 0xC2 || uc > 0xF4 then Invalid
      else if uc < 0xE0 then
        if 1 >= end || !Continues(str[1]) then Invalid
        else Char(Two(uc, str[1]), 2)
      else if uc < 0xF0 then
        if 2 >= end || !Continues(str[1]) || !Continues(str[2]) then Invalid
        else if uc == 0xED && str[1] > 0x9F then Invalid
        else
          var c := Three(uc, str[1], str[2]);
          if c < 0x800 then Invalid else Char(c, 3)
      else
        if 3 >= end || !Continues(str[1]) || !Continues(str[2]) || !Continues(str[3]) then Invalid
        else if uc == 0xF0 && str[1] < 0x90 then Invalid
        else if uc == 0xF4 && str[1] > 0x8F then Invalid
        else Char(Four(uc, str[1], str[2], str[3]), 4)
  }

  // ----- the accepted sequences are the encodings

  lemma TwoIs(a: byte, b: byte)
    requires 0xC2 <= a < 0xE0 && Continues(b)
    ensures Scalar(Two(a, b)) && EncodeChar(Two(a, b)) == [a, b]
  {
    hide Continues, Low6;
    var x := Low6(b);
    assert a % 32 == a - 0xC0;
    assert Two(a, b) == (a - 0xC0) * 64 + x;
  }

  lemma ThreeIs(a: byte, b: byte, c: byte)
    requires 0xE0 <= a < 0xF0 && Continues(b) && Continues(c) && Three(a, b, c) >= 0x800 && (a == 0xED ==> b <= 0x9F)
    ensures Scalar(Three(a, b, c)) && EncodeChar(Three(a, b, c)) == [a, b, c]
  {
    hide Continues, Low6;
    var x, y := Low6(b), Low6(c);
    assert a % 16 == a - 0xE0;
    ThreeDigits(a - 0xE0, x, y);
  }

  lemma ThreeDigits(h: int, x: int, y: int)
    requires 0 <= h && 0 <= x < 64 && 0 <= y < 64
    ensures var v := h * 4096 + x * 64 + y; v / 4096 == h && v / 64 % 64 == x && v % 64 == y
  {
    var v := h * 4096 + x * 64 + y;
    assert v / 64 == h * 64 + x;
  }

  lemma FourIs(a: byte, b: byte, c: byte, d: byte)
    requires 0xF0 <= a <= 0xF4 && Continues(b) && Continues(c) && Continues(d)
    requires (a == 0xF0 ==> b >= 0x90) && (a == 0xF4 ==> b <= 0x8F)
    ensures Scalar(Four(a, b, c, d)) && EncodeChar(Four(a, b, c, d)) == [a, b, c, d]
  {
    hide Continues, Low6;
    var x, y, z := Low6(b), Low6(c), Low6(d);
    assert a % 8 == a - 0xF0;
    ThreeDigits((a - 0xF0) * 64 + x, y, z);
    assert ((a - 0xF0) * 64 + x) * 4096 == (a - 0xF0) * 262144 + x * 4096;
    FourTop(a - 0xF0, x, y * 64 + z);
  }

  lemma FourTop(h: int, x: int, low: int)
    requires 0 <= h && 0 <= x < 64 && 0 <= low < 4096
    ensures (h * 262144 + x * 4096 + low) / 262144 == h
  {
  }

  /** What is accepted is the encoding of a scalar value. */
  lemma AcceptsOnlyEncodings(str: seq<byte>)
    requires Iterate(str, |str|).Char?
    ensures var r := Iterate(str, |str|); Scalar(r.uc) && str[..r.size] == EncodeChar(r.uc)
  {
    hide EncodeChar, Two, Three, Four, Continues;
    var a := str[0];
    if a < 0x80 {
      OneIs(a);
    } else if a < 0xE0 {
      TwoIs(a, str[1]);
    } else if a < 0xF0 {
      ThreeIs(a, str[1], str[2]);
    } else {
      FourIs(a, str[1], str[2], str[3]);
    }
  }

  lemma OneIs(a: byte)
    requires a < 0x80
    ensures EncodeChar(a) == [a]
  {
  }

  lemma Halves(b: int)
    requires 0 <= b < 64
    ensures Continues(0x80 + b) && Low6(0x80 + b) == b
  {
  }

  /** Every encoding of a scalar value is accepted, whatever follows it. */
  lemma AcceptsEncodings(c: int, rest: seq<byte>)
    requires Scalar(c)
    ensures var s := EncodeChar(c) + rest; Iterate(s, |s|) == Char(c, |EncodeChar(c)|)
  {
    var s := EncodeChar(c) + rest;
    if c < 0x80 {
      assert s[0] == c;
    } else if c < 0x800 {
      TakesTwo(c);
      assert s[0] == EncodeChar(c)[0] && s[1] == EncodeChar(c)[1];
    } else if c < 0x10000 {
      TakesThree(c);
      assert s[0] == EncodeChar(c)[0] && s[1] == EncodeChar(c)[1] && s[2] == EncodeChar(c)[2];
    } else {
      TakesFour(c);
      var e := EncodeChar(c);
      assert s[0] == e[0] && s[1] == e[1] && s[2] == e[2] && s[3] == e[3];
    }
    hide EncodeChar, Two, Three, Four, Continues;
  }

  lemma TakesTwo(c: int)
    requires 0x80 <= c < 0x800
    ensures var e := EncodeChar(c);
      |e| == 2 && 0xC2 <= e[0] < 0xE0 && Continues(e[1]) && Two(e[0], e[1]) == c
  {
    Halves(c % 64);
    var h := c / 64;
    assert (0xC0 + h) % 32 == h;
    hide Continues, Low6;
  }

  lemma TakesThree(c: int)
    requires 0x800 <= c < 0x10000 && Scalar(c)
    ensures var e := EncodeChar(c);
      && |e| == 3 && 0xE0 <= e[0] < 0xF0 && Continues(e[1]) && Continues(e[2])
      && (e[0] == 0xED ==> e[1] <= 0x9F) && Three(e[0], e[1], e[2]) == c
  {
    var h, x, y := c / 4096, c / 64 % 64, c % 64;
    Halves(x);
    Halves(y);
    assert (0xE0 + h) % 16 == h;
    hide Continues, Low6;
    assert c == h * 4096 + x * 64 + y;
  }

  lemma FourDigits(c: int)
    requires 0 <= c
    ensures c == c / 262144 * 262144 + c / 4096 % 64 * 4096 + c / 64 % 64 * 64 + c % 64
  {
    var m, k := c / 64, c / 4096;
    assert c / 4096 == m / 64 && c / 262144 == k / 64;
    assert c == m * 64 + c % 64 && m == k * 64 + m % 64 && k == k / 64 * 64 + k % 64;
  }

  lemma TakesFour(c: int)
    requires 0x10000 <= c < 0x110000
    ensures var e := EncodeChar(c);
      && |e| == 4 && 0xF0 <= e[0] <= 0xF4 && Continues(e[1]) && Continues(e[2]) && Continues(e[3])
      && (e[0] == 0xF0 ==> e[1] >= 0x90) && (e[0] == 0xF4 ==> e[1] <= 0x8F)
      && Four(e[0], e[1], e[2], e[3]) == c
  {
    var h, x, y, z := c / 262144, c / 4096 % 64, c / 64 % 64, c % 64;
    FourDigits(c);
    Halves(x);
    Halves(y);
    Halves(z);
    hide Continues, Low6;
    assert EncodeChar(c) == [0xF0 + h, 0x80 + x, 0x80 + y, 0x80 + z];
    FourRange(c, h, x, y, z);
    hide EncodeChar;
    assert (0xF0 + h) % 8 == h;
  }

  lemma FourRange(c: int, h: int, x: int, y: int, z: int)
    requires 0x10000 <= c < 0x110000 && c == h * 262144 + x * 4096 + y * 64 + z
    requires 0 <= x < 64 && 0 <= y < 64 && 0 <= z < 64
    ensures 0 <= h <= 4 && (h == 0 ==> x >= 0x10) && (h == 4 ==> x <= 0x0F)
  {
  }

  // ----- the forms of RFC 3629

  /** The leading byte says how many bytes there are and carries the highest bits, and every byte behind it six more. */
  lemma Forms(c: int)
    requires 0 <= c < 0x110000
    ensures var e: seq<int> := EncodeChar(c);
      if c < 0x80 then e == [c]
      else if c < 0x800 then
        |e| == 2 && e[0] / 0x20 == 6 && e[1] / 0x40 == 2 && c == e[0] % 0x20 * 0x40 + e[1] % 0x40
      else if c < 0x10000 then
        && |e| == 3 && e[0] / 0x10 == 14 && e[1] / 0x40 == 2 && e[2] / 0x40 == 2
        && c == e[0] % 0x10 * 0x1000 + e[1] % 0x40 * 0x40 + e[2] % 0x40
      else
        && |e| == 4 && e[0] / 0x08 == 30 && e[1] / 0x40 == 2 && e[2] / 0x40 == 2 && e[3] / 0x40 == 2
        && c == e[0] % 0x08 * 0x4_0000 + e[1] % 0x40 * 0x1000 + e[2] % 0x40 * 0x40 + e[3] % 0x40
  {
    if 0x80 <= c < 0x800 {
      SixBits(c % 64);
    } else if 0x800 <= c < 0x10000 {
      SixBits(c / 64 % 64);
      SixBits(c % 64);
    } else if 0x10000 <= c {
      FormOfFour(c);
    }
  }

  lemma FormOfFour(c: int)
    requires 0x10000 <= c < 0x110000
    ensures var e: seq<int> := EncodeChar(c);
      && |e| == 4 && e[0] / 0x08 == 30 && e[1] / 0x40 == 2 && e[2] / 0x40 == 2 && e[3] / 0x40 == 2
      && c == e[0] % 0x08 * 0x4_0000 + e[1] % 0x40 * 0x1000 + e[2] % 0x40 * 0x40 + e[3] % 0x40
  {
    var h, x, y, z := c / 262144, c / 4096 % 64, c / 64 % 64, c % 64;
    assert EncodeChar(c) == [0xF0 + h, 0x80 + x, 0x80 + y, 0x80 + z];
    hide EncodeChar;
    FourDigits(c);
    SixBits(x);
    SixBits(y);
    SixBits(z);
    assert (0xF0 + h) / 8 == 30 && (0xF0 + h) % 8 == h;
  }

  lemma SixBits(x: int)
    requires 0 <= x < 64
    ensures (0x80 + x) / 0x40 == 2 && (0x80 + x) % 0x40 == x
  {
  }

  /** Two examples of RFC 3629, section 7: A, a negated identity, Alpha and a full stop; and a character of plane 2. */
  lemma Examples()
    ensures EncodeAll([0x41, 0x2262, 0x0391, 0x2E]) == [0x41, 0xE2, 0x89, 0xA2, 0xCE, 0x91, 0x2E]
    ensures EncodeAll([0x233B4]) == [0xF0, 0xA3, 0x8E, 0xB4]
  {
    assert EncodeChar(0x41) == [0x41] && EncodeChar(0x2262) == [0xE2, 0x89, 0xA2];
    assert EncodeChar(0x0391) == [0xCE, 0x91] && EncodeChar(0x2E) == [0x2E];
    assert EncodeChar(0x233B4) == [0xF0, 0xA3, 0x8E, 0xB4];
    hide EncodeChar;
    var cs := [0x41, 0x2262, 0x0391, 0x2E];
    assert cs[1..] == [0x2262, 0x0391, 0x2E] && cs[1..][1..] == [0x0391, 0x2E] && cs[1..][1..][1..] == [0x2E];
    assert EncodeAll([]) == [];
    assert [0x233B4][1..] == [] && [0x2E][1..] == [];
    assert EncodeAll([0x2E]) == [0x2E];
    assert EncodeAll([0x0391, 0x2E]) == [0xCE, 0x91, 0x2E];
    assert EncodeAll([0x2262, 0x0391, 0x2E]) == [0xE2, 0x89, 0xA2, 0xCE, 0x91, 0x2E];
  }

  // ----- whole strings

  ghost predicate AllScalar(cs: seq<int>) {
    forall i :: 0 <= i < |cs| ==> Scalar(cs[i])
  }

  function Prepend(front: seq<int>, r: Option<seq<int>>): Option<seq<int>> {
    match r
    case None => None
    case Some(cs) => Some(front + cs)
  }

  /** The code points of a string, or None if some part of it is malformed. */
  function DecodeAll(str: seq<byte>): Option<seq<int>>
    decreases |str|
  {
    if str == [] then Some([])
    else
      match Iterate(str, |str|)
      case Char(uc, size) =>
        Prepend([uc], DecodeAll(str[size..]))
      case _ => None
  }

  lemma {:induction false} DecodeUndoesEncode(cs: seq<int>)
    requires AllScalar(cs)
    ensures DecodeAll(EncodeAll(cs)) == Some(cs)
    decreases |cs|
  {
    if cs != [] {
      hide EncodeChar, Iterate;
      var rest := EncodeAll(cs[1..]);
      AcceptsEncodings(cs[0], rest);
      DecodeUndoesEncode(cs[1..]);
      assert (EncodeChar(cs[0]) + rest)[|EncodeChar(cs[0])|..] == rest;
      assert [cs[0]] + cs[1..] == cs;
    }
  }

  lemma {:induction false} EncodeUndoesDecode(str: seq<byte>)
    requires DecodeAll(str).Some?
    ensures AllScalar(DecodeAll(str).value) && EncodeAll(DecodeAll(str).value) == str
    decreases |str|
  {
    if str != [] {
      hide EncodeChar, Iterate;
      AcceptsOnlyEncodings(str);
      var r := Iterate(str, |str|);
      EncodeUndoesDecode(str[r.size..]);
      var rest := DecodeAll(str[r.size..]).value;
      hide DecodeAll, Scalar;
      assert str == str[..r.size] + str[r.size..];
      assert ([r.uc] + rest)[1..] == rest;
    }
  }

  /** A string is accepted exactly when it encodes scalar values. */
  lemma AcceptedIffEncoded(str: seq<byte>)
    ensures DecodeAll(str).Some? <==> exists cs :: AllScalar(cs) && EncodeAll(cs) == str
  {
    hide *;
    if DecodeAll(str).Some? {
      EncodeUndoesDecode(str);
    }
    if cs :| AllScalar(cs) && EncodeAll(cs) == str {
      DecodeUndoesEncode(cs);
    }
  }

  // ----- the reading loop

  /** With a terminator the reader looks no further than it. */
  lemma NulStopsReading(str: seq<byte>, n: nat)
    requires n < |str| && str[n] == 0 && (forall i :: 0 <= i < n ==> str[i] != 0)
    ensures NulTerminated(str)
    ensures Iterate(str, -1) == if n == 0 then Char(0, 1) else Iterate(str[..n], n)
  {
    var t := str[..n];
    assert forall i :: 0 <= i < n ==> t[i] == str[i];
    hide Two, Three, Four, Low6;
  }

  /** Where a string ends: at its first zero, or after strlen bytes. */
  ghost predicate EndsAt(str: seq<byte>, strlen: nat, nullTerm: bool, n: nat) {
    if nullTerm then Terminates(str, n) else n == strlen <= |str|
  }

  /** The next character of a string of n bytes, as the loop of utf8proc_decompose_custom reads it. */
  method NextChar(str: seq<byte>, strlen: nat, nullTerm: bool, rpos: nat, ghost n: nat) returns (end: bool, one: Read)
    requires EndsAt(str, strlen, nullTerm, n) && rpos <= n
    ensures end <==> rpos == n
    ensures !end ==> one == Iterate(str[..n][rpos..], n - rpos)
  {
    hide Iterate;
    one := Invalid;
    if nullTerm {
      NulStopsReading(str[rpos..], n - rpos);
      assert str[rpos..][..n - rpos] == str[..n][rpos..];
      one := Iterate(str[rpos..], -1);
      if rpos < n {
        FirstByte(str[..n][rpos..]);
      }
      end := one.Char? && one.uc == 0;
    } else {
      end := rpos >= strlen;
      if !end {
        one := Iterate(str[..strlen][rpos..], strlen - rpos);
      }
    }
  }

  ghost predicate Terminates(str: seq<byte>, n: nat) {
    n < |str| && str[n] == 0 && forall i :: 0 <= i < n ==> str[i] != 0
  }

  lemma PrependNothing(r: Option<seq<int>>)
    ensures Prepend([], r) == r
  {
    if r.Some? {
      assert [] + r.value == r.value;
    }
  }

  lemma PrependNext(front: seq<int>, c: int, r: Option<seq<int>>)
    ensures Prepend(front + [c], r) == Prepend(front, Prepend([c], r))
  {
    if r.Some? {
      assert front + [c] + r.value == front + ([c] + r.value);
    }
  }

  lemma FirstNul(str: seq<byte>) returns (n: nat)
    requires NulTerminated(str)
    ensures Terminates(str, n)
  {
    n := 0;
    while str[n] != 0
      invariant n < |str| && forall i :: 0 <= i < n ==> str[i] != 0
      invariant exists i :: n <= i < |str| && str[i] == 0
      decreases |str| - n
    {
      n := n + 1;
    }
  }

  /** Only a zero byte reads as zero. */
  lemma FirstByte(str: seq<byte>)
    requires str != [] && str[0] != 0
    ensures !(Iterate(str, |str|).Char? && Iterate(str, |str|).uc == 0)
  {
    if Iterate(str, |str|).Char? {
      AcceptsOnlyEncodings(str);
      assert str[..Iterate(str, |str|).size][0] == str[0];
    }
  }
}
