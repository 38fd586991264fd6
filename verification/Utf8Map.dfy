/** utf8proc_map: decode, decompose, order, compose and encode. */
module Utf8Map {
  import opened Bitwise
  import opened Wrappers
  import opened Utf8
  import opened CanonicalOrder
  import opened Composition
  import opened Reencode

  function Min(a: nat, b: nat): nat { if a < b then a else b }

  /** The user's mapping of characters. */
  type Custom = int -> int

  function Mapped(cs: seq<int>, custom: Custom): (r: seq<int>)
    ensures |r| == |cs|
  {
    if cs == [] then [] else Mapped(cs[..|cs| - 1], custom) + [custom(cs[|cs| - 1])]
  }

  /** Code points that utf8proc_decompose_char takes. */
  predicate InRange(c: int) { 0 <= c < 0x110000 }

  predicate AllInRange(cs: seq<int>) {
    forall i :: 0 <= i < |cs| ==> InRange(cs[i])
  }

  /** utf8proc_decompose_char writes what fits, and says how much there is. */
  method Write(buffer: array<int>, bufsize: nat, wpos: nat, s: seq<int>, ghost d: seq<int>)
    requires bufsize <= buffer.Length && wpos == |d|
    requires buffer[..Min(bufsize, wpos)] == d[..Min(bufsize, wpos)]
    modifies buffer
    ensures buffer[..Min(bufsize, wpos + |s|)] == (d + s)[..Min(bufsize, wpos + |s|)]
    ensures buffer[bufsize..] == old(buffer[bufsize..])
  {
    ghost var all, rest := d + s, buffer[bufsize..];
    var i: nat := 0;
    while i < |s|
      invariant i <= |s|
      invariant forall k :: 0 <= k < Min(bufsize, wpos + i) ==> buffer[k] == all[k]
      invariant forall k :: bufsize <= k < buffer.Length ==> buffer[k] == rest[k - bufsize]
    {
      if wpos + i < bufsize {
        buffer[wpos + i] := s[i];
      }
      i := i + 1;
    }
  }

  /** The decomposition of characters that were read. */
  function Expanded(u: Ucd, cs: seq<int>, custom: Custom): seq<int> {
    DecomposeAll(u, Mapped(cs, custom))
  }

  /** The decomposition of a string; None when it is no UTF-8 or a character is mapped out of range. */
  function Decomposition(u: Ucd, text: seq<byte>, custom: Custom): Option<seq<int>> {
    match DecodeAll(text)
    case None => None
    case Some(cs) => if AllInRange(Mapped(cs, custom)) then Some(Expanded(u, cs, custom)) else None
  }

  /** The buffer holds what fits of d. */
  ghost predicate Holds(buffer: array<int>, bufsize: nat, d: seq<int>)
    requires bufsize <= buffer.Length
    reads buffer
  {
    buffer[..Min(bufsize, |d|)] == d[..Min(bufsize, |d|)]
  }

  /** One character: mapped, decomposed and written. */
  method WriteNext(u: Ucd, uc: int, custom: Custom, buffer: array<int>, bufsize: nat, wpos: nat, ghost read: seq<int>)
    returns (r: Option<nat>)
    requires bufsize <= buffer.Length && wpos == |Expanded(u, read, custom)|
    requires Holds(buffer, bufsize, Expanded(u, read, custom))
    modifies buffer
    ensures r.Some? <==> InRange(custom(uc))
    ensures r.Some? ==>
      r.value == |Expanded(u, read + [uc], custom)| && Holds(buffer, bufsize, Expanded(u, read + [uc], custom))
    ensures buffer[bufsize..] == old(buffer[bufsize..])
  {
    hide Full, DecomposeAll, Mapped;
    MappedNext(u, read, uc, custom);
    if !InRange(custom(uc)) {
      return None;
    }
    var s := Full(u, custom(uc));
    Write(buffer, bufsize, wpos, s, Expanded(u, read, custom));
    r := Some(wpos + |s|);
  }

  /** The loop of utf8proc_decompose_custom. */
  method Decompose(u: Ucd, str: seq<byte>, strlen: nat, nullTerm: bool, custom: Custom, buffer: array<int>,
                   bufsize: nat, ghost n: nat) returns (r: Option<nat>)
    requires EndsAt(str, strlen, nullTerm, n) && n <= |str| && bufsize <= buffer.Length
    modifies buffer
    ensures match Decomposition(u, str[..n], custom)
      case None => r == None
      case Some(d) => r == Some(|d|) && Holds(buffer, bufsize, d)
    ensures buffer[bufsize..] == old(buffer[bufsize..])
  {
    hide Iterate, Expanded, Mapped, DecodeAll, EndsAt, Holds;
    ghost var text, read := str[..n], [];
    assert text[0..] == text;
    PrependNothing(DecodeAll(text));
    NothingExpanded(u, custom, buffer, bufsize);
    var rpos: nat, wpos: nat := 0, 0;
    while true
      invariant rpos <= n
      invariant DecodeAll(text) == Prepend(read, DecodeAll(text[rpos..]))
      invariant AllInRange(Mapped(read, custom)) && wpos == |Expanded(u, read, custom)|
      invariant Holds(buffer, bufsize, Expanded(u, read, custom))
      invariant buffer[bufsize..] == old(buffer[bufsize..])
      decreases n - rpos
    {
      var end, one := NextChar(str, strlen, nullTerm, rpos, n);
      if end {
        break;
      }
      DecodesNext(text, rpos);
      if !one.Char? {
        return None;
      }
      PrependNext(read, one.uc, DecodeAll(text[rpos + one.size..]));
      var next := WriteNext(u, one.uc, custom, buffer, bufsize, wpos, read);
      if next == None {
        OutOfRange(DecodeAll(text), read, one.uc, custom, DecodeAll(text[rpos + one.size..]));
        return None;
      }
      StaysInRange(u, read, one.uc, custom);
      wpos := next.value;
      read := read + [one.uc];
      rpos := rpos + one.size;
    }
    DecodesEnd(text);
    assert read + [] == read;
    r := Some(wpos);
  }

  lemma StaysInRange(u: Ucd, read: seq<int>, c: int, custom: Custom)
    requires AllInRange(Mapped(read, custom)) && InRange(custom(c))
    ensures AllInRange(Mapped(read + [c], custom))
  {
    MappedNext(u, read, c, custom);
  }

  lemma NothingExpanded(u: Ucd, custom: Custom, buffer: array<int>, bufsize: nat)
    requires bufsize <= buffer.Length
    ensures Mapped([], custom) == [] == Expanded(u, [], custom) && Holds(buffer, bufsize, [])
  {
    MappedNothing(u, custom);
  }

  /** utf8proc_decompose_custom for canonical decomposition: how many code points there are, in canonical order as long
      as the buffer takes them all. */
  method DecomposeCustom(u: Ucd, str: seq<byte>, strlen: nat, nullTerm: bool, custom: Custom, buffer: array<int>,
                         bufsize: nat, ghost n: nat) returns (r: Option<nat>)
    requires EndsAt(str, strlen, nullTerm, n) && n <= |str| && bufsize <= buffer.Length
    modifies buffer
    ensures match Decomposition(u, str[..n], custom)
      case None => r == None
      case Some(d) =>
        && r == Some(|d|)
        && (if |d| <= bufsize then buffer[..|d|] == Canonical(u.ccc, d) else buffer[..bufsize] == d[..bufsize])
    ensures buffer[bufsize..] == old(buffer[bufsize..])
  {
    hide Decomposition, Canonical, EndsAt;
    r := Decompose(u, str, strlen, nullTerm, custom, buffer, bufsize, n);
    if r.Some? && bufsize >= r.value {
      ghost var d, rest := Decomposition(u, str[..n], custom).value, buffer[bufsize..];
      assert buffer[..|d|] == d;
      Order(u.ccc, buffer, r.value);
      assert buffer[bufsize..] == buffer[r.value..][bufsize - r.value..] == rest;
    }
  }

  lemma MappedNothing(u: Ucd, custom: Custom)
    ensures Mapped([], custom) == [] && DecomposeAll(u, []) == []
  {
  }

  lemma MappedNext(u: Ucd, cs: seq<int>, c: int, custom: Custom)
    ensures Mapped(cs + [c], custom) == Mapped(cs, custom) + [custom(c)]
    ensures DecomposeAll(u, Mapped(cs + [c], custom)) == DecomposeAll(u, Mapped(cs, custom)) + Full(u, custom(c))
  {
    hide Full;
    assert (cs + [c])[..|cs|] == cs;
    var m := Mapped(cs, custom);
    assert (m + [custom(c)])[..|m|] == m;
  }

  lemma DecodesNext(text: seq<byte>, rpos: nat)
    requires rpos < |text|
    ensures match Iterate(text[rpos..], |text| - rpos)
      case Char(uc, size) =>
        rpos + size <= |text| && size > 0 && DecodeAll(text[rpos..]) == Prepend([uc], DecodeAll(text[rpos + size..]))
      case _ => DecodeAll(text[rpos..]) == None
  {
    hide Iterate;
    var one := Iterate(text[rpos..], |text| - rpos);
    if one.Char? {
      assert text[rpos..][one.size..] == text[rpos + one.size..];
    }
  }

  lemma DecodesEnd(text: seq<byte>)
    ensures DecodeAll(text[|text|..]) == Some([])
  {
  }

  /** A character that is mapped out of range makes the whole text fail. */
  lemma OutOfRange(all: Option<seq<int>>, read: seq<int>, c: int, custom: Custom, rest: Option<seq<int>>)
    requires all == Prepend(read + [c], rest) && !InRange(custom(c))
    ensures all.Some? ==> !AllInRange(Mapped(all.value, custom))
  {
    if all.Some? {
      MappedAt(all.value, custom, |read|);
    }
  }

  lemma {:induction false} MappedAt(cs: seq<int>, custom: Custom, i: nat)
    requires i < |cs|
    ensures Mapped(cs, custom)[i] == custom(cs[i])
  {
    if i < |cs| - 1 {
      MappedAt(cs[..|cs| - 1], custom, i);
    }
  }

  // ----- the whole pipeline

  /** The tables stay within scalar values. */
  ghost predicate ScalarTables(u: Ucd) {
    && (forall c :: Scalar(c) ==> AllScalar(u.decomposed(c)))
    && (forall a, b :: Scalar(a) && Scalar(b) && u.pair(a, b) > 0 ==> Scalar(u.pair(a, b)))
  }

  lemma SmallIsScalar()
    ensures ScalarTables(Small())
  {
  }

  /** The normal form the options ask for. */
  ghost function NormalForm(u: Ucd, compose: bool, stable: bool, cs: seq<int>): seq<int> {
    if compose then Nfc(u, stable, cs) else Nfd(u, cs)
  }

  /** utf8proc_map: a string is refused exactly when it is no UTF-8; else the bytes returned decode to the normal form
      of what it decodes to. */
  method Map(u: Ucd, compose: bool, stable: bool, str: seq<byte>, strlen: nat, nullTerm: bool, ghost n: nat)
    returns (r: Option<seq<byte>>)
    requires Composition.Sound(u) && ScalarTables(u) && EndsAt(str, strlen, nullTerm, n) && n <= |str|
    ensures r.Some? <==> DecodeAll(str[..n]).Some?
    ensures r.Some? ==>
      var text := DecodeAll(str[..n]).value;
      DecodeAll(r.value) == Some(if compose then Nfc(u, stable, text) else Nfd(u, text))
  {
    hide Composition.Sound, ScalarTables, EndsAt, DecodeAll, NormalForm, EncodedAll, CodePoints, AllScalar, Nfc, Nfd;
    var buffer := Normalize(u, compose, stable, str, strlen, nullTerm, n);
    if buffer == None {
      return None;
    }
    var (words, length) := buffer.value;
    ghost var text := words[..length];
    NormalFormIsScalar(u, compose, stable, str[..n]);
    NormalForms(u, compose, stable, DecodeAll(str[..n]).value);
    ScalarFits(text);
    assert forall i :: 0 <= i < length ==> words[i] == text[i];
    var bytes := SameMemory(words, length);
    var wpos := Encode(bytes, length, false);
    WrittenDecodes(text);
    r := Some(bytes[..wpos]);
  }

  /** The part before encoding: once for the size, and once for the code points. */
  method Normalize(u: Ucd, compose: bool, stable: bool, str: seq<byte>, strlen: nat, nullTerm: bool, ghost n: nat)
    returns (r: Option<(array<int>, nat)>)
    requires Composition.Sound(u) && EndsAt(str, strlen, nullTerm, n) && n <= |str|
    ensures r.Some? <==> DecodeAll(str[..n]).Some?
    ensures r.Some? ==>
      r.value.1 <= r.value.0.Length && r.value.0[..r.value.1] == NormalForm(u, compose, stable, DecodeAll(str[..n]).value)
  {
    hide Composition.Sound, EndsAt, DecodeAll, NormalForm, Decomposition, Canonical, DecomposeAll, Composed;
    var same := (c: int) => c;
    Unmapped(u, str[..n], same);
    var none := new int[0];
    var size := DecomposeCustom(u, str, strlen, nullTerm, same, none, 0, n);
    if size == None {
      return None;
    }
    var buffer := new int[size.value];
    size := DecomposeCustom(u, str, strlen, nullTerm, same, buffer, size.value, n);
    var length := size.value;
    ghost var cs := DecodeAll(str[..n]).value;
    assert buffer[..length] == Nfd(u, cs);
    NormalFormIs(u, compose, stable, cs);
    if compose {
      length := Compose(u, stable, buffer, length);
    }
    r := Some((buffer, length));
  }

  /** The buffer of 32-bit words as bytes. */
  method SameMemory(buffer: array<int>, length: nat) returns (bytes: array<byte>)
    requires length <= buffer.Length && forall i :: 0 <= i < length ==> 0 <= buffer[i] < 0x8000_0000
    ensures fresh(bytes) && bytes.Length == 4 * buffer.Length + 1
    ensures CodePoints(bytes[..], length) == buffer[..length]
  {
    hide Word;
    bytes := new byte[4 * buffer.Length + 1](_ => 0);
    var i: nat := 0;
    while i < length
      invariant i <= length
      invariant forall k :: 0 <= k < i ==> Word(bytes[4 * k], bytes[4 * k + 1], bytes[4 * k + 2], bytes[4 * k + 3]) == buffer[k]
    {
      var c := buffer[i];
      WordOf(c);
      var b := 4 * i;
      var upper := c / 0x100;
      bytes[b], bytes[b + 1], bytes[b + 2], bytes[b + 3] := c % 0x100, upper % 0x100, upper / 0x100 % 0x100, upper / 0x100 / 0x100;
      i := i + 1;
    }
    forall k | 0 <= k < length
      ensures CodePoints(bytes[..], length)[k] == buffer[..length][k]
    {
      CodePointAt(bytes[..], length, k);
    }
  }

  lemma WordOf(c: int)
    requires 0 <= c < 0x8000_0000
    ensures var upper := c / 0x100;
      upper / 0x100 / 0x100 < 0x80 && Word(c % 0x100, upper % 0x100, upper / 0x100 % 0x100, upper / 0x100 / 0x100) == c
  {
    var q1 := c / 0x100;
    var q2 := q1 / 0x100;
    var q3 := q2 / 0x100;
    assert c == c % 0x100 + 0x100 * q1 && q1 == q1 % 0x100 + 0x100 * q2 && q2 == q2 % 0x100 + 0x100 * q3;
    WordIs(c % 0x100, q1 % 0x100, q2 % 0x100, q3);
  }

  lemma WordIs(a: byte, b: byte, c: byte, d: byte)
    ensures d < 0x80 ==> Word(a, b, c, d) == a + 0x100 * (b + 0x100 * (c + 0x100 * d))
  {
  }

  lemma NormalFormIs(u: Ucd, compose: bool, stable: bool, cs: seq<int>)
    ensures NormalForm(u, compose, stable, cs) == if compose then Composed(u, stable, Nfd(u, cs)) else Nfd(u, cs)
  {
  }

  lemma NormalForms(u: Ucd, compose: bool, stable: bool, cs: seq<int>)
    ensures NormalForm(u, compose, stable, cs) == if compose then Nfc(u, stable, cs) else Nfd(u, cs)
  {
    hide Nfc, Nfd;
  }

  /** The bytes of e and a combining acute accent: composed they are those of e with acute, decomposed themselves. */
  method MapAcute(compose: bool, stable: bool) returns (r: Option<seq<byte>>)
    ensures r == Some(if compose then [0xC3, 0xA9] else [0x65, 0xCC, 0x81])
  {
    AcuteBytes();
    SmallIsSound();
    SmallIsScalar();
    AcuteComposes(stable);
    hide *;
    var str: seq<byte> := [0x65, 0xCC, 0x81];
    WholeString(str);
    assert str[..3] == str;
    r := Map(Small(), compose, stable, str, 3, false, 3);
    AcuteDecomposes();
    EncodeUndoesDecode(r.value);
  }

  lemma AcuteDecomposes()
    ensures Nfd(Small(), [0x65, 0x301]) == [0x65, 0x301]
  {
    assert Decomposed(Small(), [0x65, 0x301]);
    DecomposedIsFixed(Small(), [0x65, 0x301]);
    OrderedIsCanonical(Small().ccc, [0x65, 0x301]);
    hide Canonical, DecomposeAll;
  }

  lemma WholeString(str: seq<byte>)
    ensures EndsAt(str, |str|, false, |str|)
  {
  }

  lemma AcuteBytes()
    ensures DecodeAll([0x65, 0xCC, 0x81]) == Some([0x65, 0x301])
    ensures EncodeAll([0xE9]) == [0xC3, 0xA9] && EncodeAll([0x65, 0x301]) == [0x65, 0xCC, 0x81]
  {
    assert EncodeChar(0x65) == [0x65] && EncodeChar(0x301) == [0xCC, 0x81] && EncodeChar(0xE9) == [0xC3, 0xA9];
    hide EncodeChar;
    assert EncodeAll([]) == [];
    assert [0xE9][1..] == [] && [0x301][1..] == [] && [0x65, 0x301][1..] == [0x301];
    assert EncodeAll([0x301]) == [0xCC, 0x81];
    assert EncodeAll([0x65, 0x301]) == [0x65, 0xCC, 0x81];
    DecodeUndoesEncode([0x65, 0x301]);
  }

  /** Without a mapping of characters nothing is refused once it is decoded. */
  lemma Unmapped(u: Ucd, text: seq<byte>, same: Custom)
    requires forall c :: same(c) == c
    ensures match DecodeAll(text)
      case None => Decomposition(u, text, same) == None
      case Some(cs) => Decomposition(u, text, same) == Some(DecomposeAll(u, cs))
  {
    hide DecodeAll, DecomposeAll;
    if DecodeAll(text).Some? {
      var cs := DecodeAll(text).value;
      EncodeUndoesDecode(text);
      MappedSame(cs, same);
    }
  }

  lemma {:induction false} MappedSame(cs: seq<int>, same: Custom)
    requires forall c :: same(c) == c
    ensures Mapped(cs, same) == cs
  {
    if cs != [] {
      MappedSame(cs[..|cs| - 1], same);
    }
  }

  // ----- scalar values all the way

  lemma FullIsScalar(u: Ucd, c: int)
    requires ScalarTables(u) && Scalar(c)
    ensures AllScalar(Full(u, c))
  {
  }

  lemma {:induction false} DecomposedIsScalar(u: Ucd, cs: seq<int>)
    requires ScalarTables(u) && AllScalar(cs)
    ensures AllScalar(DecomposeAll(u, cs))
  {
    hide ScalarTables, Full, Scalar;
    if cs != [] {
      var m := |cs| - 1;
      DecomposedIsScalar(u, cs[..m]);
      FullIsScalar(u, cs[m]);
    }
  }

  lemma OrderedIsScalar(u: Ucd, s: seq<int>)
    requires AllScalar(s)
    ensures AllScalar(Canonical(u.ccc, s))
  {
    hide Canonical;
    CanonicalPermutes(u.ccc, s);
    var t := Canonical(u.ccc, s);
    forall i | 0 <= i < |t|
      ensures Scalar(t[i])
    {
      assert t[i] in multiset(t);
      assert t[i] in s;
    }
  }

  lemma PrimaryIsScalar(u: Ucd, stable: bool, a: int, b: int)
    requires ScalarTables(u) && Scalar(a) && Scalar(b) && Primary(u, stable, a, b).Some?
    ensures Scalar(Primary(u, stable, a, b).value)
  {
  }

  lemma {:induction false} ComposedIsScalar(u: Ucd, stable: bool, s: seq<int>)
    requires ScalarTables(u) && AllScalar(s)
    ensures AllScalar(Composed(u, stable, s))
  {
    hide ScalarTables, Primary, Scalar, Composed;
    if s == [] {
      NothingComposed(u, stable);
      ComposedNothing(u, stable);
    } else {
      var front, x := s[..|s| - 1], s[|s| - 1];
      ComposedIsScalar(u, stable, front);
      assert front + [x] == s;
      ComposedSnoc(u, stable, front, x);
      var w := Composed(u, stable, front);
      var p := LastStarter(u.ccc, w);
      if p >= 0 && Primary(u, stable, w[p], x).Some? {
        PrimaryIsScalar(u, stable, w[p], x);
      }
    }
  }

  lemma ComposedNothing(u: Ucd, stable: bool)
    ensures Composed(u, stable, []) == []
  {
  }

  lemma NormalFormIsScalar(u: Ucd, compose: bool, stable: bool, text: seq<byte>)
    requires ScalarTables(u) && DecodeAll(text).Some?
    ensures AllScalar(NormalForm(u, compose, stable, DecodeAll(text).value))
  {
    hide ScalarTables, DecodeAll, DecomposeAll, Canonical, Composed, Scalar;
    EncodeUndoesDecode(text);
    var cs := DecodeAll(text).value;
    DecomposedIsScalar(u, cs);
    OrderedIsScalar(u, DecomposeAll(u, cs));
    ComposedIsScalar(u, stable, Nfd(u, cs));
  }

  lemma ScalarFits(s: seq<int>)
    requires AllScalar(s)
    ensures forall i :: 0 <= i < |s| ==> 0 <= s[i] < 0x8000_0000
  {
  }
}
