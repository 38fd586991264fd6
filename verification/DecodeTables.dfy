/** Decoding tables and what they make of a bit stream, independently of how the bits are fetched. */
module DecodeTables {
  import opened Bitwise
  import opened BitStream
  import opened Lz77
  import opened Wrappers

  /** A table entry: operation, code bits, value (struct code of inftrees.h). */
  datatype Code = Code(op: nat, bits: nat, val: nat)

  datatype Kind = LiteralByte | Base | SubTable | EndBlock | BadCode

  /** How inflate_fast reads the operation of a length code. */
  function LengthKind(op: nat): Kind {
    if op == 0 then LiteralByte
    else if op / 16 % 2 == 1 then Base
    else if op / 64 % 2 == 0 then SubTable
    else if op / 32 % 2 == 1 then EndBlock
    else BadCode
  }

  /** How inflate_fast reads the operation of a distance code. */
  function DistanceKind(op: nat): Kind {
    if op / 16 % 2 == 1 then Base
    else if op / 64 % 2 == 0 then SubTable
    else BadCode
  }

  function KindOf(op: nat, lengths: bool): Kind {
    if lengths then LengthKind(op) else DistanceKind(op)
  }

  /** Extra bits of a base entry. */
  function Extra(op: nat): nat {
    op % 16
  }

  /** An entry that ends a code. */
  predicate Final(e: Code, lengths: bool) {
    match KindOf(e.op, lengths)
    case LiteralByte => e.val < 256
    case Base =>
      if lengths then Extra(e.op) <= 5 && MIN_MATCH <= e.val && e.val + Pow2(Extra(e.op)) <= MAX_MATCH + 1
      else Extra(e.op) <= 13 && 1 <= e.val && e.val + Pow2(Extra(e.op)) <= 0x8001
    case SubTable => false
    case EndBlock => true
    case BadCode => true
  }

  /** A root entry: final, or a link to a sub-table whose entries are; no code is longer than 15 bits. */
  predicate RootEntry(t: seq<Code>, e: Code, lengths: bool) {
    if KindOf(e.op, lengths) == SubTable then
      && e.bits + e.op <= 15 && e.val + Pow2(e.op) <= |t|
      && forall j :: e.val <= j < e.val + Pow2(e.op) ==> Final(t[j], lengths) && e.bits + t[j].bits <= 15
    else
      Final(e, lengths) && e.bits <= 15
  }

  predicate WellFormed(t: seq<Code>, root: nat, lengths: bool) {
    && root <= 15 && Pow2(root) <= |t|
    && forall i :: 0 <= i < Pow2(root) ==> RootEntry(t, t[i], lengths)
  }

  datatype Found = Found(code: Code, used: nat)

  function Sub(t: seq<Code>, e: Code, data: seq<byte>, c: nat): (i: nat)
    requires e.val + Pow2(e.op) <= |t|
    ensures e.val <= i < e.val + Pow2(e.op)
  {
    e.val + Peek(data, c, e.op)
  }

  /** The code at bit c and how many bits it takes. */
  function LookUp(t: seq<Code>, root: nat, lengths: bool, data: seq<byte>, c: nat): (r: Found)
    requires WellFormed(t, root, lengths)
    ensures r.used <= 15 && Final(r.code, lengths)
  {
    var e := t[Peek(data, c, root)];
    assert RootEntry(t, e, lengths);
    if KindOf(e.op, lengths) == SubTable then
      var s := t[Sub(t, e, data, c + e.bits)];
      Found(s, e.bits + s.bits)
    else
      Found(e, e.bits)
  }

  datatype Tables = Tables(lcode: seq<Code>, lroot: nat, dcode: seq<Code>, droot: nat)

  predicate Sound(t: Tables) {
    WellFormed(t.lcode, t.lroot, true) && WellFormed(t.dcode, t.droot, false)
  }

  /** What stands at one place of the stream; next is the place behind it. */
  datatype Item =
    | Item(token: Token, next: nat)
    | BlockEnd(next: nat)
    | Invalid(next: nat)

  /** The distance that follows a length. */
  function DecodeDistance(t: Tables, data: seq<byte>, c: nat, length: nat): (r: Item)
    requires Sound(t) && MIN_MATCH <= length <= MAX_MATCH
    ensures r.Item? ==> Expressible(r.token, 0x8000) && r.token.Match?
    ensures c <= r.next <= c + 28
  {
    var f := LookUp(t.dcode, t.droot, false, data, c);
    var x := Extra(f.code.op);
    if DistanceKind(f.code.op) == Base then
      Item(Match(length, f.code.val + Peek(data, c + f.used, x)), c + f.used + x)
    else
      Invalid(c + f.used)
  }

  /** The literal, match, end of block or error at bit c; at most 48 bits. */
  function Decode(t: Tables, data: seq<byte>, c: nat): (r: Item)
    requires Sound(t)
    ensures r.Item? ==> Expressible(r.token, 0x8000) && !r.token.Stored?
    ensures c <= r.next <= c + 48
  {
    var f := LookUp(t.lcode, t.lroot, true, data, c);
    var x := Extra(f.code.op);
    match LengthKind(f.code.op)
    case LiteralByte => Item(Literal(f.code.val), c + f.used)
    case Base => DecodeDistance(t, data, c + f.used + x, f.code.val + Peek(data, c + f.used, x))
    case EndBlock => BlockEnd(c + f.used)
    case BadCode => Invalid(c + f.used)
  }

  // ----- what the op values set by inflate_table mean

  /** Links, whose ops are 1 to 15, lead into the table. */
  predicate Linked(t: seq<Code>, root: nat) {
    && Pow2(root) <= |t|
    && forall i :: 0 <= i < Pow2(root) && 1 <= t[i].op <= 15 ==> t[i].val + Pow2(t[i].op) <= |t|
  }

  /** The entry that ends the code at bit c, behind a link if there is one, and the bits of the code. */
  function EntryAt(t: seq<Code>, root: nat, data: seq<byte>, c: nat): Found
    requires Linked(t, root)
  {
    var e := t[Peek(data, c, root)];
    if 1 <= e.op <= 15 then
      var s := t[e.val + Peek(data, c + e.bits, e.op)];
      Found(s, e.bits + s.bits)
    else
      Found(e, e.bits)
  }

  /** Looking a code up leads to its entry. */
  lemma EntryFound(t: seq<Code>, root: nat, lengths: bool, data: seq<byte>, c: nat)
    requires WellFormed(t, root, lengths)
    ensures Linked(t, root)
    ensures var f := EntryAt(t, root, data, c);
      (lengths && f.code.op == 0) || f.code.op >= 16 ==> Final(f.code, lengths) && LookUp(t, root, lengths, data, c) == f
  {
    hide Pow2, Final, Peek;
    forall i | 0 <= i < Pow2(root) && 1 <= t[i].op <= 15
      ensures t[i].val + Pow2(t[i].op) <= |t|
    {
      assert RootEntry(t, t[i], lengths);
      assert KindOf(t[i].op, lengths) == SubTable;
    }
    var e := t[Peek(data, c, root)];
    assert RootEntry(t, e, lengths);
  }

  /** Of a distance entry, 0001eeee is a base with e extra bits, and 64 an invalid code. */
  lemma DistanceByOp(t: Tables, data: seq<byte>, c: nat, length: nat)
    requires Sound(t) && MIN_MATCH <= length <= MAX_MATCH
    ensures Linked(t.dcode, t.droot)
    ensures var f := EntryAt(t.dcode, t.droot, data, c);
      && (16 <= f.code.op < 32 ==>
            var x := f.code.op - 16;
            DecodeDistance(t, data, c, length)
              == Item(Match(length, f.code.val + Peek(data, c + f.used, x)), c + f.used + x))
      && (f.code.op == 64 ==> DecodeDistance(t, data, c, length) == Invalid(c + f.used))
  {
    hide Peek, Pow2, WellFormed, LookUp;
    EntryFound(t.dcode, t.droot, false, data, c);
    hide EntryAt, Final;
  }

  /** Of a length entry, 0 is a literal, 0001eeee a base with e extra bits and a distance behind them, 96 the end of
      the block; 64 is an invalid code, and so are 203 and 77, which the fixed code has for symbols 286 and 287. */
  lemma DecodeByOp(t: Tables, data: seq<byte>, c: nat)
    requires Sound(t)
    ensures Linked(t.lcode, t.lroot)
    ensures var f := EntryAt(t.lcode, t.lroot, data, c);
      var at := c + f.used;
      && (f.code.op == 0 ==> f.code.val < 256 && Decode(t, data, c) == Item(Literal(f.code.val), at))
      && (16 <= f.code.op < 32 ==>
            var x := f.code.op - 16;
            var length := f.code.val + Peek(data, at, x);
            MIN_MATCH <= length <= MAX_MATCH && Decode(t, data, c) == DecodeDistance(t, data, at + x, length))
      && (f.code.op == 96 ==> Decode(t, data, c) == BlockEnd(at))
      && (f.code.op in {64, 77, 203} ==> Decode(t, data, c) == Invalid(at))
  {
    hide Peek, Pow2, DecodeDistance, WellFormed, LookUp;
    EntryFound(t.lcode, t.lroot, true, data, c);
    hide EntryAt;
  }

  /** The values entries may have: any byte, lengths of 3 to 258, distances of 1 to 32768. */
  lemma FinalByOp(e: Code)
    ensures e.op == 0 ==> (Final(e, true) <==> e.val < 256)
    ensures 16 <= e.op < 32 ==>
      (Final(e, true) <==> e.op <= 21 && 3 <= e.val && e.val + Pow2(e.op - 16) - 1 <= 258)
    ensures 16 <= e.op < 32 ==>
      (Final(e, false) <==> e.op <= 29 && 1 <= e.val && e.val + Pow2(e.op - 16) - 1 <= 32768)
    ensures e.op in {64, 77, 96, 203} ==> Final(e, true)
    ensures e.op == 64 ==> Final(e, false)
  {
    hide Pow2;
  }

  /** A code of four symbols: "0" is the letter a, "10" the end of the block, "110" a length of 11 or 12, and "111"
      no symbol; and a distance code with "0" for 1. */
  function FourSymbols(): Tables {
    Tables([Code(0, 1, 97), Code(96, 2, 0), Code(0, 1, 97), Code(1, 2, 4), Code(17, 1, 11), Code(64, 1, 0)], 2,
           [Code(16, 1, 1), Code(64, 1, 0)], 1)
  }

  lemma FourSymbolsSound()
    ensures Sound(FourSymbols())
  {
    var t := FourSymbols();
    assert Pow2(0) == 1 && Pow2(1) == 2 && Pow2(2) == 4;
    hide Pow2;
    FinalByOp(Code(0, 1, 97));
    FinalByOp(Code(96, 2, 0));
    FinalByOp(Code(17, 1, 11));
    FinalByOp(Code(64, 1, 0));
    FinalByOp(Code(16, 1, 1));
    hide Final;
    assert RootEntry(t.lcode, t.lcode[3], true);
  }

  /** The bits 0 110 1 0 10 from the least significant on are the letter, eleven more of them and one, and the end. */
  lemma FourSymbolsDecoded()
    ensures Sound(FourSymbols())
    ensures Run(FourSymbols(), [86], 0, 2) == ([Literal(97), Match(12, 1)], 6)
    ensures Decode(FourSymbols(), [86], 6) == BlockEnd(8)
  {
    hide *;
    FourSymbolsSound();
    FirstLetter();
    LetterRepeated();
    EndReached();
    RunStarts(FourSymbols(), [86], 0);
    RunNext(FourSymbols(), [86], 0, 0);
    assert Run(FourSymbols(), [86], 0, 1).0 == [Literal(97)];
    RunNext(FourSymbols(), [86], 0, 1);
    assert Run(FourSymbols(), [86], 0, 2).0 == [Literal(97), Match(12, 1)];
  }

  lemma RunStarts(t: Tables, data: seq<byte>, c0: nat)
    requires Sound(t)
    ensures Run(t, data, c0, 0) == ([], c0)
  {
  }

  lemma RunNext(t: Tables, data: seq<byte>, c0: nat, n: nat)
    requires Sound(t)
    ensures var (ts, c) := Run(t, data, c0, n);
      Run(t, data, c0, n + 1) ==
        match Decode(t, data, c) case Item(token, next) => (ts + [token], next) case _ => (ts, c)
  {
    hide Decode, Sound;
  }

  lemma FirstLetter()
    requires Sound(FourSymbols())
    ensures Decode(FourSymbols(), [86], 0) == Item(Literal(97), 1)
  {
    BitsOf86();
    hide Peek, Sound, Decode;
    DecodeByOp(FourSymbols(), [86], 0);
  }

  lemma LetterRepeated()
    requires Sound(FourSymbols())
    ensures Decode(FourSymbols(), [86], 1) == Item(Match(12, 1), 6)
  {
    BitsOf86();
    hide Peek, Sound, Decode, DecodeDistance;
    DecodeByOp(FourSymbols(), [86], 1);
    DistanceByOp(FourSymbols(), [86], 5, 12);
  }

  lemma EndReached()
    requires Sound(FourSymbols())
    ensures Decode(FourSymbols(), [86], 6) == BlockEnd(8)
  {
    BitsOf86();
    hide Peek, Sound, Decode;
    DecodeByOp(FourSymbols(), [86], 6);
  }

  /** The bits of one byte that the codes above read. */
  lemma BitsOf86()
    ensures Peek([86], 0, 2) == 2 && Peek([86], 1, 2) == 3 && Peek([86], 3, 1) == 0 && Peek([86], 4, 1) == 1
    ensures Peek([86], 5, 1) == 0 && Peek([86], 5, 0) == 0 && Peek([86], 6, 0) == 0 && Peek([86], 6, 2) == 1
  {
    assert Pow2(0) == 1 && Pow2(1) == 2 && Pow2(2) == 4 && Pow2(3) == 8 && Pow2(4) == 16 && Pow2(5) == 32 && Pow2(6) == 64;
    NumberNext([86], 0);
    assert [86][..1] == [86] && Number([86][..0]) == 0;
    assert Number([86]) == 86;
    hide Number, Pow2;
  }

  /** The first n items from bit c0 on, as long as they are tokens, and the place behind them. */
  function Run(t: Tables, data: seq<byte>, c0: nat, n: nat): (r: (seq<Token>, nat))
    requires Sound(t)
    ensures r.1 >= c0 && |r.0| <= n
  {
    if n == 0 then ([], c0)
    else
      var (ts, c) := Run(t, data, c0, n - 1);
      match Decode(t, data, c)
      case Item(token, next) => (ts + [token], next)
      case _ => (ts, c)
  }

  /** Tokens applied to what was there before. */
  function ApplyAll(before: seq<byte>, ts: seq<Token>): Option<seq<byte>> {
    if ts == [] then Some(before)
    else
      match ApplyAll(before, ts[..|ts| - 1])
      case None => None
      case Some(out) => Apply(out, ts[|ts| - 1])
  }

  lemma ApplyAllSnoc(before: seq<byte>, ts: seq<Token>, t: Token)
    ensures ApplyAll(before, ts + [t]) ==
      match ApplyAll(before, ts) case None => None case Some(out) => Apply(out, t)
  {
    assert (ts + [t])[..|ts|] == ts;
  }
}
