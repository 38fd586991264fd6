/** adler32.c: the Adler-32 checksum of RFC 1950 section 8.2, with deferred reductions. */
module Adler32 {
  import opened Bitwise

  const BASE := 65521
  const NMAX := 5552
  const WORD := 0x1_0000_0000

  /** The two sums of a checksum, reduced after every byte. */
  datatype Sums = Sums(a: nat, b: nat)

  predicate Reduced(s: Sums) {
    s.a < BASE && s.b < BASE
  }

  function Feed(s: Sums, c: byte): (r: Sums)
    ensures Reduced(r)
  {
    var a := (s.a + c) % BASE;
    Sums(a, (s.b + a) % BASE)
  }

  function FeedAll(s: Sums, buf: seq<byte>): (r: Sums)
    ensures Reduced(s) ==> Reduced(r)
  {
    if buf == [] then s else Feed(FeedAll(s, buf[..|buf| - 1]), buf[|buf| - 1])
  }

  lemma FeedOnce(s: Sums, buf: seq<byte>, start: nat, pos: nat)
    requires start <= pos < |buf|
    ensures FeedAll(s, buf[start..pos + 1]) == Feed(FeedAll(s, buf[start..pos]), buf[pos])
  {
    assert buf[start..pos + 1][..pos - start] == buf[start..pos];
  }

  lemma {:induction false} FeedConcat(s: Sums, x: seq<byte>, y: seq<byte>)
    ensures FeedAll(s, x + y) == FeedAll(FeedAll(s, x), y)
  {
    if y == [] {
      assert x + y == x;
    } else {
      var z := y[..|y| - 1];
      FeedConcat(s, x, z);
      assert (x + y)[..|x + y| - 1] == x + z;
    }
  }

  // ----- the sums in closed form

  /** The sum of the bytes. */
  function Total(buf: seq<byte>): nat {
    if buf == [] then 0 else buf[0] + Total(buf[1..])
  }

  /** The sum of the bytes, each times the number of bytes from it to the end. */
  function Weighted(buf: seq<byte>): nat {
    if buf == [] then 0 else |buf| * buf[0] + Weighted(buf[1..])
  }

  lemma {:induction false} SumsSnoc(buf: seq<byte>, c: byte)
    ensures Total(buf + [c]) == Total(buf) + c && Weighted(buf + [c]) == Weighted(buf) + Total(buf) + c
  {
    if buf == [] {
      assert buf + [c] == [c] && [c][1..] == [];
    } else {
      SumsSnoc(buf[1..], c);
      assert (buf + [c])[1..] == buf[1..] + [c];
      NextProduct(|buf|, buf[0]);
    }
  }

  /** The lower half is the starting sum and all bytes; the upper one counts a byte once for every sum it is in. */
  lemma {:induction false} SumsAre(s: Sums, buf: seq<byte>)
    requires Reduced(s)
    ensures FeedAll(s, buf) == Sums((s.a + Total(buf)) % BASE, (s.b + |buf| * s.a + Weighted(buf)) % BASE)
  {
    if buf == [] {
      ReduceSmall(s.a);
      ReduceSmall(s.b);
    } else {
      var n := |buf| - 1;
      var front, c := buf[..n], buf[n];
      SumsAre(s, front);
      assert buf == front + [c];
      SumsSnoc(front, c);
      NextProduct(n, s.a);
      FeedOnce(s, buf, 0, n);
      assert buf[0..n + 1] == buf && buf[0..n] == front;
      hide Total, Weighted, FeedAll, Feed;
      FeedReduced(s.a + Total(front), s.b + n * s.a + Weighted(front), c);
    }
  }

  lemma FeedReduced(a: nat, b: nat, c: byte)
    ensures Feed(Sums(a % BASE, b % BASE), c) == Sums((a + c) % BASE, (b + a + c) % BASE)
  {
    AddMod(a, c);
    AddMod(b, (a + c) % BASE);
    AddMod(a + c, b);
  }

  /** The sums of an end of the bytes. */
  lemma SumsFrom(t: seq<byte>, i: nat)
    requires i < |t|
    ensures Total(t[i..]) == t[i] + Total(t[i + 1..])
    ensures Weighted(t[i..]) == (|t| - i) * t[i] + Weighted(t[i + 1..])
  {
    assert t[i..][1..] == t[i + 1..] && t[i..][0] == t[i] && |t[i..]| == |t| - i;
  }

  lemma NoSums()
    ensures Total([]) == 0 && Weighted([]) == 0
  {
  }

  /** The checksum of "Wikipedia" is 0x11e60398. */
  lemma CheckValue()
    ensures Packed(FeedAll(Sums(1, 0), [87, 105, 107, 105, 112, 101, 100, 105, 97])) == 0x11e6_0398
  {
    hide Total, Weighted, FeedAll, Feed, Packed;
    var t: seq<byte> := [87, 105, 107, 105, 112, 101, 100, 105, 97];
    WordSums(t);
    StartIsReduced();
    SumsAre(Sums(1, 0), t);
    PackedIs(Sums(920, 4582));
  }

  lemma StartIsReduced()
    ensures Reduced(Sums(1, 0))
  {
  }

  lemma WordSums(t: seq<byte>)
    requires t == [87, 105, 107, 105, 112, 101, 100, 105, 97]
    ensures Total(t) == 919 && Weighted(t) == 4573
  {
    hide *;
    SumsFrom(t, 0);
    SumsFrom(t, 1);
    SumsFrom(t, 2);
    SumsFrom(t, 3);
    SumsFrom(t, 4);
    SumsFrom(t, 5);
    SumsFrom(t, 6);
    SumsFrom(t, 7);
    SumsFrom(t, 8);
    assert t[0..] == t && t[9..] == [];
    NoSums();
  }

  /** A checksum as one word. */
  function Packed(s: Sums): nat {
    s.a + s.b * 0x1_0000
  }

  function Unpacked(adler: nat): Sums {
    Sums(adler % 0x1_0000, adler / 0x1_0000 % 0x1_0000)
  }

  lemma PackedUnpacks(s: Sums)
    requires s.a < 0x1_0000 && s.b < 0x1_0000
    ensures Unpacked(Packed(s)) == s && Packed(s) < WORD
  {
  }

  // ----- reductions without division

  /** CHOP: 2^16 is 15 modulo BASE. */
  function Chop(a: nat): nat {
    a % 0x1_0000 + (a / 0x1_0000 * 16 - a / 0x1_0000)
  }

  lemma ChopIsCongruent(a: nat)
    ensures Chop(a) % BASE == a % BASE
  {
    var q := a / 0x1_0000;
    assert a == Chop(a) + q * BASE;
  }

  function Mod28(a: nat): nat {
    var c := Chop(a);
    if c >= BASE then c - BASE else c
  }

  function Mod(a: nat): nat {
    Mod28(Chop(a))
  }

  function Lowered(a: nat): nat {
    var tmp := a / WORD;
    a % WORD + (tmp * 256 - tmp * 32 + tmp)
  }

  function Mod63(a: nat): nat {
    var a3 := Chop(Chop(Lowered(a)));
    if a3 >= BASE then a3 - BASE else a3
  }

  /** MOD28 reduces fully whenever its argument is below 2^28 (and a little beyond). */
  lemma Mod28Reduces(a: nat)
    requires a < 0x1000_0000
    ensures Mod28(a) == a % BASE
  {
    ChopIsCongruent(a);
    assert a / 0x1_0000 < 0x1000;
  }

  /** MOD reduces every 32-bit sum. */
  lemma ModReduces(a: nat)
    requires a < WORD
    ensures Mod(a) == a % BASE
  {
    ChopIsCongruent(a);
    Mod28Reduces(Chop(a));
  }

  /** MOD63 reduces every non-negative 64-bit length. */
  lemma Mod63Reduces(a: nat)
    requires a < 0x8000_0000_0000_0000
    ensures Mod63(a) == a % BASE
  {
    hide Chop, Lowered;
    var a1 := Lowered(a);
    UpperHalf(a);
    ChopIsCongruent(a1);
    ChopIsCongruent(Chop(a1));
    ChopTwice(a1);
  }

  /** 2^32 is 225 modulo BASE. */
  lemma UpperHalf(a: nat)
    requires a < 0x8000_0000_0000_0000
    ensures Lowered(a) % BASE == a % BASE && Lowered(a) < WORD + 225 * 0x8000_0000
  {
    var tmp := a / WORD;
    assert WORD - 225 == BASE * 65551;
    assert a == Lowered(a) + (tmp * 65551) * BASE;
    hide Lowered;
    AddMultiple(Lowered(a), tmp * 65551);
  }

  lemma AddMultiple(x: nat, q: nat)
    ensures (x + q * BASE) % BASE == x % BASE
  {
  }

  lemma ChopTwice(a: nat)
    requires a < WORD + 225 * 0x8000_0000
    ensures Chop(Chop(a)) < 2 * BASE
  {
    assert a / 0x1_0000 < 0x80_0000;
    assert Chop(a) < 0x1_0000 + 15 * 0x80_0000;
    hide Chop;
    ChopBound(Chop(a), 0x800);
  }

  lemma ChopBound(a: nat, n: nat)
    requires a < n * 0x1_0000
    ensures Chop(a) < 0x1_0000 + 15 * n
  {
  }

  // ----- deferred sums

  function Triangle(k: nat): nat {
    if k == 0 then 0 else k + Triangle(k - 1)
  }

  lemma {:induction false} TriangleIs(k: nat)
    ensures 2 * Triangle(k) == k * (k + 1)
  {
    if k > 0 {
      TriangleIs(k - 1);
      assert k * (k + 1) == (k - 1) * k + 2 * k;
    }
  }

  /** The largest sum2 after k bytes without a reduction, from sums that are at most `start`. */
  function Largest(start: nat, k: nat): nat {
    255 * Triangle(k) + (k + 1) * start
  }

  lemma {:induction false} LargestGrows(start: nat, j: nat, k: nat)
    requires j <= k
    ensures Largest(start, j) <= Largest(start, k)
  {
    if j < k {
      LargestGrows(start, j, k - 1);
      LargestOnce(start, k - 1);
    }
  }

  /** NMAX is the largest number of bytes whose sums fit in 32 bits, from reduced sums or from any two halves of a
      word. */
  lemma NmaxIsLargest(start: nat, k: nat)
    requires BASE - 1 <= start <= 0xffff
    ensures Largest(start, k) < WORD <==> k <= NMAX
  {
    TriangleIs(NMAX);
    TriangleIs(NMAX + 1);
    if k <= NMAX {
      LargestGrows(start, k, NMAX);
    } else {
      LargestGrows(start, NMAX + 1, k);
    }
  }

  /** Sums k bytes after their last reduction, standing for the reduced sums s. */
  ghost predicate Deferred(adler: nat, sum2: nat, k: nat, s: Sums) {
    && adler % BASE == s.a && sum2 % BASE == s.b
    && adler <= 0xffff + 255 * k
    && sum2 <= Largest(0xffff, k)
  }

  /** One byte more: the sums stay within 32 bits as long as no more than NMAX have been added. */
  lemma DeferOne(adler: nat, sum2: nat, k: nat, s: Sums, c: byte)
    requires Deferred(adler, sum2, k, s) && k < NMAX
    ensures Deferred(adler + c, sum2 + (adler + c), k + 1, Feed(s, c))
    ensures sum2 + (adler + c) < WORD
  {
    LargestOnce(0xffff, k);
    NmaxIsLargest(0xffff, k + 1);
    hide Largest;
    AddMod(adler, c);
    AddMod(sum2, adler + c);
    AddMod(adler + c, s.b);
  }

  lemma LargestOnce(start: nat, k: nat)
    ensures Largest(start, k + 1) == Largest(start, k) + start + 255 * (k + 1)
  {
    assert (k + 2) * start == (k + 1) * start + start;
  }

  /** Unsigned arithmetic in 32 bits. */
  function Wrap(x: nat): nat {
    x % WORD
  }

  lemma NoWrap(x: nat)
    requires x < WORD
    ensures Wrap(x) == x
  {
  }

  /** DO1 for `count` bytes; the source unrolls it sixteen times. */
  method AddBytes(adler0: nat, sum20: nat, buf: seq<byte>, pos: nat, count: nat, ghost k: nat, ghost s: Sums)
    returns (adler: nat, sum2: nat)
    requires pos + count <= |buf| && k + count <= NMAX
    requires Deferred(adler0, sum20, k, s)
    ensures Deferred(adler, sum2, k + count, FeedAll(s, buf[pos..pos + count]))
    ensures adler < WORD && sum2 < WORD
  {
    hide Deferred, Feed, FeedAll, Wrap;
    adler, sum2 := adler0, sum20;
    var i: nat := 0;
    NoneFed(s, buf, pos);
    while i < count
      invariant i <= count && Deferred(adler, sum2, k + i, FeedAll(s, buf[pos..pos + i]))
    {
      DeferOne(adler, sum2, k + i, FeedAll(s, buf[pos..pos + i]), buf[pos + i]);
      NoWrap(adler + buf[pos + i]);
      NoWrap(sum2 + (adler + buf[pos + i]));
      FeedOnce(s, buf, pos, pos + i);
      adler := Wrap(adler + buf[pos + i]);
      sum2 := Wrap(sum2 + adler);
      i := i + 1;
    }
    DeferredFits(adler, sum2, k + count, FeedAll(s, buf[pos..pos + count]));
  }

  lemma NoneFed(s: Sums, buf: seq<byte>, pos: nat)
    requires pos <= |buf|
    ensures FeedAll(s, buf[pos..pos]) == s
  {
  }

  lemma DeferredFits(adler: nat, sum2: nat, k: nat, s: Sums)
    requires Deferred(adler, sum2, k, s) && k <= NMAX
    ensures adler < WORD && sum2 < WORD
  {
    NmaxIsLargest(0xffff, k);
  }

  /** After MOD both sums are reduced, and nothing is deferred. */
  lemma Settle(adler: nat, sum2: nat, k: nat, s: Sums)
    requires Deferred(adler, sum2, k, s) && k <= NMAX
    ensures Sums(Mod(adler), Mod(sum2)) == s && Deferred(Mod(adler), Mod(sum2), 0, s)
  {
    hide Mod, Largest;
    DeferredFits(adler, sum2, k, s);
    ModReduces(adler);
    ModReduces(sum2);
    LargestAtRest();
  }

  lemma LargestAtRest()
    ensures Largest(0xffff, 0) == 0xffff
  {
  }

  lemma FedOn(s: Sums, buf: seq<byte>, pos: nat, next: nat)
    requires pos <= next <= |buf|
    ensures FeedAll(FeedAll(s, buf[..pos]), buf[pos..next]) == FeedAll(s, buf[..next])
  {
    FeedConcat(s, buf[..pos], buf[pos..next]);
    assert buf[..pos] + buf[pos..next] == buf[..next];
  }

  function Residues(s: Sums): (r: Sums)
    ensures Reduced(r)
  {
    Sums(s.a % BASE, s.b % BASE)
  }

  /** A checksum after all: reduced sums are their own residues. */
  lemma ReducedIsResidue(s: Sums)
    requires Reduced(s)
    ensures Residues(s) == s
  {
  }

  /** adler32_z, continuing from any word.  Both sums come out reduced, but for a single byte after a word whose
      upper half was not. */
  method Adler32Z(adler0: nat, buf: seq<byte>) returns (r: nat)
    ensures var s := Unpacked(adler0);
      var f := FeedAll(Residues(s), buf);
      && (|buf| != 1 || s.b + f.a < 2 * BASE ==> r == Packed(f))
      && (|buf| == 1 && s.b + f.a >= 2 * BASE ==> !Reduced(s) && r == Packed(Sums(f.a, f.b + BASE)))
      && Residues(Unpacked(r)) == f && r < WORD
    ensures Reduced(Unpacked(adler0)) ==> r == Packed(FeedAll(Unpacked(adler0), buf))
  {
    hide FeedAll, Feed, Deferred, Packed, Largest, Residues;
    ghost var s := Unpacked(adler0);
    var sum2: nat := adler0 / 0x1_0000 % 0x1_0000;
    var adler: nat := adler0 % 0x1_0000;
    StartsSettled(s);
    if Reduced(s) {
      ReducedIsResidue(s);
    }
    PackedResidue(FeedAll(Residues(s), buf));
    if |buf| == 1 {
      OnlyOne(Residues(s), buf);
      r := OneByte(adler, sum2, buf[0]);
      return;
    }
    hide Unpacked;
    assert buf[0..|buf|] == buf;
    if |buf| < 16 {
      adler, sum2 := AddBytes(adler, sum2, buf, 0, |buf|, 0, Residues(s));
      r := ShortResult(adler, sum2, |buf|, FeedAll(Residues(s), buf));
      return;
    }
    r := LongBuffer(adler, sum2, buf, Residues(s));
  }

  lemma OnlyOne(s: Sums, buf: seq<byte>)
    requires |buf| == 1
    ensures FeedAll(s, buf) == Feed(s, buf[0])
  {
    assert buf[..0] == [];
  }

  lemma PackedResidue(f: Sums)
    requires Reduced(f)
    ensures Unpacked(Packed(f)) == f == Residues(f) && Packed(f) < WORD
    ensures f.b + BASE < 0x1_0000 ==>
      Residues(Unpacked(Packed(Sums(f.a, f.b + BASE)))) == f && Packed(Sums(f.a, f.b + BASE)) < WORD
  {
    PackedUnpacks(f);
    ReducedIsResidue(f);
    if f.b + BASE < 0x1_0000 {
      PackedUnpacks(Sums(f.a, f.b + BASE));
      hide Packed, Unpacked;
      ShiftMod(f.b);
    }
  }

  /** A word whose halves add up to 2 BASE, continued with a zero byte: the upper sum returned is BASE itself. */
  method OneTooHigh() returns (r: nat)
    ensures r == Packed(Sums(65507, BASE))
  {
    assert Unpacked(65507 + 65535 * 0x1_0000) == Sums(65507, 65535);
    var s := Sums(65507, 65535);
    OnlyOne(Residues(s), [0]);
    assert Feed(Residues(s), 0) == Sums(65507, 0);
    r := Adler32Z(65507 + 65535 * 0x1_0000, [0]);
  }

  /** The branch for sixteen bytes and more: one reduction for every NMAX bytes. */
  method LongBuffer(adler0: nat, sum20: nat, buf: seq<byte>, ghost s: Sums) returns (r: nat)
    requires Deferred(adler0, sum20, 0, s) && |buf| > 0
    ensures r == Packed(FeedAll(s, buf))
  {
    hide FeedAll, Deferred, Packed, Mod;
    var adler, sum2 := adler0, sum20;
    var len: nat, pos: nat := |buf|, 0;
    assert buf[..0] == buf[0..0];
    NoneFed(s, buf, 0);
    while len >= NMAX
      invariant pos + len == |buf| && Deferred(adler, sum2, 0, FeedAll(s, buf[..pos]))
      invariant pos > 0 ==> Sums(adler, sum2) == FeedAll(s, buf[..pos])
    {
      len := len - NMAX;
      adler, sum2 := Block(adler, sum2, buf, pos, NMAX, s);
      pos := pos + NMAX;
    }
    if len != 0 {
      adler, sum2 := Block(adler, sum2, buf, pos, len, s);
      pos := pos + len;
    }
    assert buf[..pos] == buf;
    r := adler + sum2 * 0x1_0000;
    PackedIs(FeedAll(s, buf));
  }

  /** At most NMAX bytes and the reductions after them. */
  method Block(adler0: nat, sum20: nat, buf: seq<byte>, pos: nat, n: nat, ghost s: Sums) returns (adler: nat, sum2: nat)
    requires pos + n <= |buf| && n <= NMAX
    requires Deferred(adler0, sum20, 0, FeedAll(s, buf[..pos]))
    ensures Deferred(adler, sum2, 0, FeedAll(s, buf[..pos + n]))
    ensures Sums(adler, sum2) == FeedAll(s, buf[..pos + n])
  {
    hide FeedAll, Deferred, Mod;
    adler, sum2 := AddBytes(adler0, sum20, buf, pos, n, 0, FeedAll(s, buf[..pos]));
    FedOn(s, buf, pos, pos + n);
    Settle(adler, sum2, n, FeedAll(s, buf[..pos + n]));
    adler := Mod(adler);
    sum2 := Mod(sum2);
  }

  lemma PackedIs(s: Sums)
    ensures Packed(s) == s.a + s.b * 0x1_0000
  {
  }

  lemma StartsSettled(s: Sums)
    requires s.a < 0x1_0000 && s.b < 0x1_0000
    ensures Deferred(s.a, s.b, 0, Residues(s))
  {
    hide Largest;
    LargestAtRest();
  }

  /** The branch for a single byte. */
  method OneByte(adler0: nat, sum20: nat, c: byte) returns (r: nat)
    requires adler0 < 0x1_0000 && sum20 < 0x1_0000
    ensures var f := Feed(Residues(Sums(adler0, sum20)), c);
      && r == (if sum20 + f.a >= 2 * BASE then Packed(Sums(f.a, f.b + BASE)) else Packed(f))
      && (sum20 + f.a >= 2 * BASE ==> sum20 >= BASE && f.b + BASE < 0x1_0000)
  {
    hide Feed, Residues, Packed;
    ByteSums(adler0, sum20, c);
    PackedIs(Feed(Residues(Sums(adler0, sum20)), c));
    var adler := adler0 + c;
    if adler >= BASE {
      adler := adler - BASE;
    }
    var sum2 := sum20 + adler;
    if sum2 >= BASE {
      sum2 := sum2 - BASE;
    }
    PackedIs(Sums(adler, sum2));
    r := adler + sum2 * 0x1_0000;
  }

  /** One byte added to any two halves of a word. */
  lemma ByteSums(a: nat, b: nat, c: byte)
    requires a < 0x1_0000 && b < 0x1_0000
    ensures var f := Feed(Residues(Sums(a, b)), c);
      && f.a == (if a + c >= BASE then a + c - BASE else a + c)
      && f.b == (if b + f.a >= 2 * BASE then b + f.a - 2 * BASE else if b + f.a >= BASE then b + f.a - BASE else b + f.a)
  {
    AddMod(a, c);
    ReduceSmall(a + c);
    var x := (a + c) % BASE;
    AddMod(b, x);
    ReduceSmall(b + x);
  }

  /** The branch for fewer than sixteen bytes: one subtraction and MOD28 are enough. */
  method ShortResult(adler0: nat, sum2: nat, k: nat, ghost s: Sums) returns (r: nat)
    requires k < 16 && Deferred(adler0, sum2, k, s)
    ensures r == Packed(s)
  {
    LargestGrows(0xffff, k, 15);
    TriangleIs(15);
    var adler := adler0;
    if adler >= BASE {
      adler := adler - BASE;
    }
    Mod28Reduces(sum2);
    r := adler + Mod28(sum2) * 0x1_0000;
  }

  // ----- combination

  /** The sums of a concatenation from the sums of its parts. */
  lemma {:induction false} SumsCombine(s: Sums, y: seq<byte>)
    requires Reduced(s)
    ensures var one := FeedAll(Sums(1, 0), y);
      var both := FeedAll(s, y);
      && both.a == (s.a + one.a - 1) % BASE
      && both.b == (s.b + one.b + |y| * (s.a - 1)) % BASE
  {
    if y != [] {
      var z, c := y[..|y| - 1], y[|y| - 1];
      SumsCombine(s, z);
      var one, both := FeedAll(Sums(1, 0), z), FeedAll(s, z);
      CombineStep(s, one, both, |z|, c);
    }
  }

  lemma CombineStep(s: Sums, one: Sums, both: Sums, n: nat, c: byte)
    requires both.a == (s.a + one.a - 1) % BASE
    requires both.b == (s.b + one.b + n * (s.a - 1)) % BASE
    ensures Feed(both, c).a == (s.a + Feed(one, c).a - 1) % BASE
    ensures Feed(both, c).b == (s.b + Feed(one, c).b + (n + 1) * (s.a - 1)) % BASE
  {
    NextProduct(n, s.a - 1);
    StepA(s.a, one.a, c);
    StepB(s.b + n * (s.a - 1), s.a, one.a, one.b, c);
  }

  lemma StepA(sa: int, oa: int, c: int)
    ensures ((sa + oa - 1) % BASE + c) % BASE == (sa + (oa + c) % BASE - 1) % BASE
  {
    AddMod(sa + oa - 1, c);
    AddMod(oa + c, sa - 1);
  }

  lemma StepB(v: int, sa: int, oa: int, ob: int, c: int)
    ensures ((v + ob) % BASE + ((sa + oa - 1) % BASE + c) % BASE) % BASE
         == (v + (ob + (oa + c) % BASE) % BASE + sa - 1) % BASE
  {
    var x, y := ((sa + oa - 1) % BASE + c) % BASE, (oa + c) % BASE;
    AddMod(v + ob, x);
    AddMod(sa + oa - 1, c);
    AddMod(sa + oa - 1 + c, v + ob);
    AddMod(ob + y, v + sa - 1);
    AddMod(oa + c, ob + v + sa - 1);
  }

  lemma NextProduct(n: nat, d: int)
    ensures (n + 1) * d == n * d + d
  {
  }

  lemma AddMod(x: int, y: int)
    ensures (x % BASE + y) % BASE == (x + y) % BASE
  {
    var q := x / BASE;
    assert x == q * BASE + x % BASE;
  }

  /** adler32_combine_ for a non-negative length. */
  method Combine(adler1: nat, adler2: nat, len2: nat) returns (r: nat)
    requires adler1 < WORD && adler2 < WORD && len2 < 0x8000_0000_0000_0000
    requires Reduced(Unpacked(adler1)) && Reduced(Unpacked(adler2))
    ensures forall x, y ::
      (|y| == len2 && adler1 == Packed(FeedAll(Sums(1, 0), x)) && adler2 == Packed(FeedAll(Sums(1, 0), y))) ==>
      r == Packed(FeedAll(Sums(1, 0), x + y))
  {
    Mod63Reduces(len2);
    hide Mod63, Concatenated, FeedAll, Packed, Unpacked;
    r := CombineSums(Unpacked(adler1), Unpacked(adler2), Mod63(len2));
    forall x, y | |y| == len2 && adler1 == Packed(FeedAll(Sums(1, 0), x)) && adler2 == Packed(FeedAll(Sums(1, 0), y))
      ensures r == Packed(FeedAll(Sums(1, 0), x + y))
    {
      ConcatSums(x, y);
    }
  }

  /** The sums of a concatenation, the length of the second part given modulo BASE. */
  function Concatenated(s1: Sums, s2: Sums, rem: nat): Sums {
    Sums((s1.a + s2.a - 1) % BASE, (s1.b + s2.b + Times(rem, s1.a - 1)) % BASE)
  }

  function Times(x: int, y: int): int { x * y }

  /** What Combine computes is the checksum of a concatenation. */
  lemma ConcatSums(x: seq<byte>, y: seq<byte>)
    ensures var s1, s2 := FeedAll(Sums(1, 0), x), FeedAll(Sums(1, 0), y);
      && Unpacked(Packed(s1)) == s1 && Unpacked(Packed(s2)) == s2
      && FeedAll(Sums(1, 0), x + y) == Concatenated(s1, s2, |y| % BASE)
  {
    hide Packed, Unpacked, FeedAll, Feed;
    var s1, s2 := FeedAll(Sums(1, 0), x), FeedAll(Sums(1, 0), y);
    AllReduced(x);
    AllReduced(y);
    PackedUnpacks(s1);
    PackedUnpacks(s2);
    FeedConcat(Sums(1, 0), x, y);
    SumsCombine(s1, y);
    RemainderIsEnough(s1, s2.b, |y|);
  }

  lemma AllReduced(x: seq<byte>)
    ensures Reduced(FeedAll(Sums(1, 0), x))
  {
  }

  lemma RemainderIsEnough(s: Sums, b: nat, n: nat)
    ensures (s.b + b + n % BASE * (s.a - 1)) % BASE == (s.b + b + n * (s.a - 1)) % BASE
  {
    var q := n / BASE;
    assert n == BASE * q + n % BASE;
    assert n * (s.a - 1) == BASE * (q * (s.a - 1)) + n % BASE * (s.a - 1);
  }

  /** The arithmetic of adler32_combine_, in 32 bits. */
  method CombineSums(s1: Sums, s2: Sums, rem: nat) returns (r: nat)
    requires Reduced(s1) && Reduced(s2) && rem < BASE
    ensures r == Packed(Concatenated(s1, s2, rem))
  {
    hide Mod, Wrap, Times, Packed;
    var sum1: int := s1.a;
    ProductFits(rem, sum1);
    ModReduces(Times(rem, sum1));
    NoWrap(Times(rem, sum1));
    SameResidue(rem, s1.a, s1.b + s2.b);
    var sum2: int := Mod(Wrap(Times(rem, sum1)));
    NoWrap(sum1 + s2.a + BASE - 1);
    sum1 := Wrap(sum1 + s2.a + BASE - 1);
    NoWrap(sum2 + s1.b + s2.b + BASE - rem);
    sum2 := Wrap(sum2 + s1.b + s2.b + BASE - rem);
    ReduceSmall(sum1);
    ReduceSmall(sum2);
    if sum1 >= BASE {
      sum1 := sum1 - BASE;
    }
    if sum1 >= BASE {
      sum1 := sum1 - BASE;
    }
    if sum2 >= BASE * 2 {
      sum2 := sum2 - BASE * 2;
    }
    if sum2 >= BASE {
      sum2 := sum2 - BASE;
    }
    ShiftMod(s1.a + s2.a - 1);
    PackedIs(Sums(sum1, sum2));
    r := sum1 + sum2 * 0x1_0000;
  }

  lemma ShiftMod(x: int)
    ensures (x + BASE) % BASE == x % BASE
  {
  }

  lemma ReduceSmall(x: nat)
    ensures x < BASE ==> x % BASE == x
    ensures BASE <= x < 2 * BASE ==> x % BASE == x - BASE
    ensures 2 * BASE <= x < 3 * BASE ==> x % BASE == x - 2 * BASE
    ensures 3 * BASE <= x < 4 * BASE ==> x % BASE == x - 3 * BASE
  {
  }

  lemma ProductFits(x: nat, y: nat)
    requires x < BASE && y < BASE
    ensures 0 <= Times(x, y) < WORD
  {
    MulBound(x, y, BASE - 1);
  }

  lemma MulBound(x: nat, y: nat, m: nat)
    requires y <= m
    ensures x * y <= x * m
  {
  }

  lemma SameResidue(rem: nat, a: nat, b: nat)
    ensures (Times(rem, a) % BASE + b + BASE - rem) % BASE == (b + Times(rem, a - 1)) % BASE
  {
    var p := rem * a;
    PreviousProduct(rem, a);
    AddMod(p, b + BASE - rem);
    ShiftMod(p + b - rem);
  }

  lemma PreviousProduct(rem: int, a: int)
    ensures rem * (a - 1) == rem * a - rem
  {
  }
}
