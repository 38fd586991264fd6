/** The gzip file reader: buffered, seekable, with push-back, over short reads of the file. */
module GzReader {
  import opened Bitwise
  import opened Wrappers
  import opened GzStream
  import opened GzCursor

  datatype How = LOOK | COPY | GZIP
  datatype Error = OK | DATA_ERROR | STREAM_ERROR

  const MAX_READ := 0x4000_0000
  const UINT_MAX := 0xFFFF_FFFF

  /** The bytes are those in front of position o. */
  ghost predicate EndsAt(file: seq<byte>, s: seq<byte>, o: nat) {
    s != [] ==> |s| <= o <= |file| && s == file[o - |s|..o]
  }

  lemma EndsNone(file: seq<byte>, s: seq<byte>, o: nat)
    requires s == []
    ensures EndsAt(file, s, o)
  {
  }

  lemma EndsLess(file: seq<byte>, s: seq<byte>, o: nat, c: nat)
    requires EndsAt(file, s, o) && c <= |s|
    ensures EndsAt(file, s[c..], o)
  {
  }

  lemma EndsFurther(file: seq<byte>, s: seq<byte>, o: nat, more: seq<byte>)
    requires EndsAt(file, s, o) && EndsAt(file, more, o + |more|)
    ensures EndsAt(file, s + more, o + |more|)
  {
    if s == [] {
      assert s + more == more;
    } else if more == [] {
      assert s + more == s;
    } else {
      var e := o + |more|;
      assert file[o - |s|..e] == file[o - |s|..o] + file[o..e];
    }
  }

  /** The bytes are those from position `at` on. */
  ghost predicate SliceAt(whole: seq<byte>, s: seq<byte>, at: int) {
    s != [] ==> 0 <= at && at + |s| <= |whole| && s == whole[at..at + |s|]
  }

  /** The bytes ready continue the file's contents, behind the first `dirty` ones, which were pushed back. */
  ghost predicate Continues(whole: seq<byte>, ready: seq<byte>, dirty: nat, pos: int) {
    dirty <= |ready| && SliceAt(whole, ready[dirty..], pos + dirty)
  }

  lemma ContinuesLater(whole: seq<byte>, ready: seq<byte>, dirty: nat, pos: int, n: nat)
    requires Continues(whole, ready, dirty, pos) && n <= |ready|
    ensures Continues(whole, ready[n..], if n < dirty then dirty - n else 0, pos + n)
  {
    CleanLater(whole, ready, dirty, pos, n, if n < dirty then dirty - n else 0);
  }

  lemma ContinuesBefore(whole: seq<byte>, ready: seq<byte>, dirty: nat, pos: int, c: byte)
    requires Continues(whole, ready, dirty, pos)
    ensures Continues(whole, [c] + ready, dirty + 1, pos - 1)
  {
    assert ([c] + ready)[dirty + 1..] == ready[dirty..];
  }

  lemma ContinuesNone(whole: seq<byte>, pos: int)
    ensures Continues(whole, [], 0, pos)
  {
  }

  lemma CleanLater(whole: seq<byte>, ready: seq<byte>, dirty: nat, pos: int, n: nat, d: nat)
    requires dirty <= |ready| && n <= |ready| && SliceAt(whole, ready[dirty..], pos + dirty)
    requires d == if n < dirty then dirty - n else 0
    ensures d <= |ready[n..]| && SliceAt(whole, ready[n..][d..], pos + n + d)
  {
    assert ready[n..][d..] == ready[dirty..][n + d - dirty..];
  }

  lemma TakeFront(ready: seq<byte>, tail: seq<byte>, n: nat)
    requires n <= |ready|
    ensures (ready + tail)[n..] == ready[n..] + tail && (ready + tail)[..n] == ready[..n]
  {
  }

  lemma TailNone(s: seq<byte>)
    ensures Tail(s, 0) == s
  {
  }

  lemma TailTail(s: seq<byte>, a: nat, n: nat)
    requires a <= |s| && n <= |Tail(s, a)|
    ensures a + n <= |s| && Tail(s, a)[n..] == Tail(s, a + n)
  {
  }

  lemma SkipEnds(view: seq<byte>, len: nat, left: nat, rest: seq<byte>)
    requires left <= len && len - left <= |view| && rest == Tail(view, len - left) && (left > 0 ==> rest == [])
    ensures rest == Tail(view, len) && Min(len, |view|) == len - left
  {
  }

  lemma CopiedOn(d: Decoder, file: seq<byte>, start: nat, pos: int, out: seq<byte>, offset: nat)
    requires start <= |file| && Complete(d, file[start..]) && !IsGzip(file[start..])
    requires EndsAt(file, out, offset) && 0 <= pos && offset == start + pos + |out|
    ensures var whole := Uncompressed(d, file[start..], true);
      && SliceAt(whole, out, pos) && Tail(file, offset) == Tail(whole, pos + |out|)
      && Tail(whole, pos) == out + Tail(whole, pos + |out|)
  {
  }

  lemma DecompressedOn(whole: seq<byte>, coming: seq<byte>, pos: int, out: seq<byte>)
    requires 0 <= pos && coming == Tail(whole, pos) && |out| <= |coming| && out == coming[..|out|]
    ensures SliceAt(whole, out, pos) && coming[|out|..] == Tail(whole, pos + |out|)
    ensures Tail(whole, pos) == out + Tail(whole, pos + |out|)
  {
  }

  lemma Extended(now: seq<byte>, before: seq<byte>, coming: seq<byte>, at: nat, got: nat, o: nat)
    requires |before| == at + got && |now| == at + got + o && got + o <= |coming|
    requires now[..at + got] == before && now[at + got..] == coming[got..][..o] && before[at..] == coming[..got]
    ensures now[at..] == coming[..got + o] && now[..at] == before[..at]
  {
    assert now[at..] == before[at..] + now[at + got..];
    assert coming[..got + o] == coming[..got] + coming[got..][..o];
    assert now[..at] == now[..at + got][..at];
  }

  /** A file taken as it is. */
  lemma RawStart(d: Decoder, file: seq<byte>, start: nat, offset: nat, raw: seq<byte>)
    requires raw != [] && EndsAt(file, raw, offset) && offset == start + |raw| && start <= |file|
    requires Complete(d, file[start..]) && !IsGzip(file[start..])
    ensures var whole := Uncompressed(d, file[start..], true);
      && SliceAt(whole, raw, 0) && |raw| <= |whole|
      && Tail(file, offset) == Tail(whole, |raw|)
  {
  }

  lemma RawTail(whole: seq<byte>, none: seq<byte>, pos: int, raw: seq<byte>)
    requires none == [] && pos == 0 && SliceAt(whole, raw, 0) && |raw| <= |whole|
    ensures none + Tail(whole, pos) == raw + Tail(whole, |raw|)
  {
    if raw != [] {
      assert whole == whole[..|raw|] + whole[|raw|..];
    }
  }

  lemma TakenDirectly(view: seq<byte>, out: seq<byte>, rest: seq<byte>)
    requires view == out + rest
    ensures |out| <= |view| && view[|out|..] == rest && view[..|out|] == out
  {
  }

  lemma GoOn(v: seq<byte>, got: nat, k: nat, out: seq<byte>)
    requires got <= |v| && k <= |v[got..]| && |out| == got + k && out[..got] == v[..got] && out[got..] == v[got..][..k]
    ensures got + k <= |v| && v[got..][k..] == v[got + k..] && out == v[..got + k]
  {
    assert out == out[..got] + out[got..];
  }

  lemma ReadyAndRest(whole: seq<byte>, ready: seq<byte>, pos: int)
    requires SliceAt(whole, ready, pos) && 0 <= pos
    ensures ready + Tail(whole, pos + |ready|) == Tail(whole, pos)
  {
  }

  lemma ReadyBehindPushed(whole: seq<byte>, ready: seq<byte>, dirty: nat, pos: int, pending: nat)
    requires Continues(whole, ready, dirty, pos) && 0 <= pos + |ready|
    ensures var view := ready + Tail(whole, pos + |ready|);
      pos + dirty >= 0 && Ahead(whole, Cursor(view[..dirty], pos + dirty, pending)) == view
  {
    hide Tail;
    ReadyAndRest(whole, ready[dirty..], pos + dirty);
    assert ready == ready[..dirty] + ready[dirty..];
    assert (ready + Tail(whole, pos + |ready|))[..dirty] == ready[..dirty];
  }

  lemma TailOfSlice(s: seq<byte>, n: nat, delta: int)
    requires n <= delta && n <= |s|
    ensures Tail(s[n..], delta - n) == Tail(s, delta)
  {
  }

  function Less(a: nat, n: nat): nat {
    if n < a then a - n else 0
  }

  /** n bytes further, in terms of what the caller sees. */
  lemma CursorMoves(whole: seq<byte>, view: seq<byte>, dirty: nat, pos: int, n: nat)
    requires dirty <= |view| && n <= |view| && pos + dirty >= 0
    ensures var d: nat := Less(dirty, n);
      d <= |view[n..]| && pos + n + d >= 0
      && Cursor(view[n..][..d], pos + n + d, 0) == Took(Cursor(view[..dirty], pos + dirty, 0), n)
  {
    if n <= dirty {
      assert view[n..][..dirty - n] == view[..dirty][n..];
    }
  }

  lemma CursorReads(whole: seq<byte>, view: seq<byte>, dirty: nat, pos: int, pending: nat, n: nat)
    requires dirty <= |view| && pos + dirty >= 0 && n <= |Tail(view, pending)| && (pending > 0 ==> dirty == 0)
    requires Ahead(whole, Cursor(view[..dirty], pos + dirty, pending)) == view
    ensures var d, p := Less(dirty, n), pos + Min(pending, |view|) + n;
      d <= |Tail(view, pending)[n..]| && p + d >= 0
      && Cursor(Tail(view, pending)[n..][..d], p + d, 0)
         == Took(Settled(whole, Cursor(view[..dirty], pos + dirty, pending)), n)
  {
    hide Line, Ahead, Tail, Took;
    var c := Cursor(view[..dirty], pos + dirty, pending);
    var k := Min(pending, |view|);
    TailIsSlice(view, pending);
    if pending == 0 {
      assert c == Cursor(view[..dirty], pos + dirty, 0) && view[0..] == view;
      TookNone(c);
      CursorMoves(whole, view, dirty, pos, n);
    } else {
      assert c.pushed == [];
      CursorMoves(whole, view, dirty, pos, k);
      SettledFrom(whole, c);
      CursorMoves(whole, view[k..], 0, pos + k, n);
    }
  }

  lemma TookNone(c: Cursor)
    requires c.pending == 0
    ensures Took(c, 0) == c
  {
  }

  lemma SettledFrom(whole: seq<byte>, c: Cursor)
    requires c.pushed == []
    ensures Settled(whole, c) == Cursor([], c.place + Min(c.pending, |Ahead(whole, c)|), 0)
  {
  }

  lemma TailIsSlice(s: seq<byte>, n: nat)
    ensures Tail(s, n) == s[Min(n, |s|)..]
  {
  }

  /** The first k of these bytes belong to the line: up to a newline, or all. */
  ghost predicate LineOf(s: seq<byte>, k: nat, eol: bool) {
    && 0 < k <= |s|
    && (forall i :: 0 <= i < k - 1 ==> s[i] != NEWLINE)
    && (eol <==> s[k - 1] == NEWLINE) && (!eol ==> k == |s|)
  }

  lemma {:induction false} LineStarts(v: seq<byte>, left: nat, k: nat, eol: bool)
    requires 0 < k <= left && k <= |v|
    requires (forall i :: 0 <= i < k - 1 ==> v[i] != NEWLINE) && (eol <==> v[k - 1] == NEWLINE)
    ensures Line(v, left) == if eol then k else k + Line(v[k..], left - k)
    decreases k
  {
    if k > 1 {
      assert v[0] != NEWLINE;
      LineStarts(v[1..], left - 1, k - 1, eol);
      assert v[1..][k - 1..] == v[k..];
    }
  }

  lemma ReadyLine(ready: seq<byte>, rest: seq<byte>, front: seq<byte>, left: nat, k: nat, eol: bool)
    requires |front| <= left && |front| <= |ready| && front == ready[..|front|] && LineOf(front, k, eol)
    ensures Line(ready + rest, left) == if eol then k else k + Line((ready + rest)[k..], left - k)
  {
    var v := ready + rest;
    assert forall i :: 0 <= i < |front| ==> v[i] == front[i];
    LineStarts(v, left, k, eol);
  }

  lemma FromTheStart(d: Decoder, file: seq<byte>, start: nat, direct: bool)
    requires start <= |file| && Complete(d, file[start..]) && (!direct ==> IsGzip(file[start..]))
    ensures Future(d, file, Looking(start, direct)) == Uncompressed(d, file[start..], true)
  {
  }

  lemma InsideFile(d: Decoder, file: seq<byte>, src: Source)
    requires src.Inflating? && Placed(d, file, src)
    ensures src.at < src.member + d.length(file[src.member..]) <= |file|
  {
  }

  /** What one call of inflate may do with `left` bytes of the member not yet taken and `pending` bytes of its
      contents not yet delivered. */
  predicate Steps(availIn: nat, availOut: nat, left: int, pending: int, c: int, o: int) {
    && 0 <= c <= availIn && c <= left && 0 <= o <= availOut && o <= pending
    && (c == left ==> o == pending)
    && (c == left || o == availOut || c == availIn)
  }

  method AnyStep(availIn: nat, availOut: nat, left: int, pending: int) returns (c: nat, o: nat)
    requires availIn > 0 && availOut > 0 && left > 0 && pending >= 0
    ensures Steps(availIn, availOut, left, pending, c, o)
  {
    CanStep(availIn, availOut, left, pending);
    c, o :| Steps(availIn, availOut, left, pending, c, o);
  }

  lemma CanStep(availIn: nat, availOut: nat, left: int, pending: int)
    requires availIn > 0 && availOut > 0 && left > 0 && pending >= 0
    ensures exists c: nat, o: nat :: Steps(availIn, availOut, left, pending, c, o)
  {
    if availIn < left {
      assert Steps(availIn, availOut, left, pending, availIn, 0);
    } else if pending <= availOut {
      assert Steps(availIn, availOut, left, pending, left, pending);
    } else {
      assert Steps(availIn, availOut, left, pending, 0, availOut);
    }
  }

  class GzState {
    const file: seq<byte>
    const start: nat              // where the gzip data starts in the file
    const want: nat
    const decoder: Decoder

    var offset: nat               // the file descriptor's position
    var size: nat                 // 0 until the buffers are allocated
    var inBuf: array<byte>
    var outBuf: array<byte>
    var availIn: nat
    var nextIn: nat
    var have: nat
    var next: nat
    var pos: int
    var how: How
    var direct: bool
    var eof: bool
    var past: bool
    var seek: bool
    var skip: nat
    var err: Error
    var member: nat               // inflate's own state: where the member begun starts in the file
    var produced: nat             // and how much of it has been delivered
    ghost var dirty: nat          // how many of the bytes ready have been pushed back

    // ----- what the state stands for

    ghost predicate File()
    {
      start <= |file| && want >= 8 && Complete(decoder, file[start..])
    }

    ghost predicate Buffers()
      reads this`size, this`inBuf, this`outBuf, this`nextIn, this`availIn
    {
      && inBuf.Length == size && outBuf.Length == 2 * size && inBuf != outBuf
      && (size == 0 || size == want)
      && nextIn + availIn <= size
    }

    /** The input buffer holds the bytes in front of the file position. */
    ghost predicate Input()
      reads this`size, this`inBuf, this`nextIn, this`availIn, this`offset, inBuf
    {
      && nextIn + availIn <= inBuf.Length && start + availIn <= offset
      && EndsAt(file, inBuf[nextIn..nextIn + availIn], offset)
    }

    /** The first byte of the file not yet given to the decompressor. */
    ghost function At(): int
      reads this`availIn, this`offset
    {
      offset - availIn
    }

    ghost function Src(): Source
      reads this`how, this`eof, this`availIn, this`offset, this`direct, this`member, this`produced
    {
      match how
      case LOOK => if eof && availIn == 0 then Ended else Looking(At(), direct)
      case COPY => Copying(offset)
      case GZIP => Inflating(member, produced, At())
    }

    ghost predicate InPlace()
      reads this`how, this`eof, this`availIn, this`offset, this`direct, this`member, this`produced
    {
      && Placed(decoder, file, Src())
      && (eof && (availIn > 0 || how != LOOK) ==> offset >= |file|)
    }

    ghost function Coming(): seq<byte>
      requires InPlace()
      reads this`how, this`eof, this`availIn, this`offset, this`direct, this`member, this`produced
    {
      Future(decoder, file, Src())
    }

    ghost function Whole(): seq<byte>
      requires File()
    {
      Uncompressed(decoder, file[start..], true)
    }

    // ----- reading the file

    /** read(): any number of bytes from one to `get`, or none at the end of the file. */
    method OsRead(get: nat) returns (chunk: seq<byte>)
      requires get > 0
      modifies this`offset
      ensures old(offset) <= offset && |chunk| == offset - old(offset) <= get
      ensures chunk == [] <==> old(offset) >= |file|
      ensures EndsAt(file, chunk, offset)
    {
      if offset >= |file| {
        return [];
      }
      assert 1 <= 1 <= get && offset + 1 <= |file|;
      var n: nat :| 1 <= n <= get && offset + n <= |file|;
      chunk := file[offset..offset + n];
      offset := offset + n;
    }

    /** Store a chunk behind the bytes got so far. */
    method Put(buf: array<byte>, at: nat, got: nat, chunk: seq<byte>)
      requires at + got + |chunk| <= buf.Length
      modifies buf
      ensures buf[at..at + got + |chunk|] == old(buf[at..at + got]) + chunk
      ensures buf[..at] == old(buf[..at])
    {
      forall k | 0 <= k < |chunk| {
        buf[at + got + k] := chunk[k];
      }
    }

    /** gz_load: read until `len` bytes are there or the file ends. */
    method Load(buf: array<byte>, at: nat, len: nat) returns (got: nat)
      requires at + len <= buf.Length && len > 0
      modifies this`offset, this`eof, buf
      ensures got <= len && offset == old(offset) + got
      ensures EndsAt(file, buf[at..at + got], offset)
      ensures buf[..at] == old(buf[..at])
      ensures got < len ==> offset >= |file| && eof
      ensures eof == (old(eof) || got < len)
    {
      hide EndsAt;
      got := 0;
      EndsNone(file, buf[at..at], offset);
      while true
        invariant got < len && offset == old(offset) + got && eof == old(eof)
        invariant EndsAt(file, buf[at..at + got], offset)
        invariant buf[..at] == old(buf[..at])
        decreases len - got
      {
        var get := if len - got > MAX_READ then MAX_READ else len - got;
        var chunk := OsRead(get);
        if chunk == [] {
          eof := true;
          break;
        }
        EndsFurther(file, buf[at..at + got], offset - |chunk|, chunk);
        Put(buf, at, got, chunk);
        got := got + |chunk|;
        if got >= len {
          break;
        }
      }
    }

    /** gz_avail: move what is left to the front of the input buffer and fill it up. */
    method Avail()
      requires Buffers() && Input() && availIn < size
      modifies this`offset, this`eof, this`availIn, this`nextIn, inBuf
      ensures Buffers() && Input() && At() == old(At())
      ensures old(eof) ==> eof && availIn == old(availIn) && offset == old(offset)
      ensures !old(eof) ==> availIn == size || (eof && offset >= |file|)
      ensures eof ==> old(eof) || offset >= |file|
    {
      hide EndsAt;
      if !eof {
        if availIn > 0 {
          MoveDown();
        }
        assert availIn == 0 ==> inBuf[..0] == inBuf[nextIn..nextIn];
        TopUp();
      }
    }

    /** Fill the input buffer up behind what is at its front. */
    method TopUp()
      requires availIn < inBuf.Length && EndsAt(file, inBuf[..availIn], offset) && availIn <= offset && !eof
      modifies this`offset, this`eof, this`availIn, this`nextIn, inBuf
      ensures nextIn == 0 && availIn <= inBuf.Length && EndsAt(file, inBuf[..availIn], offset) && At() == old(At())
      ensures eof ==> offset >= |file|
      ensures availIn == inBuf.Length || eof
    {
      hide EndsAt;
      ghost var kept, o := inBuf[..availIn], offset;
      var got := Load(inBuf, availIn, inBuf.Length - availIn);
      ghost var more := inBuf[availIn..availIn + got];
      EndsFurther(file, kept, o, more);
      assert inBuf[..availIn + got] == kept + more;
      availIn := availIn + got;
      nextIn := 0;
    }

    /** The copying loop of gz_avail. */
    method MoveDown()
      requires nextIn + availIn <= inBuf.Length
      modifies inBuf
      ensures inBuf[..availIn] == old(inBuf[nextIn..nextIn + availIn])
    {
      ghost var was := inBuf[..];
      var i: nat := 0;
      while i < availIn
        invariant i <= availIn
        invariant forall k :: 0 <= k < i ==> inBuf[k] == was[nextIn + k]
        invariant forall k :: i <= k < inBuf.Length ==> inBuf[k] == was[k]
      {
        inBuf[i] := inBuf[nextIn + i];
        i := i + 1;
      }
    }

    /** inflate(): takes some of the input and delivers some of the member's contents.  It stops when the input is
        used up, the output is full or the member ends, and the member's last byte is taken only at its end. */
    method Inflate(buf: array<byte>, at: nat, availOut: nat) returns (o: nat, end: bool)
      requires Buffers() && Input() && InPlace() && how == GZIP && availIn > 0 && availOut > 0
      requires at + availOut <= buf.Length && buf != inBuf
      modifies this`availIn, this`nextIn, this`produced, buf
      ensures Buffers() && Input() && o <= availOut && produced == old(produced) + o
      ensures At() >= old(At()) && buf[..at] == old(buf[..at])
      ensures var rest := file[member..];
        && produced <= |decoder.content(rest)|
        && buf[at..at + o] == decoder.content(rest)[old(produced)..produced]
        && (end ==> produced == |decoder.content(rest)| && At() == member + decoder.length(rest) > old(At()))
      ensures !end ==> InPlace() && (o == availOut || (availIn == 0 && At() > old(At())))
    {
      hide EndsAt, Future, Complete;
      var rest := file[member..];
      var content := decoder.content(rest);
      var left: int := member + decoder.length(rest) - (offset - availIn);
      var pending: int := |content| - produced;
      InsideFile(decoder, file, Src());
      var c;
      c, o := AnyStep(availIn, availOut, left, pending);
      end := c == left;
      Put(buf, at, 0, content[produced..produced + o]);
      produced := produced + o;
      Consume(c);
    }

    /** c bytes of the input are done with. */
    method Consume(c: nat)
      requires Buffers() && Input() && c <= availIn
      modifies this`availIn, this`nextIn
      ensures Buffers() && Input() && availIn == old(availIn) - c && At() == old(At()) + c
    {
      hide EndsAt;
      ghost var held := inBuf[nextIn..nextIn + availIn];
      EndsLess(file, held, offset, c);
      SliceTail(inBuf, nextIn, availIn, c);
      nextIn := nextIn + c;
      availIn := availIn - c;
    }

    static lemma SliceTail(a: array<byte>, i: nat, n: nat, c: nat)
      requires i + n <= a.Length && c <= n
      ensures a[i..i + n][c..] == a[i + c..i + c + (n - c)]
    {
    }

    /** gz_decomp: fill the output, up to the end of the member. */
    method Decomp(buf: array<byte>, at: nat, n: nat) returns (got: nat)
      requires File() && Buffers() && Input() && InPlace() && how == GZIP && !direct && n > 0 && size > 0
      requires at + n <= buf.Length && buf != inBuf
      modifies this`offset, this`eof, this`availIn, this`nextIn, this`produced, this`how, inBuf, buf
      ensures Buffers() && Input() && InPlace() && how != COPY
      ensures got <= n && got <= |old(Coming())|
      ensures buf[at..at + got] == old(Coming())[..got] && Coming() == old(Coming())[got..]
      ensures buf[..at] == old(buf[..at])
      ensures how == LOOK ==> At() > old(At())
      ensures how == GZIP ==> got == n
    {
      hide EndsAt, Future, Complete, Placed, Input, InPlace, Buffers, Finished, Coming;
      ghost var coming := Coming();
      InFile();
      got := 0;
      var end := false;
      while !end && got < n
        invariant Buffers() && Input() && old(At()) <= At() <= |file| && how == GZIP
        invariant got <= n && got <= |coming| && buf[at..at + got] == coming[..got]
        invariant if end then Finished(coming[got..]) && At() > old(At()) else InPlace() && Coming() == coming[got..]
        invariant buf[..at] == old(buf[..at])
        decreases |file| - At(), n - got
      {
        var o;
        o, end := Lengthen(buf, at, got, n - got, coming);
        got := got + o;
      }
      if end {
        how := LOOK;
        Concludes(coming[got..]);
      }
    }

    lemma InFile()
      requires InPlace() && how == GZIP
      ensures At() <= |file|
    {
    }

    lemma Concludes(coming: seq<byte>)
      requires Finished(coming) && how == LOOK && !direct
      ensures InPlace() && Coming() == coming
    {
      if eof && availIn == 0 {
        NothingBehindTheEnd(decoder, file, false);
      }
    }

    /** The member is at its end, and this is what follows it. */
    ghost predicate Finished(coming: seq<byte>)
      reads this`availIn, this`offset, this`eof
    {
      && 0 <= At() <= |file| && Complete(decoder, file[At()..])
      && (eof ==> offset >= |file|)
      && coming == Future(decoder, file, Looking(At(), false))
    }

    lemma NotAtEnd()
      requires InPlace() && how == GZIP && availIn == 0
      ensures !eof && offset < |file|
    {
    }

    /** Some input for inflate. */
    method Supply()
      requires Buffers() && Input() && InPlace() && how == GZIP && size > 0
      modifies this`offset, this`eof, this`availIn, this`nextIn, inBuf
      ensures Buffers() && Input() && InPlace() && At() == old(At()) && availIn > 0 && Coming() == old(Coming())
    {
      hide EndsAt, Future, Complete, Input;
      if availIn == 0 {
        NotAtEnd();
        Avail();
      }
      InsideFile(decoder, file, Src());
      if availIn == 0 {
        assert false;     // "unexpected end of file": every member is complete
      }
    }

    /** One call of inflate with some input, told by what is still to come. */
    method More(buf: array<byte>, at: nat, availOut: nat) returns (o: nat, end: bool)
      requires Buffers() && Input() && InPlace() && how == GZIP && availOut > 0 && size > 0
      requires at + availOut <= buf.Length && buf != inBuf
      modifies this`offset, this`eof, this`availIn, this`nextIn, this`produced, inBuf, buf
      ensures Buffers() && Input() && o <= availOut && old(At()) <= At() <= |file| && o <= |old(Coming())|
      ensures buf[..at] == old(buf[..at]) && buf[at..at + o] == old(Coming())[..o]
      ensures end ==> Finished(old(Coming())[o..]) && At() > old(At())
      ensures !end ==> InPlace() && Coming() == old(Coming())[o..]
      ensures !end ==> o == availOut || At() > old(At())
    {
      hide EndsAt, Future, Complete, Input, InPlace, Placed, Buffers, Coming, Finished;
      Supply();
      ghost var src, coming := Src(), Coming();
      ComesFrom();
      o, end := Inflate(buf, at, availOut);
      if end {
        MemberDone(src, o, buf[at..at + o]);
      } else {
        MemberContinues(src, o, buf[at..at + o]);
      }
    }

    /** Behind the `got` bytes in the buffer, those of one call of inflate. */
    method Lengthen(buf: array<byte>, at: nat, got: nat, availOut: nat, ghost coming: seq<byte>) returns (o: nat, end: bool)
      requires Buffers() && Input() && InPlace() && how == GZIP && availOut > 0 && size > 0
      requires at + got + availOut <= buf.Length && buf != inBuf
      requires got <= |coming| && buf[at..at + got] == coming[..got] && Coming() == coming[got..]
      modifies this`offset, this`eof, this`availIn, this`nextIn, this`produced, inBuf, buf
      ensures Buffers() && Input() && o <= availOut && old(At()) <= At() <= |file| && got + o <= |coming|
      ensures buf[..at] == old(buf[..at]) && buf[at..at + got + o] == coming[..got + o]
      ensures end ==> Finished(coming[got + o..]) && At() > old(At())
      ensures !end ==> InPlace() && Coming() == coming[got + o..]
      ensures !end ==> o == availOut || At() > old(At())
    {
      hide EndsAt, Future, Complete, Placed, Input, InPlace, Buffers, Finished, Coming, At;
      ghost var before := buf[..at + got];
      assert before[at..] == buf[at..at + got];
      o, end := More(buf, at + got, availOut);
      ghost var after := buf[..at + got + o];
      assert after[at + got..] == buf[at + got..at + got + o];
      assert after[..at + got] == before;
      Extended(after, before, coming, at, got, o);
      assert after[..at] == buf[..at] && before[..at] == old(buf[..at]) && after[at..] == buf[at..at + got + o];
      assert coming[got..][o..] == coming[got + o..];
    }

    lemma ComesFrom()
      requires InPlace() && how == GZIP
      ensures Src() == Inflating(member, produced, At()) && Placed(decoder, file, Src())
      ensures Coming() == Future(decoder, file, Src())
      ensures !(eof && offset < |file|)
    {
    }

    lemma MemberContinues(src: Source, o: nat, out: seq<byte>)
      requires src.Inflating? && Placed(decoder, file, src) && InPlace() && how == GZIP
      requires member == src.member && produced == src.produced + o <= |decoder.content(file[member..])|
      requires out == decoder.content(file[member..])[src.produced..produced]
      ensures var coming := Future(decoder, file, src);
        At() <= |file| && o <= |coming| && out == coming[..o] && Coming() == coming[o..]
    {
      hide Future, Complete;
      MemberGoesOn(decoder, file, src, o, At());
    }

    lemma MemberDone(src: Source, o: nat, out: seq<byte>)
      requires src.Inflating? && Placed(decoder, file, src) && (eof ==> offset >= |file|)
      requires member == src.member && produced == src.produced + o == |decoder.content(file[member..])|
      requires out == decoder.content(file[member..])[src.produced..produced]
      requires At() == member + decoder.length(file[member..])
      ensures var coming := Future(decoder, file, src);
        At() <= |file| && o <= |coming| && out == coming[..o] && Finished(coming[o..])
    {
      hide Future, Complete;
      MemberEnds(decoder, file, src);
    }

    // ----- what the caller sees

    /** How the file is read, `reach` being the position behind the bytes ready. */
    ghost predicate Flags(reach: int)
      reads this`how, this`direct, this`availIn, this`offset, this`size
    {
      && start <= |file| && 0 <= reach
      && (!direct ==> IsGzip(file[start..]))
      && (how == COPY ==> direct && availIn == 0 && offset == start + reach && !IsGzip(file[start..]))
      && (how == GZIP ==> !direct)
      && (how == LOOK && direct ==> reach == 0 && At() == start)
      && (how != LOOK ==> size > 0)
    }

    /** The input side: what is still to come are the file's contents from position `reach` on. */
    ghost predicate Behind(reach: int)
      requires File()
      reads this`size, this`inBuf, this`outBuf, this`nextIn, this`availIn, this`offset, this`how, this`eof,
            this`direct, this`member, this`produced, inBuf
    {
      && Buffers() && Input() && InPlace() && Flags(reach)
      && Coming() == Tail(Whole(), reach)
    }

    /** The bytes ready to be delivered. */
    ghost function Out(): seq<byte>
      requires next + have <= outBuf.Length
      reads this`outBuf, this`next, this`have, outBuf
    {
      outBuf[next..next + have]
    }

    /** The output side: they lead up to that position. */
    ghost predicate Ready()
      requires File()
      reads this`outBuf, this`next, this`have, this`pos, this`dirty, outBuf
    {
      next + have <= outBuf.Length && 0 <= pos + have && Continues(Whole(), Out(), dirty, pos)
    }

    ghost predicate Core()
      reads this`size, this`inBuf, this`outBuf, this`nextIn, this`availIn, this`offset, this`how, this`eof,
            this`direct, this`member, this`produced, this`next, this`have, this`pos, this`dirty, inBuf, outBuf
    {
      File() && Behind(pos + have) && Ready()
    }

    /** Everything that is still to be delivered, pushed-back bytes first. */
    ghost function View(): seq<byte>
      requires File() && Ready()
      reads this`outBuf, this`next, this`have, this`pos, this`dirty, outBuf
    {
      Out() + Tail(Whole(), pos + have)
    }

    lemma Sizes(reach: int)
      requires File() && Behind(reach)
      ensures outBuf.Length == 2 * size && inBuf.Length == size && inBuf != outBuf && nextIn + availIn <= size
      ensures reach >= 0 && (how != LOOK ==> size > 0) && (how == COPY ==> availIn == 0)
      ensures how == GZIP ==> 0 <= At() < |file|
    {
    }

    lemma OutFits()
      requires File() && Ready()
      ensures next + have <= outBuf.Length && 0 <= pos + have && dirty <= have
    {
    }

    /** With nothing ready the caller sees what is still to come. */
    lemma NothingReady()
      requires Core() && have == 0
      ensures dirty == 0 && pos >= 0 && View() == Tail(Whole(), pos)
    {
    }

    /** Nothing is left in the output buffer, or nothing has been put there yet. */
    lemma Emptied()
      requires File() && have == 0 && dirty == 0 && pos >= 0 && next <= outBuf.Length
      ensures Ready() && View() == Tail(Whole(), pos)
    {
      hide Whole, Tail;
      assert Out() == [];
      ContinuesNone(Whole(), pos);
      hide Continues;
      assert [] + Tail(Whole(), pos) == Tail(Whole(), pos);
    }

    /** The output buffer has been filled from its start. */
    lemma Refilled(out: seq<byte>)
      requires File() && dirty == 0 && pos >= 0 && next == 0 && have <= outBuf.Length
      requires out == outBuf[..have] && SliceAt(Whole(), out, pos)
      ensures Ready() && View() == out + Tail(Whole(), pos + have)
    {
      hide Whole, Tail, SliceAt;
      assert Out() == out == out[0..];
    }

    // ----- looking for a header

    /** The first time, there is nothing in the buffers that are made. */
    method Allocate()
      requires Core() && have == 0 && how == LOOK
      modifies this`size, this`inBuf, this`outBuf, this`nextIn, this`next
      ensures Core() && size > 0 && View() == old(View())
      ensures if old(size) == 0 then fresh(inBuf) && fresh(outBuf) else inBuf == old(inBuf) && outBuf == old(outBuf)
    {
      hide Ready, View, Behind, Whole, Complete, Tail;
      if size == 0 {
        NothingReady();
        MakeBuffers(pos);
        next := 0;
        Emptied();
      }
    }

    method MakeBuffers(ghost reach: int)
      requires File() && Behind(reach) && how == LOOK && size == 0
      modifies this`size, this`inBuf, this`outBuf, this`nextIn
      ensures Behind(reach) && size > 0 && fresh(inBuf) && fresh(outBuf)
    {
      hide InPlace, Coming, Whole, Complete, Tail, EndsAt;
      inBuf, outBuf := new byte[want], new byte[2 * want];
      size := want;
      nextIn := 0;
      EndsNone(file, inBuf[nextIn..nextIn + availIn], offset);
    }

    /** The header decision is made on the next bytes of the file. */
    lemma MagicIs()
      requires Input() && availIn > 0
      ensures 0 <= At() < |file| && inBuf[nextIn] == file[At()]
      ensures availIn > 1 ==> At() + 1 < |file| && inBuf[nextIn + 1] == file[At() + 1]
      ensures availIn > 1 ==> (IsGzip(file[At()..]) <==> inBuf[nextIn] == 31 && inBuf[nextIn + 1] == 139)
      ensures availIn == 1 && offset >= |file| ==> !IsGzip(file[At()..])
    {
      var s := inBuf[nextIn..nextIn + availIn];
      assert s[0] == inBuf[nextIn];
      assert availIn > 1 ==> s[1] == inBuf[nextIn + 1];
    }

    lemma LookDecides(reach: int)
      requires File() && Behind(reach) && how == LOOK && availIn > 0 && (availIn < 2 ==> eof)
      ensures 0 <= At() < |file| && nextIn + availIn <= inBuf.Length
      ensures IsGzip(file[At()..]) <==> availIn > 1 && inBuf[nextIn] == 31 && inBuf[nextIn + 1] == 139
    {
      MagicIs();
    }

    /** gz_avail while looking for a header. */
    method FillUp(ghost reach: int)
      requires File() && Behind(reach) && how == LOOK && availIn < 2 && size > 0
      modifies this`offset, this`eof, this`availIn, this`nextIn, inBuf
      ensures Behind(reach) && At() == old(At()) && (availIn < 2 ==> eof)
    {
      hide EndsAt, Complete, Uncompressed, Input;
      ghost var ended := eof;
      Avail();
      if !ended && eof && availIn == 0 {
        NothingBehindTheEnd(decoder, file, direct);
      }
    }

    /** A header is there: a member begins. */
    method BeginMember(ghost reach: int)
      requires File() && Behind(reach) && how == LOOK && availIn > 0 && size > 0
      requires 0 <= At() <= |file| && IsGzip(file[At()..])
      modifies this`how, this`direct, this`member, this`produced
      ensures Behind(reach) && how == GZIP
    {
      hide EndsAt, Complete, Uncompressed, Tail, Input, Buffers, Future;
      MemberBegins(decoder, file, offset - availIn, direct);
      how := GZIP;
      direct := false;
      member := offset - availIn;
      produced := 0;
    }

    /** No header behind a member: the rest is garbage. */
    method IgnoreRest(ghost reach: int)
      requires File() && Behind(reach) && how == LOOK && !direct && availIn > 0
      requires 0 <= At() <= |file| && !IsGzip(file[At()..])
      modifies this`availIn, this`eof
      ensures Behind(reach) && how == LOOK && eof && availIn == 0
    {
      availIn := 0;
      eof := true;
      EndsNone(file, inBuf[nextIn..nextIn + availIn], offset);
    }

    lemma AtTheStart(reach: int)
      requires File() && Behind(reach) && how == LOOK && direct && availIn > 0
      ensures reach == 0 && At() == start <= |file| && nextIn + availIn <= inBuf.Length
      ensures EndsAt(file, inBuf[nextIn..nextIn + availIn], offset)
    {
    }

    /** No header at the start: what has been read is output. */
    method BeginCopy()
      requires Core() && how == LOOK && direct && availIn > 0 && have == 0 && size > 0 && !IsGzip(file[start..])
      modifies this`availIn, this`have, this`next, this`how, this`direct, outBuf
      ensures Core() && how == COPY && 0 < have <= size && View() == old(View())
    {
      hide Complete, Uncompressed, Tail, EndsAt, SliceAt, Behind, Ready, View;
      NothingReady();
      AtTheStart(pos);
      Sizes(pos);
      ghost var raw := inBuf[nextIn..nextIn + availIn];
      RawStart(decoder, file, start, offset, raw);
      RawTail(Whole(), [], pos, raw);
      next := 0;
      forall k | 0 <= k < availIn {
        outBuf[k] := inBuf[nextIn + k];
      }
      assert outBuf[..availIn] == raw;
      have := availIn;
      Refilled(raw);
      TurnToCopy();
    }

    /** A raw file, positioned. */
    lemma BehindRaw(reach: int)
      requires File() && Buffers() && how == COPY && availIn == 0 && direct && size > 0 && start <= |file|
      requires !IsGzip(file[start..]) && reach >= 0 && offset == start + reach && (eof ==> offset >= |file|)
      ensures Behind(reach)
    {
      hide Complete, Uncompressed, EndsAt, SliceAt;
      EndsNone(file, inBuf[nextIn..nextIn + availIn], offset);
      EndsNone(file, [], offset);
      CopiedOn(decoder, file, start, reach, [], offset);
      assert Coming() == Tail(Whole(), reach);
    }

    lemma RawSays(reach: int)
      requires File() && Behind(reach) && how == COPY
      ensures Buffers() && availIn == 0 && direct && size > 0 && start <= |file|
      ensures !IsGzip(file[start..]) && reach >= 0 && offset == start + reach
    {
    }

    /** Direct copying begins behind what has been read. */
    method TurnToCopy()
      requires File() && Behind(0) && how == LOOK && direct && have == availIn > 0 && size > 0
      requires !IsGzip(file[start..]) && offset == start + have && Tail(file, offset) == Tail(Whole(), have)
      modifies this`availIn, this`how, this`direct
      ensures Behind(have) && how == COPY
    {
      hide Complete, Uncompressed, Tail, EndsAt, Whole;
      availIn := 0;
      how := COPY;
      direct := true;
      EndsNone(file, inBuf[nextIn..nextIn + availIn], offset);
    }

    /** gz_look: find out what comes next. */
    method Look()
      requires Core() && how == LOOK && have == 0
      modifies this`size, this`inBuf, this`outBuf, this`availIn, this`nextIn, this`next, this`offset, this`eof,
               this`how, this`direct, this`member, this`produced, this`have, inBuf, outBuf
      ensures Core() && View() == old(View()) && size > 0
      ensures inBuf == old(inBuf) || fresh(inBuf)
      ensures outBuf == old(outBuf) || fresh(outBuf)
      ensures match how
        case LOOK => eof && availIn == 0 && have == 0
        case COPY => 0 < have <= size
        case GZIP => have == 0 && Left() == old(Left())
    {
      hide Behind, Ready, View, Complete, Whole, Tail;
      Allocate();
      Sizes(pos);
      if availIn < 2 {
        FillUp(pos);
        if availIn == 0 {
          return;
        }
      }
      Decide();
    }

    /** The magic bytes decide. */
    method Decide()
      requires Core() && how == LOOK && have == 0 && availIn > 0 && size > 0 && (availIn < 2 ==> eof)
      modifies this`availIn, this`next, this`eof, this`how, this`direct, this`member, this`produced, this`have, outBuf
      ensures Core() && View() == old(View())
      ensures match how
        case LOOK => eof && availIn == 0 && have == 0
        case COPY => 0 < have <= size
        case GZIP => have == 0 && Left() == old(Left())
    {
      hide Behind, Ready, View, Complete, Whole, Tail, IsGzip;
      LookDecides(pos);
      if availIn > 1 && inBuf[nextIn] == 31 && inBuf[nextIn + 1] == 139 {
        BeginMember(pos);
      } else if !direct {
        IgnoreRest(pos);
      } else {
        AtTheStart(pos);
        BeginCopy();
      }
    }

    // ----- filling the output buffer

    /** How much of the file is left. */
    ghost function Left(): nat
      reads this`availIn, this`offset
    {
      if 0 <= At() <= |file| then |file| - At() else 0
    }

    /** gz_load for a file that is read as it is, into the output buffer or the caller's. */
    method LoadRaw(buf: array<byte>, at: nat, n: nat, ghost reach: nat) returns (k: nat)
      requires File() && Behind(reach) && how == COPY && n > 0 && at + n <= buf.Length && buf != inBuf
      modifies this`offset, this`eof, buf
      ensures k <= n && (k > 0 || eof) && Behind(reach + k)
      ensures SliceAt(Whole(), buf[at..at + k], reach) && buf[..at] == old(buf[..at])
      ensures Tail(Whole(), reach) == buf[at..at + k] + Tail(Whole(), reach + k)
    {
      hide Complete, Uncompressed, EndsAt, SliceAt, Tail;
      k := Load(buf, at, n);
      CopiedOn(decoder, file, start, reach, buf[at..at + k], offset);
      EndsNone(file, inBuf[nextIn..nextIn + availIn], offset);
    }

    /** gz_decomp into either buffer. */
    method LoadMember(buf: array<byte>, at: nat, n: nat, ghost reach: nat) returns (k: nat)
      requires File() && Behind(reach) && how == GZIP && n > 0 && at + n <= buf.Length && buf != inBuf
      modifies this`offset, this`eof, this`availIn, this`nextIn, this`produced, this`how, inBuf, buf
      ensures k <= n && Behind(reach + k) && how != COPY && (k == 0 ==> how == LOOK && Left() < old(Left()))
      ensures SliceAt(Whole(), buf[at..at + k], reach) && buf[..at] == old(buf[..at])
      ensures Tail(Whole(), reach) == buf[at..at + k] + Tail(Whole(), reach + k)
    {
      hide Complete, Uncompressed, EndsAt, SliceAt, Tail, Input, InPlace, Src, Buffers;
      Sizes(reach);
      ghost var coming := Coming();
      k := Decomp(buf, at, n);
      DecompressedOn(Whole(), coming, reach, buf[at..at + k]);
    }

    method FetchCopy()
      requires Core() && how == COPY && have == 0
      modifies this`offset, this`eof, this`have, this`next, outBuf
      ensures Core() && View() == old(View()) && how == COPY && (have > 0 || eof)
    {
      hide Complete, Behind, Ready, View, Uncompressed, SliceAt, Tail, Whole;
      NothingReady();
      Sizes(pos);
      have := LoadRaw(outBuf, 0, 2 * size, pos);
      next := 0;
      assert outBuf[0..0 + have] == outBuf[..have];
      Refilled(outBuf[..have]);
    }

    method FetchMember()
      requires Core() && how == GZIP && have == 0
      modifies this`offset, this`eof, this`availIn, this`nextIn, this`produced, this`how, this`have, this`next,
               inBuf, outBuf
      ensures Core() && View() == old(View()) && how != COPY
      ensures have == 0 ==> how == LOOK && Left() < old(Left())
    {
      hide Complete, Behind, Ready, View, Uncompressed, SliceAt, Tail, Whole;
      NothingReady();
      Sizes(pos);
      have := LoadMember(outBuf, 0, 2 * size, pos);
      next := 0;
      assert outBuf[0..0 + have] == outBuf[..have];
      Refilled(outBuf[..have]);
    }

    /** gz_fetch: get some output, unless the file is at its end. */
    method Fetch()
      requires Core() && have == 0
      modifies this`size, this`inBuf, this`outBuf, this`availIn, this`nextIn, this`next, this`offset, this`eof,
               this`how, this`direct, this`member, this`produced, this`have, inBuf, outBuf
      ensures Core() && View() == old(View()) && dirty == 0 && size > 0
      ensures have > 0 || (eof && availIn == 0)
      ensures inBuf == old(inBuf) || fresh(inBuf)
      ensures outBuf == old(outBuf) || fresh(outBuf)
    {
      hide Behind, Ready, View, Tail, Whole, Complete;
      CoreSays();
      while true
        invariant Core() && have == 0 && View() == old(View()) && dirty == 0
        invariant inBuf == old(inBuf) || fresh(inBuf)
        invariant outBuf == old(outBuf) || fresh(outBuf)
        decreases Left(), if how == LOOK then 1 else 0
      {
        CoreSays();
        SizeSays();
        match how {
          case LOOK =>
            Look();
            if how == LOOK {
              return;
            }
          case COPY =>
            FetchCopy();
            CoreSays();
            return;
          case GZIP =>
            FetchMember();
        }
        CoreSays();
        if !(have == 0 && (!eof || availIn > 0)) {
          break;
        }
      }
    }

    lemma CoreSays()
      requires Core()
      ensures dirty <= have && (how == COPY ==> availIn == 0) && (how == GZIP ==> At() < |file|)
    {
    }

    // ----- delivering

    ghost function DirtyAfter(n: nat): nat
      reads this`dirty
    {
      Less(dirty, n)
    }

    /** n bytes of the output buffer are done with. */
    method Take(n: nat)
      requires Core() && n <= have
      modifies this`have, this`next, this`pos, this`dirty
      ensures Core() && n <= |old(View())| && View() == old(View())[n..] && pos == old(pos) + n
      ensures old(View())[..n] == outBuf[old(next)..old(next) + n]
      ensures have == old(have) - n && dirty == old(DirtyAfter(n))
    {
      hide Behind, Ready, Whole, Complete, Tail;
      OutFits();
      TakeFront(Out(), Tail(Whole(), pos + have), n);
      assert outBuf[next..next + n] == Out()[..n];
      Advance(n);
    }

    method Advance(n: nat)
      requires File() && Ready() && n <= have
      modifies this`have, this`next, this`pos, this`dirty
      ensures Ready() && pos == old(pos) + n && have == old(have) - n && next == old(next) + n
      ensures dirty == old(DirtyAfter(n)) && Out() == old(Out())[n..]
    {
      hide Continues, Whole, Complete;
      ghost var ready := Out();
      ContinuesLater(Whole(), ready, dirty, pos, n);
      have := have - n;
      next := next + n;
      pos := pos + n;
      dirty := DirtyAfter(n);
      assert Out() == ready[n..];
    }

    /** Nothing ready and nothing left to read: the end. */
    lemma TheEnd()
      requires Core() && have == 0 && eof && availIn == 0
      ensures View() == []
    {
      hide Behind, Ready, View, Whole, Complete, Tail;
      NothingReady();
      NothingToCome(pos);
    }

    lemma NothingToCome(reach: int)
      requires File() && Behind(reach) && eof && availIn == 0
      ensures reach >= 0 && Tail(Whole(), reach) == []
    {
      hide Complete, Uncompressed, Whole, Input, Flags;
      Sizes(reach);
      if how == GZIP {
        NotAtEnd();
        assert false;
      }
    }

    /** gz_skip: drop `len` bytes, or all there are. */
    method SkipBytes(len: nat)
      requires Core()
      modifies this`size, this`inBuf, this`outBuf, this`availIn, this`nextIn, this`next, this`offset, this`eof,
               this`how, this`direct, this`member, this`produced, this`have, this`pos, this`dirty, inBuf, outBuf
      ensures Core() && View() == Tail(old(View()), len)
      ensures pos == old(pos) + Min(len, |old(View())|) && dirty == old(DirtyAfter(Min(len, |View()|)))
      ensures len > 0 ==> have < 2 * size || have == 0
      ensures old(size) > 0 ==> size > 0
      ensures inBuf == old(inBuf) || fresh(inBuf)
      ensures outBuf == old(outBuf) || fresh(outBuf)
    {
      hide Behind, Ready, View, Tail, Whole, Complete;
      var left: nat := len;
      ghost var view, p0, d0 := View(), pos, dirty;
      CoreSays();
      TailNone(view);
      while left > 0
        invariant Core() && left <= len && (old(size) > 0 ==> size > 0)
        invariant left == 0 < len ==> have < 2 * size
        invariant len - left <= |view| && View() == Tail(view, len - left) && pos == p0 + (len - left)
        invariant dirty == Less(d0, len - left)
        invariant inBuf == old(inBuf) || fresh(inBuf)
        invariant outBuf == old(outBuf) || fresh(outBuf)
        decreases left, if have > 0 || (eof && availIn == 0) then 0 else 1
      {
        SizeSays();
        if have > 0 {
          var n: nat := if have > left then left else have;
          Take(n);
          TailTail(view, len - left, n);
          left := left - n;
        } else if eof && availIn == 0 {
          TheEnd();
          break;
        } else {
          Fetch();
        }
      }
      SkipEnds(view, len, left, View());
    }

    /** Make up for a pending seek. */
    method MakeUp()
      requires Core()
      modifies this`size, this`inBuf, this`outBuf, this`availIn, this`nextIn, this`next, this`offset, this`eof,
               this`how, this`direct, this`member, this`produced, this`have, this`pos, this`dirty, inBuf, outBuf, this`seek
      ensures Core() && !seek
      ensures var s := if old(seek) then old(skip) else 0;
        && View() == Tail(old(View()), s) && pos == old(pos) + Min(s, |old(View())|)
        && dirty == old(DirtyAfter(Min(s, |View()|)))
      ensures old(seek) && skip > 0 ==> have < 2 * size == outBuf.Length || have == 0
      ensures !old(seek) ==> have == old(have) && outBuf == old(outBuf) && size == old(size)
      ensures old(size) > 0 ==> size > 0
      ensures inBuf == old(inBuf) || fresh(inBuf)
      ensures outBuf == old(outBuf) || fresh(outBuf)
    {
      hide Behind, Ready, View, Tail;
      CoreSays();
      TailNone(View());
      if seek {
        seek := false;
        SkipBytes(skip);
      }
      SizeSays();
    }

    /** gz_read from the output buffer. */
    method CopyOut(buf: array<byte>, at: nat, n: nat)
      requires Core() && n <= have && at + n <= buf.Length && buf != inBuf && buf != outBuf
      modifies this`have, this`next, this`pos, this`dirty, buf
      ensures Core() && n <= |old(View())| && View() == old(View())[n..] && pos == old(pos) + n
      ensures buf[..at] == old(buf[..at]) && buf[at..at + n] == old(View())[..n] && dirty == old(DirtyAfter(n))
      ensures have == old(have) - n
    {
      hide Behind, Ready, View, Tail, Whole, Complete;
      OutFits();
      forall k | 0 <= k < n {
        buf[at + k] := outBuf[next + k];
      }
      assert buf[at..at + n] == outBuf[next..next + n];
      Take(n);
    }

    /** gz_read from the file straight into the caller's buffer. */
    method DirectCopy(buf: array<byte>, at: nat, n: nat) returns (k: nat)
      requires Core() && how == COPY && have == 0 && n > 0 && at + n <= buf.Length && buf != inBuf && buf != outBuf
      modifies this`offset, this`eof, this`pos, buf
      ensures k <= n && (k > 0 || eof)
      ensures Core() && k <= |old(View())| && View() == old(View())[k..] && pos == old(pos) + k
      ensures buf[..at] == old(buf[..at]) && buf[at..at + k] == old(View())[..k] && dirty == old(DirtyAfter(k))
    {
      hide Complete, Behind, Ready, View, Uncompressed, SliceAt, Tail, DirtyAfter, Whole;
      NothingReady();
      Sizes(pos);
      OutFits();
      ghost var view := View();
      k := LoadRaw(buf, at, n, pos);
      pos := pos + k;
      Emptied();
      TakenDirectly(view, buf[at..at + k], View());
      NotDirty(k);
    }

    lemma NotDirty(n: nat)
      requires dirty == 0
      ensures DirtyAfter(n) == 0
    {
    }

    /** gz_read decompressing straight into the caller's buffer. */
    method DirectMember(buf: array<byte>, at: nat, n: nat) returns (k: nat)
      requires Core() && how == GZIP && have == 0 && n > 0 && at + n <= buf.Length && buf != inBuf && buf != outBuf
      modifies this`offset, this`eof, this`availIn, this`nextIn, this`produced, this`how, this`pos, inBuf, buf
      ensures k <= n && (k == 0 ==> how == LOOK)
      ensures Core() && k <= |old(View())| && View() == old(View())[k..] && pos == old(pos) + k
      ensures buf[..at] == old(buf[..at]) && buf[at..at + k] == old(View())[..k] && dirty == old(DirtyAfter(k))
    {
      hide Complete, Behind, Ready, View, Uncompressed, SliceAt, Tail, DirtyAfter, Whole;
      NothingReady();
      Sizes(pos);
      OutFits();
      ghost var view := View();
      k := LoadMember(buf, at, n, pos);
      pos := pos + k;
      Emptied();
      TakenDirectly(view, buf[at..at + k], View());
      NotDirty(k);
    }

    /** How far from delivering or from the end. */
    ghost function Rank(): nat
      reads this`have, this`eof, this`availIn, this`how
    {
      if have > 0 || (eof && availIn == 0) then 0 else if how == LOOK then 1 else 2
    }

    /** One round of gz_read's loop. */
    method Round(buf: array<byte>, at: nat, len: nat) returns (k: nat, end: bool)
      requires Core() && len > 0 && at + len <= buf.Length && buf != inBuf && buf != outBuf
      modifies this`size, this`inBuf, this`outBuf, this`availIn, this`nextIn, this`next, this`offset, this`eof,
               this`how, this`direct, this`member, this`produced, this`have, this`pos, this`dirty, inBuf, outBuf, this`past, buf
      ensures k <= len
      ensures Core() && k <= |old(View())| && View() == old(View())[k..] && pos == old(pos) + k
      ensures buf[..at] == old(buf[..at]) && buf[at..at + k] == old(View())[..k] && dirty == old(DirtyAfter(k))
      ensures end ==> k == 0 && View() == []
      ensures end || k > 0 ==> have == 0 || have < outBuf.Length
      ensures past == (old(past) || end)
      ensures !end && k == 0 ==> Rank() < old(Rank())
      ensures inBuf == old(inBuf) || fresh(inBuf)
      ensures outBuf == old(outBuf) || fresh(outBuf)
    {
      hide Behind, Ready, View, DirtyAfter;
      CoreSays();
      SizeSays();
      var n: nat := if len > UINT_MAX then UINT_MAX else len;
      k, end := 0, false;
      if have > 0 {
        if have < n {
          n := have;
        }
        CopyOut(buf, at, n);
        k := n;
      } else if eof && availIn == 0 {
        past := true;
        TheEnd();
        end := true;
        NoneTaken(View(), buf, at);
        NotDirty(0);
      } else if how == LOOK || n < 2 * size {
        ghost var view := View();
        NotDirty(0);
        Fetch();
        NoneTaken(view, buf, at);
      } else if how == COPY {
        k := DirectCopy(buf, at, n);
        CoreSays();
      } else {
        k := DirectMember(buf, at, n);
      }
    }

    lemma NoneTaken(view: seq<byte>, buf: array<byte>, at: nat)
      requires at <= buf.Length
      ensures view[0..] == view && buf[at..at + 0] == view[..0]
    {
    }

    /** gz_read: deliver len bytes, or as many as there are. */
    method Read(buf: array<byte>, len: nat) returns (got: nat)
      requires Core() && len <= buf.Length && buf != inBuf && buf != outBuf && (seek ==> have == 0)
      modifies this`size, this`inBuf, this`outBuf, this`availIn, this`nextIn, this`next, this`offset, this`eof,
               this`how, this`direct, this`member, this`produced, this`have, this`pos, this`dirty, inBuf, outBuf, this`past, this`seek, buf
      ensures Core() && (len > 0 ==> !seek)
      ensures inBuf == old(inBuf) || fresh(inBuf)
      ensures outBuf == old(outBuf) || fresh(outBuf)
      ensures len == 0 ==> got == 0 && seek == old(seek) && have == old(have) && View() == old(View()) && pos == old(pos) && past == old(past)
      ensures len > 0 ==>
        var s := if old(seek) then old(skip) else 0;
        var v := Tail(old(View()), s);
        && got == Min(len, |v|) && buf[..got] == v[..got] && View() == v[got..]
        && pos == old(pos) + Min(s, |old(View())|) + got
        && dirty == old(DirtyAfter(got))
        && past == (old(past) || got < len)
      ensures len == 0 ==> dirty == old(dirty)
      ensures Cur() == if len == 0 then old(Cur()) else Took(Settled(Whole(), old(Cur())), got)
      ensures len > 0 ==> Room()
      ensures len == 0 ==> outBuf == old(outBuf)
    {
      hide Behind, Ready, View, Tail, Whole, Ahead, Settled, Took;
      got := 0;
      if len == 0 {
        return;
      }
      ghost var view, c := View(), Cur();
      TailNone(view);
      CoreSays();
      CursorSays();
      MakeUp();
      ghost var v := View();
      got := ReadOn(buf, len);
      Moved(c, view, old(dirty), old(pos), if old(seek) then old(skip) else 0, got, true);
    }

    /** The loop of gz_read. */
    method ReadOn(buf: array<byte>, len: nat) returns (got: nat)
      requires Core() && 0 < len <= buf.Length && buf != inBuf && buf != outBuf && !seek
      modifies this`size, this`inBuf, this`outBuf, this`availIn, this`nextIn, this`next, this`offset, this`eof,
               this`how, this`direct, this`member, this`produced, this`have, this`pos, this`dirty, inBuf, outBuf, this`past, buf
      ensures Core()
      ensures inBuf == old(inBuf) || fresh(inBuf)
      ensures outBuf == old(outBuf) || fresh(outBuf)
      ensures got == Min(len, |old(View())|) && buf[..got] == old(View())[..got] && View() == old(View())[got..]
      ensures pos == old(pos) + got && dirty == old(DirtyAfter(got)) && past == (old(past) || got < len)
      ensures Room()
    {
      hide Behind, Ready, View, Tail;
      got := 0;
      ghost var v, p0, d0 := View(), pos, dirty;
      TailNone(v);
      CoreSays();
      while true
        invariant Core() && !seek && got < len && dirty == Less(d0, got)
        invariant buf != inBuf && buf != outBuf
        invariant got <= |v| && View() == v[got..] && buf[..got] == v[..got] && pos == p0 + got && past == old(past)
        invariant inBuf == old(inBuf) || fresh(inBuf)
        invariant outBuf == old(outBuf) || fresh(outBuf)
        decreases len - got, Rank()
      {
        var k, end := Round(buf, got, len - got);
        GoOn(v, got, k, buf[..got + k]);
        got := got + k;
        if end || got == len {
          break;
        }
      }
    }

    // ----- the interface

    /** Only pushed-back bytes can have filled the output buffer up. */
    ghost predicate Room()
      reads this`have, this`outBuf, this`dirty
    {
      have == 0 || have < outBuf.Length || dirty > 0
    }

    /** A pending seek implies that nothing is ready, which gzgetc relies on. */
    ghost predicate Valid()
      reads this, inBuf, outBuf
    {
      File() && (err == OK ==> Core() && (seek ==> have == 0 && skip > 0) && Room())
    }

    /** What the caller will read from here on. */
    ghost function Logical(): seq<byte>
      requires Valid() && err == OK
      reads this, inBuf, outBuf
    {
      if seek then Tail(View(), skip) else View()
    }

    /** The reader as its caller sees it. */
    ghost function Cur(): Cursor
      requires Core()
      reads this, inBuf, outBuf
    {
      Cursor(View()[..dirty], pos + dirty, if seek then skip else 0)
    }

    /** Nothing after a fatal error. */
    ghost function Mode(): Option<Cursor>
      requires Valid()
      reads this, inBuf, outBuf
    {
      if err == OK then Some(Cur()) else None
    }

    lemma CursorSays()
      requires Core()
      ensures Ahead(Whole(), Cur()) == View() && dirty <= |View()| && pos + dirty >= 0
    {
      hide Behind, Whole, Complete, Tail, Continues, Ahead;
      OutFits();
      ReadyBehindPushed(Whole(), Out(), dirty, pos, if seek then skip else 0);
    }

    /** gztell64. */
    function Tell(): int
      reads this`pos, this`seek, this`skip
    {
      pos + if seek then skip else 0
    }

    /** Opening a file for reading. */
    constructor (file: seq<byte>, start: nat, want: nat, decoder: Decoder)
      requires start <= |file| && want >= 8 && Complete(decoder, file[start..])
      ensures Valid() && err == OK && !seek && fresh(inBuf) && fresh(outBuf)
      ensures this.file == file && this.start == start && this.want == want && this.decoder == decoder
      ensures Logical() == Whole() && Tell() == 0 && dirty == 0 && !past && how == LOOK && have == 0
    {
      this.file, this.start, this.want, this.decoder := file, start, want, decoder;
      offset, size, availIn, nextIn, have, next, pos := start, 0, 0, 0, 0, 0, 0;
      inBuf, outBuf := new byte[0], new byte[0];
      how, direct, eof, past, seek, skip, err := LOOK, true, false, false, false, 0, OK;
      member, produced, dirty := 0, 0, 0;
      new;
      hide Complete, Uncompressed;
    }

    /** Without pushed-back bytes the caller reads the file's contents from the position it is told. */
    lemma ReadsAtPosition()
      requires Valid() && err == OK && dirty == 0 && pos >= 0
      ensures Logical() == Tail(Whole(), Tell())
    {
      hide Behind, Whole, Complete, Tail;
      assert Out()[0..] == Out();
      ReadyAndRest(Whole(), Out(), pos);
      TailAgain(Whole(), pos, skip);
    }

    /** gzread. */
    method GzRead(buf: array<byte>, len: nat) returns (r: int)
      requires Valid() && len <= buf.Length && buf != inBuf && buf != outBuf
      modifies this`size, this`inBuf, this`outBuf, this`availIn, this`nextIn, this`next, this`offset, this`eof,
               this`how, this`direct, this`member, this`produced, this`have, this`pos, this`dirty, inBuf, outBuf, this`past, this`seek, this`err, buf
      ensures Valid() && (inBuf == old(inBuf) || fresh(inBuf)) && (outBuf == old(outBuf) || fresh(outBuf))
      ensures old(err) == OK && len < 0x8000_0000 ==>
        && err == OK && r == Min(len, |old(Logical())|)
        && buf[..r] == old(Logical())[..r] && Logical() == old(Logical())[r..]
        && (|old(Logical())| > 0 || !old(seek) ==> Tell() == old(Tell()) + r)
        && past == (old(past) || r < len)
      ensures old(err) != OK || len >= 0x8000_0000 ==> r == -1 && err != OK
      ensures Allowed(Whole(), old(how) == COPY, old(Mode()), Op.Read(len), Answer(r, if r < 0 then [] else buf[..r]), Mode())
    {
      hide Behind, Ready, View, Tail, Whole, Ahead, Settled, Took;
      if err != OK {
        return -1;
      }
      if len >= 0x8000_0000 {
        Fail(STREAM_ERROR);
        return -1;
      }
      TailNone(View());
      CursorSays();
      r := Read(buf, len);
    }

    /** The cursor after reading. */
    lemma Moved(c: Cursor, view: seq<byte>, d: nat, p: int, pending: nat, n: nat, settled: bool)
      requires Core() && d <= |view| && p + d >= 0 && c == Cursor(view[..d], p + d, pending) && (pending > 0 ==> d == 0)
      requires Ahead(Whole(), c) == view && n <= |Tail(view, pending)|
      requires if settled then View() == Tail(view, pending)[n..] && !seek && pos == p + Min(pending, |view|) + n && dirty == Less(d, n)
               else View() == view && pos == p && dirty == d && (if seek then skip else 0) == pending
      ensures Cur() == if settled then Took(Settled(Whole(), c), n) else c
    {
      hide Behind, Ready, View, Tail, Whole, Ahead, Settled, Took;
      if settled {
        CursorReads(Whole(), view, d, p, pending, n);
      }
    }

    /** gz_error: a fatal error drops what is ready. */
    method Fail(error: Error)
      requires error != OK
      modifies this`have, this`err
      ensures err == error && have == 0
    {
      have := 0;
      err := error;
    }

    /** gzgetc: the next byte, or -1.  What is ready is taken without looking for a pending seek. */
    method GzGetc() returns (c: int)
      requires Valid()
      modifies this`size, this`inBuf, this`outBuf, this`availIn, this`nextIn, this`next, this`offset, this`eof,
               this`how, this`direct, this`member, this`produced, this`have, this`pos, this`dirty, inBuf, outBuf, this`past, this`seek
      ensures Valid() && (inBuf == old(inBuf) || fresh(inBuf)) && (outBuf == old(outBuf) || fresh(outBuf))
      ensures err == old(err) && (err != OK ==> c == -1)
      ensures err == OK ==>
        && (c >= 0 <==> |old(Logical())| > 0)
        && (c >= 0 ==> c == old(Logical())[0] && Logical() == old(Logical())[1..] && Tell() == old(Tell()) + 1)
        && (c < 0 ==> c == -1 && Logical() == [] && past)
      ensures Allowed(Whole(), old(how) == COPY, old(Mode()), Getc, Answer(c, if c < 0 then [] else [c]), Mode())
    {
      hide Behind, Ready, View, Tail, Whole, Ahead, Settled, Took;
      if err != OK {
        return -1;
      }
      CursorSays();
      TailNone(View());
      if have > 0 {
        c := TakeByte();
        return;
      }
      var buf := new byte[1];
      var got := Read(buf, 1);
      if got < 1 {
        return -1;
      }
      c := buf[0];
      assert buf[..got][0] == buf[0];
    }

    /** The first byte of the output buffer. */
    method TakeByte() returns (c: byte)
      requires Core() && !seek && have > 0
      modifies this`have, this`next, this`pos, this`dirty
      ensures Core() && |old(View())| > 0 && c == old(View())[0] && View() == old(View())[1..] && pos == old(pos) + 1
      ensures Cur() == Took(Settled(Whole(), old(Cur())), 1) && Room()
    {
      hide Behind, Ready, View, Tail, Whole, Ahead, Settled, Took;
      ghost var cur := Cur();
      CursorSays();
      TailNone(View());
      OutFits();
      c := outBuf[next];
      ghost var first := outBuf[next..next + 1];
      assert first[0] == outBuf[next];
      SizeSays();
      Take(1);
      Moved(cur, old(View()), old(dirty), old(pos), 0, 1, true);
    }

    /** gzrewind: back to the start. */
    method GzRewind() returns (r: int)
      requires Valid()
      modifies this`offset, this`have, this`eof, this`past, this`how, this`seek, this`pos, this`availIn, this`dirty
      ensures Valid() && (r == 0 || r == -1) && (r == 0 <==> old(err) == OK)
      ensures r == 0 ==> Logical() == Whole() && Tell() == 0 && dirty == 0 && have == 0 && !seek && !past
      ensures r == 0 ==> how == LOOK
      ensures err == old(err) && Allowed(Whole(), old(how) == COPY, old(Mode()), Rewind, Answer(r, []), Mode())
    {
      hide Complete, Uncompressed, Tail, Allowed, Behind, Ready;
      BrokenAllowed(Whole(), how == COPY, Rewind);
      if err != OK {
        return -1;
      }
      Reset();
      RewindAllowed(Whole(), how == COPY, Cur());
      offset := start;
      GzReset();
      r := 0;
    }

    lemma Reset()
      requires Core()
      ensures File() && Buffers() && start <= |file| && (!direct ==> IsGzip(file[start..])) && next <= outBuf.Length
    {
    }

    /** gz_reset, after the file position has been set back. */
    method GzReset()
      requires File() && Buffers() && offset == start <= |file| && (!direct ==> IsGzip(file[start..])) && err == OK
      requires next <= outBuf.Length
      modifies this`have, this`eof, this`past, this`how, this`seek, this`pos, this`availIn, this`dirty
      ensures Core() && !seek && View() == Whole() && pos == 0 && dirty == 0 && have == 0 && !past && how == LOOK
      ensures Cur() == Cursor([], 0, 0)
    {
      hide Tail, View, Ready, Behind, Uncompressed, Complete, Whole, Future, IsGzip;
      have := 0;
      eof := false;
      past := false;
      how := LOOK;
      seek := false;
      pos := 0;
      availIn := 0;
      dirty := 0;
      TailNone(Whole());
      Emptied();
      AllToCome();
    }

    /** Nothing has been read yet, or the reader has been set back. */
    lemma AllToCome()
      requires File() && Buffers() && how == LOOK && !eof && availIn == 0
      requires At() == start <= |file| && (!direct ==> IsGzip(file[start..]))
      ensures Behind(0)
    {
      hide Uncompressed, Complete;
      FromTheStart(decoder, file, start, direct);
      EndsNone(file, inBuf[nextIn..nextIn + availIn], offset);
    }

    /** gzseek64 in a file that is read as it is: just go there. */
    method SeekRaw(delta: int)
      requires Core() && how == COPY && pos + delta >= 0 && err == OK
      modifies this`offset, this`have, this`eof, this`past, this`seek, this`pos, this`availIn, this`dirty
      ensures Core() && !seek && how == COPY && pos == old(pos) + delta && View() == Tail(Whole(), pos) && dirty == 0 && have == 0
    {
      hide Complete, Uncompressed, Tail, Behind, View, Ready;
      OutFits();
      Reposition(pos + have, delta - have);
      have := 0;
      past := false;
      seek := false;
      pos := pos + delta;
      dirty := 0;
      assert old(pos + have) + (delta - old(have)) == pos + have;
      Emptied();
    }

    /** lseek() relative to the bytes read so far. */
    method Reposition(ghost reach: int, delta: int)
      requires File() && Behind(reach) && how == COPY && reach + delta >= 0
      modifies this`offset, this`eof, this`availIn
      ensures Behind(reach + delta) && how == COPY
    {
      hide Behind, Complete, IsGzip;
      RawSays(reach);
      offset := offset + delta;
      eof := false;
      availIn := 0;
      BehindRaw(reach + delta);
    }

    /** gzseek64: forward by skipping later, backward by starting again; a raw file is repositioned at once.
        A position before the start is refused, unless pushed-back bytes have put the reader further back. */
    method GzSeek(delta0: int, whence: Whence) returns (ret: int)
      requires Valid()
      modifies this`offset, this`have, this`eof, this`past, this`how, this`seek, this`skip, this`pos, this`availIn,
               this`dirty, this`next
      ensures Valid() && err == old(err)
      ensures err != OK || whence == SEEK_END ==> ret == -1 && seek == old(seek) && skip == old(skip) && pos == old(pos) && have == old(have)
      ensures err == OK && whence != SEEK_END ==>
        var target := if whence == SEEK_SET then delta0 else old(Tell()) + delta0;
        if target < 0 && target < old(pos) then ret == -1 && !seek && View() == old(View()) && pos == old(pos)
        else
          && ret == target == Tell()
          && (old(dirty) == 0 ==> dirty == 0)
          && Logical() == if target >= 0 && (old(how) == COPY || target < old(pos)) then Tail(Whole(), target)
                          else Tail(old(View()), target - old(pos))
      ensures err == OK && whence == SEEK_SET && old(have) == 0 && old(how) != COPY && delta0 > old(pos) ==> pos == old(pos)
      ensures Allowed(Whole(), old(how) == COPY, old(Mode()), Seek(delta0, whence), Answer(ret, []), Mode())
    {
      hide Behind, Ready, View, Tail, Whole, Allowed, Sought;
      if err != OK || whence == SEEK_END {
        SeekRefused(Whole(), how == COPY, Mode(), delta0, whence);
        return -1;
      }
      CursorSays();
      ghost var c := Cur();
      var delta := delta0;
      if whence == SEEK_SET {
        delta := delta - pos;
      } else if seek {
        delta := delta + skip;
      }
      seek := false;
      assert Cur() == c.(pending := 0);
      ret := SeekFrom(delta);
      SeekAllowed(Whole(), old(how) == COPY, c, delta0, whence, ret, Cur());
    }

    /** gzseek64 once the offset is relative to the position and no seek is pending. */
    method SeekFrom(delta0: int) returns (ret: int)
      requires Core() && !seek && err == OK && Room()
      modifies this`offset, this`have, this`eof, this`past, this`how, this`seek, this`skip, this`pos, this`availIn,
               this`dirty, this`next
      ensures Core() && (seek ==> have == 0 && skip > 0) && Room()
      ensures var target := old(pos) + delta0;
        if target < 0 && delta0 < 0 then ret == -1 && !seek && View() == old(View()) && pos == old(pos)
        else
          && ret == target == Tell()
          && (old(dirty) == 0 ==> dirty == 0)
          && Logical() == if target >= 0 && (old(how) == COPY || delta0 < 0) then Tail(Whole(), target)
                          else Tail(old(View()), delta0)
      ensures old(have) == 0 && old(how) != COPY && delta0 > 0 ==> pos == old(pos) && have == 0 && how == old(how)
      ensures Sought(Whole(), old(how) == COPY, old(Cur()), old(pos) + delta0, ret, Cur())
    {
      hide Behind, Ready, View, Tail, Whole, Ahead, Took, Line, Settled;
      CursorSays();
      var delta := delta0;
      if how == COPY && pos + delta >= 0 {
        SeekRaw(delta);
        return pos;
      }
      if delta < 0 {
        delta := delta + pos;
        if delta < 0 {
          return -1;
        }
        var r := GzRewind();
      }
      CursorSays();
      ret := SkipLater(delta);
    }

    /** n bytes that are ready are skipped. */
    method Drop(n: nat)
      requires Core() && !seek && n <= have
      modifies this`have, this`pos, this`dirty, this`next
      ensures Core() && n <= |old(View())| && View() == old(View())[n..] && pos == old(pos) + n && have == old(have) - n
      ensures dirty == old(DirtyAfter(n)) && Cur() == Took(old(Cur()), n)
    {
      hide Behind, Ready, View, Tail, Took, Whole;
      CursorSays();
      ghost var view := View();
      Take(n);
      CursorMoves(Whole(), view, old(dirty), old(pos), n);
    }

    /** What is ready is skipped at once, the rest on the next read. */
    method SkipLater(amount: nat) returns (ret: int)
      requires Core() && !seek
      modifies this`have, this`seek, this`skip, this`pos, this`dirty, this`next
      ensures Core() && (seek ==> have == 0 && skip > 0) && (old(dirty) == 0 ==> dirty == 0) && (old(Room()) ==> Room())
      ensures ret == old(pos) + amount == Tell() && (old(have) == 0 ==> have == 0)
      ensures (if seek then Tail(View(), skip) else View()) == Tail(old(View()), amount)
      ensures old(have) == 0 ==> pos == old(pos)
      ensures var k := Cur().pending;
        k <= amount && amount - k <= |old(View())| && (k > 0 ==> Cur().pushed == []) && Cur() == Took(old(Cur()), amount - k).(pending := k)
    {
      hide Behind, Ready, View, Tail, Took, Whole;
      CoreSays();
      SizeSays();
      var n: nat := if have > amount then amount else have;
      ghost var view := View();
      Drop(n);
      TailOfSlice(view, n, amount);
      TailNone(View());
      if amount - n > 0 {
        seek := true;
        skip := amount - n;
        CoreSays();
      }
      ret := pos + (amount - n);
    }

    static lemma SameFront(a: array<byte>, i: nat, was: seq<byte>, n: nat)
      requires i + n <= a.Length && n <= |was| && forall k :: 0 <= k < n ==> a[i + k] == was[k]
      ensures a[i..i + n] == was[..n]
    {
    }

    /** What is ready starts at the front: move it to the end. */
    method SlideUp()
      requires next == 0 && have <= outBuf.Length
      modifies this`next, outBuf
      ensures next + have == outBuf.Length && outBuf[next..next + have] == old(outBuf[..have])
    {
      ghost var was := outBuf[..];
      var src: nat, dest: nat := have, outBuf.Length;
      while src > 0
        invariant dest - src == outBuf.Length - have && src <= have
        invariant forall k :: dest <= k < outBuf.Length ==> outBuf[k] == was[k - (dest - src)]
        invariant forall k :: 0 <= k < src ==> outBuf[k] == was[k]
      {
        dest := dest - 1;
        src := src - 1;
        outBuf[dest] := outBuf[src];
      }
      next := dest;
      assert forall k :: 0 <= k < have ==> outBuf[next + k] == was[k];
      assert was[..have] == old(outBuf[..have]);
      SameFront(outBuf, next, was, have);
    }

    /** Make room in front of what is ready. */
    method MakeRoom()
      requires Core() && have < 2 * size
      modifies this`next, outBuf
      ensures Core() && View() == old(View()) && next > 0 && have < 2 * size == outBuf.Length
    {
      hide Behind, Continues, Whole, Complete, Tail, Out;
      Sizes(pos + have);
      OutFits();
      ToTheEnd();
    }

    method ToTheEnd()
      requires have < outBuf.Length && next + have <= outBuf.Length
      modifies this`next, outBuf
      ensures 0 < next && next + have <= outBuf.Length && Out() == old(Out())
    {
      ghost var ready := Out();
      if have == 0 {
        next := outBuf.Length;
        assert Out() == ready == [];
      } else if next == 0 {
        assert outBuf[..have] == ready;
        SlideUp();
      }
    }

    /** The byte in front of what is ready. */
    method PutBack(c: byte)
      requires Core() && next > 0
      modifies this`next, this`have, this`pos, this`dirty, outBuf
      ensures Core() && View() == [c] + old(View()) && pos == old(pos) - 1 && have == old(have) + 1
      ensures dirty == old(dirty) + 1
    {
      hide Behind, Continues, Whole, Complete, Tail;
      Sizes(pos + have);
      ghost var view, ready := View(), Out();
      ContinuesBefore(Whole(), ready, dirty, pos, c);
      have := have + 1;
      next := next - 1;
      outBuf[next] := c;
      pos := pos - 1;
      dirty := dirty + 1;
      assert Out() == [c] + ready;
      assert [c] + ready + Tail(Whole(), pos + have) == [c] + view;
    }

    /** gzungetc before it pushes: find out how the file is read, and make up for a pending seek. */
    method Settle()
      requires Core() && (seek ==> have == 0 && skip > 0)
      modifies this`size, this`inBuf, this`outBuf, this`availIn, this`nextIn, this`next, this`offset, this`eof,
               this`how, this`direct, this`member, this`produced, this`have, this`pos, this`dirty, inBuf, outBuf, this`seek
      ensures inBuf == old(inBuf) || fresh(inBuf)
      ensures outBuf == old(outBuf) || fresh(outBuf)
      ensures Core() && !seek && View() == Tail(old(View()), if old(seek) then old(skip) else 0)
      ensures pos == old(pos) + Min(if old(seek) then old(skip) else 0, |old(View())|) && dirty == old(dirty)
      ensures size == want >= 8 && outBuf.Length == 2 * size
      ensures if old(have) > 0 then have == old(have) && outBuf == old(outBuf) else have < 2 * size
      ensures old(have) == 0 && !old(seek) ==> have <= size
      ensures Cur() == Settled(Whole(), old(Cur()))
    {
      hide Behind, Ready, View, Tail, Whole, Ahead, Settled, Took;
      TailNone(View());
      CursorSays();
      ghost var cur := Cur();
      SizeSays();
      CoreSays();
      if how == LOOK && have == 0 {
        Look();
      }
      MakeUp();
      SizeSays();
      Moved(cur, old(View()), old(dirty), old(pos), if old(seek) then old(skip) else 0, 0, true);
      SettledOnce(Whole(), cur);
    }

    /** gzungetc: push one byte back, to be read next.  Only a full output buffer leaves no room for it. */
    method GzUngetc(c: int) returns (r: int)
      requires Valid()
      modifies this`size, this`inBuf, this`outBuf, this`availIn, this`nextIn, this`next, this`offset, this`eof,
               this`how, this`direct, this`member, this`produced, this`have, this`pos, this`dirty, inBuf, outBuf, this`past, this`seek, this`err
      ensures Valid() && (inBuf == old(inBuf) || fresh(inBuf)) && (outBuf == old(outBuf) || fresh(outBuf))
      ensures old(err) != OK ==> r == -1 && err == old(err)
      ensures old(err) == OK && c < 0 ==> r == -1 && err == OK && Logical() == old(Logical()) && !seek
      ensures old(err) == OK && c >= 0 ==> (err == OK <==> old(have) == 0 || old(have) < old(outBuf.Length))
      ensures old(err) == OK && c >= 0 && err == OK ==>
        && r == c && Logical() == [c % 256] + old(Logical()) && !seek && !past
        && (|old(Logical())| > 0 || !old(seek) ==> Tell() == old(Tell()) - 1)
      ensures old(err) == OK && c >= 0 && err != OK ==> r == -1
      ensures old(err) == OK && c >= 0 && old(have) == 0 && !old(seek) ==> 0 < have < outBuf.Length && have <= size + 1
      ensures old(err) == OK && c >= 0 && err == OK && old(have) > 0 ==>
        have == old(have) + 1 && outBuf == old(outBuf) && size == old(size)
      ensures old(err) == OK && c >= 0 && err != OK ==> old(dirty) > 0
      ensures old(err) == OK && c >= 0 ==> outBuf.Length == 2 * want && size == want
      ensures Allowed(Whole(), old(how) == COPY, old(Mode()), Ungetc(c), Answer(r, []), Mode())
    {
      hide Behind, Ready, View, Tail, Whole, Allowed, Settled, Core;
      BrokenAllowed(Whole(), how == COPY, Ungetc(c));
      if err != OK {
        return -1;
      }
      SizeSays();
      TailNone(View());
      UngetcAllowed(Whole(), how == COPY, Cur(), c, true);
      if Cur().pushed != [] {
        UngetcAllowed(Whole(), how == COPY, Cur(), c, false);
      }
      Settle();
      if c < 0 {
        return -1;
      }
      r := PushSettled(c);
    }

    /** gzungetc with no seek pending, in a reader that knows how the file is read. */
    method PushSettled(c: nat) returns (r: int)
      requires Core() && !seek && err == OK && size == want >= 8 && outBuf.Length == 2 * size && Room()
      modifies this`next, this`have, this`pos, this`dirty, outBuf, this`past, this`err
      ensures err == OK <==> old(have) < outBuf.Length
      ensures err == OK ==> Core() && Room() && r == c && have == old(have) + 1
      ensures err == OK ==> View() == [c % 256] + old(View()) && pos == old(pos) - 1 && !past
      ensures err == OK ==> Cur() == Cursor([c % 256] + old(Cur()).pushed, old(Cur()).place, 0)
      ensures err != OK ==> r == -1 && old(Cur()).pushed != []
    {
      hide Behind, Ready, View, Tail, Whole, Core;
      SizeSays();
      CursorSays();
      if have == 2 * size {
        Fail(DATA_ERROR);
        return -1;
      }
      Push(c % 256);
      past := false;
      r := c;
    }

    method Push(c: byte)
      requires Core() && !seek && have < 2 * size
      modifies this`next, this`have, this`pos, this`dirty, outBuf
      ensures have == old(have) + 1
      ensures Core() && View() == [c] + old(View()) && pos == old(pos) - 1 && dirty > 0
      ensures Cur() == Cursor([c] + old(Cur()).pushed, old(Cur()).place, 0)
    {
      hide Behind, Ready, View, Whole;
      ghost var view, d := View(), dirty;
      CursorSays();
      MakeRoom();
      PutBack(c);
      assert ([c] + view)[..d + 1] == [c] + view[..d];
    }

    lemma SizeSays()
      requires Core()
      ensures outBuf.Length == 2 * size && have <= 2 * size && (how != LOOK || have > 0 ==> size > 0)
      ensures (size == 0 || size == want >= 8) && File() && Ready()
    {
    }

    /** memchr: how much of what is ready, at most n bytes, belongs to the line. */
    method LineReady(n: nat) returns (k: nat, eol: bool)
      requires next + n <= outBuf.Length && n > 0
      ensures 0 < k <= n && LineOf(outBuf[next..next + n], k, eol)
    {
      ghost var ready := outBuf[next..next + n];
      k := 0;
      while k < n && outBuf[next + k] != NEWLINE
        invariant k <= n && forall i :: 0 <= i < k ==> ready[i] != NEWLINE
      {
        k := k + 1;
      }
      eol := k < n;
      if eol {
        k := k + 1;
      }
    }

    /** gzgets from the output buffer. */
    method CopyLine(buf: array<byte>, at: nat, left: nat) returns (k: nat, eol: bool)
      requires Core() && have > 0 && left > 0 && at + left <= buf.Length && buf != inBuf && buf != outBuf
      modifies this`have, this`next, this`pos, this`dirty, buf
      ensures 0 < k <= left && have < outBuf.Length
      ensures Core() && k <= |old(View())| && View() == old(View())[k..] && pos == old(pos) + k
      ensures buf[..at] == old(buf[..at]) && buf[at..at + k] == old(View())[..k] && dirty == old(DirtyAfter(k))
      ensures Line(old(View()), left) == if eol then k else k + Line(View(), left - k)
    {
      hide Behind, Ready, Tail, Whole, Complete, Line, LineOf;
      OutFits();
      SizeSays();
      var n: nat := if have > left then left else have;
      k, eol := LineReady(n);
      ghost var front := outBuf[next..next + n];
      assert front == Out()[..n];
      ReadyLine(Out(), Tail(Whole(), pos + have), front, left, k, eol);
      hide Out;
      CopyOut(buf, at, k);
    }

    /** One round of gzgets. */
    method LineRound(buf: array<byte>, at: nat, left: nat) returns (k: nat, eol: bool)
      requires Core() && left > 0 && at + left <= buf.Length && buf != inBuf && buf != outBuf
      modifies this`size, this`inBuf, this`outBuf, this`availIn, this`nextIn, this`next, this`offset, this`eof,
               this`how, this`direct, this`member, this`produced, this`have, this`pos, this`dirty, inBuf, outBuf, this`past, buf
      ensures k <= left && (k == 0 ==> !eol)
      ensures Core() && k <= |old(View())| && View() == old(View())[k..] && pos == old(pos) + k
      ensures buf[..at] == old(buf[..at]) && buf[at..at + k] == old(View())[..k] && dirty == old(DirtyAfter(k))
      ensures Line(old(View()), left) == if eol then k else k + Line(View(), left - k)
      ensures past == (old(past) || k == 0) && (k == 0 ==> View() == [])
      ensures have == 0 || have < outBuf.Length
      ensures inBuf == old(inBuf) || fresh(inBuf)
      ensures outBuf == old(outBuf) || fresh(outBuf)
    {
      hide Behind, Ready, View, Line;
      CoreSays();
      if have == 0 {
        ghost var view := View();
        Fetch();
        NoneTaken(view, buf, at);
      }
      if have == 0 {
        past := true;
        TheEnd();
        return 0, false;
      }
      k, eol := CopyLine(buf, at, left);
    }

    /** The loop of gzgets. */
    method Lines(buf: array<byte>, most: nat) returns (at: nat)
      requires Core() && most <= buf.Length && buf != inBuf && buf != outBuf
      modifies this`size, this`inBuf, this`outBuf, this`availIn, this`nextIn, this`next, this`offset, this`eof,
               this`how, this`direct, this`member, this`produced, this`have, this`pos, this`dirty, inBuf, outBuf, this`past, buf
      ensures Core() && at == Line(old(View()), most) && View() == old(View())[at..] && buf[..at] == old(View())[..at]
      ensures pos == old(pos) + at && dirty == old(DirtyAfter(at))
      ensures past != old(past) ==> past && View() == []
      ensures old(Room()) ==> Room()
      ensures inBuf == old(inBuf) || fresh(inBuf)
      ensures outBuf == old(outBuf) || fresh(outBuf)
    {
      hide Behind, Ready, View, Line;
      ghost var v := View();
      assert v[0..] == v;
      CoreSays();
      var left: nat := most;
      at := 0;
      while left > 0
        invariant Core() && at + left == most && buf != inBuf && buf != outBuf
        invariant at <= |v| && View() == v[at..] && buf[..at] == v[..at]
        invariant Line(v, most) == at + Line(View(), left)
        invariant pos == old(pos) + at && dirty == Less(old(dirty), at)
        invariant past == old(past) && (old(Room()) ==> Room())
        invariant inBuf == old(inBuf) || fresh(inBuf)
        invariant outBuf == old(outBuf) || fresh(outBuf)
      {
        var k, eol := LineRound(buf, at, left);
        GoOn(v, at, k, buf[..at + k]);
        at := at + k;
        left := left - k;
        if eol || k == 0 {
          break;
        }
      }
    }

    /** gzgets without the terminating zero. */
    method GetLine(buf: array<byte>, most: nat) returns (n: nat)
      requires Core() && (seek ==> have == 0 && skip > 0) && err == OK && Room()
      requires most <= buf.Length && buf != inBuf && buf != outBuf
      modifies this`size, this`inBuf, this`outBuf, this`availIn, this`nextIn, this`next, this`offset, this`eof,
               this`how, this`direct, this`member, this`produced, this`have, this`pos, this`dirty, inBuf, outBuf, this`past, this`seek, buf
      ensures Core() && !seek && Room() && (inBuf == old(inBuf) || fresh(inBuf)) && (outBuf == old(outBuf) || fresh(outBuf))
      ensures n == Line(old(Logical()), most) <= |old(Logical())| && View() == old(Logical())[n..]
      ensures buf[..n] == old(Logical())[..n] && (past != old(past) ==> past && View() == [])
      ensures |old(Logical())| > 0 || !old(seek) ==> pos == old(Tell()) + n
      ensures Cur() == Took(Settled(Whole(), old(Cur())), n)
    {
      hide Behind, Ready, View, Line, Whole, Ahead, Settled, Took;
      ghost var c := Cur();
      ghost var skipped := if seek then skip else 0;
      CursorSays();
      CoreSays();
      TailNone(View());
      MakeUp();
      n := Lines(buf, most);
      Moved(c, old(View()), old(dirty), old(pos), skipped, n, true);
    }

    /** gzgets: at most len - 1 bytes, to the end of the line or of the file, and a terminating zero behind these n. */
    method GzGets(buf: array<byte>, len: int) returns (ok: bool, n: nat)
      requires Valid() && len <= buf.Length && buf != inBuf && buf != outBuf
      modifies this`size, this`inBuf, this`outBuf, this`availIn, this`nextIn, this`next, this`offset, this`eof,
               this`how, this`direct, this`member, this`produced, this`have, this`pos, this`dirty, inBuf, outBuf, this`past, this`seek, buf
      ensures Valid() && (inBuf == old(inBuf) || fresh(inBuf)) && (outBuf == old(outBuf) || fresh(outBuf))
      ensures err == old(err) && (err != OK || len < 1 ==> !ok)
      ensures err == OK && len >= 1 ==>
        && n == Line(old(Logical()), len - 1) && ok == (n > 0)
        && n <= |old(Logical())| && Logical() == old(Logical())[n..]
        && (ok ==> n < len && buf[..n] == old(Logical())[..n] && buf[n] == 0)
        && (past != old(past) ==> past && Logical() == [])
        && (|old(Logical())| > 0 || !old(seek) ==> Tell() == old(Tell()) + n)
      ensures Allowed(Whole(), old(how) == COPY, old(Mode()), Gets(len), Answer(if ok then n else -1, if ok then buf[..n] else []), Mode())
    {
      hide Behind, Ready, View, Tail, Line, Whole, Ahead, Settled, Took;
      n := 0;
      if len < 1 || err != OK {
        return false, 0;
      }
      CursorSays();
      TailNone(View());
      var at := GetLine(buf, len - 1);
      n := at;
      if at == 0 {
        return false, n;
      }
      ghost var line := buf[..at];
      buf[at] := 0;
      assert buf[..at] == line;
      ok := true;
    }
  }
}
