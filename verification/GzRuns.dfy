/** Runs of the reader: any calls in any order, over reads of the file that may be short. */
module GzRuns {
  import opened Bitwise
  import opened Wrappers
  import opened GzStream
  import opened GzCursor
  import opened GzReader

  /** One call on the reader. */
  method Perform(g: GzState, o: Op) returns (a: Answer)
    requires g.Valid()
    modifies g, g.inBuf, g.outBuf
    ensures g.Valid() && (g.inBuf == old(g.inBuf) || fresh(g.inBuf)) && (g.outBuf == old(g.outBuf) || fresh(g.outBuf))
    ensures Allowed(g.Whole(), old(g.how) == COPY, old(g.Mode()), o, a, g.Mode())
  {
    hide *;
    match o
    case Read(len) =>
      var buf := new byte[len];
      var r := g.GzRead(buf, len);
      AtMost(len, |old(if g.err == OK then g.Logical() else [])|);
      a := Answer(r, if r < 0 then [] else buf[..r]);
    case Getc =>
      var c := g.GzGetc();
      a := Answer(c, if c < 0 then [] else [c]);
    case Gets(size) =>
      var buf := new byte[if size < 0 then 0 else size];
      var ok, n := g.GzGets(buf, size);
      a := Answer(if ok then n else -1, if ok then buf[..n] else []);
    case Ungetc(ch) =>
      var r := g.GzUngetc(ch);
      a := Answer(r, []);
    case Seek(offset, whence) =>
      var r := g.GzSeek(offset, whence);
      a := Answer(r, []);
    case Rewind =>
      var r := g.GzRewind();
      a := Answer(r, []);
  }

  lemma AtMost(a: nat, b: nat)
    ensures 0 <= Min(a, b) <= a
  {
  }

  lemma IsFile(g: GzState)
    requires g.Valid()
    ensures g.File()
  {
  }

  /** Any calls in any order: each answers as the cursor says, and moves it as the cursor says. */
  method PerformAll(g: GzState, ops: seq<Op>)
    returns (answers: seq<Answer>, ghost raws: seq<bool>, ghost cursors: seq<Option<Cursor>>)
    requires g.Valid()
    modifies g, g.inBuf, g.outBuf
    ensures g.Valid()
    ensures Run(g.Whole(), raws, ops, answers, cursors)
    ensures cursors[0] == old(g.Mode()) && cursors[|ops|] == g.Mode()
  {
    hide *;
    IsFile(g);
    RunStarts(g.Whole(), g.Mode());
    answers, raws, cursors := [], [], [g.Mode()];
    while |answers| < |ops|
      invariant |answers| <= |ops| && g.Valid()
      invariant g.inBuf == old(g.inBuf) || fresh(g.inBuf)
      invariant g.outBuf == old(g.outBuf) || fresh(g.outBuf)
      invariant Run(g.Whole(), raws, ops[..|answers|], answers, cursors)
      invariant |cursors| == |answers| + 1 && cursors[0] == old(g.Mode()) && cursors[|answers|] == g.Mode()
    {
      var i := |answers|;
      ghost var raw := g.how == COPY;
      var a := Perform(g, ops[i]);
      RunExtends(g.Whole(), raws, ops[..i], answers, cursors, raw, ops[i], a, g.Mode());
      assert ops[..i] + [ops[i]] == ops[..i + 1];
      answers, raws, cursors := answers + [a], raws + [raw], cursors + [g.Mode()];
    }
    assert ops[..|answers|] == ops;
  }

  /** A file that is opened and then only read, moved in and told about, but never pushed back to: every call delivers
      the contents at the position told before it, and only reading them from the start gives a prefix of them. */
  method OpenAndPerform(file: seq<byte>, start: nat, want: nat, decoder: Decoder, ops: seq<Op>)
    returns (answers: seq<Answer>, ghost raws: seq<bool>, ghost cursors: seq<Option<Cursor>>)
    requires start <= |file| && want >= 8 && Complete(decoder, file[start..])
    ensures Run(Uncompressed(decoder, file[start..], true), raws, ops, answers, cursors)
    ensures cursors[0] == Some(Cursor([], 0, 0))
    ensures (forall k :: 0 <= k < |ops| ==> !ops[k].Ungetc?) ==>
      forall i :: 0 <= i < |ops| && Delivers(ops[i]) && cursors[i + 1].Some? ==>
        cursors[i].Some? && IsSlice(Uncompressed(decoder, file[start..], true), cursors[i].value, cursors[i + 1].value, answers[i].bytes)
    ensures (forall k :: 0 <= k < |ops| ==> Delivers(ops[k])) && cursors[|ops|].Some? ==>
      Bytes(answers) <= Uncompressed(decoder, file[start..], true)
  {
    hide Complete, Uncompressed, Allowed, Rest, Position;
    var g := new GzState(file, start, want, decoder);
    FreshCursor(g);
    answers, raws, cursors := PerformAll(g, ops);
    ghost var whole := Uncompressed(decoder, file[start..], true);
    if forall k :: 0 <= k < |ops| ==> !ops[k].Ungetc? {
      forall i | 0 <= i < |ops| && Delivers(ops[i]) && cursors[i + 1].Some?
        ensures cursors[i].Some? && IsSlice(whole, cursors[i].value, cursors[i + 1].value, answers[i].bytes)
      {
        CleanSlice(whole, raws, ops, answers, cursors, i);
      }
    }
    if (forall k :: 0 <= k < |ops| ==> Delivers(ops[k])) && cursors[|ops|].Some? {
      ReadingIsInOrder(whole, raws, ops, answers, cursors);
      FromTheStart(whole);
    }
  }

  /** The bytes are the contents at the position of c, and c' stands behind them. */
  ghost predicate IsSlice(whole: seq<byte>, c: Cursor, c': Cursor, s: seq<byte>) {
    s != [] ==>
      && 0 <= Position(c) && Position(c) + |s| <= |whole|
      && s == whole[Position(c)..Position(c) + |s|] && Position(c') == Position(c) + |s|
  }

  lemma CleanSlice(whole: seq<byte>, raws: seq<bool>, ops: seq<Op>, answers: seq<Answer>,
                   cursors: seq<Option<Cursor>>, i: nat)
    requires Run(whole, raws, ops, answers, cursors) && cursors[0] == Some(Cursor([], 0, 0))
    requires forall k :: 0 <= k < |ops| ==> !ops[k].Ungetc?
    requires i < |ops| && Delivers(ops[i]) && cursors[i + 1].Some?
    ensures cursors[i].Some? && IsSlice(whole, cursors[i].value, cursors[i + 1].value, answers[i].bytes)
  {
    hide Allowed, Rest, Position;
    assert Allowed(whole, raws[i], cursors[i], ops[i], answers[i], cursors[i + 1]);
    Unbroken(whole, raws[i], cursors[i], ops[i], answers[i], cursors[i + 1]);
    CleanRun(whole, raws, ops, answers, cursors, i);
    RunDelivers(whole, raws, ops, answers, cursors, i);
  }

  lemma FreshCursor(g: GzState)
    requires g.Valid() && g.err == OK && !g.seek && g.dirty == 0 && g.Tell() == 0
    ensures g.Mode() == Some(Cursor([], 0, 0))
  {
  }

  lemma FromTheStart(whole: seq<byte>)
    ensures Rest(whole, Cursor([], 0, 0)) == whole
  {
  }

  /** A refused seek loses a pending one: the position told falls back from 5 to 0. */
  method RefusedSeekLosesPending(file: seq<byte>, start: nat, want: nat, decoder: Decoder)
    returns (first: int, second: int, g: GzState)
    requires start <= |file| && want >= 8 && Complete(decoder, file[start..])
    ensures first == 5 && second == -1 && g.Valid() && g.err == OK
    ensures g.Tell() == 0 && g.Logical() == Uncompressed(decoder, file[start..], true)
  {
    hide Complete, Uncompressed, Allowed;
    g := new GzState(file, start, want, decoder);
    first := g.GzSeek(5, SEEK_SET);
    var told := g.Tell();
    assert told == 5;
    second := g.GzSeek(-1, SEEK_SET);
  }

  /** After two bytes are pushed back at the start, a seek to position -1 moves there, past the first of them. */
  method SeekBeforeStart(file: seq<byte>, start: nat, want: nat, decoder: Decoder, x: byte, y: byte)
    returns (ret: int, g: GzState)
    requires start <= |file| && want >= 8 && Complete(decoder, file[start..])
    ensures ret == -1 && g.Valid() && g.err == OK
    ensures g.Tell() == -1 && g.Logical() == [x] + Uncompressed(decoder, file[start..], true)
  {
    hide Complete, Uncompressed, Allowed, GzState.Core, GzState.View, Tail;
    g := new GzState(file, start, want, decoder);
    var one := g.GzUngetc(x);
    var two := g.GzUngetc(y);
    ghost var view := g.Logical();
    assert view == [y] + ([x] + g.Whole());
    TailOfCons(y, [x] + g.Whole());
    ret := g.GzSeek(-1, SEEK_SET);
  }

  /** A seek by nothing keeps a byte pushed back at the start. */
  method SeekKeepsPushed(file: seq<byte>, start: nat, want: nat, decoder: Decoder, x: byte)
    returns (ret: int, g: GzState)
    requires start <= |file| && want >= 8 && Complete(decoder, file[start..])
    ensures ret == -1 && g.Valid() && g.err == OK
    ensures g.Tell() == -1 && g.Logical() == [x] + Uncompressed(decoder, file[start..], true)
  {
    hide Complete, Uncompressed, Allowed, GzState.Core, GzState.View, Tail;
    g := new GzState(file, start, want, decoder);
    var one := g.GzUngetc(x);
    ghost var view := g.Logical();
    ret := g.GzSeek(0, SEEK_CUR);
    TailOfNone(view);
  }

  lemma TailOfNone(s: seq<byte>)
    ensures Tail(s, 0) == s
  {
  }

  /** Right after opening at least `want` bytes can be pushed back; when the output buffer is full of them the next
      one is refused, and the reader is broken. */
  method PushUntilFull(file: seq<byte>, start: nat, want: nat, decoder: Decoder, x: byte)
    returns (pushed: nat, ret: int, g: GzState)
    requires start <= |file| && want >= 8 && Complete(decoder, file[start..])
    ensures pushed >= want && ret == -1 && g.Valid() && g.Mode() == None
  {
    hide Complete, Uncompressed, Allowed, GzState.Core, GzState.View, GzState.Cur, GzState.Logical, Tail;
    g := new GzState(file, start, want, decoder);
    ret := g.GzUngetc(x);
    pushed := 1;
    while g.have < g.outBuf.Length
      invariant fresh(g) && fresh(g.inBuf) && fresh(g.outBuf) && g.Valid() && g.err == OK
      invariant 0 < g.have <= g.outBuf.Length == 2 * want && g.have <= pushed + want
      decreases g.outBuf.Length - g.have
    {
      ret := g.GzUngetc(x);
      pushed := pushed + 1;
    }
    ret := g.GzUngetc(x);
  }

  lemma TailOfCons(y: byte, s: seq<byte>)
    ensures Tail([y] + s, 1) == s
  {
  }
}
