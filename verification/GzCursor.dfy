/** The reader as its caller sees it: a cursor in the uncompressed contents, and what each call answers. */
module GzCursor {
  import opened Bitwise
  import opened Wrappers
  import opened GzStream

  datatype Whence = SEEK_SET | SEEK_CUR | SEEK_END

  const NEWLINE: byte := 10

  /** The bytes pushed back, where reading goes on behind them, and how far a pending seek still has to skip. */
  datatype Cursor = Cursor(pushed: seq<byte>, place: nat, pending: nat)

  /** Everything in front of the cursor, a pending seek not yet made up for. */
  function Ahead(whole: seq<byte>, c: Cursor): seq<byte> {
    c.pushed + Tail(whole, c.place)
  }

  /** What the caller will read. */
  function Rest(whole: seq<byte>, c: Cursor): seq<byte> {
    Tail(Ahead(whole, c), c.pending)
  }

  /** What the caller is told by gztell. */
  function Position(c: Cursor): int {
    c.place - |c.pushed| + c.pending
  }

  /** n bytes further, pushed-back ones first; nothing is pending then. */
  function Took(c: Cursor, n: nat): Cursor {
    if n <= |c.pushed| then Cursor(c.pushed[n..], c.place, 0)
    else Cursor([], c.place + (n - |c.pushed|), 0)
  }

  /** The pending seek made up for; there may be fewer bytes than it asks for. */
  function Settled(whole: seq<byte>, c: Cursor): Cursor {
    Took(c, Min(c.pending, |Ahead(whole, c)|))
  }

  /** The length of the line in front, at most `left` bytes of it. */
  function Line(v: seq<byte>, left: nat): (n: nat)
    ensures n <= left && n <= |v|
    decreases left
  {
    if left == 0 || v == [] then 0
    else if v[0] == NEWLINE then 1
    else 1 + Line(v[1..], left - 1)
  }

  datatype Op =
    | Read(len: nat)
    | Getc
    | Gets(size: int)
    | Ungetc(ch: int)
    | Seek(offset: int, whence: Whence)
    | Rewind

  /** The number returned (gzgets: the bytes in front of the terminating zero, or -1 for NULL) and the bytes. */
  datatype Answer = Answer(ret: int, bytes: seq<byte>)

  predicate Delivers(o: Op) {
    o.Read? || o.Getc? || o.Gets?
  }

  /** How many bytes an operation delivers with these ahead. */
  function Wanted(rest: seq<byte>, o: Op): (n: nat)
    requires Delivers(o)
    ensures n <= |rest|
  {
    match o
    case Read(len) => if len < 0x8000_0000 then Min(len, |rest|) else 0
    case Getc => Min(1, |rest|)
    case Gets(len) => if len < 1 then 0 else Line(rest, len - 1)
  }

  /** gzseek to a position: taken at once when the file is copied (`raw`), else by skipping, from the start if the
      position is behind; how much of the skipping waits for the next read is left open. */
  predicate Sought(whole: seq<byte>, raw: bool, c: Cursor, target: int, ret: int, c': Cursor) {
    var here := c.place - |c.pushed|;
    if raw && target >= 0 then ret == target && c' == Cursor([], target, 0)
    else if target < 0 && target < here then ret == -1 && c' == c.(pending := 0)
    else
      var base := if target < here then Cursor([], 0, 0) else c.(pending := 0);
      var amount := if target < here then target else target - here;
      && ret == target && c'.pending <= amount && amount - c'.pending <= |Ahead(whole, base)|
      && (c'.pending > 0 ==> c'.pushed == [])
      && c' == Took(base, amount - c'.pending).(pending := c'.pending)
  }

  /** What one call may do; None is the reader after a fatal error. */
  predicate Allowed(whole: seq<byte>, raw: bool, before: Option<Cursor>, o: Op, a: Answer, after: Option<Cursor>) {
    match before
    case None => after == None && a == Answer(-1, [])
    case Some(c) =>
      var rest := Rest(whole, c);
      match o
      case Read(len) =>
        if len >= 0x8000_0000 then after == None && a == Answer(-1, [])
        else
          && a == Answer(Wanted(rest, o), rest[..Wanted(rest, o)])
          && after == Some(if len == 0 then c else Took(Settled(whole, c), Wanted(rest, o)))
      case Getc =>
        && a == (if rest == [] then Answer(-1, []) else Answer(rest[0], [rest[0]]))
        && after == Some(Took(Settled(whole, c), Wanted(rest, o)))
      case Gets(len) =>
        && a == Answer(if Wanted(rest, o) > 0 then Wanted(rest, o) else -1, rest[..Wanted(rest, o)])
        && after == Some(if len < 1 then c else Took(Settled(whole, c), Wanted(rest, o)))
      case Ungetc(ch) =>
        var s := Settled(whole, c);
        if ch < 0 then a == Answer(-1, []) && after == Some(s)
        else if a.ret != -1 then a == Answer(ch, []) && after == Some(Cursor([ch % 256] + s.pushed, s.place, 0))
        else c.pushed != [] && a == Answer(-1, []) && after == None
      case Seek(offset, whence) =>
        if whence == SEEK_END then a == Answer(-1, []) && after == before
        else
          && a.bytes == [] && after.Some?
          && Sought(whole, raw, c, if whence == SEEK_SET then offset else Position(c) + offset, a.ret, after.value)
      case Rewind => a == Answer(0, []) && after == Some(Cursor([], 0, 0))
  }

  lemma BrokenAllowed(whole: seq<byte>, raw: bool, o: Op)
    ensures Allowed(whole, raw, None, o, Answer(-1, []), None)
  {
    hide Ahead, Took, Line, Wanted, Settled, Rest, Tail, Sought;
  }

  lemma RewindAllowed(whole: seq<byte>, raw: bool, c: Cursor)
    ensures Allowed(whole, raw, Some(c), Rewind, Answer(0, []), Some(Cursor([], 0, 0)))
  {
    hide Ahead, Took, Line, Wanted, Settled, Rest, Tail, Sought;
  }

  /** After settling, a byte is pushed in front; or, when there is no room for it, the reader is broken. */
  lemma UngetcAllowed(whole: seq<byte>, raw: bool, c: Cursor, ch: int, room: bool)
    requires ch >= 0 && !room ==> c.pushed != []
    ensures var s := Settled(whole, c);
      Allowed(whole, raw, Some(c), Ungetc(ch), Answer(if ch >= 0 && room then ch else -1, []),
              if ch < 0 then Some(s) else if room then Some(Cursor([ch % 256] + s.pushed, s.place, 0)) else None)
  {
    hide Ahead, Took, Line, Wanted, Settled, Rest, Tail, Sought;
  }

  /** A seek does not depend on how much was pending, but for its target. */
  lemma SoughtAlike(whole: seq<byte>, raw: bool, c: Cursor, target: int, ret: int, c': Cursor)
    ensures Sought(whole, raw, c.(pending := 0), target, ret, c') == Sought(whole, raw, c, target, ret, c')
  {
    hide Ahead, Took, Tail;
  }

  lemma SeekAllowed(whole: seq<byte>, raw: bool, c: Cursor, offset: int, whence: Whence, ret: int, c': Cursor)
    requires whence != SEEK_END
    requires Sought(whole, raw, c.(pending := 0), if whence == SEEK_SET then offset else Position(c) + offset, ret, c')
    ensures Allowed(whole, raw, Some(c), Seek(offset, whence), Answer(ret, []), Some(c'))
  {
    hide Ahead, Took, Line, Wanted, Settled, Rest, Tail;
    hide Sought;
    SoughtAlike(whole, raw, c, if whence == SEEK_SET then offset else Position(c) + offset, ret, c');
  }

  lemma SeekRefused(whole: seq<byte>, raw: bool, c: Option<Cursor>, offset: int, whence: Whence)
    requires c == None || whence == SEEK_END
    ensures Allowed(whole, raw, c, Seek(offset, whence), Answer(-1, []), c)
  {
    hide Ahead, Took, Line, Wanted, Settled, Rest, Tail, Sought;
  }

  lemma TookRest(whole: seq<byte>, c: Cursor, n: nat)
    requires n <= |Ahead(whole, c)|
    ensures Ahead(whole, Took(c, n)) == Ahead(whole, c)[n..]
  {
    if n <= |c.pushed| {
      assert c.pushed[n..] + Tail(whole, c.place) == (c.pushed + Tail(whole, c.place))[n..];
    }
  }

  lemma SettledRest(whole: seq<byte>, c: Cursor)
    ensures Ahead(whole, Settled(whole, c)) == Rest(whole, c) == Rest(whole, Settled(whole, c))
  {
    TookRest(whole, c, Min(c.pending, |Ahead(whole, c)|));
  }

  /** Delivering n bytes takes them off the front of what the caller will read, and moves the position by n,
      or to the end when a pending seek went beyond it. */
  lemma Delivered(whole: seq<byte>, c: Cursor, n: nat)
    requires n <= |Rest(whole, c)|
    ensures var c' := Took(Settled(whole, c), n);
      && Rest(whole, c') == Rest(whole, c)[n..]
      && (c.pending <= |Ahead(whole, c)| ==> Position(c') == Position(c) + n)
      && (c.pending > |Ahead(whole, c)| ==> Position(c') == c.place - |c.pushed| + |Ahead(whole, c)|)
  {
    SettledRest(whole, c);
    TookRest(whole, Settled(whole, c), n);
  }

  /** Without pushed-back bytes the caller reads the contents from the position it is told. */
  lemma ReadsAtPosition(whole: seq<byte>, c: Cursor)
    requires c.pushed == []
    ensures Position(c) >= 0 && Rest(whole, c) == Tail(whole, Position(c))
  {
    assert Ahead(whole, c) == Tail(whole, c.place);
    TailAgain(whole, c.place, c.pending);
  }

  /** A seek that is accepted leads to its target: to the contents from there on, or past some of the bytes pushed
      back when these are skipped.  One that is refused loses a pending one. */
  lemma SeekLeads(whole: seq<byte>, raw: bool, c: Cursor, target: int, ret: int, c': Cursor)
    requires Sought(whole, raw, c, target, ret, c')
    ensures var here := c.place - |c.pushed|;
      if target < 0 && target < here then ret == -1 && Rest(whole, c') == Ahead(whole, c) && Position(c') == here
      else
        && ret == target == Position(c')
        && Rest(whole, c') == if target >= 0 && (raw || target < here) then Tail(whole, target)
                              else Tail(Ahead(whole, c), target - here)
  {
    hide Line, Tail;
    var here := c.place - |c.pushed|;
    if raw && target >= 0 {
      ReadsAtPosition(whole, c');
    } else if target < 0 && target < here {
      TailAgain(whole, 0, 0);
      WithoutPending(whole, c');
    } else if target < here {
      SkippedRest(whole, Cursor([], 0, 0), target, c');
      TailOfAll(whole);
    } else {
      SkippedRest(whole, c.(pending := 0), target - here, c');
    }
  }

  lemma TailOfAll(s: seq<byte>)
    ensures Tail(s, 0) == s && Ahead(s, Cursor([], 0, 0)) == s
  {
  }

  lemma WithoutPending(whole: seq<byte>, c: Cursor)
    requires c.pending == 0
    ensures Rest(whole, c) == Ahead(whole, c)
  {
  }

  lemma SkippedRest(whole: seq<byte>, base: Cursor, amount: nat, c: Cursor)
    requires base.pending == 0 && c.pending <= amount && amount - c.pending <= |Ahead(whole, base)|
    requires c == Took(base, amount - c.pending).(pending := c.pending)
    ensures Rest(whole, c) == Tail(Ahead(whole, base), amount) && Position(c) == Position(base) + amount
  {
    var n := amount - c.pending;
    TookRest(whole, base, n);
    hide Ahead;
    assert Ahead(whole, c) == Ahead(whole, Took(base, n)) by {
      SameAhead(whole, Took(base, n), c);
    }
    assert Ahead(whole, c) == Tail(Ahead(whole, base), n);
    TailAgain(Ahead(whole, base), n, c.pending);
  }

  lemma SameAhead(whole: seq<byte>, c: Cursor, d: Cursor)
    requires c.pushed == d.pushed && c.place == d.place
    ensures Ahead(whole, c) == Ahead(whole, d)
  {
  }

  /** Which bytes pushed back are left by a seek that is accepted: all of them are gone exactly when the file is copied
      or the target is behind the position, or when all of them are skipped. */
  lemma SeekDiscards(whole: seq<byte>, raw: bool, c: Cursor, target: int, ret: int, c': Cursor)
    requires Sought(whole, raw, c, target, ret, c')
    ensures var here := c.place - |c.pushed|;
      c'.pushed == if target < 0 && target < here then c.pushed
                   else if target < here || (raw && target >= 0) || target - here >= |c.pushed| then []
                   else c.pushed[target - here..]
  {
    hide Ahead, Tail;
  }

  // ----- runs

  /** A run: the cursors in front of the calls and behind the last one, and what the calls answered. */
  ghost predicate Run(whole: seq<byte>, raws: seq<bool>, ops: seq<Op>, answers: seq<Answer>, cursors: seq<Option<Cursor>>) {
    && |raws| == |ops| == |answers| && |cursors| == |ops| + 1
    && forall i :: 0 <= i < |ops| ==> Allowed(whole, raws[i], cursors[i], ops[i], answers[i], cursors[i + 1])
  }

  lemma RunStarts(whole: seq<byte>, c: Option<Cursor>)
    ensures Run(whole, [], [], [], [c])
  {
  }

  lemma RunExtends(whole: seq<byte>, raws: seq<bool>, ops: seq<Op>, answers: seq<Answer>, cursors: seq<Option<Cursor>>,
                   raw: bool, o: Op, a: Answer, c: Option<Cursor>)
    requires Run(whole, raws, ops, answers, cursors)
    requires Allowed(whole, raw, cursors[|ops|], o, a, c)
    ensures Run(whole, raws + [raw], ops + [o], answers + [a], cursors + [c])
  {
  }

  lemma StepDelivers(whole: seq<byte>, raw: bool, c: Cursor, o: Op, a: Answer, c': Cursor)
    requires Delivers(o) && Allowed(whole, raw, Some(c), o, a, Some(c'))
    ensures var s := a.bytes;
      && Rest(whole, c) == s + Rest(whole, c') && s == Rest(whole, c)[..Wanted(Rest(whole, c), o)]
      && (c.pushed == [] ==>
            var p := Position(c);
            p >= 0 && (s != [] ==> p + |s| <= |whole| && s == whole[p..p + |s|] && Position(c') == p + |s|))
  {
    hide Line, Ahead, Took, Settled, Sought;
    var rest := Rest(whole, c);
    var n := Wanted(rest, o);
    assert a.bytes == rest[..n];
    if (o.Read? && o.len == 0) || (o.Gets? && o.size < 1) {
      assert n == 0 && a.bytes == [];
    } else {
      assert c' == Took(Settled(whole, c), n);
      Delivered(whole, c, n);
      assert rest == rest[..n] + rest[n..];
    }
    if c.pushed == [] {
      ReadsAtPosition(whole, c);
      Deep(whole, c);
      SliceOfTail(whole, Position(c), n);
    }
  }

  lemma Deep(whole: seq<byte>, c: Cursor)
    ensures Rest(whole, c) != [] ==> c.pending <= |Ahead(whole, c)|
  {
  }

  lemma SliceOfTail(s: seq<byte>, p: nat, n: nat)
    requires n <= |Tail(s, p)|
    ensures n > 0 ==> p + n <= |s| && Tail(s, p)[..n] == s[p..p + n]
  {
  }

  /** Over any run, every byte delivered is the next one at the cursor, and the cursor moves behind it. */
  lemma RunDelivers(whole: seq<byte>, raws: seq<bool>, ops: seq<Op>, answers: seq<Answer>,
                    cursors: seq<Option<Cursor>>, i: nat)
    requires Run(whole, raws, ops, answers, cursors) && i < |ops| && Delivers(ops[i])
    requires cursors[i].Some? && cursors[i + 1].Some?
    ensures var c, c', s := cursors[i].value, cursors[i + 1].value, answers[i].bytes;
      && Rest(whole, c) == s + Rest(whole, c') && s == Rest(whole, c)[..Wanted(Rest(whole, c), ops[i])]
      && (c.pushed == [] ==>
            var p := Position(c);
            p >= 0 && (s != [] ==> p + |s| <= |whole| && s == whole[p..p + |s|] && Position(c') == p + |s|))
  {
    hide Allowed, Rest, Wanted, Position;
    assert Allowed(whole, raws[i], cursors[i], ops[i], answers[i], cursors[i + 1]);
    StepDelivers(whole, raws[i], cursors[i].value, ops[i], answers[i], cursors[i + 1].value);
  }

  /** As long as no byte is pushed back the caller reads, after every call, from the position it is told. */
  lemma {:induction false} CleanRun(whole: seq<byte>, raws: seq<bool>, ops: seq<Op>, answers: seq<Answer>,
                                    cursors: seq<Option<Cursor>>, i: nat)
    requires Run(whole, raws, ops, answers, cursors) && i <= |ops|
    requires forall k :: 0 <= k < i ==> ops[k].Ungetc? ==> answers[k].ret == -1
    requires cursors[0].Some? && cursors[0].value.pushed == []
    ensures cursors[i].Some? ==>
      cursors[i].value.pushed == [] && Rest(whole, cursors[i].value) == Tail(whole, Position(cursors[i].value))
  {
    if i > 0 {
      CleanRun(whole, raws, ops, answers, cursors, i - 1);
      assert Allowed(whole, raws[i - 1], cursors[i - 1], ops[i - 1], answers[i - 1], cursors[i]);
    }
    if cursors[i].Some? && cursors[i].value.pushed == [] {
      ReadsAtPosition(whole, cursors[i].value);
    }
  }

  /** After a fatal error nothing is delivered any more. */
  lemma Unbroken(whole: seq<byte>, raw: bool, before: Option<Cursor>, o: Op, a: Answer, after: Option<Cursor>)
    requires Allowed(whole, raw, before, o, a, after) && after.Some?
    ensures before.Some?
  {
  }

  /** Over any run a byte can be pushed back whenever none is waiting to be read again. */
  lemma PushBackSucceeds(whole: seq<byte>, raws: seq<bool>, ops: seq<Op>, answers: seq<Answer>,
                         cursors: seq<Option<Cursor>>, i: nat)
    requires Run(whole, raws, ops, answers, cursors) && i < |ops| && ops[i].Ungetc? && ops[i].ch >= 0
    requires cursors[i].Some? && cursors[i].value.pushed == []
    ensures answers[i].ret == ops[i].ch && cursors[i + 1].Some?
    ensures var c, c' := cursors[i].value, cursors[i + 1].value;
      && c'.pushed == [ops[i].ch % 256] && Rest(whole, c') == [ops[i].ch % 256] + Rest(whole, c)
      && (Rest(whole, c) != [] ==> Position(c') == Position(c) - 1)
  {
    assert Allowed(whole, raws[i], cursors[i], ops[i], answers[i], cursors[i + 1]);
    StepPushes(whole, raws[i], cursors[i].value, ops[i].ch, answers[i], cursors[i + 1]);
  }

  lemma StepPushes(whole: seq<byte>, raw: bool, c: Cursor, ch: nat, a: Answer, after: Option<Cursor>)
    requires Allowed(whole, raw, Some(c), Ungetc(ch), a, after) && c.pushed == []
    ensures a.ret == ch && after.Some? && after.value.pushed == [ch % 256]
    ensures Rest(whole, after.value) == [ch % 256] + Rest(whole, c)
    ensures Rest(whole, c) != [] ==> Position(after.value) == Position(c) - 1
  {
    hide Line, Sought, Wanted, Tail;
    Deep(whole, c);
    hide Ahead;
    var s := Settled(whole, c);
    SettledRest(whole, c);
    PushedIsAhead(whole, s, ch % 256);
    NothingPushed(whole, c);
  }

  lemma NothingPushed(whole: seq<byte>, c: Cursor)
    requires c.pushed == []
    ensures Settled(whole, c).pushed == []
  {
  }

  function Bytes(answers: seq<Answer>): seq<byte> {
    if answers == [] then [] else Bytes(answers[..|answers| - 1]) + answers[|answers| - 1].bytes
  }

  /** However reading is divided into gzread, gzgetc and gzgets, the bytes delivered are the next ones in order. */
  lemma {:induction false} ReadingIsInOrder(whole: seq<byte>, raws: seq<bool>, ops: seq<Op>, answers: seq<Answer>,
                                            cursors: seq<Option<Cursor>>)
    requires Run(whole, raws, ops, answers, cursors)
    requires forall k :: 0 <= k < |ops| ==> Delivers(ops[k])
    requires cursors[0].Some? && cursors[|ops|].Some?
    ensures Rest(whole, cursors[0].value) == Bytes(answers) + Rest(whole, cursors[|ops|].value)
    decreases |ops|
  {
    hide Allowed, Rest, Wanted;
    if |ops| > 0 {
      var n := |ops| - 1;
      assert Allowed(whole, raws[n], cursors[n], ops[n], answers[n], cursors[n + 1]);
      Unbroken(whole, raws[n], cursors[n], ops[n], answers[n], cursors[n + 1]);
      ReadingIsInOrder(whole, raws[..n], ops[..n], answers[..n], cursors[..n + 1]);
      RunDelivers(whole, raws, ops, answers, cursors, n);
      assert Bytes(answers) == Bytes(answers[..n]) + answers[n].bytes;
    }
  }

  /** A byte pushed back is the next one read, and reading it leaves what was there before. */
  lemma PushedIsRead(whole: seq<byte>, raw: bool, c: Cursor, ch: byte, one: Answer, middle: Option<Cursor>,
                     two: Answer, after: Option<Cursor>)
    requires Allowed(whole, raw, Some(c), Ungetc(ch), one, middle) && one.ret != -1
    requires Allowed(whole, raw, middle, Getc, two, after)
    ensures two.ret == ch && after == Some(Settled(whole, c))
  {
    hide Line, Ahead, Settled, Sought;
    var s := Settled(whole, c);
    PushedIsAhead(whole, s, ch);
    var m := middle.value;
    assert Settled(whole, m) == m by { NothingPending(whole, m); }
    assert m.pushed[1..] == s.pushed;
    assert Took(m, 1) == Cursor(s.pushed, s.place, 0);
    SettledIsClear(whole, c);
  }

  lemma PushedIsAhead(whole: seq<byte>, s: Cursor, ch: byte)
    ensures Rest(whole, Cursor([ch] + s.pushed, s.place, 0)) == [ch] + Ahead(whole, s)
  {
    assert [ch] + s.pushed + Tail(whole, s.place) == [ch] + (s.pushed + Tail(whole, s.place));
  }

  lemma NothingPending(whole: seq<byte>, c: Cursor)
    requires c.pending == 0
    ensures Settled(whole, c) == c
  {
  }

  lemma SettledOnce(whole: seq<byte>, c: Cursor)
    ensures Took(Settled(whole, c), 0) == Settled(whole, c)
  {
  }

  lemma SettledIsClear(whole: seq<byte>, c: Cursor)
    ensures Settled(whole, c).pending == 0
  {
  }
  // ----- what one call delivers

  /** gzread delivers as many bytes as it was asked for, unless the contents end there. */
  lemma ReadFills(whole: seq<byte>, raw: bool, c: Cursor, len: nat, a: Answer, after: Option<Cursor>)
    requires len < 0x8000_0000 && Allowed(whole, raw, Some(c), Read(len), a, after)
    ensures after.Some? && a.ret == |a.bytes| <= len
    ensures |a.bytes| < len ==> Rest(whole, after.value) == []
  {
    StepDelivers(whole, raw, c, Read(len), a, after.value);
    hide Rest, Position;
  }

  /** gzgetc delivers a byte, unless there is none. */
  lemma GetcIsNext(whole: seq<byte>, raw: bool, c: Cursor, a: Answer, after: Option<Cursor>)
    requires Allowed(whole, raw, Some(c), Getc, a, after)
    ensures if a.ret == -1 then a.bytes == [] == Rest(whole, c) else a.bytes == [a.ret] <= Rest(whole, c)
  {
    hide Rest, Settled, Took;
  }

  lemma {:induction false} LineIs(v: seq<byte>, left: nat)
    ensures var n := Line(v, left);
      && (forall k :: 0 <= k < n - 1 ==> v[k] != 10)
      && (n == left || n == |v| || (n > 0 && v[n - 1] == 10))
    decreases left
  {
    if left > 0 && v != [] && v[0] != 10 {
      LineIs(v[1..], left - 1);
      forall k | 0 <= k < Line(v, left) - 1
        ensures v[k] != 10
      {
        assert k > 0 ==> v[k] == v[1..][k - 1];
      }
    }
  }

  /** gzgets delivers a line: no newline but at its end, and it stops before one only for want of room or of bytes. */
  lemma GetsIsLine(whole: seq<byte>, raw: bool, c: Cursor, size: int, a: Answer, after: Option<Cursor>)
    requires size >= 1 && Allowed(whole, raw, Some(c), Gets(size), a, after)
    ensures after.Some? && |a.bytes| <= size - 1 && a.ret == if a.bytes == [] then -1 else |a.bytes|
    ensures forall k :: 0 <= k < |a.bytes| - 1 ==> a.bytes[k] != 10
    ensures || |a.bytes| == size - 1 || Rest(whole, after.value) == []
            || (a.bytes != [] && a.bytes[|a.bytes| - 1] == 10)
  {
    GetsAnswers(whole, raw, c, size, a, after);
    hide *;
    StepDelivers(whole, raw, c, Gets(size), a, after.value);
    LineIs(Rest(whole, c), size - 1);
    var rest, s := Rest(whole, c), a.bytes;
    assert forall k :: 0 <= k < |s| ==> s[k] == rest[k];
    assert |s| == |rest| ==> Rest(whole, after.value) == [] by { assert rest == s + Rest(whole, after.value); }
  }

  lemma GetsAnswers(whole: seq<byte>, raw: bool, c: Cursor, size: int, a: Answer, after: Option<Cursor>)
    requires size >= 1 && Allowed(whole, raw, Some(c), Gets(size), a, after)
    ensures var n := Line(Rest(whole, c), size - 1);
      after.Some? && a.bytes == Rest(whole, c)[..n] && |a.bytes| == n && a.ret == if n == 0 then -1 else n
    ensures Delivers(Gets(size))
  {
    hide Rest, Settled, Took, Line;
  }
}
