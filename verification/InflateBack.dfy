/** The decoder's circular window and output callbacks (infback.c), fed with decoded tokens. */
module InflateBack {
  import opened Bitwise
  import opened Lz77
  import opened Wrappers

  datatype Outcome = Done | BadData | OutputFailed

  class InflateState {
    const wSize: nat
    const window: array<byte>

    var put: nat
    var left: nat
    var whave: nat
    var delivered: seq<byte>        // everything handed to out() so far

    ghost var produced: seq<byte>   // everything decoded so far
    ghost var refusals: nat         // calls of out() that failed

    ghost predicate Valid()
      reads this, window
    {
      && 0 < wSize == window.Length
      && put + left == wSize
      && produced == delivered + window[..put]
      && (whave == wSize <==> delivered != []) && whave <= wSize
      && (delivered != [] ==> |delivered| >= wSize)
      && (delivered != [] ==> forall i :: put <= i < wSize ==> window[i] == delivered[|delivered| - wSize + i])
    }

    constructor (wSize: nat)
      requires 0 < wSize
      ensures Valid() && produced == [] && delivered == [] && refusals == 0 && this.wSize == wSize && fresh(window)
    {
      this.wSize := wSize;
      window := new byte[wSize];
      put, left, whave := 0, wSize, 0;
      delivered, produced, refusals := [], [], 0;
    }

    /** out(): the callback takes the first n bytes of the window, and may fail. */
    method Out(n: nat) returns (failed: bool)
      requires n <= window.Length
      modifies this`delivered, this`refusals
      ensures delivered == old(delivered) + window[..n]
      ensures refusals == old(refusals) + if failed then 1 else 0
    {
      delivered := delivered + window[..n];
      failed := *;
      if failed {
        refusals := refusals + 1;
      }
    }

    /** ROOM: hand over the window when it is full. */
    method Room() returns (failed: bool)
      requires Valid()
      modifies this`put, this`left, this`whave, this`delivered, this`refusals
      ensures Valid() && left > 0
      ensures refusals == old(refusals) + if failed then 1 else 0
      ensures old(left) > 0 ==> !failed && put == old(put)
      ensures failed ==> put == 0
    {
      failed := false;
      if left == 0 {
        put := 0;
        left := wSize;
        whave := left;
        failed := Out(left);
      }
    }

    /** How far back a distance may reach: the bytes in the window. */
    function Reach(): int
      reads this`left, this`whave
    {
      wSize - if whave < wSize then left else 0
    }

    /** The distance check allows exactly what has been produced and is still in the window. */
    lemma ReachIsHistory()
      requires Valid()
      ensures Reach() == if |produced| < wSize then |produced| else wSize
    {
    }

    method Literal(b: byte) returns (failed: bool)
      requires Valid()
      modifies this, window
      ensures Valid()
      ensures refusals == old(refusals) + if failed then 1 else 0
      ensures produced == if failed then old(produced) else old(produced) + [b]
      ensures failed ==> put == 0
    {
      failed := Room();
      if !failed {
        window[put] := b;
        put, left := put + 1, left - 1;
        produced := produced + [b];
      }
    }

    /** One byte of a match: source and target keep their distance around the circle. */
    method CopyByte(from: nat, offset: nat)
      requires Valid() && left > 0
      requires 1 <= offset <= Reach()
      requires from == if offset <= put then put - offset else put + wSize - offset
      modifies this`put, this`left, this`produced, window
      ensures Valid() && put == old(put) + 1
      ensures 1 <= offset <= |old(produced)|
      ensures produced == old(produced) + [old(produced[|produced| - offset])]
    {
      ghost var b := window[from];
      assert from < wSize;
      assert b == produced[|produced| - offset];
      window[put] := window[from];
      put, left := put + 1, left - 1;
      produced := produced + [b];
    }

    /** The inner copy loop: `count` bytes without reaching the end of the window in either place. */
    method CopyRun(from0: nat, offset: nat, count: nat)
      requires Valid() && 0 < count <= left
      requires 1 <= offset <= Reach()
      requires from0 == if offset <= put then put - offset else put + wSize - offset
      requires from0 + count <= wSize
      modifies this`put, this`left, this`produced, window
      ensures Valid() && left == old(left) - count && offset <= Reach()
      ensures 1 <= offset <= |old(produced)| && produced == CopyBack(old(produced), count, offset)
    {
      hide CopyBack;
      var from, copy := from0, count;
      ghost var before := produced;
      while true
        invariant Valid() && 0 < copy <= left && left - copy == old(left) - count
        invariant 1 <= offset <= Reach() && offset <= |before| <= |produced|
        invariant from == (if offset <= put then put - offset else put + wSize - offset) && from + copy <= wSize
        invariant CopyBack(produced, copy, offset) == CopyBack(before, count, offset)
        decreases copy
      {
        CopyBackStep(produced, copy, offset);
        CopyByte(from, offset);
        from := from + 1;
        copy := copy - 1;
        if copy == 0 {
          break;
        }
      }
      CopyBackNone(produced, offset);
    }

    /** As much of a match as lies in one stretch in both places; the rest of its length is left. */
    method CopyStretch(length: nat, offset: nat) returns (rest: nat)
      requires Valid() && left > 0 && length > 0 && 1 <= offset <= Reach()
      modifies this`put, this`left, this`produced, window
      ensures Valid() && rest < length && offset <= Reach() && 1 <= offset <= |old(produced)| <= |produced|
      ensures CopyBack(produced, rest, offset) == CopyBack(old(produced), length, offset)
    {
      hide CopyBack;
      ReachIsHistory();
      var copy := wSize - offset;
      var from;
      if copy < left {
        from := put + copy;
        copy := left - copy;
      } else {
        from := put - offset;
        copy := left;
      }
      if copy > length {
        copy := length;
      }
      CopyBackSplit(produced, copy, length - copy, offset);
      rest := length - copy;
      CopyRun(from, offset, copy);
    }

    /** The match copy of inflateBack, after the distance check. */
    method Match(length0: nat, offset: nat) returns (outcome: Outcome)
      requires Valid() && length0 > 0 && offset > 0
      modifies this, window
      ensures Valid()
      ensures refusals == old(refusals) + if outcome == OutputFailed then 1 else 0
      ensures outcome == BadData <==> offset > old(if |produced| < wSize then |produced| else wSize)
      ensures outcome == BadData ==> produced == old(produced)
      ensures outcome == Done ==> offset <= |old(produced)| && produced == CopyBack(old(produced), length0, offset)
      ensures outcome == OutputFailed ==>
        offset <= |old(produced)| && put == 0 && produced <= CopyBack(old(produced), length0, offset)
    {
      hide CopyBack;
      ReachIsHistory();
      if offset > Reach() {
        return BadData;
      }
      var length := length0;
      ghost var before := produced;
      while true
        invariant Valid() && refusals == old(refusals) && 0 < length && offset <= Reach() && offset <= |before| <= |produced|
        invariant CopyBack(produced, length, offset) == CopyBack(before, length0, offset)
        decreases length
      {
        var failed := Room();
        if failed {
          CopyBackKeeps(produced, length, offset);
          return OutputFailed;
        }
        length := CopyStretch(length, offset);
        if length == 0 {
          break;
        }
      }
      CopyBackNone(produced, offset);
      outcome := Done;
    }

    lemma Longer(before: seq<byte>, data: seq<byte>, next: nat, copy: nat)
      requires next + copy <= |data|
      ensures before + data[..next] + data[next..next + copy] == before + data[..next + copy]
    {
    }

    /** A stored block arrives in pieces as large as input and window allow. */
    method StoredBlock(data: seq<byte>) returns (failed: bool)
      requires Valid()
      modifies this, window
      ensures Valid()
      ensures refusals == old(refusals) + if failed then 1 else 0
      ensures !failed ==> produced == old(produced) + data
      ensures failed ==> put == 0 && produced <= old(produced) + data
    {
      var next := 0;
      while next != |data|
        invariant Valid() && refusals == old(refusals) && next <= |data| && produced == old(produced) + data[..next]
        decreases |data| - next
      {
        var have: nat :| 0 < have;
        failed := Room();
        if failed {
          return;
        }
        var copy := |data| - next;
        if copy > have {
          copy := have;
        }
        if copy > left {
          copy := left;
        }
        Longer(old(produced), data, next, copy);
        CopyIn(data[next..next + copy]);
        next := next + copy;
      }
      assert data[..next] == data;
      failed := false;
    }

    method CopyIn(bytes: seq<byte>)
      requires Valid() && |bytes| <= left
      modifies this`put, this`left, this`produced, window
      ensures Valid() && produced == old(produced) + bytes
    {
      forall i | 0 <= i < |bytes| {
        window[put + i] := bytes[i];
      }
      ghost var before := window[..put];
      put, left := put + |bytes|, left - |bytes|;
      produced := produced + bytes;
      assert window[..put] == before + bytes;
    }

    /** One token. */
    method Token(t: Token) returns (outcome: Outcome)
      requires Valid() && Expressible(t, 0x8000)
      modifies this, window
      ensures Valid()
      ensures refusals == old(refusals) + if outcome == OutputFailed then 1 else 0
      ensures outcome != OutputFailed ==>
        match Apply(old(produced), t)
        case Some(next) => if t.Match? && t.distance > wSize then outcome == BadData && produced == old(produced)
                           else outcome == Done && produced == next
        case None => outcome == BadData && produced == old(produced)
      ensures outcome == OutputFailed ==>
        match Apply(old(produced), t)
        case Some(next) => !(t.Match? && t.distance > wSize) && put == 0 && produced <= next
        case None => false
    {
      hide CopyBack;
      var failed;
      match t
      case Literal(b) =>
        failed := Literal(b);
        outcome := if failed then OutputFailed else Done;
      case Match(length, distance) =>
        outcome := Match(length, distance);
      case Stored(data) =>
        failed := StoredBlock(data);
        outcome := if failed then OutputFailed else Done;
    }

    /** inflateBack from the first block to inf_leave.  Unless out() fails, it reports bad data exactly when
        some distance reaches before the start or out of the window, and what it has handed to out() is what
        the tokens up to there stand for; when out() fails, it is a beginning of that, and only then that is reported. */
    method Inflate(ts: seq<Token>) returns (outcome: Outcome, count: nat)
      requires Valid() && produced == [] && AllExpressible(ts, 0x8000)
      modifies this, window
      ensures count <= |ts|
      ensures old(refusals) <= refusals <= old(refusals) + 1
      ensures outcome == OutputFailed ==> refusals > old(refusals)
      ensures outcome == Done ==> refusals == old(refusals)
      ensures outcome == Done ==> count == |ts| && ReplayWithin(ts, wSize) == Some(delivered)
      ensures outcome == BadData ==>
        ReplayWithin(ts, wSize) == None && ReplayWithin(ts[..count], wSize) == Some(delivered)
      ensures outcome == OutputFailed && count == |ts| ==> ReplayWithin(ts, wSize) == Some(delivered)
      ensures outcome == OutputFailed && count < |ts| ==>
        match ReplayWithin(ts[..count + 1], wSize)
        case Some(out) => delivered <= out
        case None => false
    {
      hide Apply, ReplayWithin;
      count := 0;
      outcome := Done;
      NothingToReplay(ts, wSize);
      while count < |ts|
        invariant Valid() && count <= |ts| && outcome == Done && refusals == old(refusals)
        invariant ReplayWithin(ts[..count], wSize) == Some(produced)
      {
        assert ts[..count + 1] == ts[..count] + [ts[count]];
        ReplayWithinAppend(ts[..count], ts[count], wSize);
        outcome := Token(ts[count]);
        if outcome == BadData {
          FailureIsFinal(ts, count + 1, wSize);
        }
        if outcome != Done {
          break;
        }
        count := count + 1;
      }
      assert count == |ts| ==> ts[..count] == ts;
      assert wSize - left == put && (put == 0 ==> delivered == produced);
      if left < wSize {
        var failed := Out(wSize - left);
        if failed && outcome == Done {
          outcome := OutputFailed;
        }
      }
    }
  }
}
