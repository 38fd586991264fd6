/** inflate_fast: decoding with a bit accumulator and no bounds checks, copying from a window and the output. */
module InflateFast {
  import opened Bitwise
  import opened BitStream
  import opened Lz77
  import opened DecodeTables
  import opened Wrappers

  datatype Mode = LEN | TYPE | BAD

  class FastState {
    const tables: Tables
    const input: seq<byte>          // next_in: the rest of the input
    const window: array<byte>
    const output: array<byte>
    const beg: nat                  // where the caller's output starts

    var whave: nat
    var wnext: nat
    var inp: nat                    // bytes of the input taken
    var hold: nat
    var bits: nat
    var pos: nat                    // where the output continues
    var mode: Mode

    ghost var at: nat               // bits of the input decoded
    ghost const first: seq<byte>    // the output array at the start

    function WSize(): nat { window.Length }

    /** The window is a ring: full, or filled from its start. */
    ghost predicate Ring()
      reads this`whave, this`wnext
    {
      && whave <= WSize() && (whave == WSize() || wnext == whave)
      && (wnext < WSize() || wnext == 0)
    }

    /** Only what lies between the caller's output and here has been written. */
    ghost predicate Outside()
      reads this`pos, output
    {
      |first| == output.Length && forall i :: 0 <= i < output.Length && (i < beg || pos <= i) ==> output[i] == first[i]
    }

    ghost predicate Valid()
      reads this, output
    {
      && Sound(tables) && window != output
      && Ring() && Outside()
      && beg <= pos <= output.Length
      && Holds(input, inp, at, hold, bits) && bits <= 30
    }

    /** The state inflate() hands over: `start` is the room its caller's output had at first. */
    constructor (tables: Tables, input: seq<byte>, inp: nat, hold: nat, bits: nat, ghost at: nat,
                 window: array<byte>, whave: nat, wnext: nat, output: array<byte>, pos: nat, start: nat)
      requires Sound(tables) && window != output
      requires Holds(input, inp, at, hold, bits) && bits < 8
      requires whave <= window.Length && (whave == window.Length || wnext == whave)
      requires wnext < window.Length || wnext == 0
      requires pos <= output.Length && output.Length - pos <= start <= output.Length
      ensures Valid() && mode == LEN && first == output[..]
      ensures this.tables == tables && this.input == input && this.window == window && this.output == output
      ensures this.inp == inp && this.at == at && this.bits == bits && this.pos == pos
      ensures History() == (if whave == window.Length then window[wnext..] + window[..wnext] else window[..wnext])
                         + output[output.Length - start..pos]
    {
      this.tables, this.input, this.window, this.output := tables, input, window, output;
      this.inp, this.hold, this.bits, this.at, this.pos := inp, hold, bits, at, pos;
      this.whave, this.wnext, mode := whave, wnext, LEN;
      beg := pos - (start - (output.Length - pos));
      first := output[..];
    }

    /** The bytes before the output, oldest first. */
    ghost function WindowBytes(): seq<byte>
      requires Ring()
      reads this`whave, this`wnext, window
    {
      if whave == WSize() then window[wnext..] + window[..wnext] else window[..wnext]
    }

    /** Everything decoded that a distance may still reach. */
    ghost function History(): seq<byte>
      requires Ring() && beg <= pos <= output.Length
      reads this`whave, this`wnext, this`pos, window, output
    {
      WindowBytes() + output[beg..pos]
    }

    // ----- input

    method Pull()
      requires Valid() && inp < |input| && bits <= 22
      modifies this`inp, this`hold, this`bits
      ensures Valid() && inp == old(inp) + 1 && bits == old(bits) + 8
    {
      hide Sound;
      PullKeeps(input, inp, at, hold, bits);
      hide Holds;
      hold := hold + input[inp] * Pow2(bits);
      inp := inp + 1;
      bits := bits + 8;
    }

    method Drop(n: nat)
      requires Valid() && n <= bits
      modifies this`hold, this`bits, this`at
      ensures Valid() && bits == old(bits) - n && at == old(at) + n
    {
      hide Sound, Holds, Outside, Pow2;
      DropKeeps(input, inp, at, hold, bits, n);
      hold := Shr(hold, n);
      bits := bits - n;
      at := at + n;
    }

    /** The low n bits of the accumulator. */
    method Low(n: nat) returns (v: nat)
      requires Valid() && n <= bits
      ensures v == Peek(input, at, n) && v < Pow2(n)
    {
      hide Sound, Peek;
      MaskPeeks(input, inp, at, hold, bits, n);
      v := hold % Pow2(n);
    }

    /** if (bits < 15) two bytes are pulled, enough for any code. */
    method Fill15()
      requires Valid() && (bits < 15 ==> inp + 2 <= |input|)
      modifies this`inp, this`hold, this`bits
      ensures Valid() && bits >= 15 && inp == if old(bits) >= 15 then old(inp) else old(inp) + 2
    {
      if bits < 15 {
        Pull();
        Pull();
      }
    }

    /** Look up a code, through a sub-table when the root entry links to one. */
    method Fetch(t: seq<Code>, root: nat, lengths: bool) returns (here: Code)
      requires Valid() && WellFormed(t, root, lengths) && bits >= 15
      modifies this`hold, this`bits, this`at
      ensures Valid()
      ensures var f := LookUp(t, root, lengths, input, old(at));
        here == f.code && at == old(at) + f.used
      ensures Final(here, lengths)
    {
      hide Holds, Sound;
      var i := Low(root);
      here := t[i];
      assert RootEntry(t, here, lengths);
      Drop(here.bits);
      if KindOf(here.op, lengths) == SubTable {
        var j := Low(here.op);
        here := t[here.val + j];
        Drop(here.bits);
      }
    }

    // ----- copying

    /** n window bytes from `from` on are what lies `distance` back, as long as they last. */
    ghost predicate WindowSource(from: nat, n: nat, distance: nat)
      requires Ring() && beg <= pos <= output.Length
      reads this`whave, this`wnext, this`pos, window, output
    {
      && from + n <= WSize() && n <= distance <= |History()|
      && forall i :: from <= i < from + n ==> window[i] == History()[|History()| - distance + (i - from)]
    }

    /** One byte of output. */
    method Put(b: byte)
      requires Valid() && pos < output.Length
      modifies this`pos, output
      ensures Valid() && pos == old(pos) + 1
      ensures History() == old(History()) + [b]
      ensures WindowBytes() == old(WindowBytes())
    {
      hide Sound, Holds;
      ghost var before := output[beg..pos];
      output[pos] := b;
      pos := pos + 1;
      assert output[beg..pos] == before + [b];
      assert window[..] == old(window[..]);
    }

    /** One byte from the window. */
    method PutFromWindow(from: nat, n: nat, ghost distance: nat)
      requires Valid() && pos < output.Length && n > 0 && WindowSource(from, n, distance)
      modifies this`pos, output
      ensures Valid() && pos == old(pos) + 1
      ensures History() == old(History()) + [old(History()[|History()| - distance])]
      ensures WindowSource(from + 1, n - 1, distance)
    {
      hide Sound, Holds, Outside, WindowBytes;
      ghost var h := History();
      assert window[from] == h[|h| - distance];
      Put(window[from]);
      forall i | from + 1 <= i < from + n
        ensures window[i] == History()[|History()| - distance + (i - from - 1)]
      {
        assert window[i] == h[|h| - distance + (i - from)];
      }
    }

    /** One byte from the output itself, possibly just written. */
    method PutFromOutput(from: nat, ghost distance: nat)
      requires Valid() && pos < output.Length
      requires 1 <= distance <= pos - beg && from == pos - distance
      modifies this`pos, output
      ensures Valid() && pos == old(pos) + 1
      ensures 1 <= distance <= |old(History())|
      ensures History() == old(History()) + [old(History()[|History()| - distance])]
    {
      hide Sound, Holds, Outside, WindowBytes;
      assert History()[|History()| - distance] == output[from];
      Put(output[from]);
    }

    /** n bytes from the window, one after the other. */
    method CopyWindow(from0: nat, n: nat, distance: nat)
      requires Valid() && 0 < n && pos + n <= output.Length && WindowSource(from0, n, distance) && distance > 0
      modifies this`pos, output
      ensures Valid() && pos == old(pos) + n
      ensures distance <= |old(History())| && History() == CopyBack(old(History()), n, distance)
    {
      hide Sound, Holds, Outside, CopyBack, History;
      ghost var h := History();
      var from, op: nat := from0, n;
      while true
        invariant Valid() && 0 < op <= n && pos + op == old(pos) + n && WindowSource(from, op, distance)
        invariant distance <= |h| <= |History()| && CopyBack(History(), op, distance) == CopyBack(h, n, distance)
        decreases op
      {
        CopyBackStep(History(), op, distance);
        PutFromWindow(from, op, distance);
        from := from + 1;
        op := op - 1;
        if op == 0 {
          break;
        }
      }
      CopyBackNone(History(), distance);
    }

    /** The last bytes of a match from the window, three to a round. */
    method WindowTail(from0: nat, n: nat, distance: nat)
      requires Valid() && 0 < n && pos + n <= output.Length && WindowSource(from0, n, distance) && distance > 0
      modifies this`pos, output
      ensures Valid() && pos == old(pos) + n
      ensures distance <= |old(History())| && History() == CopyBack(old(History()), n, distance)
    {
      hide Sound, Holds, Outside, CopyBack, History;
      ghost var h := History();
      var from, len: nat := from0, n;
      while len > 2
        invariant Valid() && len <= n && pos + len == old(pos) + n && WindowSource(from, len, distance)
        invariant distance <= |h| <= |History()| && CopyBack(History(), len, distance) == CopyBack(h, n, distance)
      {
        CopyBackSplit(History(), 3, len - 3, distance);
        ThreeFromWindow(from, len, distance);
        from := from + 3;
        len := len - 3;
      }
      if len != 0 {
        CopyBackStep(History(), len, distance);
        PutFromWindow(from, len, distance);
        if len > 1 {
          CopyBackStep(History(), len - 1, distance);
          PutFromWindow(from + 1, len - 1, distance);
        }
      }
      CopyBackNone(History(), distance);
    }

    method ThreeFromWindow(from: nat, n: nat, distance: nat)
      requires Valid() && 3 <= n && pos + n <= output.Length && WindowSource(from, n, distance) && distance > 0
      modifies this`pos, output
      ensures Valid() && pos == old(pos) + 3 && WindowSource(from + 3, n - 3, distance)
      ensures distance <= |old(History())| && History() == CopyBack(old(History()), 3, distance)
    {
      hide Sound, Holds, Outside, CopyBack, History;
      CopyBackStep(History(), 3, distance);
      PutFromWindow(from, n, distance);
      CopyBackStep(History(), 2, distance);
      PutFromWindow(from + 1, n - 1, distance);
      CopyBackStep(History(), 1, distance);
      PutFromWindow(from + 2, n - 2, distance);
      CopyBackNone(History(), distance);
    }

    lemma Reaches(distance: nat)
      requires Ring() && beg <= pos <= output.Length && distance <= pos - beg
      ensures distance <= |History()|
    {
    }

    /** The rest of a match from the output, three to a round. */
    method OutputTail(n: nat, distance: nat)
      requires Valid() && pos + n <= output.Length && 1 <= distance <= pos - beg
      modifies this`pos, output
      ensures Valid() && pos == old(pos) + n
      ensures distance <= |old(History())| && History() == CopyBack(old(History()), n, distance)
    {
      hide Sound, Holds, Outside, CopyBack, History;
      Reaches(distance);
      ghost var h := History();
      var len: nat := n;
      var from: nat := pos - distance;
      while len > 2
        invariant Valid() && len <= n && pos + len == old(pos) + n && from + distance == pos && distance <= pos - beg
        invariant distance <= |h| <= |History()| && CopyBack(History(), len, distance) == CopyBack(h, n, distance)
      {
        CopyBackSplit(History(), 3, len - 3, distance);
        ThreeFromOutput(from, distance);
        from := from + 3;
        len := len - 3;
      }
      if len != 0 {
        CopyBackStep(History(), len, distance);
        PutFromOutput(from, distance);
        if len > 1 {
          CopyBackStep(History(), len - 1, distance);
          PutFromOutput(from + 1, distance);
        }
      }
      CopyBackNone(History(), distance);
    }

    method ThreeFromOutput(from: nat, distance: nat)
      requires Valid() && pos + 3 <= output.Length && 1 <= distance <= pos - beg && from + distance == pos
      modifies this`pos, output
      ensures Valid() && pos == old(pos) + 3
      ensures distance <= |old(History())| && History() == CopyBack(old(History()), 3, distance)
    {
      hide Sound, Holds, Outside, CopyBack, History;
      Reaches(distance);
      CopyBackStep(History(), 3, distance);
      PutFromOutput(from, distance);
      CopyBackStep(History(), 2, distance);
      PutFromOutput(from + 1, distance);
      CopyBackStep(History(), 1, distance);
      PutFromOutput(from + 2, distance);
      CopyBackNone(History(), distance);
    }

    /** Where the window keeps the byte d before the output. */
    ghost function Index(d: nat): nat
      requires Ring() && 1 <= d <= whave
      reads this`whave, this`wnext
    {
      if d <= wnext then wnext - d else WSize() + wnext - d
    }

    lemma WindowHolds(d: nat)
      requires Ring() && 1 <= d <= whave
      ensures |WindowBytes()| == whave && Index(d) < WSize() && WindowBytes()[whave - d] == window[Index(d)]
    {
      if whave == WSize() && wnext < d {
        assert WindowBytes()[whave - d] == window[wnext..][whave - d];
      }
    }

    /** The byte d before the output, in the history. */
    lemma HistoryHolds(d: nat)
      requires Ring() && beg <= pos <= output.Length && 1 <= d <= whave
      ensures |History()| == whave + (pos - beg) && Index(d) < WSize() && History()[whave - d] == window[Index(d)]
    {
      WindowHolds(d);
      hide WindowBytes, Index;
    }

    lemma IndexAdvances(op: nat, k: nat)
      requires Ring() && k < op <= whave && k < if op <= wnext then op else op - wnext
      ensures Index(op - k) == Index(op) + k
    {
    }

    /** Window bytes from the one `op` before the output on, up to the end of their stretch. */
    lemma SourceIs(n: nat, op: nat, distance: nat)
      requires Ring() && beg <= pos <= output.Length
      requires 1 <= op <= whave && distance == op + (pos - beg)
      requires n <= if op <= wnext then op else op - wnext
      ensures WindowSource(Index(op), n, distance)
    {
      hide History, Ring;
      HistoryHolds(op);
      if n > 0 {
        IndexAdvances(op, n - 1);
        HistoryHolds(op - (n - 1));
      }
      var h := History();
      hide Index;
      forall i | Index(op) <= i < Index(op) + n
        ensures window[i] == h[|h| - distance + (i - Index(op))]
      {
        var k := i - Index(op);
        IndexAdvances(op, k);
        HistoryHolds(op - k);
      }
    }

    /** A match that starts `op` bytes before the output, in one stretch, and goes on in the output. */
    method FromWindow(from: nat, op: nat, len: nat, distance: nat)
      requires Valid() && 0 < op && 0 < len && pos + len <= output.Length
      requires distance == op + (pos - beg) && WindowSource(from, if op < len then op else len, distance)
      modifies this`pos, output
      ensures Valid() && pos == old(pos) + len
      ensures distance <= |old(History())| && History() == CopyBack(old(History()), len, distance)
    {
      hide Sound, Holds, Outside, CopyBack, WindowBytes;
      if op < len {
        CopyBackSplit(History(), op, len - op, distance);
        CopyWindow(from, op, distance);
        OutputTail(len - op, distance);
      } else {
        WindowTail(from, len, distance);
      }
    }

    /** A match that starts in the older part of the window, which the newer part continues. */
    method AroundWindow(op: nat, len: nat, distance: nat)
      requires Valid() && 0 < wnext < op <= whave && 0 < len && pos + len <= output.Length
      requires distance == op + (pos - beg)
      modifies this`pos, output
      ensures Valid() && pos == old(pos) + len
      ensures distance <= |old(History())| && History() == CopyBack(old(History()), len, distance)
    {
      hide Sound, Holds, Outside, CopyBack, WindowBytes;
      var from := WSize() + wnext - op;
      var end := op - wnext;
      SourceIs(if end < len then end else len, op, distance);
      hide WindowSource;
      if end < len {
        CopyBackSplit(History(), end, len - end, distance);
        CopyWindow(from, end, distance);
        SourceIs(if wnext < len - end then wnext else len - end, wnext, distance);
        FromWindow(0, wnext, len - end, distance);
      } else {
        WindowTail(from, len, distance);
      }
    }

    /** Copy a match: three window cases, or directly from the output. */
    method CopyMatch(len: nat, distance: nat)
      requires Valid() && 3 <= len && pos + len <= output.Length && 1 <= distance <= whave + (pos - beg)
      modifies this`pos, output
      ensures Valid() && pos == old(pos) + len && Outside()
      ensures distance <= |old(History())| && History() == CopyBack(old(History()), len, distance)
    {
      hide Sound, Holds, Outside, CopyBack, WindowBytes;
      if distance > pos - beg {
        var op := distance - (pos - beg);
        if wnext == 0 {
          SourceIs(if op < len then op else len, op, distance);
          FromWindow(WSize() - op, op, len, distance);
        } else if wnext < op {
          AroundWindow(op, len, distance);
        } else {
          SourceIs(if op < len then op else len, op, distance);
          FromWindow(wnext - op, op, len, distance);
        }
      } else {
        CopyBackSplit(History(), 3, len - 3, distance);
        ThreeFromOutput(pos - distance, distance);
        OutputTail(len - 3, distance);
      }
    }

    // ----- one code

    /** Bits fetched are bits decoded and bits held, and they fit a 32-bit accumulator. */
    lemma Balance()
      requires Valid()
      ensures 8 * inp == at + bits && inp <= |input| && hold < Pow2(bits)
    {
      HoldFits(input, inp, at, hold, bits);
    }

    /** The length of a base entry with its extra bits, pulling a byte when they are not held. */
    method LengthOf(here: Code) returns (len: nat)
      requires Valid() && at + 5 <= 8 * |input|
      requires LengthKind(here.op) == Base && Final(here, true)
      modifies this`inp, this`hold, this`bits, this`at
      ensures Valid() && at == old(at) + Extra(here.op)
      ensures len == here.val + Peek(input, old(at), Extra(here.op)) && MIN_MATCH <= len <= MAX_MATCH
      ensures old(inp) <= inp && (inp == old(inp) || 8 * inp <= old(at) + 12)
    {
      hide Sound, Holds, Outside, Peek, Pow2;
      Balance();
      var x := here.op % 16;
      if bits < x {
        Pull();
      }
      var extra := Low(x);
      len := here.val + extra;
      Drop(x);
    }

    /** The distance of a base entry with its extra bits, pulling up to two bytes. */
    method DistanceOf(here: Code) returns (distance: nat)
      requires Valid() && at + 13 <= 8 * |input|
      requires DistanceKind(here.op) == Base && Final(here, false)
      modifies this`inp, this`hold, this`bits, this`at
      ensures Valid() && at == old(at) + Extra(here.op)
      ensures distance == here.val + Peek(input, old(at), Extra(here.op)) && distance >= 1
      ensures old(inp) <= inp && (inp == old(inp) || 8 * inp <= old(at) + 20)
    {
      hide Sound, Holds, Outside, Peek, Pow2;
      Balance();
      var y := here.op % 16;
      if bits < y {
        Pull();
        if bits < y {
          Pull();
        }
      }
      var extra := Low(y);
      distance := here.val + extra;
      Drop(y);
    }

    /** What an item does to the decoder: `before` is the history in front of it. */
    ghost predicate Obeys(item: Item, before: seq<byte>)
      requires Ring() && beg <= pos <= output.Length
      reads this`whave, this`wnext, this`pos, this`at, this`mode, window, output
    {
      match item
      case Item(token, next) =>
        && at == next
        && (match Apply(before, token)
            case Some(after) => mode == LEN && History() == after
            case None => mode == BAD && History() == before)
      case BlockEnd(next) => at == next && mode == TYPE && History() == before
      case Invalid(next) => at == next && mode == BAD && History() == before
    }

    /** The distance half of a match, once its length is known. */
    method Matched(len: nat)
      requires Valid() && mode == LEN && at + 28 <= 8 * |input| && pos + len <= output.Length
      requires MIN_MATCH <= len <= MAX_MATCH
      modifies this`inp, this`hold, this`bits, this`at, this`pos, this`mode, output
      ensures Valid() && old(pos) <= pos <= old(pos) + len
      ensures Obeys(DecodeDistance(tables, input, old(at), len), old(History()))
      ensures mode == LEN ==> pos > old(pos)
      ensures old(inp) <= inp && (inp == old(inp) || 8 * inp <= old(at) + 35)
    {
      hide Holds, Peek, Pow2, WellFormed, History, LookUp, Final, CopyBack;
      Balance();
      Fill15();
      Balance();
      var here := Fetch(tables.dcode, tables.droot, false);
      Balance();
      if DistanceKind(here.op) == Base {
        var distance := DistanceOf(here);
        HistoryLength();
        if distance > whave + (pos - beg) {
          mode := BAD;
        } else {
          CopyMatch(len, distance);
        }
      } else {
        mode := BAD;
      }
    }

    lemma HistoryLength()
      requires Ring() && beg <= pos <= output.Length
      ensures |History()| == whave + (pos - beg)
    {
    }

    /** The body of the main loop: one literal, match, end of block or error. */
    method One()
      requires Valid() && mode == LEN && inp + 6 <= |input| && pos + MAX_MATCH <= output.Length
      modifies this`inp, this`hold, this`bits, this`at, this`pos, this`mode, output
      ensures Valid() && old(pos) <= pos <= old(pos) + MAX_MATCH
      ensures old(inp) <= inp <= old(inp) + 6
      ensures Obeys(Decode(tables, input, old(at)), old(History()))
      ensures mode == LEN ==> pos > old(pos)
    {
      hide Holds, Peek, Pow2, WellFormed, History, LookUp, CopyBack, DecodeDistance, LengthKind, Extra;
      Balance();
      Fill15();
      Balance();
      var here := Fetch(tables.lcode, tables.lroot, true);
      Balance();
      match LengthKind(here.op) {
        case LiteralByte =>
          Put(here.val);
        case Base =>
          var len := LengthOf(here);
          Balance();
          Matched(len);
          Balance();
        case EndBlock =>
          mode := TYPE;
        case BadCode =>
          mode := BAD;
      }
    }

    // ----- the whole call

    /** in -= bits >> 3 and so on: whole unused bytes go back to the input. */
    method GiveBack()
      requires Valid()
      modifies this`inp, this`hold, this`bits
      ensures Valid() && bits < 8 && inp <= old(inp) && 8 * inp == at + bits
    {
      hide Sound;
      GiveBackKeeps(input, inp, at, hold, bits);
      Balance();
      hide Holds, Pow2;
      var n := bits / 8;
      inp := inp - n;
      bits := bits - 8 * n;
      hold := hold % Pow2(bits);
    }

    /** A token that cannot be applied reaches back too far. */
    static lemma TooFar(out: seq<byte>, item: Item)
      requires item.Item? ==> Expressible(item.token, 0x8000)
      ensures item.Item? && Apply(out, item.token) == None ==> item.token.Match? && item.token.distance > |out|
    {
      hide CopyBack;
    }

    /** Decode while at least six bytes of input and 258 bytes of output are left, to the end of the block or an
        error.  n tokens are decoded from bit c0 on, up to bit c. */
    method Run() returns (ghost c: nat, ghost n: nat, availIn: nat, availOut: nat)
      requires Valid() && mode == LEN && bits < 8 && inp + 6 <= |input| && pos + MAX_MATCH <= output.Length
      modifies this`inp, this`hold, this`bits, this`at, this`pos, this`mode, output
      ensures Valid() && bits < 8 && old(inp) <= inp && availIn == |input| - inp
      ensures old(pos) <= pos && availOut == output.Length - pos
      ensures var (ts, end) := DecodeTables.Run(tables, input, old(at), n);
        && |ts| == n && end == c
        && match ApplyAll(old(History()), ts)
           case None => false
           case Some(out) => if mode == LEN then at == c && History() == out
                             else Obeys(Decode(tables, input, c), out)
      ensures mode == TYPE ==> Decode(tables, input, c).BlockEnd?
      ensures mode == BAD ==>
        match Decode(tables, input, c)
        case Item(token, _) => token.Match? && token.distance > |History()|
        case BlockEnd(_) => false
        case Invalid(_) => true
      ensures mode == LEN ==> n > 0 && (availIn < 6 + 3 || availOut < MAX_MATCH)
    {
      hide Sound, Holds, Outside, Peek, Pow2, History, Decode, Apply;
      var inp0 := inp;
      var last: int := |input| - 5;
      var end: int := output.Length - 257;
      c, n := at, 0;
      ghost var ts: seq<Token> := [];
      ghost var out := History();
      Balance();
      while true
        invariant Valid() && mode == LEN && inp0 <= inp && old(pos) <= pos && at >= old(at)
        invariant inp + 6 <= |input| && pos + MAX_MATCH <= output.Length
        invariant at == c && |ts| == n && DecodeTables.Run(tables, input, old(at), n) == (ts, c)
        invariant History() == out && ApplyAll(old(History()), ts) == Some(out)
        decreases output.Length - pos
      {
        One();
        ghost var item := Decode(tables, input, c);
        if mode != LEN {
          TooFar(out, item);
          break;
        }
        ApplyAllSnoc(old(History()), ts, item.token);
        ts, n, c, out := ts + [item.token], n + 1, at, History();
        if !(inp < last && pos < end) {
          break;
        }
      }
      Balance();
      GiveBack();
      availIn := if inp < last then 5 + (last - inp) else 5 - (inp - last);
      availOut := if pos < end then 257 + (end - pos) else 257 - (pos - end);
    }
  }
}
