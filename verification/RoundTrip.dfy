/** Compression followed by decompression, at the level of tokens. */
module RoundTrip {
  import opened Bitwise
  import opened Lz77
  import opened Deflate
  import opened InflateBack
  import opened Wrappers

  /** One call of deflate: the input added before it and the flush requested. */
  datatype Call = Call(data: seq<byte>, flush: Flush)

  function Inputs(calls: seq<Call>): seq<byte>
  {
    if calls == [] then [] else Inputs(calls[..|calls| - 1]) + calls[|calls| - 1].data
  }

  /** Feed the compressor any input in any pieces, until it reports that it has finished; it has when the last call asks
      for a finish, unless some flush found the output space used up. */
  method Compress(d: DeflateState, calls: seq<Call>) returns (n: nat)
    requires d.Valid() && !d.finished && d.Input() == []
    modifies d, d.window, d.head, d.prev, d.symBuf
    ensures n <= |calls| && d.Valid() && d.Input() == Inputs(calls[..n])
    ensures n < |calls| ==> d.finished
    ensures calls != [] && calls[|calls| - 1].flush == Finish && d.starved == old(d.starved) ==> d.finished
    ensures 0 <= d.Done() <= |d.Input()| && Replay(d.tallied) == Some(Inputs(calls[..n])[..d.Done()])
    ensures |d.Input()| - d.Done() == d.lookahead + |d.nextIn| + if d.IsLazy() && d.matchAvailable then 1 else 0
    ensures d.finished ==> Replay(d.out) == Some(Inputs(calls[..n])) && Replay(d.tallied) == Some(Inputs(calls[..n]))
    ensures AllExpressible(d.out, d.MaxDist()) && AllExpressible(d.tallied, d.MaxDist())
  {
    n := 0;
    while n < |calls| && !d.finished
      invariant n <= |calls| && d.Valid() && d.Input() == Inputs(calls[..n]) && d.starved >= old(d.starved)
      invariant n > 0 && calls[n - 1].flush == Finish && d.starved == old(d.starved) ==> d.finished
    {
      hide *;
      InputsNext(calls, n);
      d.Provide(calls[n].data);
      var _ := d.Deflate(calls[n].flush);
      n := n + 1;
    }
    OutputIsExpressible(d);
    TalliedSoFar(d);
    FinishedIsComplete(d);
  }

  lemma InputsNext(calls: seq<Call>, n: nat)
    requires n < |calls|
    ensures Inputs(calls[..n + 1]) == Inputs(calls[..n]) + calls[n].data
  {
    assert calls[..n + 1][..n] == calls[..n];
  }

  lemma OutputIsExpressible(d: DeflateState)
    requires d.Valid()
    ensures AllExpressible(d.out, d.MaxDist()) && AllExpressible(d.tallied, d.MaxDist())
  {
    assert forall i :: 0 <= i < |d.out| ==> (d.out + d.Pending())[i] == d.out[i];
  }

  /** Between any two calls the tokens tallied expand to the input up to strstart, less one byte while a lazy
      match is available; what they do not cover yet is lookahead and input that has not been read. */
  lemma TalliedSoFar(d: DeflateState)
    requires d.Valid()
    ensures 0 <= d.Done() <= |d.Input()| && Replay(d.tallied) == Some(d.Input()[..d.Done()])
    ensures |d.Input()| - d.Done() == d.lookahead + |d.nextIn| + if d.IsLazy() && d.matchAvailable then 1 else 0
  {
    assert d.text[..d.Done()] == d.Input()[..d.Done()];
  }

  lemma FinishedIsComplete(d: DeflateState)
    requires d.Valid()
    ensures d.finished ==> Replay(d.out) == Some(d.Input()) && Replay(d.tallied) == Some(d.Input())
  {
  }

  lemma LargerDistanceExpressible(ts: seq<Token>, small: nat, large: nat)
    requires AllExpressible(ts, small) && small <= large
    ensures AllExpressible(ts, large)
  {
  }

  /** What the compressor has flushed, the decoder turns back into the input, on a window of the same size:
      every distance check passes, and only a call of out() that fails can stop it. */
  method Decompress(d: DeflateState) returns (outcome: Outcome, output: seq<byte>, ghost refused: bool)
    requires d.Valid() && d.Complete()
    ensures outcome == if refused then OutputFailed else Done
    ensures if refused then output <= d.Input() else output == d.Input()
  {
    OutputIsExpressible(d);
    EnoughHistory(d.out, d.MaxDist());
    LargerDistanceExpressible(d.out, d.MaxDist(), d.wSize);
    EnoughHistory(d.out, d.wSize);
    LargerDistanceExpressible(d.out, d.wSize, 0x8000);
    var b := new InflateState(d.wSize);
    var count;
    outcome, count := b.Inflate(d.out);
    ReplayGrows(d.out, if count < |d.out| then count + 1 else count, d.wSize);
    assert d.out[..|d.out|] == d.out;
    output, refused := b.delivered, b.refusals > 0;
  }
}
