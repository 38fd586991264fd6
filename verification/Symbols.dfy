/** sym_buf: three bytes a symbol, written by the tally macros and read back by compress_block. */
module Symbols {
  import opened Bitwise
  import opened Lz77

  /** One entry as compress_block reads it: distance 0 means a literal. */
  function ReadSymbol(lo: byte, hi: byte, lc: byte): Token {
    var dist := lo + hi * 256;
    if dist == 0 then Literal(lc) else Match(lc + MIN_MATCH, dist)
  }

  function ReadSymbols(buf: seq<byte>): seq<Token> {
    if |buf| < 3 then [] else
      ReadSymbols(buf[..|buf| - 3]) + [ReadSymbol(buf[|buf| - 3], buf[|buf| - 2], buf[|buf| - 1])]
  }

  lemma ReadSymbolsAppend(buf: seq<byte>, lo: byte, hi: byte, lc: byte)
    ensures ReadSymbols(buf + [lo, hi, lc]) == ReadSymbols(buf) + [ReadSymbol(lo, hi, lc)]
  {
    assert (buf + [lo, hi, lc])[..|buf|] == buf;
  }

  lemma NoSymbols(buf: seq<byte>)
    requires buf == []
    ensures ReadSymbols(buf) == []
  {
  }

  lemma ReadSymbolsNext(buf: seq<byte>, sx: nat)
    requires sx + 3 <= |buf|
    ensures ReadSymbols(buf[..sx + 3]) == ReadSymbols(buf[..sx]) + [ReadSymbol(buf[sx], buf[sx + 1], buf[sx + 2])]
  {
    hide ReadSymbols, ReadSymbol;
    assert buf[..sx + 3] == buf[..sx] + [buf[sx], buf[sx + 1], buf[sx + 2]];
    ReadSymbolsAppend(buf[..sx], buf[sx], buf[sx + 1], buf[sx + 2]);
  }

  /** The casts to ush and uch of _tr_tally_dist lose nothing on the matcher's range. */
  lemma MatchSurvivesCasts(distance: nat, lc: nat)
    requires 1 <= distance < 0x1_0000 && lc < 256
    ensures var dist := distance % 0x1_0000;
      ReadSymbol(dist % 256, dist / 256 % 256, lc % 256) == Match(lc + MIN_MATCH, distance)
  {
  }
}
