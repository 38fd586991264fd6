# Models of the vendored codecs

Dafny models of the libraries this repository carries with it, and proofs of what they are for:

* **DEFLATE matching and expansion** (zlib 1.3.1; RFC 1951, sections 2 and 3.2.5). `RollingHash`, `HashChains`,
  `MatchSearch`, `Lz77` and `Symbols` are the definitions; `Deflate` is the compressor as a class over its window,
  hash and symbol arrays, with a ghost copy of all input; `InflateBack` is the decoder with a circular window;
  `RoundTrip` puts them together. `BitStream`, `DecodeTables` and `InflateFast` are the fast decoder.
* **Checksums** (RFC 1950, section 8.2; RFC 1952, section 8). `CrcField` and `Polynomials` are the arithmetic of
  polynomials over GF(2) modulo the CRC's polynomial, `CrcSpec` the byte-at-a-time CRC, `PowerTable` the fact that
  32 squarings of x give x, `CrcMeaning` that the register is a remainder of polynomials, `Crc32` the tables and
  combining, `CrcWords`, `Braiding`, `CrcStream` and `CrcBigEndian` the braided calculation. `Adler32` is the other
  checksum.
* **UTF-8 and Unicode normalization** (utf8proc 2.8.0; RFC 3629, sections 3 and 4; the Unicode Standard, sections 3.11
  and 3.12; UAX #29, section 3.1.1). `Utf8`, `Reencode`, `CanonicalOrder`, `Composition`, joined by `Utf8Map`, and
  `Graphemes`.
* **KMIP messages** (KMIP 1.0, section 9.1). `BigEndian` and `Ttlv` are the format, `KmipWriter` and `KmipReader` the
  code, `KmipRoundTrip` the two together; `RequestStr` and `Growth` are the string buffer they write to, `Paths` the
  path normalizer built on it, and `DotSegments` the algorithm of RFC 3986 it is compared with.
* **The buffered gzip reader**. `GzStream` says what the uncompressed contents of a file are, `GzReader` is the reader,
  `GzCursor` what its caller sees, and `GzRuns` puts any calls in a row.

`Bitwise` and `Wrappers` hold powers of two with exclusive-or, and an option type.

Code that changes state is modelled as methods on classes and arrays with the source's own fields; each is proved
against a function of its inputs or of the old state, and what the source promises is proved of those functions.
Bytes and unsigned words are natural numbers, or bit-vectors in the CRC modules. Masks and shifts by powers of two are
written as remainders, quotients and products; 32-bit wrap-around is written out where it can happen (`Deflate.Minus`).

## Main results

* `RoundTrip.Compress` and `RoundTrip.Decompress`: whatever the input, split over calls in any way, the tokens expand to
  it, and the decoder gives it back.
* `Deflate.DeflateState.LongestMatch`: the matcher's shortcuts find what comparing every candidate in full finds.
* `InflateFast.FastState.Run`, `DecodeTables.DecodeByOp`: decoding without bounds checks, with unrolled copies, is decoding
  item by item, each item what the op values of its entries say.
* `CrcBigEndian.EndianTables.Crc32Z`, `Crc32.Combine`, `CrcMeaning.Crc32IsRemainder`: braided, combined and
  byte-at-a-time CRC are one, the complemented remainder of the message polynomial.
* `Adler32.Adler32Z`, `Adler32.SumsAre`, `Adler32.Combine`: deferred reduction, the closed form, and combination.
* `Utf8.AcceptedIffEncoded`, `Reencode.Encode`: exactly the encodings of scalar values are accepted, and re-encoding in
  place reads everything before it is overwritten.
* `CanonicalOrder.Order`, `Composition.ComposingKeepsText`: ordering is a stable sort, and composing keeps the text
  exactly when no U+11A7 follows a leading consonant and a vowel. `Composition.NfcLeavesNothing`: nothing that composes
  is left.
* `Utf8Map.Map`: from bytes to bytes, the result decodes to the normal form of the input.
* `Graphemes.Breaker.Extended`, `Graphemes.ResetIsSafe`: one word of state decides every boundary.
* `KmipRoundTrip.WriteAndRead`, `KmipReader.SearchMeans`: every message is read back, and searches find the first match;
  `Ttlv.Examples` are the examples of the standard.
* `Paths.NormalizedIsIdempotent`, `DotSegments.NormalizerFollows`: normal forms, and where they are those of the RFC.
* `GzRuns.PerformAll`, `GzRuns.OpenAndPerform`: over any run of calls the reader is a cursor in the uncompressed contents.

## Findings

* Composition is not canonically equivalent to its input for every decomposed text: the test for trailing consonants
  also accepts U+11A7, which is none, so L, V, U+11A7 composes to LV and the last code point is lost
  (`Composition.Counterexample`). `Composition.ComposingKeepsText` shows that this is the only way it fails.
* For calls without a state the documentation of `utf8proc_grapheme_break_stateful` names rules that are not applied.
  `Graphemes.SimpleIsWrongOnlyThere` says exactly when the answers differ from the rules: at GB11
  (`Graphemes.JoinedPictographs`), and before a regional indicator that opens a new pair (`Graphemes.TwoFlags`).
* The path normalizer cites RFC 3986, section 5.2.4, but a final "/." or "/.." leaves no slash, repeated slashes are
  folded, and a relative path that ".." has emptied stays relative (`DotSegments.FinalDotDiffers`,
  `DotSegments.RepeatedSlashDiffers`, `DotSegments.EmptiedDiffers`). `DotSegments.NormalizerFollows` gives the exact
  paths on which it does what the RFC says, `DotSegments.PlainPathsFollow` a simple kind of them.
* `gzseek64` cancels a pending seek before it checks the new target, so a refused seek loses the pending one
  (`GzRuns.RefusedSeekLosesPending`); and after bytes were pushed back at the start of a file a target before the start
  can be accepted (`GzRuns.SeekBeforeStart`), where the value returned may be the one that stands for failure.
  `GzReader.GzState.GzSeek` and `GzCursor.SeekLeads` state exactly when.
* `gzungetc` with a full output buffer is a fatal error that drops what was ready (`GzRuns.PushUntilFull`);
  `GzReader.GzState.GzUngetc` says exactly when that happens. One byte can always be pushed back when none is waiting
  (`GzCursor.PushBackSucceeds`).
* The documentation of `gzungetc` says that a byte pushed back is discarded by `gzseek`. It is not when the seek skips
  fewer bytes than were pushed back and the file is not being copied to a position in it, for example by a seek by
  nothing (`GzRuns.SeekKeepsPushed`). `GzCursor.SeekDiscards` says exactly which bytes are left.
* The assertion in `kmip_writer_begin_struct` looks at the index before it is incremented, so it lets a tenth open
  structure through although the position stack has room for nine (`KmipWriter.OpenTen`).
  `KmipWriter.Writer.GuardAndBounds`: the assertion always holds, and the write is in bounds if and only if fewer than
  nine structures are open.
* `kmip_reader_find_and_recurse` takes the length it finds without checking it (`KmipReader.EscapesParent`); the exact
  condition under which the reader stays inside its data is part of `KmipReader.Reader.FindAndRecurse`.
* `kmip_dump_recursive_xml` ignores the results of the reads, so a value that is cut short is printed without having been
  read (`KmipReader.CutShort`), and a structure that does not fit is walked over with the reader that the one before it
  left, if there was one (`KmipReader.OldReader`). `KmipReader.UnreadExactly` says on which data a value is used that was
  never set.
* `adler32` keeps its sums below 65521 for every checksum it continues from, but continuing from another word with a
  single byte can leave the upper sum one modulus too high (`Adler32.OneTooHigh`); `Adler32.Adler32Z` says exactly when.

## Model

| member | source | states |
|---|---|---|
| RoundTrip.Compress | investigations/print-invalid-arrays/mongo-c-driver-2.2.1/src/zlib-1.3.1/deflate.c:946-1220 | Whatever the input and however it is split over calls and flushes, the tokens tallied always expand to exactly the input up to strstart (less one byte while a lazy match is available); after a finish the flushed blocks and the tokens expand to all of it; every distance is in 1..MAX_DIST and every length in 3..258; if the last call asks for a finish and no flush on the way found the output space used up, it has finished |
| RoundTrip.TalliedSoFar | investigations/print-invalid-arrays/mongo-c-driver-2.2.1/src/zlib-1.3.1/deflate.c:1811-2030 | Between any two calls the tallied tokens replay to the input up to strstart minus match_available, and exactly lookahead, unread input and the byte held back are still uncovered |
| RoundTrip.Decompress | investigations/print-invalid-arrays/mongo-c-driver-2.2.1/src/zlib-1.3.1/infback.c:499-592 | What the compressor flushed goes through the circular window of the same size without failing a distance check, and the chunks handed to out() concatenate to the original input when no call of out() fails; when one fails that is reported, and they are a beginning of it |
| RoundTrip.OutputIsExpressible | investigations/print-invalid-arrays/mongo-c-driver-2.2.1/src/zlib-1.3.1/deflate.h:290-298 | Every back-reference ever flushed or tallied keeps within MAX_DIST and 3..258 |
| Deflate.DeflateState.Deflate | investigations/print-invalid-arrays/mongo-c-driver-2.2.1/src/zlib-1.3.1/deflate.c:1177-1220 | One call of the compressor loses and adds no input; when it reports BlockDone or a finish everything given so far has been read, handled and flushed, and the output replays to it; it is finished exactly when the flush was Finish and no more output room was needed; NeedMore is answered only when a flush of this call found no space or no flush was asked for and too little input is ahead; a completed sync or full flush ends the output with an empty stored block, and a full one leaves dictionary and window empty |
| Deflate.DeflateState.DeflateFast | investigations/print-invalid-arrays/mongo-c-driver-2.2.1/src/zlib-1.3.1/deflate.c:1811-1902 | deflate_fast keeps its state invariant (window, chains, running hash, output) and the input; any answer but NeedMore means all input is in the flushed output; it asks for more only when a flush of this call found the output space used up, with nothing pending then, or when no flush was asked for, all input is read and fewer than MIN_LOOKAHEAD bytes are ahead; it starts a finish without ending it only for want of space |
| Deflate.DeflateState.FastStep | investigations/print-invalid-arrays/mongo-c-driver-2.2.1/src/zlib-1.3.1/deflate.c:1826-1892 | One round tallies the longest match of the chain of the current key when there is one (a literal otherwise), inserts exactly the strings of a match no longer than max_lazy_match (only the first of a longer one), and moves strstart behind it |
| Deflate.DeflateState.GreedyTakes | investigations/print-invalid-arrays/mongo-c-driver-2.2.1/src/zlib-1.3.1/deflate.c:1845-1855 | A match is tallied, not a literal, whenever the latest inserted string with the same key is in reach and repeats three bytes, and it is at least as long as that repetition |
| Deflate.DeflateState.DeflateSlow | investigations/print-invalid-arrays/mongo-c-driver-2.2.1/src/zlib-1.3.1/deflate.c:1910-2030 | deflate_slow keeps its invariant, which holds the kept match to the string at strstart-1 even when that start has slid to index -1; any answer but NeedMore means all input is in the flushed output and no byte is held back; it asks for more only when a flush of this call found the output space used up, with nothing pending then, or when no flush was asked for, all input is read and fewer than MIN_LOOKAHEAD bytes are ahead |
| Deflate.DeflateState.SlowStep | investigations/print-invalid-arrays/mongo-c-driver-2.2.1/src/zlib-1.3.1/deflate.c:1929-2014 | One round tallies the previous match exactly when the current one is not longer, else the byte before strstart if one is held back, and keeps the length chosen by the max_lazy, TOO_FAR and Z_FILTERED rules for the next round |
| Deflate.DeflateState.LastByte | investigations/print-invalid-arrays/mongo-c-driver-2.2.1/src/zlib-1.3.1/deflate.c:2017-2021 | At the end of the input exactly the byte held back is tallied |
| Deflate.DeflateState.DeflateRle | investigations/print-invalid-arrays/mongo-c-driver-2.2.1/src/zlib-1.3.1/deflate.c:2038-2103 | deflate_rle keeps the output a replay of the text; any answer but NeedMore means all input is in the flushed output; it asks for more only when a flush of this call found the output space used up, with nothing pending then, or when no flush was asked for, all input is read and at most MAX_MATCH bytes are ahead |
| Deflate.DeflateState.RunStep | investigations/print-invalid-arrays/mongo-c-driver-2.2.1/src/zlib-1.3.1/deflate.c:2060-2093 | One round tallies the whole run of the byte before strstart as a match of distance 1 when it is at least three long, else that byte |
| Deflate.DeflateState.RunLength | investigations/print-invalid-arrays/mongo-c-driver-2.2.1/src/zlib-1.3.1/deflate.c:2062-2076 | The unrolled scan finds the exact run length, at most 258, and reads initialised window bytes only |
| Deflate.DeflateState.DeflateHuff | investigations/print-invalid-arrays/mongo-c-driver-2.2.1/src/zlib-1.3.1/deflate.c:2109-2139 | deflate_huff keeps the output a replay of the text; any answer but NeedMore means all input is in the flushed output; it asks for more only when a flush of this call found the output space used up, with nothing pending then, or when no flush was asked for, all input is read and no byte is ahead |
| Deflate.DeflateState.EndOfInput | investigations/print-invalid-arrays/mongo-c-driver-2.2.1/src/zlib-1.3.1/deflate.c:1893-1901 | The common end: the last two strings, or the only one, are left to be inserted later, everything is flushed, and the job is complete unless output room is missing |
| Deflate.DeflateState.FillWindow | investigations/print-invalid-arrays/mongo-c-driver-2.2.1/src/zlib-1.3.1/deflate.c:251-368 | The window keeps equal to the latest input through slides and reads; there is enough lookahead unless input ran out; strstart ends at or before window_size - MIN_LOOKAHEAD; bytes up to WIN_INIT beyond the data are initialised; a kept match keeps its distance |
| Deflate.DeflateState.Slide | investigations/print-invalid-arrays/mongo-c-driver-2.2.1/src/zlib-1.3.1/deflate.c:277-290 | Moving the upper half down with everything that points into it keeps window, chains, hash and the distance to match_start, which may wrap below zero |
| Deflate.DeflateState.SlideHash | investigations/print-invalid-arrays/mongo-c-driver-2.2.1/src/zlib-1.3.1/deflate.c:187-209 | After slide_hash both tables describe the chains of the window that starts w_size later |
| Deflate.DeflateState.InsertPending | investigations/print-invalid-arrays/mongo-c-driver-2.2.1/src/zlib-1.3.1/deflate.c:306-325 | Strings left over from the last flush are inserted as soon as three bytes are in sight, and the running hash is ready again |
| Deflate.DeflateState.ReadBuf | investigations/print-invalid-arrays/mongo-c-driver-2.2.1/src/zlib-1.3.1/deflate.c:218-239 | read_buf takes min(size, available) bytes, appends them to the data in the window and keeps the chains |
| Deflate.DeflateState.ZeroBeyondData | investigations/print-invalid-arrays/mongo-c-driver-2.2.1/src/zlib-1.3.1/deflate.c:332-364 | After the high_water step every byte up to WIN_INIT behind the data (or the window end) is initialised, and no data byte changed |
| Deflate.DeflateState.InsertString | investigations/print-invalid-arrays/mongo-c-driver-2.2.1/src/zlib-1.3.1/deflate.c:160-164 | INSERT_STRING yields the latest earlier inserted string with the same key, makes the new string the head, links it to the old head, and keeps every chain right |
| Deflate.DeflateState.LongestMatch | investigations/print-invalid-arrays/mongo-c-driver-2.2.1/src/zlib-1.3.1/deflate.c:1348-1489 | The four-byte rejection, the skipped third byte and the unrolled scan give the same length and start as comparing every candidate of the chain in full, cut to the lookahead; a match longer than prev_length really repeats the text within MAX_DIST |
| Deflate.DeflateState.LatestIsMatched | investigations/print-invalid-arrays/mongo-c-driver-2.2.1/src/zlib-1.3.1/deflate.c:1833-1849 | A match is found whenever the latest inserted string with the same key is in reach, and it is at least as long as that with it |
| Deflate.DeflateState.ThirdByteAgrees | investigations/print-invalid-arrays/mongo-c-driver-2.2.1/src/zlib-1.3.1/deflate.c:1446-1453 | A candidate of the chain that agrees on two bytes agrees on the third, because both have the same hash key |
| Deflate.DeflateState.LinkIsCandidate | investigations/print-invalid-arrays/mongo-c-driver-2.2.1/src/zlib-1.3.1/deflate.c:1484-1485 | The link of a candidate, when above the limit, is an older position inserted under the same key: positions strictly decrease |
| Deflate.DeflateState.ScanMatch | investigations/print-invalid-arrays/mongo-c-driver-2.2.1/src/zlib-1.3.1/deflate.c:1452-1469 | The loop unrolled eight times finds the exact common length and never reads an uninitialised byte |
| Deflate.DeflateState.TallyLit | investigations/print-invalid-arrays/mongo-c-driver-2.2.1/src/zlib-1.3.1/deflate.h:351-358 | One literal more is pending, the output stands for one byte more, and the flush flag means the symbol buffer is full |
| Deflate.DeflateState.TallyDist | investigations/print-invalid-arrays/mongo-c-driver-2.2.1/src/zlib-1.3.1/deflate.h:359-369 | A repetition of the text becomes a match symbol that reads back with the same length and distance in spite of the casts |
| Deflate.DeflateState.CompressBlock | investigations/print-invalid-arrays/mongo-c-driver-2.2.1/src/zlib-1.3.1/trees.c:906-917 | Reading the symbol buffer back gives exactly the pending tokens, in order |
| Deflate.DeflateState.FlushBlock | investigations/print-invalid-arrays/mongo-c-driver-2.2.1/src/zlib-1.3.1/deflate.c:1589-1604 | Either the pending tokens or a stored block of the window bytes from block_start goes out, and the output still stands for the text; nothing is pending afterwards, and it is counted when no space is left |
| Deflate.DeflateState.ForgetHistory | investigations/print-invalid-arrays/mongo-c-driver-2.2.1/src/zlib-1.3.1/deflate.c:1211-1218 | Z_FULL_FLUSH forgets the dictionary and empties the window without disturbing what has been output |
| Deflate.DeflateState.EmptyBlock | investigations/print-invalid-arrays/mongo-c-driver-2.2.1/src/zlib-1.3.1/deflate.c:1202-1206 | The flush marker adds nothing to what the output expands to |
| Deflate.DeflateState.constructor | investigations/print-invalid-arrays/mongo-c-driver-2.2.1/src/zlib-1.3.1/deflate.c:673-692 | A new compressor satisfies the invariant for every level 1..9, strategy, window size and hash size, with no input and no output |
| Symbols.MatchSurvivesCasts | investigations/print-invalid-arrays/mongo-c-driver-2.2.1/src/zlib-1.3.1/deflate.h:359-369 | The casts to 16 and 8 bits lose nothing for distances below 2^16 and lengths 3..258 |
| RollingHash.KeyFixesThirdByte | investigations/print-invalid-arrays/mongo-c-driver-2.2.1/src/zlib-1.3.1/deflate.c:1446-1453 | Two strings with the same first two bytes and the same key have the same third byte, for every hash_bits in 8..16 |
| RollingHash.OldestByteForgotten | investigations/print-invalid-arrays/mongo-c-driver-2.2.1/src/zlib-1.3.1/deflate.c:135-141 | After three updates the oldest byte takes no part in the key, whatever the hash was before |
| HashChains.InsertKeepsChains | investigations/print-invalid-arrays/mongo-c-driver-2.2.1/src/zlib-1.3.1/deflate.c:160-164 | Inserting a newer string keeps head and prev right for every string whose slot cannot have been reused |
| HashChains.LinkLeads | investigations/print-invalid-arrays/mongo-c-driver-2.2.1/src/zlib-1.3.1/deflate.c:1484-1485 | The link of an inserted string leads only to an older inserted string with the same key |
| HashChains.SlideKeepsChains | investigations/print-invalid-arrays/mongo-c-driver-2.2.1/src/zlib-1.3.1/deflate.c:187-209 | Saturating subtraction in both tables keeps every chain of the part of the text still in the window |
| HashChains.ClearedChains | investigations/print-invalid-arrays/mongo-c-driver-2.2.1/src/zlib-1.3.1/deflate.c:170-175 | CLEAR_HASH leaves no chain, wherever the window starts then |
| MatchSearch.SearchIsSound | investigations/print-invalid-arrays/mongo-c-driver-2.2.1/src/zlib-1.3.1/deflate.c:1393-1485 | The plain search returns a real match behind the limit that is strictly longer than asked for, or the best it was given |
| MatchSearch.SearchIsLongest | investigations/print-invalid-arrays/mongo-c-driver-2.2.1/src/zlib-1.3.1/deflate.c:1393-1485 | The search finds the longest match of the chain and of equally long ones the nearest, unless a match of nice length ends it |
| Lz77.MatchIsRight | investigations/print-invalid-arrays/mongo-c-driver-2.2.1/src/zlib-1.3.1/infback.c:573-591 | A back-reference gives the right text exactly when the text repeats there at that distance, overlapping or not |
| Lz77.EnoughHistory | investigations/print-invalid-arrays/mongo-c-driver-2.2.1/src/zlib-1.3.1/infback.c:565-570 | A decoder with a history of at least the largest distance expands a token stream to what it stands for |
| InflateBack.InflateState.Inflate | investigations/print-invalid-arrays/mongo-c-driver-2.2.1/src/zlib-1.3.1/infback.c:242-615 | Unless out() fails, bad data is reported exactly when some distance reaches before the start or out of the window, and what out() received is the expansion of the tokens before it; when out() fails, what it received is a beginning of the expansion; a failure of out() is reported only when a call of out() failed, and when none did the outcome is success or bad data |
| InflateBack.InflateState.Match | investigations/print-invalid-arrays/mongo-c-driver-2.2.1/src/zlib-1.3.1/infback.c:565-592 | The check refuses exactly the distances beyond the bytes produced and still in the window; otherwise the copy around the circular window appends what a byte-at-a-time copy would |
| InflateBack.InflateState.ReachIsHistory | investigations/print-invalid-arrays/mongo-c-driver-2.2.1/src/zlib-1.3.1/infback.c:565-570 | wsize - (whave < wsize ? left : 0) is min(bytes produced, wsize) |
| InflateBack.InflateState.Room | investigations/print-invalid-arrays/mongo-c-driver-2.2.1/src/zlib-1.3.1/infback.c:202-213 | ROOM makes room by handing over the full window, and does nothing when there is room |
| InflateBack.InflateState.Literal | investigations/print-invalid-arrays/mongo-c-driver-2.2.1/src/zlib-1.3.1/infback.c:499-509 | A literal adds one byte, or nothing when out() fails |
| InflateBack.InflateState.StoredBlock | investigations/print-invalid-arrays/mongo-c-driver-2.2.1/src/zlib-1.3.1/infback.c:327-342 | A stored block arriving in pieces as large as input and window allow is appended whole |
| InflateBack.InflateState.Token | investigations/print-invalid-arrays/mongo-c-driver-2.2.1/src/zlib-1.3.1/infback.c:499-592 | One token is expanded as the abstract history says, or refused without a change |
| InflateFast.FastState.Run | investigations/print-invalid-arrays/mongo-c-driver-2.2.1/src/zlib-1.3.1/inffast.c:98-302 | The loop decodes n items of the bit stream and expands the tokens against window and output as the plain definition does; on exit bits < 8, no whole byte is kept back, the input pointer is not before its entry value, and the counters are exact; it stops between items only when fewer than 258 bytes of output, or but a few bytes of input, are left; TYPE is entered exactly at an end of block, BAD at an invalid code or a distance beyond the history |
| InflateFast.FastState.One | investigations/print-invalid-arrays/mongo-c-driver-2.2.1/src/zlib-1.3.1/inffast.c:100-286 | One iteration takes at most 6 input bytes and writes at most 258, and does what the decoded item says |
| InflateFast.FastState.CopyMatch | investigations/print-invalid-arrays/mongo-c-driver-2.2.1/src/zlib-1.3.1/inffast.c:166-261 | For every distance within the window and output history the three window cases and the copies unrolled by three append exactly what a one-byte-at-a-time copy from the history would, and nothing else of the output is written |
| InflateFast.FastState.Fetch | investigations/print-invalid-arrays/mongo-c-driver-2.2.1/src/zlib-1.3.1/inffast.c:107-112 | One root lookup and at most one sub-table lookup find the code at the current bit and use exactly its bits |
| InflateFast.FastState.GiveBack | investigations/print-invalid-arrays/mongo-c-driver-2.2.1/src/zlib-1.3.1/inffast.c:289-302 | Whole unused bytes go back to the input: fewer than 8 bits stay and they are still the next ones of the stream |
| InflateFast.FastState.constructor | investigations/print-invalid-arrays/mongo-c-driver-2.2.1/src/zlib-1.3.1/inffast.c:77-96 | The history is the window from its oldest byte on, followed by the output since the call of inflate |
| BitStream.PullKeeps | investigations/print-invalid-arrays/mongo-c-driver-2.2.1/src/zlib-1.3.1/inffast.c:102-105 | Adding a byte above the bits held keeps hold equal to the next bits of the data |
| BitStream.DropKeeps | investigations/print-invalid-arrays/mongo-c-driver-2.2.1/src/zlib-1.3.1/inffast.c:109-111 | Shifting bits out keeps hold equal to the next bits of the data |
| BitStream.MaskPeeks | investigations/print-invalid-arrays/mongo-c-driver-2.2.1/src/zlib-1.3.1/inffast.c:107 | Masking reads exactly the next n bits of the data |
| BitStream.GiveBackKeeps | investigations/print-invalid-arrays/mongo-c-driver-2.2.1/src/zlib-1.3.1/inffast.c:289-293 | Giving back bits/8 whole bytes keeps the rest of hold the next bits, and never goes before the first byte |
| DecodeTables.LookUp | investigations/print-invalid-arrays/mongo-c-driver-2.2.1/src/zlib-1.3.1/inftrees.h:24-36 | In a well-formed table every lookup ends in a final entry within 15 bits |
| DecodeTables.Decode | investigations/print-invalid-arrays/mongo-c-driver-2.2.1/src/zlib-1.3.1/inffast.c:100-286 | An item of the bit stream uses at most 48 bits and is a token DEFLATE can express |
| DecodeTables.DecodeByOp | investigations/print-invalid-arrays/mongo-c-driver-2.2.1/src/zlib-1.3.1/inftrees.h:24-36 | For every table and bit stream, told by the op values alone: 0 is a literal with its val, 0001eeee a length of val plus the next e bits with a distance behind it, 96 the end of the block, 64 (and the ops of symbols 286 and 287) an invalid code, and 1 to 15 a link to the entry chosen by as many bits |
| DecodeTables.DistanceByOp | investigations/print-invalid-arrays/mongo-c-driver-2.2.1/src/zlib-1.3.1/inftrees.h:24-36 | The same for distance codes: 0001eeee is a distance of val plus the next e bits, 64 an invalid code |
| DecodeTables.FinalByOp | investigations/print-invalid-arrays/mongo-c-driver-2.2.1/src/zlib-1.3.1/inftrees.c:60-75 | By op values, the entries allowed: any byte, lengths of 3 to 258, distances of 1 to 32768 |
| DecodeTables.FourSymbolsDecoded | investigations/print-invalid-arrays/mongo-c-driver-2.2.1/src/zlib-1.3.1/inffast.c:100-286 | A table with every kind of entry, and a byte of input that decodes to a literal, a match and the end of the block |
| CrcBigEndian.EndianTables.Crc32Z | investigations/print-invalid-arrays/mongo-c-driver-2.2.1/src/zlib-1.3.1/crc32.c:694-1010 | For every buffer, length, alignment, byte order, number of braids, word size of four or eight bytes and starting value the braided calculation with its head and tail gives the byte-at-a-time CRC |
| CrcStream.CrcTables.BraidedBlocks | investigations/print-invalid-arrays/mongo-c-driver-2.2.1/src/zlib-1.3.1/crc32.c:757-858 | Any number of whole blocks through N interleaved registers gives the CRC of their bytes |
| CrcStream.CrcTables.CrcWord | investigations/print-invalid-arrays/mongo-c-driver-2.2.1/src/zlib-1.3.1/crc32.c:676-681 | As many table steps as a word has bytes give the CRC of its bytes from a zero register |
| CrcStream.CrcTables.Braid | investigations/print-invalid-arrays/mongo-c-driver-2.2.1/src/zlib-1.3.1/crc32.c:528-540 | The table entry for a byte is that byte, at its place in a word, shifted to the next word of the same braid |
| CrcStream.CrcTables.FeedBytes | investigations/print-invalid-arrays/mongo-c-driver-2.2.1/src/zlib-1.3.1/crc32.c:991-1006 | The closing loops feed exactly the bytes left |
| CrcStream.CrcTables.Align | investigations/print-invalid-arrays/mongo-c-driver-2.2.1/src/zlib-1.3.1/crc32.c:715-719 | Fewer bytes than a word has are taken to reach a word boundary, and the register is theirs |
| CrcStream.CrcTables.constructor | investigations/print-invalid-arrays/mongo-c-driver-2.2.1/src/zlib-1.3.1/crc32.c:310-334 | The tables are filled as the calculation needs them, for any number of braids and either word size |
| CrcBigEndian.EndianTables.BraidedBlocksBig | investigations/print-invalid-arrays/mongo-c-driver-2.2.1/src/zlib-1.3.1/crc32.c:859-981 | The big-endian branch gives the same CRC from byte-swapped registers and tables |
| CrcBigEndian.EndianTables.CrcWordBig | investigations/print-invalid-arrays/mongo-c-driver-2.2.1/src/zlib-1.3.1/crc32.c:683-689 | crc_word_big on a swapped word is the swapped result of crc_word |
| CrcBigEndian.SwapReverses | investigations/print-invalid-arrays/mongo-c-driver-2.2.1/src/zlib-1.3.1/crc32.c:113-131 | byte_swap reverses the bytes of a word |
| Braiding.BlockKeepsBraid | investigations/print-invalid-arrays/mongo-c-driver-2.2.1/src/zlib-1.3.1/crc32.c:779-835 | If every register passes its own word and skips the N - 1 others, they stand for the register after the block, and combined they are the CRC |
| Braiding.HandOver | investigations/print-invalid-arrays/mongo-c-driver-2.2.1/src/zlib-1.3.1/crc32.c:838-857 | Adding the previous braid before passing the word is combining one braid more |
| Braiding.BraidSum | investigations/print-invalid-arrays/mongo-c-driver-2.2.1/src/zlib-1.3.1/crc32.c:801-834 | The table sum of a word with the register mixed in is the register passed over the word and shifted past N - 1 more |
| CrcSpec.CrcLinear | investigations/print-invalid-arrays/mongo-c-driver-2.2.1/src/zlib-1.3.1/crc32.c:1021-1026 | What is in the register beforehand is multiplied by x^(8n) and added |
| CrcSpec.CrcCombines | investigations/print-invalid-arrays/mongo-c-driver-2.2.1/src/zlib-1.3.1/crc32.c:1021-1026 | The CRC of a concatenation, conditioning included, from the CRCs of its parts |
| CrcSpec.TableStep | investigations/print-invalid-arrays/mongo-c-driver-2.2.1/src/zlib-1.3.1/crc32.c:991-1006 | Eight shifts with reduction are one table lookup |
| CrcMeaning.CrcIsRemainder | investigations/print-invalid-arrays/mongo-c-driver-2.2.1/src/zlib-1.3.1/crc32.c:991-1006 | Fed byte by byte from zero, the register is the remainder of the message polynomial times x^32 |
| CrcMeaning.CrcFromIsRemainder | investigations/print-invalid-arrays/mongo-c-driver-2.2.1/src/zlib-1.3.1/crc32.c:703-704 | From any start the register is that remainder with the start moved along by the length of the message |
| CrcMeaning.Crc32IsRemainder | investigations/print-invalid-arrays/mongo-c-driver-2.2.1/src/zlib-1.3.1/crc32.c:703-704 | The CRC-32 of four bytes or more is the complement of the remainder of the message, its first 32 bits complemented, times x^32 |
| CrcMeaning.Crc32FromIsRemainder | investigations/print-invalid-arrays/mongo-c-driver-2.2.1/src/zlib-1.3.1/crc32.c:1008-1009 | For every start and length the CRC-32 is the complement of the remainder of the message with the complement of the start in front of it |
| CrcMeaning.CheckValue | investigations/print-invalid-arrays/mongo-c-driver-2.2.1/src/zlib-1.3.1/crc32.c:694-1010 | The CRC-32 of "123456789" is 0xcbf43926 |
| Crc32.Combine | investigations/print-invalid-arrays/mongo-c-driver-2.2.1/src/zlib-1.3.1/crc32.c:1021-1026 | crc32_combine of crc(A), crc(B) and the length of B is crc(A + B), for all A and B of any length |
| Crc32.MultModP | investigations/print-invalid-arrays/mongo-c-driver-2.2.1/src/zlib-1.3.1/crc32.c:155-170 | multmodp terminates for a != 0 and is the product of polynomials modulo p |
| Crc32.X2NModP | investigations/print-invalid-arrays/mongo-c-driver-2.2.1/src/zlib-1.3.1/crc32.c:176-187 | x2nmodp(n, k) is x^(n 2^k) modulo p for all n and k |
| Crc32.MakePowers | investigations/print-invalid-arrays/mongo-c-driver-2.2.1/src/zlib-1.3.1/crc32.c:325-329 | x2n_table[i] is x^(2^i) |
| Crc32.MakeBytes | investigations/print-invalid-arrays/mongo-c-driver-2.2.1/src/zlib-1.3.1/crc32.c:314-319 | crc_table[i] is byte i shifted eight times |
| Polynomials.ResidueOfProduct | investigations/print-invalid-arrays/mongo-c-driver-2.2.1/src/zlib-1.3.1/crc32.c:155-170 | The shift-and-add product of words is the residue of the product of polynomials over GF(2) |
| Polynomials.ModulusVanishes | investigations/print-invalid-arrays/mongo-c-driver-2.2.1/src/zlib-1.3.1/crc32.c:155-170 | The polynomial of the CRC is zero in this arithmetic |
| Polynomials.WordIsItsCoefficients | investigations/print-invalid-arrays/mongo-c-driver-2.2.1/src/zlib-1.3.1/crc32.c:155-170 | A word is the residue of the polynomial with its bits as coefficients, highest bit first |
| PowerTable.XPowWraps | investigations/print-invalid-arrays/mongo-c-driver-2.2.1/src/zlib-1.3.1/crc32.c:176-187 | x^(2^32) = x modulo p |
| PowerTable.IndexWraps | investigations/print-invalid-arrays/mongo-c-driver-2.2.1/src/zlib-1.3.1/crc32.c:176-187 | So k & 31 is a sound index for every k |
| CrcField.XPowNonzero | investigations/print-invalid-arrays/mongo-c-driver-2.2.1/src/zlib-1.3.1/crc32.c:176-187 | No power of x is zero, so x2nmodp never passes a zero to multmodp |
| Adler32.Adler32Z | investigations/print-invalid-arrays/mongo-c-driver-2.2.1/src/zlib-1.3.1/adler32.c:61-125 | For every buffer and every starting word the branches for one byte, short and long buffers, with deferred reduction in 32 bits, give the sums reduced after every byte; only a single byte after a word that is no checksum can leave the upper sum one BASE too high, exactly when both add up to 2 BASE |
| Adler32.OneTooHigh | investigations/print-invalid-arrays/mongo-c-driver-2.2.1/src/zlib-1.3.1/adler32.c:69-77 | The word with halves 65507 and 65535, continued with a zero byte, gives the upper sum 65521 |
| Adler32.DeferOne | investigations/print-invalid-arrays/mongo-c-driver-2.2.1/src/zlib-1.3.1/adler32.c:96-107 | No sum exceeds 2^32 - 1 while at most NMAX bytes are deferred |
| Adler32.NmaxIsLargest | investigations/print-invalid-arrays/mongo-c-driver-2.2.1/src/zlib-1.3.1/adler32.c:10-12 | The worst-case sum fits in 32 bits for k bytes if and only if k <= 5552, from reduced sums and from any two halves of a word |
| Adler32.ModReduces | investigations/print-invalid-arrays/mongo-c-driver-2.2.1/src/zlib-1.3.1/adler32.c:36-40 | The division-free MOD is % BASE on all of 32 bits |
| Adler32.Mod28Reduces | investigations/print-invalid-arrays/mongo-c-driver-2.2.1/src/zlib-1.3.1/adler32.c:31-35 | MOD28 is % BASE below 2^28 |
| Adler32.Mod63Reduces | investigations/print-invalid-arrays/mongo-c-driver-2.2.1/src/zlib-1.3.1/adler32.c:41-53 | MOD63 is % BASE for every non-negative 64-bit length |
| Adler32.Combine | investigations/print-invalid-arrays/mongo-c-driver-2.2.1/src/zlib-1.3.1/adler32.c:133-155 | adler32_combine, calculated in 32 bits, gives for the checksums of x and y the checksum of x + y |
| Adler32.SumsCombine | investigations/print-invalid-arrays/mongo-c-driver-2.2.1/src/zlib-1.3.1/adler32.c:133-155 | Both sums of a concatenation from the sums of the parts and the length of the second |
| Adler32.SumsAre | investigations/print-invalid-arrays/mongo-c-driver-2.2.1/src/zlib-1.3.1/adler32.c:61-125 | The checksum in closed form: the sum of all bytes, and the sum of each byte times the number of bytes from it to the end |
| Adler32.CheckValue | investigations/print-invalid-arrays/mongo-c-driver-2.2.1/src/zlib-1.3.1/adler32.c:61-125 | The Adler-32 of "Wikipedia" is 0x11e60398 |
| Utf8.AcceptedIffEncoded | investigations/print-invalid-arrays/mongo-c-driver-2.2.1/src/utf8proc-2.8.0/utf8proc.c:125-171 | A string is accepted if and only if it is the encoding of scalar values |
| Utf8.AcceptsOnlyEncodings | investigations/print-invalid-arrays/mongo-c-driver-2.2.1/src/utf8proc-2.8.0/utf8proc.c:125-171 | What utf8proc_iterate accepts is the shortest-form encoding of a code point below 0x110000 that is no surrogate |
| Utf8.AcceptsEncodings | investigations/print-invalid-arrays/mongo-c-driver-2.2.1/src/utf8proc-2.8.0/utf8proc.c:125-171 | Every encoding of such a code point is accepted with its length, whatever follows |
| Utf8.Forms | investigations/print-invalid-arrays/mongo-c-driver-2.2.1/src/utf8proc-2.8.0/utf8proc.c:177-201 | Every code point is encoded in the form RFC 3629 gives for its size: leading bits, and six bits to every byte behind it, highest first |
| Utf8.Examples | investigations/print-invalid-arrays/mongo-c-driver-2.2.1/src/utf8proc-2.8.0/utf8proc.c:177-201 | Examples of RFC 3629, section 7, with two, three and four bytes |
| Utf8.DecodeUndoesEncode | investigations/print-invalid-arrays/mongo-c-driver-2.2.1/src/utf8proc-2.8.0/utf8proc.c:177-201 | Decoding an encoded text gives the text |
| Utf8.EncodeUndoesDecode | investigations/print-invalid-arrays/mongo-c-driver-2.2.1/src/utf8proc-2.8.0/utf8proc.c:177-201 | Re-encoding an accepted text gives the same bytes |
| Utf8.CodepointValid | investigations/print-invalid-arrays/mongo-c-driver-2.2.1/src/utf8proc-2.8.0/utf8proc.c:173-175 | The one unsigned comparison with wrap-around accepts exactly the scalar values |
| Utf8.NulStopsReading | investigations/print-invalid-arrays/mongo-c-driver-2.2.1/src/utf8proc-2.8.0/utf8proc.c:131-171 | With strlen < 0 the reader never depends on a byte behind the terminator |
| Utf8Map.Map | investigations/print-invalid-arrays/mongo-c-driver-2.2.1/src/utf8proc-2.8.0/utf8proc.c:723-757 | utf8proc_map for NFC and NFD: a string is refused exactly when it is no UTF-8; else the bytes returned decode to the normal form of what it decodes to |
| Utf8Map.MapAcute | investigations/print-invalid-arrays/mongo-c-driver-2.2.1/src/utf8proc-2.8.0/utf8proc.c:727-771 | The bytes 65 CC 81 are mapped to C3 A9 when composing and to themselves when not |
| Utf8Map.DecomposeCustom | investigations/print-invalid-arrays/mongo-c-driver-2.2.1/src/utf8proc-2.8.0/utf8proc.c:520-585 | Reading, mapping and decomposing every character gives the number of code points, and in the buffer their canonical order when they all fit, else those that fit; it fails exactly when the string is no UTF-8 or a character is mapped out of range |
| Utf8Map.Normalize | investigations/print-invalid-arrays/mongo-c-driver-2.2.1/src/utf8proc-2.8.0/utf8proc.c:734-748 | Decomposing once for the size and once into the buffer, and composing there, leaves the normal form in it |
| Reencode.Encode | investigations/print-invalid-arrays/mongo-c-driver-2.2.1/src/utf8proc-2.8.0/utf8proc.c:704-720 | Written over its own 32-bit buffer, the text never overwrites a code point still to be read, and ends with a zero byte |
| Reencode.WrittenDecodes | investigations/print-invalid-arrays/mongo-c-driver-2.2.1/src/utf8proc-2.8.0/utf8proc.c:713-718 | What is written for scalar values decodes to them |
| Reencode.MarksAreSeparate | investigations/print-invalid-arrays/mongo-c-driver-2.2.1/src/utf8proc-2.8.0/utf8proc.c:204-230 | Taking out the 0xFF marks leaves the encoding of the text without boundary marks |
| Reencode.MarkStands | investigations/print-invalid-arrays/mongo-c-driver-2.2.1/src/utf8proc-2.8.0/utf8proc.c:204-230 | A boundary mark between two texts is one byte 0xFF between their encodings, and there is none elsewhere |
| CanonicalOrder.Order | investigations/print-invalid-arrays/mongo-c-driver-2.2.1/src/utf8proc-2.8.0/utf8proc.c:564-583 | The backtracking swap loop terminates and leaves exactly the canonically ordered form of the buffer |
| CanonicalOrder.CanonicalIsOrdered | investigations/print-invalid-arrays/mongo-c-driver-2.2.1/src/utf8proc-2.8.0/utf8proc.c:564-583 | No adjacent pair is left that would have to change places |
| CanonicalOrder.CanonicalPermutes | investigations/print-invalid-arrays/mongo-c-driver-2.2.1/src/utf8proc-2.8.0/utf8proc.c:564-583 | The ordered form is a permutation of the text |
| CanonicalOrder.CanonicalIsStable | investigations/print-invalid-arrays/mongo-c-driver-2.2.1/src/utf8proc-2.8.0/utf8proc.c:564-583 | Code points of one class keep their order |
| CanonicalOrder.StartersStay | investigations/print-invalid-arrays/mongo-c-driver-2.2.1/src/utf8proc-2.8.0/utf8proc.c:572-573 | A class-0 code point keeps its place and nothing crosses it |
| CanonicalOrder.SwapsAreEquivalent | investigations/print-invalid-arrays/mongo-c-driver-2.2.1/src/utf8proc-2.8.0/utf8proc.c:564-583 | Texts that differ by exchanging adjacent marks of different non-zero classes have the same ordered form |
| CanonicalOrder.MoveAcross | investigations/print-invalid-arrays/mongo-c-driver-2.2.1/src/utf8proc-2.8.0/utf8proc.c:564-583 | A mark may move across any marks of other classes |
| CanonicalOrder.OrderedIsCanonical | investigations/print-invalid-arrays/mongo-c-driver-2.2.1/src/utf8proc-2.8.0/utf8proc.c:564-583 | An ordered text is left as it is |
| CanonicalOrder.SwapRemovesOne | investigations/print-invalid-arrays/mongo-c-driver-2.2.1/src/utf8proc-2.8.0/utf8proc.c:574-576 | Each swap removes exactly one inversion, which is why stepping back terminates |
| Composition.Compose | investigations/print-invalid-arrays/mongo-c-driver-2.2.1/src/utf8proc-2.8.0/utf8proc.c:620-695 | The in-place loop with its cached starter, property and maximum class computes definition D117, and the write index never passes the read index |
| Composition.ComposingKeepsText | investigations/print-invalid-arrays/mongo-c-driver-2.2.1/src/utf8proc-2.8.0/utf8proc.c:620-695 | For decomposed, canonically ordered text the composed text is canonically equivalent to it if and only if no U+11A7 follows a leading consonant and a vowel |
| Composition.NfcKeepsText | investigations/print-invalid-arrays/mongo-c-driver-2.2.1/src/utf8proc-2.8.0/utf8proc.c:766-771 | Decomposing NFC gives NFD back under exactly that condition; NFC is a fixed point for every text |
| Composition.ComposedIsFixed | investigations/print-invalid-arrays/mongo-c-driver-2.2.1/src/utf8proc-2.8.0/utf8proc.c:620-695 | Composing again what was composed changes nothing, absorbed code points or not |
| Composition.NfdIsIdempotent | investigations/print-invalid-arrays/mongo-c-driver-2.2.1/src/utf8proc-2.8.0/utf8proc.c:759-764 | Decomposing and ordering twice is doing it once |
| Composition.Counterexample | investigations/print-invalid-arrays/mongo-c-driver-2.2.1/src/utf8proc-2.8.0/utf8proc.c:651-656 | U+AC00 U+11A7 composes to U+AC00 and loses its last code point |
| Composition.HanDecomposes | investigations/print-invalid-arrays/mongo-c-driver-2.2.1/src/utf8proc-2.8.0/utf8proc.c:428-447 | U+D55C decomposes to U+1112 U+1161 U+11AB |
| Composition.Combine | investigations/print-invalid-arrays/mongo-c-driver-2.2.1/src/utf8proc-2.8.0/utf8proc.c:633-680 | Hangul arithmetic and the pair tables, with the property fetched when it is not at hand, give the primary composite |
| Composition.NfcLeavesNothing | investigations/print-invalid-arrays/mongo-c-driver-2.2.1/src/utf8proc-2.8.0/utf8proc.c:661-677 | In a composed normal form no starter is followed by an unblocked code point that it pairs with in the tables (but for an excluded composite with the option STABLE), no leading consonant by a vowel, and no syllable without one by a trailing consonant |
| Composition.ComposedIsSettled | investigations/print-invalid-arrays/mongo-c-driver-2.2.1/src/utf8proc-2.8.0/utf8proc.c:620-695 | The same for any text that is composed |
| Composition.NothingExcluded | investigations/print-invalid-arrays/mongo-c-driver-2.2.1/src/utf8proc-2.8.0/utf8proc.c:674-676 | With the option STABLE no excluded composite appears that was not there before, other than a Hangul syllable |
| Composition.AcuteComposes | investigations/print-invalid-arrays/mongo-c-driver-2.2.1/src/utf8proc-2.8.0/utf8proc.c:661-677 | e and a combining acute accent compose to U+00E9, and stay apart when that is excluded and STABLE is set |
| Graphemes.Breaker.Extended | investigations/print-invalid-arrays/mongo-c-driver-2.2.1/src/utf8proc-2.8.0/utf8proc.c:291-324 | For every sequence of boundary classes the one-word state gives the break decisions of rules GB1-GB9b, GB11, GB12/13 and GB999 on the whole prefix |
| Graphemes.StateDecides | investigations/print-invalid-arrays/mongo-c-driver-2.2.1/src/utf8proc-2.8.0/utf8proc.c:303-306 | The state is enough: the simple rules on it decide as the rules on the whole text do |
| Graphemes.BoundaryByTable | investigations/print-invalid-arrays/mongo-c-driver-2.2.1/src/utf8proc-2.8.0/utf8proc.c:261-289 | The rules as a table of pairs of classes: a boundary stands where the table has one, but for pictographs behind a joiner and between two flags |
| Graphemes.SimpleIsTable | investigations/print-invalid-arrays/mongo-c-driver-2.2.1/src/utf8proc-2.8.0/utf8proc.c:261-289 | Without a state the answer is that of the table |
| Graphemes.SimpleIsWrongOnlyThere | investigations/print-invalid-arrays/mongo-c-driver-2.2.1/src/utf8proc-2.8.0/utf8proc.c:261-289 | Without a state the answer differs from the rules exactly before the second pictograph of a ZWJ sequence and before a regional indicator that opens a new pair |
| Graphemes.TwoFlags | investigations/print-invalid-arrays/mongo-c-driver-2.2.1/src/utf8proc-2.8.0/utf8proc.c:261-289 | Without a state the boundary between two flags is missed |
| Graphemes.JoinedPictographs | investigations/print-invalid-arrays/mongo-c-driver-2.2.1/src/utf8proc-2.8.0/utf8proc.c:261-289 | Without a state two pictographs joined by ZWJ are broken apart |
| Graphemes.ResetIsSafe | investigations/print-invalid-arrays/mongo-c-driver-2.2.1/src/utf8proc-2.8.0/utf8proc.h:602-605 | After a boundary the state may be reset: later boundaries do not depend on what stands before it |
| KmipRoundTrip.WriteAndRead | tools/kmip_dump/vendor_kms_message/vendor_kms_reader_writer.c:65-227 | Every tree nested at most nine deep that the format can carry is read back exactly as it was written |
| KmipWriter.Writer.WriteItem | tools/kmip_dump/vendor_kms_message/vendor_kms_reader_writer.c:120-221 | Any item, of any kind and nesting the position stack has room for, is added to the innermost open structure |
| KmipWriter.Writer.CloseStruct | tools/kmip_dump/vendor_kms_message/vendor_kms_reader_writer.c:209-221 | Patching the length turns the open structure into an item of the one around it |
| KmipWriter.Writer.BeginStruct | tools/kmip_dump/vendor_kms_message/vendor_kms_reader_writer.c:195-206 | A header without a length opens a structure and its position is remembered, exactly while fewer than nine are open; for the tenth the header is written, the assertion passes and the position has no place |
| KmipWriter.Writer.GuardAndBounds | tools/kmip_dump/vendor_kms_message/vendor_kms_reader_writer.c:203-205 | The assertion on cur_pos always holds; the write behind it is in bounds if and only if fewer than nine structures are open |
| KmipWriter.OpenTen | tools/kmip_dump/vendor_kms_message/vendor_kms_reader_writer.c:195-206 | A new writer opens nine structures, and not a tenth |
| KmipWriter.Writer.WriteString | tools/kmip_dump/vendor_kms_message/vendor_kms_reader_writer.c:120-135 | A text string item, padded with zeros to eight bytes, is added |
| KmipWriter.Writer.WriteBytes | tools/kmip_dump/vendor_kms_message/vendor_kms_reader_writer.c:138-154 | A byte string item, padded with zeros to eight bytes, is added |
| KmipWriter.Writer.WriteInteger | tools/kmip_dump/vendor_kms_message/vendor_kms_reader_writer.c:157-164 | An integer item in four bytes of two's complement and four of padding is added |
| KmipWriter.Writer.WriteEnumeration | tools/kmip_dump/vendor_kms_message/vendor_kms_reader_writer.c:176-183 | An enumeration item is added, the value taken modulo 2^32 |
| KmipWriter.Writer.WriteLongInteger | tools/kmip_dump/vendor_kms_message/vendor_kms_reader_writer.c:167-173 | A long integer item in eight bytes of two's complement is added |
| KmipWriter.Writer.WriteDateTime | tools/kmip_dump/vendor_kms_message/vendor_kms_reader_writer.c:186-192 | A date-time item is added |
| KmipWriter.Writer.GetBuffer | tools/kmip_dump/vendor_kms_message/vendor_kms_reader_writer.c:224-227 | With no structure open the buffer is the encoding of the items written |
| KmipWriter.LayoutClosed | tools/kmip_dump/vendor_kms_message/vendor_kms_reader_writer.c:209-221 | The number patched in is the size of what was written since, which is the sum of the children |
| Ttlv.Padded | tools/kmip_dump/vendor_kms_message/vendor_kms_reader_writer.c:109-117 | Rounding up to a multiple of eight, by less than eight |
| Ttlv.LengthIsSum | tools/kmip_dump/vendor_kms_message/vendor_kms_reader_writer.c:209-221 | The length of a structure is the sum of the sizes of its children |
| Ttlv.Encode | tools/kmip_dump/vendor_kms_message/vendor_kms_reader_writer.c:120-221 | Every item occupies a multiple of eight bytes |
| Ttlv.Examples | tools/kmip_dump/vendor_kms_message/vendor_kms_reader_writer.c:99-192 | The examples of KMIP 1.0, section 9.1.2, byte for byte: integer, enumeration, long integer, date-time, byte string |
| Ttlv.TextStringExample | tools/kmip_dump/vendor_kms_message/vendor_kms_reader_writer.c:119-135 | The text "Hello World", byte for byte |
| Ttlv.StructureExample | tools/kmip_dump/vendor_kms_message/vendor_kms_reader_writer.c:194-221 | A structure with an enumeration and an integer, byte for byte |
| BigEndian.ReadsBack | tools/kmip_dump/vendor_kms_message/vendor_kms_reader_writer.c:280-327 | A two's complement number in range reads back from its bytes, at every width |
| BigEndian.ByteOf | tools/kmip_dump/vendor_kms_message/vendor_kms_reader_writer.c:72-97 | Byte k of a number of n bytes counts multiples of 256^(n-1-k): the most significant comes first |
| KmipReader.WalkBack | tools/kmip_dump/vendor_kms_message/vendor_kms_reader_writer.c:1190-1301 | Walking over the encoding of any items the format can carry finds the same items at every level, to the end of the data |
| KmipReader.UnreadExactly | tools/kmip_dump/vendor_kms_message/vendor_kms_reader_writer.c:1190-1301 | The walk uses a value that was never set if and only if a scan over the headers alone fails: it comes to a header whose value is not there, and for a structure there was also none before it, in the same call, that fitted |
| KmipReader.ScanIsWalk | tools/kmip_dump/vendor_kms_message/vendor_kms_reader_writer.c:1195-1224 | The same for every call, whatever is left of the structure it looked into last; else the walk leaves what the scan says |
| KmipReader.CoveredIsRead | tools/kmip_dump/vendor_kms_message/vendor_kms_reader_writer.c:1190-1301 | When every value and every structure is there, nothing that was never set is used |
| KmipReader.OldReader | tools/kmip_dump/vendor_kms_message/vendor_kms_reader_writer.c:1195-1226 | A structure that does not fit, behind an empty one: the walk goes on with the reader of the first, finds nothing left there, and ends at the end of the data |
| KmipReader.CutShort | tools/kmip_dump/vendor_kms_message/vendor_kms_reader_writer.c:1227-1230 | The header of an integer without its value is such data |
| KmipReader.WithoutPadding | tools/kmip_dump/vendor_kms_message/vendor_kms_reader_writer.c:1227-1230 | An integer at the end of the data is read although its padding is missing |
| KmipReader.OtherTypes | tools/kmip_dump/vendor_kms_message/vendor_kms_reader_writer.c:1235-1255 | A Boolean is true exactly when its eight bytes are the number 1; big integers and intervals are stepped over |
| KmipReader.UnknownType | tools/kmip_dump/vendor_kms_message/vendor_kms_reader_writer.c:1291-1301 | A type other than 1 to 10 ends the walk as malformed, behind its header |
| KmipReader.ItemsRecovered | tools/kmip_dump/vendor_kms_message/vendor_kms_reader_writer.c:1190-1301 | What the walk finds determines the items |
| KmipReader.EncodingIsInjective | tools/kmip_dump/vendor_kms_message/vendor_kms_reader_writer.c:1190-1301 | No two trees have the same bytes |
| KmipReader.FindsFirst | tools/kmip_dump/vendor_kms_message/vendor_kms_reader_writer.c:414-449 | Over well-formed data the search finds the first sibling with that tag and type, exactly when there is one |
| KmipReader.SearchMeans | tools/kmip_dump/vendor_kms_message/vendor_kms_reader_writer.c:414-449 | The place found holds the payload of the first such sibling and lies inside the data |
| KmipReader.Reader.Find | tools/kmip_dump/vendor_kms_message/vendor_kms_reader_writer.c:414-449 | kmip_reader_find, from the start of the data, returns what the search defines, on any bytes |
| KmipReader.Reader.FindAndRecurse | tools/kmip_dump/vendor_kms_message/vendor_kms_reader_writer.c:452-465 | The reader becomes one over the structure found, with its length as found; it stays inside the old one, and then holds exactly the bytes found, if and only if the structure does |
| KmipReader.RecursesIntoChildren | tools/kmip_dump/vendor_kms_message/vendor_kms_reader_writer.c:452-465 | Over well-formed data what is found is the encoding of the children of the first such structure |
| KmipReader.EscapesParent | tools/kmip_dump/vendor_kms_message/vendor_kms_reader_writer.c:452-465 | A lone header that announces sixteen bytes is found although they are not there |
| KmipReader.Reader.FindAndReadEnum | tools/kmip_dump/vendor_kms_message/vendor_kms_reader_writer.c:468-485 | The enumeration found is read; it fails exactly when there is none or its padded value does not fit |
| KmipReader.Reader.FindAndReadBytes | tools/kmip_dump/vendor_kms_message/vendor_kms_reader_writer.c:488-505 | The bytes found are read without their padding; it fails exactly when there are none or they do not fit |
| KmipReader.Reader.Items | tools/kmip_dump/vendor_kms_message/vendor_kms_reader_writer.c:1190-1301 | On any bytes the walk does what its definition says, branch by branch: Booleans are read, big integers and intervals stepped over, failed steps not made, a structure that does not fit walked over with the reader of the one before it; it stops where a value that was never set would be used |
| KmipReader.Reader.Next | tools/kmip_dump/vendor_kms_message/vendor_kms_reader_writer.c:1129-1138 | Moves on by the padded length, kept in 32 bits, or fails in place |
| KmipReader.Reader.InPlace | tools/kmip_dump/vendor_kms_message/vendor_kms_reader_writer.c:251-266 | Only the position given is checked; the new reader starts where the old one stands, and is inside it whenever that is not behind the position given |
| KmipReader.Reader.ReadBytes | tools/kmip_dump/vendor_kms_message/vendor_kms_reader_writer.c:330-339 | The bytes without their padding, exactly when the padded length is there |
| KmipReader.Reader.ReadNumber | tools/kmip_dump/vendor_kms_message/vendor_kms_reader_writer.c:280-327 | A big-endian number of 1, 2, 4 or 8 bytes, exactly when they are there |
| KmipReader.Reader.ReadTag | tools/kmip_dump/vendor_kms_message/vendor_kms_reader_writer.c:347-362 | A tag of three bytes that starts with 0x42 |
| RequestStr.RequestStr.Reserve | tools/kmip_dump/vendor_kms_message/vendor_kms_request_str.c:125-144 | There is room for the bytes and the terminator; contents are kept |
| RequestStr.RequestStr.AppendChars | tools/kmip_dump/vendor_kms_message/vendor_kms_request_str.c:205-216 | The bytes are appended and a terminator follows |
| RequestStr.RequestStr.EndsWith | tools/kmip_dump/vendor_kms_message/vendor_kms_request_str.c:172-181 | True exactly when the suffix is that long at most and the end of the string is the same up to the first zero of the suffix; without a zero in it, when the string ends in the suffix |
| RequestStr.RequestStr.DeleteLastSegment | tools/kmip_dump/vendor_kms_message/vendor_kms_request_str.c:340-365 | Nothing is left from the last slash on, but the root of an absolute path |
| Growth.SmearFills | tools/kmip_dump/vendor_kms_message/vendor_kms_request_str.c:131-137 | Five shifts set all of up to 32 bits, so adding one gives the next power of two |
| Growth.ReservesPowerOfTwo | tools/kmip_dump/vendor_kms_message/vendor_kms_request_str.c:129-137 | The size kept for n bytes, 1 < n <= 2^32, is the least power of two not below n |
| Growth.SmearCovers | tools/kmip_dump/vendor_kms_message/vendor_kms_request_str.c:131-137 | Whatever the size, never less is kept than asked for |
| Paths.PathNormalized | tools/kmip_dump/vendor_kms_message/vendor_kms_request_str.c:370-449 | The loop over the path, with its in-place output, computes the fold over segments, for every NUL-free path |
| Paths.ResultIsClean | tools/kmip_dump/vendor_kms_message/vendor_kms_request_str.c:370-449 | The result is non-empty and has no "." or ".." segment and no "//"; an absolute path stays absolute, and a relative one stays relative unless nothing is left |
| Paths.NormalizedIsIdempotent | tools/kmip_dump/vendor_kms_message/vendor_kms_request_str.c:370-449 | Normalizing twice is normalizing once |
| DotSegments.NormalizerFollows | tools/kmip_dump/vendor_kms_message/vendor_kms_request_str.c:367-449 | The normalizer gives what the algorithm of RFC 3986 section 5.2.4 gives if and only if one scan over the segments says so: no segment is put on top of an empty one, a final dot segment leaves nothing, and a relative path does not become absolute on the way, unless the result is the root |
| DotSegments.AlgorithmIs | tools/kmip_dump/vendor_kms_message/vendor_kms_request_str.c:383-438 | The algorithm of the RFC, on bytes with its two buffers, told by segments |
| DotSegments.PlainPathsFollow | tools/kmip_dump/vendor_kms_message/vendor_kms_request_str.c:367-449 | They agree on every absolute path without empty segments inside and without a dot segment at the end |
| DotSegments.FinalDotDiffers | tools/kmip_dump/vendor_kms_message/vendor_kms_request_str.c:391-398 | "a/." gives "a", where the RFC says "a/" |
| DotSegments.EmptiedDiffers | tools/kmip_dump/vendor_kms_message/vendor_kms_request_str.c:430-433 | "a/../a" gives "a", where the RFC says "/a" |
| DotSegments.RepeatedSlashDiffers | tools/kmip_dump/vendor_kms_message/vendor_kms_request_str.c:425-428 | "//" gives "/", where the RFC keeps both slashes |
| Paths.Round | tools/kmip_dump/vendor_kms_message/vendor_kms_request_str.c:383-438 | Each round takes a dot segment or a name off the front, as the fold does, and only the last one ends the loop early |
| GzRuns.PerformAll | investigations/print-invalid-arrays/mongo-c-driver-2.2.1/src/zlib-1.3.1/gzread.c:208-342 | Over any run of gzread, gzgetc, gzgets, gzungetc, gzseek and gzrewind, with arbitrarily short reads of the file, every call answers as the cursor in the uncompressed contents says and moves it as the cursor says |
| GzRuns.OpenAndPerform | investigations/print-invalid-arrays/mongo-c-driver-2.2.1/src/zlib-1.3.1/gzlib.c:85-257 | After opening, as long as nothing is pushed back, every call delivers the slice of the contents at the position told before it and the position then is behind it; and only reading delivers a prefix of the contents |
| GzCursor.RunDelivers | investigations/print-invalid-arrays/mongo-c-driver-2.2.1/src/zlib-1.3.1/gzread.c:268-342 | Over any run the bytes delivered are the next ones at the cursor, pushed-back ones first; with none pushed back they are the contents at the position told |
| GzCursor.CleanRun | investigations/print-invalid-arrays/mongo-c-driver-2.2.1/src/zlib-1.3.1/gzlib.c:420-432 | As long as no byte is pushed back, what the caller will read is the contents from the position told, after every call of any run |
| GzCursor.ReadingIsInOrder | investigations/print-invalid-arrays/mongo-c-driver-2.2.1/src/zlib-1.3.1/gzread.c:268-342 | However reading is divided into calls, the bytes delivered are the next ones in order |
| GzCursor.ReadFills | investigations/print-invalid-arrays/mongo-c-driver-2.2.1/src/zlib-1.3.1/gzread.c:345-377 | gzread delivers as many bytes as asked for unless the contents end there |
| GzCursor.GetcIsNext | investigations/print-invalid-arrays/mongo-c-driver-2.2.1/src/zlib-1.3.1/gzread.c:408-431 | gzgetc delivers the next byte, and -1 exactly when there is none |
| GzCursor.GetsIsLine | investigations/print-invalid-arrays/mongo-c-driver-2.2.1/src/zlib-1.3.1/gzread.c:499-557 | gzgets delivers no byte behind a newline, and stops before one only for want of room or at the end |
| GzStream.MembersThenGarbage | investigations/print-invalid-arrays/mongo-c-driver-2.2.1/src/zlib-1.3.1/gzread.c:76-206 | Members one after the other give their contents one after the other; what follows and is no member is ignored; a file without any is taken as it is |
| GzCursor.SeekLeads | investigations/print-invalid-arrays/mongo-c-driver-2.2.1/src/zlib-1.3.1/gzlib.c:339-409 | An accepted seek leads to its target and tells it; a refused one leaves the reader where it was before a pending seek |
| GzCursor.SeekDiscards | investigations/print-invalid-arrays/mongo-c-driver-2.2.1/src/zlib-1.3.1/gzlib.c:366-401 | Which pushed-back bytes are left by a seek: none when the file is copied and the target is a position in it, when the target is behind, or when all are skipped; else those not skipped |
| GzCursor.PushedIsRead | investigations/print-invalid-arrays/mongo-c-driver-2.2.1/src/zlib-1.3.1/gzread.c:438-496 | A byte pushed back is the next one read, and reading it leaves what was there before |
| GzCursor.PushBackSucceeds | investigations/print-invalid-arrays/mongo-c-driver-2.2.1/src/zlib-1.3.1/gzread.c:466-480 | Over any run a byte can be pushed back whenever none that was pushed back is still to be read |
| GzRuns.RefusedSeekLosesPending | investigations/print-invalid-arrays/mongo-c-driver-2.2.1/src/zlib-1.3.1/gzlib.c:360-388 | A seek to 5 and then a refused one: the position told falls back to 0 |
| GzRuns.SeekBeforeStart | investigations/print-invalid-arrays/mongo-c-driver-2.2.1/src/zlib-1.3.1/gzlib.c:383-408 | After two bytes are pushed back at the start, a seek to position -1 moves there |
| GzRuns.SeekKeepsPushed | investigations/print-invalid-arrays/mongo-c-driver-2.2.1/src/zlib-1.3.1/gzlib.c:366-408 | A seek by nothing keeps a byte pushed back at the start |
| GzRuns.PushUntilFull | investigations/print-invalid-arrays/mongo-c-driver-2.2.1/src/zlib-1.3.1/gzread.c:466-495 | Right after opening at least as many bytes as the input buffer has can be pushed back; when the output buffer is full the next one is a fatal error |
| GzReader.GzState.GzRead | investigations/print-invalid-arrays/mongo-c-driver-2.2.1/src/zlib-1.3.1/gzread.c:345-374 | Delivers min(len, what is left) bytes at the cursor, pushed-back bytes first, after making up for a pending seek; the cursor then stands behind them |
| GzReader.GzState.GzGetc | investigations/print-invalid-arrays/mongo-c-driver-2.2.1/src/zlib-1.3.1/gzread.c:408-431 | The next byte at the cursor, or -1 exactly at the end; the cursor then stands behind it |
| GzReader.GzState.GzGets | investigations/print-invalid-arrays/mongo-c-driver-2.2.1/src/zlib-1.3.1/gzread.c:499-556 | The line at the cursor, at most len - 1 bytes, with a terminating zero; nothing when no byte is left or fits; the cursor then stands behind it |
| GzReader.GzState.GzUngetc | investigations/print-invalid-arrays/mongo-c-driver-2.2.1/src/zlib-1.3.1/gzread.c:438-496 | The byte stands in front of the cursor and the position is one less; without an earlier error it fails exactly when the output buffer is full of undelivered bytes, and then some of them were pushed back |
| GzReader.GzState.GzSeek | investigations/print-invalid-arrays/mongo-c-driver-2.2.1/src/zlib-1.3.1/gzlib.c:339-409 | Afterwards the contents from the target on come next, whether by skipping, rewinding or repositioning; a target before the start is refused, and a pending seek lost, unless pushed-back bytes have put the reader further back |
| GzReader.GzState.GzRewind | investigations/print-invalid-arrays/mongo-c-driver-2.2.1/src/zlib-1.3.1/gzlib.c:318-336 | The cursor is at the start, with nothing pushed back or pending |
| GzReader.GzState.Read | investigations/print-invalid-arrays/mongo-c-driver-2.2.1/src/zlib-1.3.1/gzread.c:268-342 | Over buffered, direct and decompressing rounds the bytes delivered are the next ones, and past is set exactly when fewer than asked for were there |
| GzReader.GzState.SkipBytes | investigations/print-invalid-arrays/mongo-c-driver-2.2.1/src/zlib-1.3.1/gzread.c:236-262 | Drops len bytes of what is to come, or all there are |
| GzReader.GzState.Fetch | investigations/print-invalid-arrays/mongo-c-driver-2.2.1/src/zlib-1.3.1/gzread.c:208-233 | Something is ready, or the file is at its end; what is to come is unchanged |
| GzReader.GzState.Look | investigations/print-invalid-arrays/mongo-c-driver-2.2.1/src/zlib-1.3.1/gzread.c:76-149 | Finds out how to go on: a gzip member, a raw file, ignored garbage behind a member or the end; what is to come is unchanged |
| GzReader.GzState.Decomp | investigations/print-invalid-arrays/mongo-c-driver-2.2.1/src/zlib-1.3.1/gzread.c:156-200 | Fills the buffer with the next contents of the member, over any split of the input, up to the member's end |
| GzReader.GzState.Avail | investigations/print-invalid-arrays/mongo-c-driver-2.2.1/src/zlib-1.3.1/gzread.c:43-65 | The input left moves to the front and is filled up, without losing a byte |
| GzReader.GzState.Load | investigations/print-invalid-arrays/mongo-c-driver-2.2.1/src/zlib-1.3.1/gzread.c:12-34 | With arbitrarily short reads, len bytes or all up to the end of the file |
| GzReader.GzState.GzReset | investigations/print-invalid-arrays/mongo-c-driver-2.2.1/src/zlib-1.3.1/gzlib.c:69-82 | The reader starts again, with nothing ready and no pending seek |
| GzReader.GzState.constructor | investigations/print-invalid-arrays/mongo-c-driver-2.2.1/src/zlib-1.3.1/gzlib.c:85-257 | A file opened at any offset satisfies the invariant and has all its contents to come |

## Left out

zlib:

- Deflate.DeflateState.CompressBlock: models how the symbols are read back, not the codes that are sent for them.
- Huffman coding, block headers and trailers, checksums inside the stream: a flushed block is its tokens or its stored bytes.
- deflate_stored, deflateParams, deflateTune, deflateCopy, deflateSetDictionary and deflatePrime: level and strategy are fixed for a run.
- Deflate.DeflateState.SlowDecide: turns the current match into the previous one before it inserts the string, where the code inserts first; neither touches what the other uses.
- When output space runs out is left open: a flush may report at any time that no room is left, so flush_pending and avail_out do not appear.
- The initial 'last_flush' and status checks of deflate() and its error returns for wrong arguments.
- FASTEST, LIT_MEM, 16-bit and UNALIGNED_OK branches.
- inflateBack's switch to inflate_fast, its block headers and its bit accumulator: it is fed with decoded tokens and stored blocks.
- inflate_fast on distances beyond the history, INFLATE_STRICT and the branch for sane = 0; its decode tables are any well-formed tables, as inflate_table is described in inftrees.h.
- CrcBigEndian.EndianTables.Crc32Z: the ARM instructions, a null buffer and negative lengths in crc32_combine are not modelled, and the tables are always made at run time.
- Adler32.Adler32Z: a null buffer is not modelled.
- Adler32.Combine: for a non-negative length; the special answer for a negative one is not modelled.
- The gz writing side, gzdirect, gzfread, gzbuffer, gzeof, gzclearerr and the large-file and Windows variants.
- Read errors, seek errors and failed allocations of the gz reader: reads may be arbitrarily short, but succeed.
- GzReader.GzState.constructor: only for files whose gzip members are all complete. Of a member that is cut short the code delivers a prefix whose length depends on how the reads are divided: output that inflate still holds when the input ends is dropped (gzread.c:166-169).
- GzReader.GzState.Decomp: no truncated or damaged gzip members; every member that starts in the file is complete and decompresses, by an abstract decompressor that delivers its contents in any split.

utf8proc:

- The data tables: combining classes, full decompositions, pair composition and exclusions are abstract functions; Composition.Sound says what is needed of them, and Composition.SmallIsSound that it can be met; Composition.NfcLeavesNothing needs Composition.Tidy besides, which Composition.SmallIsTidy meets.
- Utf8Map.SameMemory: copies the code points into bytes, where the code takes one buffer for both.
- The other options of utf8proc_decompose_char, the recursion through the sequence table, overflow checks, failed allocations and the newline and control-code phase of utf8proc_normalize_utf32.
- CanonicalOrder.Order: without the boundary marks that UTF8PROC_CHARBOUND inserts, for any assignment of classes.
- Reencode.Encode: starts after normalization; a 32-bit word is four bytes, least significant first.
- Graphemes.Breaker.Extended: the classes given are those of characters (START only to the left of the first).

KMIP:

- KmipWriter.Writer.BeginStruct: for a tenth open structure the model stops in front of the write behind the array.
- The XML text of kmip_dump, tag and enumeration names, and dates as text.
- KmipReader.Reader.Items: the model stops where a value that was never set would be used; the copy made of a text is not modelled, nor that its size wraps for a text of 2^32 - 1 bytes.
- Tags of vendor extensions: the reader accepts tags that start with 0x42 only, and so does the model.
- kms_request_str_wrap, _dup, _set_chars, _append_lowercase, _append_va, _appendf, _append_newline and _append_stripped.
- Growth.ReservesPowerOfTwo: for up to 2^32 bytes; beyond that the five shifts do not give a power of two, only Growth.SmearCovers holds.
- Paths.PathNormalized: for strings without NUL, since the code uses C string functions on them.

The rest of the repository (drivers' test programs, scripts, the debugger plug-in) calls into servers and libraries that
cannot be seen from here.
