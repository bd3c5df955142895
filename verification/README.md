# utf8text_search: the match accumulator, in Dafny

`utf8text_search` searches UTF-8 text for a pattern with ICU's collation-aware
string search. It reports every match twice: once as a character position in
UTF-16 code units, and once as a byte position in the original UTF-8. The text
can arrive in several chunks. Two running totals, `prefix` (units) and
`b_prefix` (bytes), turn positions within a chunk into positions in the whole
stream.

This project models that bookkeeping and proves what it promises:

- `utf16.dfy` (`Utf16`): UTF-16 code units and surrogate pairs, following
  section 2 of RFC 2781. It covers well-formedness, code-point boundaries, ICU's
  `U16_NEXT`, and a reference encoder/decoder with both round trips.
- `utf8.dfy` (`Utf8`): ICU's `U8_LENGTH` and the encoding table of section 3 of
  RFC 3629. It shows that the width `U8_LENGTH` reports is the length of the bytes
  that actually encode the value.
- `byte_count.dfy` (`ByteCount`): `count_U8_bytes`. It has a recursive
  definition and the loop as written, proved equal. It also proves that the count
  is the length of the UTF-8 re-encoding and that it adds up over slices.
- `accumulator.dfy` (`Accumulator`): the session (`matchResult`,
  `matchResultAsByte`, `prefix`, `b_prefix`), `init`, and `text_search` with its
  search loop. The character list and the byte list are sequences of records.
- `lifecycle.dfy` (`Lifecycle`): the invariant every call keeps, runs of calls
  over successive chunks, and `clear_result`.
- `scenarios.dfy` (`Scenarios`): worked examples with concrete indices.

The ICU calls (`u_strFromUTF8`, `usearch_open`, `usearch_first`/`usearch_next`,
`usearch_getMatchedLength`, `usearch_getMatchedText`) are an oracle. Each
`text_search` call receives one `Accumulator.Engine` value. It is either the
failure that stopped the call before the loop, or the converted UTF-16 chunk with
the matches the search reported, in order. The model assumes three things of
those matches (`Accumulator.ValidMatches`):

- each match is non-empty and inside the chunk;
- neither end splits a surrogate pair;
- positions never decrease.

Conventions of the code that the model keeps:

- Indices are 1-based. Lines 103 and 118 add 1 to the 0-based position.
- Character positions count UTF-16 code units, not code points. After a
  supplementary character, the character index has moved by two
  (`Scenarios.EmojiMatches`).
- In the hiragana example, the second "XXX" of "あいうえおXXXさしすせそXXXたちつてと"
  is at unit 13 (0-based). The reported indices are 6 and 14, and the
  byte indices are 16 and 34 (`Scenarios.KanaMatches`).
- `text_search` on a session never initialised runs `init` first, even when the
  call then fails and returns -1 (lines 64-66, then 88-91).
- A search that stops on an engine error still returns 0 and still moves both
  prefixes past the chunk (lines 131-137).

## Model

| member | source | states |
|---|---|---|
| Utf16.Next | sandbox/utf8text_search.c:168 | Definition of `U16_NEXT`: a lead surrogate followed by a trail is read as the one supplementary code point the pair stands for, over two units; any other unit is read alone as itself. The ensures says it always advances and stays within the buffer. |
| Utf16.NextInWellFormed | sandbox/utf8text_search.c:168 | In well-formed UTF-16, `U16_NEXT` from a code-point boundary reads a scalar value and stops at the next boundary. It takes two units exactly when the value is supplementary, and a one-unit read returns the unit itself. |
| Utf16.EncodeScalar | sandbox/utf8text_search.c:168 | The reference UTF-16 form of a scalar value is one unit below U+10000 and a surrogate pair above. It is well formed, and `U16_NEXT` reads it back as the same value, consuming all of it. |
| Utf16.PairRoundTrip | sandbox/utf8text_search.c:168 | The code point a lead and trail surrogate stand for is re-encoded as exactly that pair. |
| Utf16.EncodeNext | sandbox/utf8text_search.c:168 | The scalar value `U16_NEXT` reads at the front of well-formed text re-encodes to exactly the units it consumed. |
| Utf16.DecodeEncode | sandbox/utf8text_search.c:167-170 | Reading with `U16_NEXT` what the reference encoder wrote gives back the same scalar values. |
| Utf16.EncodeDecode | sandbox/utf8text_search.c:167-170 | Re-encoding the values that `U16_NEXT` reads gives back the same units, so walking the buffer loses nothing. |
| Utf8.Width | sandbox/utf8text_search.c:169 | Definition of `U8_LENGTH` on a scalar value: 1 byte up to U+007F, 2 up to U+07FF, 3 up to U+FFFF, 4 above. The ensures bounds it to 1..4; `Utf8.EncodeScalar` ties it to the bytes it counts. |
| Utf8.EncodeScalar | sandbox/utf8text_search.c:169 | The UTF-8 bytes of a scalar value number exactly `U8_LENGTH` of it. The lead byte announces that length, the rest are continuation bytes, and decoding them gives the value back. |
| ByteCount.CountU8Bytes | sandbox/utf8text_search.c:163-172 | The UTF-8 size of well-formed UTF-16 is at least one and at most three bytes per unit. |
| ByteCount.CountU8BytesLoop | sandbox/utf8text_search.c:163-172 | The `count_U8_bytes` loop over the first `length` units returns exactly the UTF-8 size of those units. |
| ByteCount.CountStep | sandbox/utf8text_search.c:167-170 | One loop pass moves `pos` to the next boundary. It adds `U8_LENGTH` of the value read, keeping `size` equal to the size of the prefix walked so far. |
| ByteCount.CountScalar | sandbox/utf8text_search.c:167-170 | One scalar value in front of a sequence adds exactly its `U8_LENGTH` to the count. |
| ByteCount.CountAdditive | sandbox/utf8text_search.c:163-172 | The count of a concatenation is the sum of the counts of its parts. |
| ByteCount.CountSplit | sandbox/utf8text_search.c:163-172 | Splitting well-formed text at a code-point boundary splits the count. |
| ByteCount.CountSlices | sandbox/utf8text_search.c:111-113 | For boundaries i <= j <= k, the count of [i, k) is the count of [i, j) plus that of [j, k). |
| ByteCount.SliceWidth | sandbox/utf8text_search.c:111-115 | The UTF-8 width of a slice between two boundaries is between one and three bytes per unit. |
| ByteCount.WholeSliceWidth | sandbox/utf8text_search.c:137 | The width of the slice from start to end is the count of the whole chunk. |
| ByteCount.SliceWidthAdditive | sandbox/utf8text_search.c:111-113 | Slice widths add up, and a longer prefix is never narrower. So `b_pos`, summed one slice at a time, is the width of everything before the current match. |
| ByteCount.CountIsUtf8Length | sandbox/utf8text_search.c:162-172 | The count is the length of the UTF-8 encoding of the scalar values the UTF-16 text spells. |
| Accumulator.Init | sandbox/utf8text_search.c:43-59 | `init` yields a live session with both lists empty and both prefixes zero, and the session satisfies the invariant. |
| Accumulator.Ready | sandbox/utf8text_search.c:64-66 | `text_search` calls `init` when `matchResult` is NULL: a live session is used as it is, an uninitialised one is replaced by empty lists and zero prefixes. The result is live, and valid whenever the input was. |
| Accumulator.CharRecord | sandbox/utf8text_search.c:103-104 | Definition: the character record of a match has index `prefix + position + 1` and the matched length in UTF-16 units. |
| Accumulator.ByteRecord | sandbox/utf8text_search.c:111-119 | Definition, as a direct reference: the byte record's index is `b_prefix` plus the UTF-8 width of all units before the match, plus 1, and its length is the UTF-8 width of the matched units. `Accumulator.RunAppendsRecords` shows that the loop's running `b_pos` computes it. |
| Accumulator.ByteRecordWithinChunk | sandbox/utf8text_search.c:113-119 | The byte record of a match starts no earlier, from the chunk's start, than the match does in units. It is at least as long as the match and ends within the chunk's bytes. |
| Accumulator.Step | sandbox/utf8text_search.c:99-124 | Definition of one loop pass: append `Record(prefix + position + 1, length)`, add the width of the units from `pre_position` to `position` to `b_pos`, set `pre_position` to `position`, and append `Record(b_prefix + b_pos + 1, width of the match)`. |
| Accumulator.Run | sandbox/utf8text_search.c:97-128 | Definition of the loop: one `Step` per match reported by `usearch_first`/`usearch_next`, in order, until there are no more. |
| Accumulator.StepAppendsRecords | sandbox/utf8text_search.c:99-122 | One loop pass appends one character record and one byte record for its match. It moves `pre_position` to the match and leaves `b_pos` equal to the width of the units before the match. |
| Accumulator.RecordsCons | sandbox/utf8text_search.c:97-128 | The records of a run of matches are those of the first match, followed by those of the rest. |
| Accumulator.RunAppendsRecords | sandbox/utf8text_search.c:93-128 | The search loop appends, in order, one record of each kind per match. Each byte record's index is the full width of the text before its match, though the loop only measures the slice since the previous match. |
| Accumulator.SearchLoop | sandbox/utf8text_search.c:93-128 | The loop started with `prefix`/`b_prefix` and any earlier lists leaves those lists as they were, followed by the stream-wide records of every match in order. |
| Accumulator.TextSearch | sandbox/utf8text_search.c:62-142 | On a conversion or `usearch_open` failure, returns -1 and leaves the (initialised) session unchanged. Otherwise returns 0, moves `prefix` by the chunk's units and `b_prefix` by its UTF-8 size, and appends the stream-wide 1-based records of every match. |
| Lifecycle.MatchRecordsInChunk | sandbox/utf8text_search.c:103-119 | Both records of one match lie inside the chunk in both coordinates: each starts after the chunk's start, and its index plus its length is at most the chunk's end plus one. Neither byte coordinate is smaller than the unit one. |
| Lifecycle.MatchRecordsOrdered | sandbox/utf8text_search.c:97-127 | Matches further right get records that are no earlier, in both coordinates. |
| Lifecycle.AppendedRecordsBounded | sandbox/utf8text_search.c:102-122 | Every record pair appended for a chunk lies inside the chunk, start and end, in both coordinates. Each byte record is at least as long as its character record. |
| Lifecycle.AppendedRecordsSorted | sandbox/utf8text_search.c:97-128 | The records appended for a chunk are sorted in both coordinates. |
| Lifecycle.AppendedRecordsInChunk | sandbox/utf8text_search.c:97-128 | The records of one chunk start and end within the chunk in both coordinates, and they are sorted. |
| Lifecycle.AppendKeepsBounds | sandbox/utf8text_search.c:102-122 | After the append, every record lies in the part of the stream searched so far: index at least 1, and index plus length at most the prefix plus one, in both lists. |
| Lifecycle.AppendKeepsOrder | sandbox/utf8text_search.c:106-122 | After the append, both lists are sorted, and new records come strictly after old ones. |
| Lifecycle.AppendChunkKeepsValid | sandbox/utf8text_search.c:102-137 | Appending one chunk's records to a valid live session, and moving both prefixes to the chunk's end, gives a valid session. |
| Lifecycle.TextSearchKeepsValid | sandbox/utf8text_search.c:62-142 | `text_search` keeps the session invariant. The lists have equal lengths. Every record starts and ends within the stream searched so far (index + length <= prefix + 1, and likewise in bytes). Both lists are sorted. A byte record is never earlier or shorter than its character record. |
| Lifecycle.TextSearchAppendsLater | sandbox/utf8text_search.c:102-122 | When the search ran, every record it appended has a strictly larger index than every record already in the list, in both coordinates. |
| Lifecycle.SearchInitialisesFirst | sandbox/utf8text_search.c:64-66 | On an uninitialised session, `text_search` behaves exactly as on a freshly initialised one. |
| Lifecycle.EngineErrorKeepsRecords | sandbox/utf8text_search.c:130-137 | A search that stopped on an engine error keeps the records found before the error and moves the prefixes as a clean search would. |
| Lifecycle.TextSearchTotals | sandbox/utf8text_search.c:135-137 | One call moves the prefixes by the chunk's units and bytes whether or not anything matched. It adds one record per match to each list and leaves earlier records untouched. |
| Lifecycle.SearchChunks | sandbox/utf8text_search.c:264-266 | Definition of the chunk loop: `text_search` applied to each chunk in turn, threading the session. |
| Lifecycle.SearchChunksKeepsValid | sandbox/utf8text_search.c:264-266 | Any run of `text_search` calls over successive chunks keeps the session invariant. |
| Lifecycle.SearchChunksTotals | sandbox/utf8text_search.c:264-266 | After any run of chunks, `prefix` and `b_prefix` have moved by exactly the units and UTF-8 bytes of the chunks searched. Each list has grown by the number of matches reported. |
| Lifecycle.SearchChunksKeepsEarlier | sandbox/utf8text_search.c:264-266 | Searching further chunks never changes records already reported: the old lists are prefixes of the new ones. |
| Lifecycle.ClearResult | sandbox/utf8text_search.c:175-196 | `clear_result`, which needs an initialised session, leaves the lists freed, both prefixes zero and the session uninitialised. The next `text_search` behaves as the first of a fresh session. |
| Lifecycle.ClearResultTwiceFaults | sandbox/utf8text_search.c:176-178 | The state `clear_result` leaves is one on which `clear_result` reads through a null pointer. |
| Lifecycle.Clear | sandbox/utf8text_search.c:175-196 | Clearing with a null check is defined on every session, agrees with `clear_result` wherever that is defined, and leaves a session from which the next search starts afresh. |
| Lifecycle.ClearIdempotent | sandbox/utf8text_search.c:175-196 | Clearing with the null check twice is the same as clearing once. |
| Scenarios.CountAscii | sandbox/utf8text_search.c:169 | Text of units below U+0080 is well formed and takes one byte per unit. |
| Scenarios.CountThreeByte | sandbox/utf8text_search.c:169 | Text of units in U+0800..U+D7FF is well formed and takes three bytes per unit. |
| Scenarios.FooOnce | sandbox/utf8text_search.c:103-118 | A three-unit ASCII chunk matched whole, from any live session, gets index `prefix + 1` in both coordinates, and both prefixes move by 3. |
| Scenarios.FooTwice | sandbox/utf8text_search.c:135-137 | The chunk "foo" searched twice for "foo" reports indices 1 and 4 in both lists, with both prefixes ending at 6. |
| Scenarios.ByteRecordOfSplit | sandbox/utf8text_search.c:111-118 | A match covering exactly `mid` in `pre + mid + post` has byte index `b_prefix + width(pre) + 1` and byte length `width(mid)`. |
| Scenarios.KanaMatches | sandbox/utf8text_search.c:103-119 | "XXX" in "あいうえおXXXさしすせそXXXたちつてと" gets character indices 6 and 14 and byte indices 16 and 34. The chunk is 21 units and 51 bytes. |
| Scenarios.EmojiMatches | sandbox/utf8text_search.c:103-119 | After a supplementary character, "XXX" has character index 3 and byte index 5. The character itself is a match 2 units and 4 bytes long. |

## Left out

- The ICU calls themselves (collation, locale from `uloc_getDefault`, UTF-8 to UTF-16 conversion) are an oracle: `Accumulator.Engine` carries their results.
- `Accumulator.ValidMatches` is an assumption about that oracle, not something proved. It says matches are non-empty, in bounds, on code-point boundaries, and left to right.
- `ByteCount.CountU8Bytes` requires well-formed UTF-16. Unpaired surrogates depend on definitions of `U16_NEXT` and `U8_LENGTH` that are not part of this model. `u_strFromUTF8` never produces them from text it accepts.
- `Accumulator.TextSearch` uses unbounded integers for `prefix`, `b_prefix` and the indices. The source's 32-bit `int` would overflow past 2^31 - 1 units or bytes, and that wrap-around is not modelled.
- Lines 110-124 copy the units from the previous match to this one into the scratch buffer `tmp` with `u_strncpy`, then measure them with `u_strlen`. The model measures that slice directly, which is what the copy is meant to hold. `u_strncpy` writes no terminator when it copies exactly the requested number of units. So on the first pass `u_strlen` at line 113 runs past the slice into uninitialised stack memory, and when the first match is at position 0 it reads `tmp` with nothing written at all. On later passes the `memset` at line 124 clears `MAX_TEXT_LENGTH * 4` bytes, which is half of `tmp`. That supplies the terminator only for slices shorter than `MAX_TEXT_LENGTH * 2` units. None of this is modelled.
- `usearch_getMatchedText` (line 114) is modelled as the units [position, position + length) of the chunk. A failure it reports ends the loop after the current match, which is the `stoppedOnError` case.
- The messages written to stderr (lines 89, 132), `usearch_close`, and all `malloc`/`free` are not modelled. This includes the last list node that `clear_result` never frees. The lists are sequences without sentinel heads.
- `print_result`, `print_result_as_byte` and `main` (option parsing, file reading, line mode) are left out. Only the chunk loop of lines 264-266 appears, as `Lifecycle.SearchChunks`.
- The capacities `MAX_TEXT_LENGTH` and `MAX_PATTERN_LENGTH` are not modelled. A chunk too long to convert surfaces as `Engine.ConversionFailed`.

## Findings

| source | as written | input that shows it | evidently intended | confidence | as-written member | corrected member |
|---|---|---|---|---|---|---|
| sandbox/utf8text_search.c:176-178 | `clear_result` reads `matchResult->next` without checking `matchResult`, and it sets `matchResult` to NULL on exit. | `clear_result()` on a session never initialised, or twice in a row: the first read is through a null pointer. | Clearing a session that holds nothing does nothing, and clearing is idempotent. | not executed; high (the null read is direct) | Lifecycle.ClearResult, Lifecycle.ClearResultTwiceFaults | Lifecycle.Clear, Lifecycle.ClearIdempotent |
