# csv-parser in Dafny

A model of the streaming CSV reader of csv-parser. The reader pulls bytes from a `FILE` through a fixed read window. It assembles one `'\n'`-terminated line in a growable scratch buffer, across as many window refills as the line needs. Then it cuts the line into NUL-terminated fields in a private copy, with one start offset per field. The model covers the current implementation in `src/csv.c` and the older copy at the repository root, `csv.c`.

Modules, one file each:

- `Bytes` (`bytes.dfy`) — the byte type and the constants of `src/csv.h` and `src/csv.c`. It also holds the two scans the rest is built on: the first occurrence of a byte (`memchr`, `strlen`) and the number of occurrences.
- `Io` (`io.dfy`) — two classes:
  - `Stream`: a `FILE` as seen by `fread`, `feof` and `ferror`. It holds a byte sequence, a position, and whether the medium fails once that sequence is exhausted.
  - `Window`: the `Buffer` of `src/csv.h`, with `create_buffer`, `load_buffer` and `destroy_buffer`. It is an array with the indices `bp` and `end`.
  - `Pending(b, fp)` is what a reader still has to deliver: the window's unread bytes, then the stream's.
- `DelimitedReader` (`reader.dfy`) — `__getdelimiter`, the copy loop with its growth rule, and the scratch buffer as a class. It also defines `ReadLine`, what one read makes of the pending bytes: `ReadError` when none of them is the delimiter and the medium fails, otherwise the bytes up to and including the first delimiter (`NextLine`, all of them when there is none). `Lines` cuts the pending bytes into the lines successive reads deliver. `FirstCapacity` is the capacity a read starts from, `LINE_BUFFER_SIZE` in place of a size that is not positive. `GetDelimiter`'s contract speaks only of `Pending`. So the line it delivers does not depend on the window's capacity or on where its refills fall.
- `Tokens` (`tokens.dfy`) — the meaning of a tokenized row, on values:
  - the field starts (`Starts`);
  - the fields between separators (`Split`) and their inverse (`Join`);
  - the in-place rewrite of separators to NUL (`Rewrite`);
  - the cut of the last field at its first CR or LF (`Cut`, `StripLast`);
  - the C strings the starts point to (`Views`).
- `Tokenizer` (`tokenizer.dfy`) — `get_number_of_fields`, `load_row`, `load_row_comma`, and the `Row` class with `create_row` and `destroy_row`. The field pointers are offsets into the row's text block; the ghost field `freed` is the set of blocks released so far, so a contract can say which blocks a call frees and that a new row's blocks are fresh.
- `CsvReader` (`csvreader.dfy`) — the `CSV` handle (`create_csv`, `initialize_csv`, `destroy_csv`) and the per-call state machine (`get_next_line2`, `get_next_line`, `get_next_row`). It also states what successive calls return: `Codes(p, d, failing, k)` is the list of results of k calls when p is pending, each call returning `Code` of the line `ReadLine` takes (0 for an empty read, else its field count) or `FAILED_READ`. `LineCodes` is the list of codes of a list of lines.
- `Legacy` (`legacy.dfy`) — `__getdelim` and `load_row` of the root `csv.c`. That `get_number_of_fields` is identical to the current one and is modelled once, in `Tokenizer`.

Points where the code behaves differently from what its names and comments suggest; the model follows the code:

- `load_row` cuts the last field at its *first* CR or LF (`strcspn(…, "\r\n")`), not only at a trailing line ending. Anything after that byte is dropped.
- A failing `load_row` does not leave the row unchanged. It has already released the previous blocks without clearing `r->data` (see Findings).
- The only error `load_row` reports after the copy is `INCORRECT_STRING` (-2), when the byte after the line is not NUL.
- The line handed to `load_row` by `get_next_line2` is measured with `strlen`, so a line with an embedded NUL is tokenized only up to that NUL.
- The second parameter of `get_next_line2` is named `delimiter` but is the field separator. The line delimiter is always `'\n'`.

## Model

| member | source | states |
|---|---|---|
| Bytes.IndexOf | src/csv.c:53 | memchr/strlen: the index of the first occurrence of the byte (no earlier one), or the length when absent |
| Bytes.Count | src/csv.c:107-118 | the occurrence count never exceeds the length |
| Bytes.CountStep | src/csv.c:110-116 | one more scanned byte adds one exactly when it is the separator |
| Bytes.CountMonotone | src/csv.c:110-116 | counting a longer prefix never gives fewer occurrences |
| Bytes.CountAppend | src/csv.c:110-116 | the count of a concatenation is the sum of the counts |
| Bytes.CountIndices | src/csv.c:107-118 | the count equals the number of indices holding the separator |
| Bytes.IndexOfBefore | src/csv.c:240 | strlen of a buffer terminated at e equals strlen of its first e bytes |
| Io.Stream.Open | test/test.c:56-57 | an open stream that has read nothing: its unread bytes are its content, no indicator set |
| Io.Stream.Read | src/csv.c:190 | fread copies min(n, unread) bytes to the front of dst, advances by that many, and a short read sets feof, or ferror on a failing medium |
| Io.Window.Create | src/csv.c:330-339 | create_buffer: capacity CSV_BUFFER_SIZE, bp == end == 0, nothing unread |
| Io.Window.Load | src/csv.c:189-199 | load_buffer: FAILED_READ only when nothing was read and ferror is set (window and stream untouched then); otherwise bp = 0, end = bytes read, the window holds the next stream bytes; 0 only at end of file |
| Io.Window.Destroy | src/csv.c:376-379 | destroy_buffer releases the array and changes nothing else |
| DelimitedReader.LineBuffer.constructor | src/csv.c:227-228 | the scratch buffer holds the given bytes and capacity |
| DelimitedReader.LineBuffer.Put | src/csv.c:75 | memcpy: the chunk follows the first cur_len bytes, and the capacity stays |
| DelimitedReader.LineBuffer.Reserve | src/csv.c:59-72 | when needed exceeds the capacity the buffer grows to Grow(capacity, needed) keeping its bytes; otherwise the capacity is unchanged |
| DelimitedReader.Grow | src/csv.c:61-64 | the new capacity is at least needed and at least double, and never more than 2·needed − 1 |
| DelimitedReader.LineLength | src/csv.c:53-57 | one read takes at most all pending bytes |
| DelimitedReader.LineLengthFacts | src/csv.c:53-57 | the bytes taken end just after the first delimiter and hold no earlier one, or are all bytes when there is no delimiter |
| DelimitedReader.LineLengthAt | src/csv.c:53-57 | a read ends exactly after the first delimiter |
| DelimitedReader.TakeChunk | src/csv.c:53-78 | one memchr/grow/memcpy pass appends the window's bytes up to and including the first delimiter (or all of them) to the line, advances bp by that many, keeps room for the terminator |
| DelimitedReader.DeliveredLine | src/csv.c:51-102 | what the loop delivered is the line one read takes from the pending bytes, and the rest stays pending |
| DelimitedReader.Advance | src/csv.c:75-82 | copying the window's bytes up to its first delimiter either completes the line or leaves the loop still copying with that window consumed |
| DelimitedReader.Step | src/csv.c:53-82 | a pass over the window completes the line, or takes the whole window and leaves it empty; pending bytes are only moved, never lost |
| DelimitedReader.Exhausted | src/csv.c:86-90 | with nothing pending, all bytes have been copied and they hold no delimiter |
| DelimitedReader.Drained | src/csv.c:88-90 | an empty window over a stream at end of file has nothing pending |
| DelimitedReader.Refill | src/csv.c:91-95 | refilling an empty window keeps the pending bytes the same, or fails with FAILED_READ only when the medium fails and nothing was pending |
| DelimitedReader.Finish | src/csv.c:100-102 | the delivered bytes are NUL-terminated at cur_len and cur_len is returned |
| DelimitedReader.Pass | src/csv.c:51-97 | one iteration of the for(;;) loop: continue with fewer bytes left, stop with the line complete, or fail only when the line has no delimiter and the medium fails |
| DelimitedReader.CopyLine | src/csv.c:40-102 | the loop delivers the next line of the pending bytes, NUL-terminated, leaving the rest pending, or FAILED_READ; capacity never shrinks and grows at most to 2·len + 1 |
| DelimitedReader.GetDelimiter | src/csv.c:20-104 | INCORRECT_FORMAT without a buffer; otherwise the result is ReadLine of the pending bytes: the line up to and including the first '\n' (or all pending bytes at end of stream), its length returned and NUL-terminated, the rest still pending; FAILED_READ on a failing medium; capacity at least LINE_BUFFER_SIZE or the caller's |
| DelimitedReader.LinesFlatten | src/csv.c:20-104 | successive reads deliver every pending byte exactly once, in order |
| DelimitedReader.LinesShape | src/csv.c:51-82 | every line read is non-empty, holds the delimiter only as its last byte, and every line but the last ends with it |
| Tokens.Starts | src/csv.c:158-167 | one start per field (separators + 1), the first at 0, all within the line |
| Tokens.StartsFollowSeparators | src/csv.c:163-165 | every start after the first is just past a separator |
| Tokens.StartsIncrease | src/csv.c:162-167 | starts are recorded in source order |
| Tokens.StartsAfterEverySeparator | src/csv.c:162-167 | every separator is followed by a recorded start |
| Tokens.NoSeparatorInsideField | src/csv.c:162-167 | no separator lies inside a field |
| Tokens.StartsStep | src/csv.c:162-167 | scanning one more byte records a start exactly when it is a separator |
| Tokens.RewriteStep | src/csv.c:162-167 | the loop body rewrites byte i to NUL exactly when it is the separator |
| Tokens.RewriteDone | src/csv.c:162-167 | after the last iteration the copy is the rewritten line and its terminator |
| Tokens.FieldEnd | src/csv.c:162-167 | a field ends between its start and the end of the line |
| Tokens.Split | src/csv.c:162-167 | a line has separators + 1 fields |
| Tokens.Rewrite | src/csv.c:162-167 | the rewrite keeps the line's length |
| Tokens.Strcspn | src/csv.c:174 | strcspn(u, "\r\n") stops at the first CR, LF or NUL, with none before it |
| Tokens.Cut | src/csv.c:174 | the last field is cut between its start and the end of the line |
| Tokens.CutCopy | src/csv.c:156-174 | the copy is one byte longer than the line and holds NUL at the end and at the cut |
| Tokens.TokenCopy | src/csv.c:156-174 | load_row's copy: one byte longer than the line, NUL at the end and where the last field is cut |
| Tokens.StripLast | src/csv.c:174 | cutting the last field keeps the number of fields |
| Tokens.SplitField | src/csv.c:162-167 | field k is exactly the bytes between its recorded start and the next separator |
| Tokens.JoinSplit | src/csv.c:156-167 | joining the fields with the separator gives the line back |
| Tokens.SplitAppendFree | src/csv.c:162-167 | bytes free of the separator appended to a line extend its last field |
| Tokens.SplitJoin | src/csv.c:156-167 | splitting a join of separator-free fields gives the fields back |
| Tokens.ViewEndsAtNul | src/csv.c:176-177 | the C string at a start ends at the first NUL after it |
| Tokens.CutCopyKeeps | src/csv.c:156-167 | away from the cut, the copy keeps every byte that is not a separator |
| Tokens.InnerFieldView | src/csv.c:162-177 | a field before the last reads the line between its start and the next separator, wherever the last field is cut |
| Tokens.LastFieldView | src/csv.c:174-177 | the last field reads the line from its start up to the cut |
| Tokens.FieldView | src/csv.c:158-177 | view k of the copy is split field k, the last one cut at its first CR or LF |
| Tokens.TokenizeFields | src/csv.c:156-177 | the views of a loaded row are the line's fields with only the last one cut at its first CR or LF |
| Tokens.StrcspnStopsAtNul | src/csv.c:174 | the terminator does not move the cut |
| Tokens.RewriteCopy | csv.c:52-66 | the rewritten line with its terminator is the copy cut at the very end |
| Tokens.StripRewritten | src/csv.c:169-174 | cutting the rewritten copy at its last field's first CR, LF or NUL gives load_row's copy |
| Tokens.CutRewritten | src/csv.c:169-174 | the cut copy is the rewritten copy with NUL written at the cut |
| Tokens.UncutFields | csv.c:52-74 | without the cut, the views of the rewritten copy are exactly the split fields |
| Tokens.StartsOrdered | src/csv.c:162-167 | starts increase over any distance |
| Tokens.JoinStripLast | src/csv.c:174 | cutting the last field drops exactly its tail from the joined line |
| Tokens.JoinFree | src/csv.c:162-167 | a join of fields free of a byte other than the separator is free of it |
| Tokens.StrcspnBeforeEnding | src/csv.c:174 | a field free of CR, LF and NUL is not cut by a line ending after it |
| Tokens.TokenizeJoin | src/csv.c:132-186 | tokenizing clean fields joined by the separator, with LF, CR LF or no ending, gives one field per part and the parts themselves |
| Tokens.StripEnding | src/csv.c:174 | cutting the last field at its line ending removes exactly that ending (LF or CR LF) |
| Tokens.RowRoundTrip | src/csv.c:156-177 | joining the fields of a loaded row gives the line up to the cut, and what was dropped starts with CR or LF |
| Tokens.LastStartInText | src/csv.c:162-167 | the last field starts inside the text, not in its line ending |
| Tokens.CutAtEnding | src/csv.c:174 | the last field is cut exactly where its line ending begins |
| Tokens.LineEndingRoundTrip | src/csv.c:156-177 | a line ending in LF, CR LF or nothing comes back without its ending when its fields are joined |
| Tokenizer.Row.constructor | src/csv.c:341-345 | create_row: size 0 and data NULL |
| Tokenizer.Row.Release | src/csv.c:220-225 | frees the blocks of a loaded row, which join `freed`, and resets it to size 0, data NULL |
| Tokenizer.Row.Destroy | src/csv.c:368-374 | destroy_row releases the blocks, which join `freed`, and leaves size and data as they were |
| Tokenizer.GetNumberOfFields | src/csv.c:107-118 | the count of the separator among the first size bytes (none when size ≤ 0), plus one |
| Tokenizer.Duplicate | src/csv.c:150-156 | malloc(size + 1) then memcpy: a fresh block holding the line and the byte after it |
| Tokenizer.Visit | src/csv.c:162-167 | one iteration rewrites a separator to NUL and records the next start; other bytes stay |
| Tokenizer.Tokenize | src/csv.c:158-167 | the copy becomes the rewritten line plus its terminator, and data holds the starts |
| Tokenizer.Build | src/csv.c:141-177 | INCORRECT_STRING exactly when the byte after the line is not NUL, with neither block returned; otherwise fresh blocks holding the starts and load_row's copy |
| Tokenizer.CutLast | src/csv.c:174 | the last field's first CR or LF becomes NUL, which leaves load_row's copy |
| Tokenizer.LoadRowDangling | src/csv.c:132-186 | load_row as written: the old blocks join `freed`; on failure size, data and text still point at those previous blocks, which it has released |
| Tokenizer.DanglingAfterFailedReload | src/csv.c:136-139 | loading "a,b" then a line whose size-th byte is not NUL leaves a row with data set and its blocks released |
| Tokenizer.LoadRow | src/csv.c:132-186 | the old blocks join `freed`; INCORRECT_STRING exactly when the byte after the line is not NUL, leaving the row empty; otherwise size is separators + 1, data the starts and text the copy, and the fields are the line's fields with the last cut at its first CR or LF |
| Tokenizer.LoadRowComma | src/csv.c:129-131 | the corrected load_row with ',': the old blocks join `freed`; INCORRECT_STRING exactly when the byte after the line is not NUL, leaving the row empty; otherwise the row holds the line tokenized at ',' |
| Tokenizer.AsciiJoin3 | test/test.c:31-32 | three texts joined by commas are, as bytes, the join of their bytes |
| Tokenizer.QuotedFields | test/test.c:29-51 | "'a9ab','432a','6ad0'" split at ',' gives three fields: 'a9ab', '432a' and '6ad0' |
| CsvReader.Code | src/csv.c:234-249 | 0 exactly for the empty read; otherwise the field count of the line up to its first NUL |
| CsvReader.Csv.constructor | src/csv.c:297-327 | create_csv: keeps the stream, a fresh empty window of CSV_BUFFER_SIZE and an empty row; the pending bytes are the stream's |
| CsvReader.Csv.GetNextLine2 | src/csv.c:214-262 | the previous row's blocks join `freed`; the next line is read; at end of stream 0 with an empty row; FAILED_READ with an empty row; otherwise the field count, with the row holding the line tokenized up to its first NUL in fresh blocks |
| CsvReader.Csv.GetNextLine | src/csv.c:210-212 | get_next_line2 with ',' |
| CsvReader.Csv.NextCode | src/csv.c:214-262 | one call returns the first of the codes (`Codes`) of what was pending and leaves what the rest of them are the codes of |
| CsvReader.Csv.ReadCodes | src/csv.c:214-262 | k successive calls return exactly the codes `Codes` gives for what was pending before the first |
| CsvReader.Csv.GetNextRow | src/csv.c:274-284 | a negative code comes back as size with data NULL and the handle's row empty; otherwise a copy of the handle's row, whose size is the code: empty with data NULL at the end of the stream, else holding the line in fresh blocks |
| CsvReader.Csv.Destroy | src/csv.c:347-365 | destroy_csv releases the window and the row and leaves the stream untouched |
| CsvReader.LoadLine | src/csv.c:231-261 | a failed read passes the code on with an empty row, an empty read gives 0 and an empty row, a line gives its field count and the row holds it |
| CsvReader.InitializeCsv | src/csv.c:288-295 | initialize_csv returns 0 and a fresh handle over the stream with nothing read |
| CsvReader.EndIsSticky | src/csv.c:230-238 | once a stream is exhausted without error, every further call returns 0 |
| CsvReader.ErrorIsSticky | src/csv.c:230-233 | once a failing stream is exhausted, every further call returns FAILED_READ |
| CsvReader.CodesCall | src/csv.c:230-249 | a call whose result and leftover are those of one read makes the codes of the pending bytes its result followed by the codes of the leftover |
| CsvReader.CodesLine | src/csv.c:230-249 | a call returns the code of the next line and leaves the rest pending |
| CsvReader.RowsThenEnd | src/csv.c:214-262 | successive calls return one code per line, then the codes of the exhausted stream |
| CsvReader.RowsThenZeros | src/csv.c:214-262 | successive calls on a stream that does not fail return one field count per line, then 0 for ever |
| CsvReader.LineCodesPositive | src/csv.c:240-249 | every line read gives a positive field count |
| CsvReader.RowLine | src/csv.c:230-249 | a line of clean fields and '\n' is read whole; its code is its number of fields and the row holds those fields |
| CsvReader.ThreeLines | src/csv.c:214-262 | three such lines give their three field counts, then 0 |
| CsvReader.CodesRow | src/csv.c:230-249 | a call reading a line of clean fields returns its field count |
| CsvReader.ThreeRows | src/csv.c:214-262 | reading "1,2,3\n2,3,4\n3,4,5\n" returns 3, 3, 3, then 0 |
| CsvReader.DigitRowFields | test/test.c:64-73 | a row of one-digit fields such as "1,2,3\n" holds exactly those digits, so field i of the first row parses as i + 1 |
| Legacy.TakenIsPrefix | csv.c:130-139 | what one call of __getdelim works on is the front of the pending bytes |
| Legacy.GetDelim | csv.c:110-182 | INCORRECT_FORMAT without a buffer; FAILED_READ exactly when the window is empty and the medium fails; otherwise the line taken from the window's bytes only (refilled once if empty), NUL-terminated, its length returned, bp advanced by it |
| Legacy.ReadWindow | csv.c:130-180 | the same, once both buffers exist |
| Legacy.Fill | csv.c:130-139 | the window is loaded only when empty; afterwards it holds what the call takes and the pending bytes are unchanged |
| Legacy.WindowPass | csv.c:141-175 | one iteration takes from the window and ends the loop when the delimiter was copied or nothing was |
| Legacy.CopyWindow | csv.c:141-180 | the loop never refills: it delivers the window's bytes up to and including the first delimiter, or all of them |
| Legacy.Terminate | csv.c:178-180 | the result is NUL-terminated at cur_len and cur_len is returned |
| Legacy.SplitLine | csv.c:141-175 | a line whose delimiter lies past the window's bytes comes back cut at the window's end, unlike one read of the pending bytes |
| Legacy.SplitAcrossWindow | csv.c:110-182 | on a line of CSV_BUFFER_SIZE bytes before '\n', __getdelim returns the bytes without the newline while __getdelimiter returns the whole line |
| Legacy.LegacyOnLongLine | csv.c:110-182 | __getdelim on that line from a fresh window stops at the window's end |
| Legacy.CurrentOnLongLine | src/csv.c:20-104 | __getdelimiter on that line from a fresh window delivers all of it |
| Legacy.SplitLongLine | csv.c:130-175 | 4096 'a' and then '\n': __getdelim returns 4096, __getdelimiter 4097 |
| Legacy.LoadRow | csv.c:33-84 | INCORRECT_STRING exactly when the byte after the line is not NUL, with the row untouched; otherwise size is separators + 1, starts recorded, separators rewritten to NUL, no CR/LF cut, and the fields are exactly the split fields; the blocks the row held are dropped without joining `freed`, so a live row's old blocks leak |
| Legacy.LegacyRoundTrip | csv.c:52-74 | joining the fields of the older load_row gives back the whole line, line ending included |

## Left out

- Tokenizer.LoadRowComma: on failure it follows the corrected load_row (see Findings) and leaves an empty row. `load_row_comma` as written calls the faulty `load_row`, so a failed reload of a loaded row leaves size, data and text on the released blocks, as `LoadRowDangling` states.
- Allocation failure. Dafny's `new` cannot fail, so `FAILED_MALLOC` (-1) is never returned, by `malloc` in `__getdelimiter`, `load_row`, `create_buffer`, `create_csv` or `initialize_csv`, or by `realloc` in the growth step. The paths that go with it are not modelled: the free of the uninitialised `row_strings` in `load_row`, and the `Buffer` struct that `create_csv` leaks when `create_buffer` fails.
- C `int` overflow. Sizes, `2 * *str_size` and the field count are unbounded integers.
- Separators of 128 and above. `load_row` compares a signed `char` with an `int` separator, so only ASCII separators work, as its comment at src/csv.c:126 says. The tokenizer members require `sep < 128`.
- Tokenizer.Build: requires the separator to be below 128, for the reason above.
- Tokenizer.LoadRow: requires the separator to be below 128, for the reason above.
- Tokenizer.LoadRowDangling: requires the separator to be below 128, for the reason above.
- Legacy.LoadRow: requires the separator to be below 128, for the reason above.
- CsvReader.LoadLine: requires the separator to be below 128, for the reason above.
- CsvReader.Csv.GetNextLine2: requires the separator to be below 128, for the reason above.
- The C stdio internals. A stream is a byte sequence read by `fread`, with `feof` and `ferror` indicators. A medium that fails does so once its bytes are exhausted; a stream that fails part way is the prefix it delivered followed by the error.
- `fsetpos`/`fgetpos` in the root `csv.c`, and its broken `create_csv`, `get_next_line` and `parse_csv`. Its `destroy_csv` closes the stream, which is outside this model. Its `load_buffer` and `get_number_of_fields` are identical to the current ones and are modelled once; its `load_row_comma` is its `load_row` with ','.
- The unused global `separator` of both files.
- The scratch buffer is modelled as a sequence the methods reassign, not as memory reached through `char **`, so aliasing of `*str` with other memory is not modelled. The third parameter of `load_buffer`, overwritten on entry, is dropped.
- CsvReader.Csv.GetNextLine2: the release at its start is written out. The conditional free on its `Fail` path is dead: the row is already empty there and `load_row` cannot fail after `strlen`. The path is kept without that free.
- CsvReader.LoadLine: the `load_row` error branch of `get_next_line2` cannot be taken. `strlen` stops at a NUL, so the byte after the measured line is always NUL.
- Tokenizer.Row.Destroy: it marks the blocks released whatever the size. `destroy_row` skips `free(data[0])` when the size is 0, but `data` is NULL then for every row this model can build.
- The ownership discipline is the ghost field `live` of the window and the ghost set `freed` of the row. Double frees and use after free are not checked beyond them.
- `test___getdelimiter` (test/test.c:4-27) reads `file_test.txt`, which is not part of this model. It is replaced by the three-line scenario of `CsvReader.ThreeRows`.
- `test_get_next_line` calls `get_next_line2` with one argument and uses its result as a `Row` (test/test.c:64). That call does not match `src/csv.h`. Only its assertion on the first row is modelled, by `CsvReader.DigitRowFields`.
- `example/example.c` is an I/O driver and is not part of this model.

## Findings

| source | as written | input that shows it | evidently intended | confidence | as-written member | corrected member |
|---|---|---|---|---|---|---|
| src/csv.c:136-139 | `load_row` frees `r->data[0]` and `r->data` but leaves `r->data` and `r->size` set; a load that then fails returns with the row pointing at freed blocks | `load_row(r, "a,b", 3, ',')` then `load_row(r, "ab", 1, ',')`: the second returns -2 and `r->data` is dangling (a failing `malloc` does the same) | reset the row to size 0 and data NULL after freeing, so a failed load leaves an empty row | not executed | Tokenizer.DanglingAfterFailedReload | Tokenizer.LoadRow |
| csv.c:130-175 | `__getdelim` refills the window only when it is empty on entry, and its loop stops when a pass copies nothing, so it never reads past the window | a stream of 4096 bytes `'a'` then `'\n'`, read from a fresh window: the result is 4096 bytes without the newline, and the newline comes back as a line of its own | refill on exhaustion until the delimiter or end of file, as `__getdelimiter` in src/csv.c does | not executed | Legacy.SplitLongLine | DelimitedReader.GetDelimiter |
