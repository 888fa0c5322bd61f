# scratchdb in Dafny

scratchdb is a single-table database with a read-eval-print loop. Every row has a
uint32 ID, a username and an email. A row is stored as a fixed-width 36-byte
record in 4096-byte pages. The pages are fetched lazily from one database file
through a pager and cached, and `Table.Close` writes them back when the loop ends.
The loop reads lines from standard input and understands these commands:

- `.exit`;
- `insert <id> <username> <email>`, scanned with `fmt.Sscanf`;
- `select`, which prints every row.

This project models `cmd/scratchdb/main.go` in Dafny and proves properties of
that model. It has six modules, one per layer of the program:

| file | module | models |
|---|---|---|
| `layout.dfy` | `Layout` | the size constants, the little-endian ID, and `rowSlot`'s arithmetic |
| `rowcodec.dfy` | `RowCodec` | `serializeRow`, `deserializeRow`, `trimNilBuf` and `Row.Validate` |
| `paging.dfy` | `Paging` | the pager as a class; `getPage` reads a byte sequence that stands for the file |
| `storage.dfy` | `Storage` | the table as a class: `openDB`, `rowSlot`, `executeInsert`, `executeSelect` and `Table.Close` |
| `commands.dfy` | `Commands` | `doMetaCommand`, `prepareStatement` with the part of `fmt.Sscanf` it relies on, and the handling of one line |
| `repl.dfy` | `Repl` | `run`: its loop, the deferred `Close`, and end-to-end session properties |

The code is imperative, and so is the model:

- `Pager` and `Table` are classes. Their methods mutate arrays and fields.
  - `Pager` has a sparse array of page buffers.
  - `Table` has a `numRows` field.
- Each method is proved against a pure function of the old state:
  - `PagerImage` is the pager as a value;
  - `InsertImage`, `SelectRows` and `CloseRun` describe what insert, select and close do;
  - `Session` describes the loop.
- The lemmas state the properties about those functions.

The model follows the code as written, including its defects. Each defect is
either shown by a lemma or, where it is a run-time panic that the model does not
reproduce, excluded by a `requires` that names it.

- `RowsPerPage` is `PageSize / IDSize` = 1024, but only `PageSize / RowSize` = 113
  rows fit in a page (`FittingPrefix`, `SlotFitsIff`).
  - The 114th insert panics in `serializeRow`. By then it has written the ID and
    the username, inside the page (`ExecuteInsert`, `PanicImage`, `InsertPastCapacityPanics`).
  - A select over more than 113 rows prints 113 rows and then panics (`ExecuteSelect`).
- `Table.Close` writes the whole page of each row at that row's offset inside the
  page, not at the row's place in the file.
  - For a table of n rows, with n at most 1024, each of the n closed rows that fits
    page 0 decodes as the old row 0 after a reopen (`ReopenedRowsAreRowZero`).
  - The file goes on with the rest of page 0 from the last write. So row n, when it
    fits page 0, decodes as the old row 1 (`StretchAfterClosedRows`,
    `ReopenedRowAfterClosed`).
  - A file with two different rows a and b reopens with a, a, b as its first three
    rows, and it counts 114 rows (`DurabilityRoundTripFails`).
- `getPage`'s guard `pageNum > TableMaxPages` lets page number 4096 through.
  That index is past the cache array, a run-time panic. The model does not
  reproduce that panic: `Pager.GetPage` has `requires pageNum != TableMaxPages`,
  and no row below `TableMaxRows` lives on that page.
- `getPage`'s page count is inverted: it adds one page exactly when the size is a
  multiple of the page size (`PageCountGuessInverted`). For files under 4 GiB the
  reads stay correct anyway (`LoadedPageIsWindow`). Past that, the uint32 truncation
  of the size can make `getPage` skip the read of pages the file does hold.
- `copy` does not zero-pad a field, so stale bytes of a slot survive a shorter
  string (`StaleBytesSurvive`).
- `Row.Validate` always returns false, and nothing calls it.
- `fmt.Sscanf`'s format is `"insert %d %s %s"`.
  - Each space in the format needs white space in the input or the end of the
    line, which is how Go's `fmt` behaves. So `insert 12abc x` is a syntax error (`GluedTokensRejected`).
  - Input after the third value is ignored.
  - Any line that starts with `select` selects (`SelectPrefixSelects`).
- `executeInsert`'s result is ignored, so an insert into a full table still
  prints "Executed" (`FullTableStillExecuted`).

Panics are modelled as results:

- `SerializeRow` and `ExecuteInsert` return `panicked`, and so does `ExecuteSelect`.
- A panic ends the session with `Panicked`, after the deferred `Close` has run.

## Model

| member | source | states |
|---|---|---|
| `Layout.SlotOf` | cmd/scratchdb/main.go:186-195 | rowSlot's arithmetic: page `rowNum / RowsPerPage`, offset `(rowNum % RowsPerPage) * RowSize` |
| `Layout.LeBytes` | cmd/scratchdb/main.go:216 | the four bytes `PutUint32` stores, least significant first |
| `Layout.LeValue` | cmd/scratchdb/main.go:222 | the value `Uint32` reads from the first four bytes |
| `Layout.LayoutConstants` | cmd/scratchdb/main.go:85-97 | the offsets and sizes derive from each other as declared; `RowsPerPage` is 1024, a page's rows span nine pages, and 113 rows fit in a page |
| `Layout.LeRoundTrip` | cmd/scratchdb/main.go:216-222 | `Uint32` reading back the four bytes `PutUint32` stored gives the stored value |
| `Layout.LeBytesOfValue` | cmd/scratchdb/main.go:216-222 | storing the value read from four bytes gives back those bytes, so encoding and decoding are inverse bijections |
| `Layout.SlotOfInverse` | cmd/scratchdb/main.go:186-196 | a row's offset is a whole number of rows below `RowsPerPage * RowSize`, and the row number is recovered from its page and offset |
| `Layout.SlotsDisjoint` | cmd/scratchdb/main.go:187-194 | two different rows on the same page occupy disjoint byte ranges |
| `Layout.SlotFitsIff` | cmd/scratchdb/main.go:186-196 | a row fits exactly when its page exists and the encoded row ends inside the 4096-byte page |
| `Layout.FittingPrefix` | cmd/scratchdb/main.go:95-96 | rows 0..n-1 all fit if and only if n <= 113 |
| `Layout.FirstPageSlots` | cmd/scratchdb/main.go:186-196 | rows 0..113 are on page 0 at offset 36 * i, and exactly the rows below 113 fit |
| `RowCodec.Serialized` | cmd/scratchdb/main.go:215-219 | the page after `serializeRow` when the whole slot fits: the ID's bytes, then each string copied into its field over the old bytes |
| `RowCodec.Stored` | cmd/scratchdb/main.go:215-219 | the page after `serializeRow` in every case: the whole row, or the ID and username, or only the ID, or nothing, according to which write is the first to run past the page |
| `RowCodec.TrimLeft` | cmd/scratchdb/main.go:229 | the leading bytes equal to the cut byte removed |
| `RowCodec.TrimRight` | cmd/scratchdb/main.go:229 | the trailing bytes equal to the cut byte removed |
| `RowCodec.Trim` | cmd/scratchdb/main.go:227-230 | `bytes.Trim` with a one-byte cut set: the cut byte removed from both ends |
| `RowCodec.DeserializeRow` | cmd/scratchdb/main.go:221-225 | the row `deserializeRow` reads: the little-endian ID, then each string field with its NUL bytes trimmed |
| `RowCodec.Validate` | cmd/scratchdb/main.go:286-292 | the answer is false for every row |
| `RowCodec.CopyInto` | cmd/scratchdb/main.go:217-218 | Go's `copy` into a field takes the source's bytes up to the field's width and keeps the field's other bytes |
| `RowCodec.OverwriteAt` | cmd/scratchdb/main.go:216-218 | a write replaces exactly the bytes it covers and keeps every other byte |
| `RowCodec.PutUint32` | cmd/scratchdb/main.go:216 | the buffer afterwards holds the little-endian bytes of the value at the offset and is otherwise unchanged |
| `RowCodec.CopyToSlot` | cmd/scratchdb/main.go:217-218 | the buffer afterwards holds as much of the string as fits the field, with every other byte unchanged |
| `RowCodec.SerializedAt` | cmd/scratchdb/main.go:215-219 | byte by byte, a serialized slot holds the ID's bytes, then the strings' bytes, and the old bytes elsewhere |
| `RowCodec.SerializedFields` | cmd/scratchdb/main.go:215-219 | the three fields of a serialized slot are the ID's encoding and each string copied over the field's old bytes |
| `RowCodec.SerializeRow` | cmd/scratchdb/main.go:215-219 | it panics exactly when the slot runs past the page, and the page afterwards is `Stored`: the fields written before the panic, or the whole row |
| `RowCodec.StoredStaysInSlot` | cmd/scratchdb/main.go:215-219 | even a write cut short by a panic changes no byte outside the row's slot, and it changes nothing when not even the ID fits |
| `RowCodec.TrimLeftShape` | cmd/scratchdb/main.go:227-230 | trimming from the front removes a run of NUL bytes and stops at the first other byte |
| `RowCodec.TrimRightShape` | cmd/scratchdb/main.go:227-230 | trimming from the back removes a run of NUL bytes and stops at the last other byte |
| `RowCodec.TrimPadded` | cmd/scratchdb/main.go:227-230 | a value with no NUL at either end comes back unchanged from any padding of NUL bytes around it |
| `RowCodec.LeftPadding` | cmd/scratchdb/main.go:227-230 | the bytes trimmed from the front are a run of the cut byte, and what is left does not start with it |
| `RowCodec.RightPadding` | cmd/scratchdb/main.go:227-230 | the bytes trimmed from the back are a run of the cut byte, and what is left does not end with it |
| `RowCodec.TrimShape` | cmd/scratchdb/main.go:227-230 | every buffer is its trimmed value with runs of the cut byte on either side, and the trimmed value has no cut byte at its ends |
| `RowCodec.DeserializedFields` | cmd/scratchdb/main.go:221-225 | the decoded ID is the slot's first four bytes; each decoded string fits its field and has no NUL at either end |
| `RowCodec.DeserializeWindow` | cmd/scratchdb/main.go:221-225 | decoding at a slot decodes the slot's 36 bytes as a page of their own |
| `RowCodec.DeserializeLocal` | cmd/scratchdb/main.go:221-225 | decoding depends only on the 36 bytes of the slot |
| `RowCodec.CopyIntoZerosTrim` | cmd/scratchdb/main.go:217-224 | a NUL-free string copied into an all-zero field is recovered by trimming |
| `RowCodec.IdRoundTrip` | cmd/scratchdb/main.go:215-225 | the ID reads back whatever the slot held before |
| `RowCodec.RoundTrip` | cmd/scratchdb/main.go:215-225 | a row whose strings fit and hold no NUL, serialized into an all-zero slot, deserializes to the same row |
| `RowCodec.StaleBytesSurvive` | cmd/scratchdb/main.go:217-224 | the username "ab" written over a slot of 'x' bytes reads back as "ab" followed by fourteen 'x' |
| `Paging.ReadWindow` | cmd/scratchdb/main.go:169-178 | a zeroed page buffer after `Seek` and one `Read`: the file's bytes from the offset on, zeros past the end |
| `Paging.PageCountGuess` | cmd/scratchdb/main.go:162-165 | `numPages` from `uint32(fsize)`: the quotient, plus one exactly when the size is a multiple of the page size |
| `Paging.LoadedPage` | cmd/scratchdb/main.go:153-180 | the buffer a first fetch caches: zero-filled, and filled from the file when `pageNum <= numPages` |
| `Paging.PageCountGuessInverted` | cmd/scratchdb/main.go:162-165 | a file of exactly one page counts two pages, and a file one byte longer counts one |
| `Paging.LoadedPageIsWindow` | cmd/scratchdb/main.go:153-180 | for a file under 4 GiB, a first fetch of a page is the file's bytes from `pageNum * PageSize` on, zero-filled past the end of the file; past 4 GiB the uint32 truncation of the size can make `getPage` skip the read |
| `Paging.ReadFile` | cmd/scratchdb/main.go:169-178 | a `Seek` and a `Read` into a zeroed buffer leave the file's bytes from the offset on, and zeros past the end of the file |
| `Paging.LoadImage` | cmd/scratchdb/main.go:153-181 | fetching page p caches p, keeps the file and keeps every other cached page |
| `Paging.LoadKeepsContents` | cmd/scratchdb/main.go:153-183 | fetching a page changes no byte that a reader sees |
| `Paging.Written` | cmd/scratchdb/main.go:110 | `WriteAt` makes the file as long as the larger of its old length and the end of the write |
| `Paging.Pager.constructor` | cmd/scratchdb/main.go:135-144 | a pager over the file with an empty cache |
| `Paging.Pager.GetPage` | cmd/scratchdb/main.go:148-184 | page numbers above 4096 fail with `ErrFail` and change nothing; a cached page comes back as the same buffer; otherwise the loaded page is cached and returned |
| `Paging.Pager.Install` | cmd/scratchdb/main.go:153-154 | the new buffer is cached as page p, and nothing else changes |
| `Paging.Pager.StoreRow` | cmd/scratchdb/main.go:239 | serializing into a cached page changes only that page, and panics exactly when the row runs past the page |
| `Paging.Pager.WriteAt` | cmd/scratchdb/main.go:110 | only the file changes, as `Written` says |
| `Storage.RowCount` | cmd/scratchdb/main.go:130 | `NumRows` = `uint32(size) / RowSize`, with the truncation to 32 bits |
| `Storage.SelectRows` | cmd/scratchdb/main.go:245-251 | the rows a select decodes, rows 0..n-1 in increasing order |
| `Storage.CloseStep` | cmd/scratchdb/main.go:108-111 | one pass of Close's loop: fetch the row's page, then write the whole page at the row's intra-page offset |
| `Storage.CloseRun` | cmd/scratchdb/main.go:108-111 | Close's loop over rows 0..n-1, in order |
| `Storage.RowCountWholeRows` | cmd/scratchdb/main.go:130 | for a file whose size fits a uint32, `NumRows` is the number of whole 36-byte rows in the file |
| `Storage.RowAtIsDeserialized` | cmd/scratchdb/main.go:248-249 | row i is what `deserializeRow` decodes from row i's page at row i's offset |
| `Storage.SelectStep` | cmd/scratchdb/main.go:246-251 | decoding row n from its page extends the selected rows by row n |
| `Storage.LoadRunKeepsContents` | cmd/scratchdb/main.go:246-249 | the pages a scan fetches change no byte that a reader sees |
| `Storage.InsertAfterLoad` | cmd/scratchdb/main.go:237-239 | fetching the row's page and then serializing into it gives the image `InsertImage` describes |
| `Storage.PanicKeepsOtherSlots` | cmd/scratchdb/main.go:238-239 | an insert that panics leaves the bytes of every other fitting slot unchanged |
| `Storage.PanicKeepsRows` | cmd/scratchdb/main.go:238-239 | an insert that panics changes no row that select can read |
| `Storage.InsertKeepsOtherSlots` | cmd/scratchdb/main.go:238-239 | inserting row n touches no other row's slot |
| `Storage.InsertThenRead` | cmd/scratchdb/main.go:238-249 | a row whose strings fit and hold no NUL, inserted into an all-zero slot, reads back unchanged |
| `Storage.InsertKeepsPrefix` | cmd/scratchdb/main.go:237-240 | insert only appends: the rows below n stay as they were |
| `Storage.SelectAfterInsert` | cmd/scratchdb/main.go:232-253 | a select after an insert yields the old rows and then the new one |
| `Storage.EmptyFileIsZero` | cmd/scratchdb/main.go:153-180 | every slot of an empty file reads as zeros |
| `Storage.EmptyAppended` | cmd/scratchdb/main.go:121-133 | a table opened on an empty file holds no rows, and all its slots are zero |
| `Storage.AppendPreserves` | cmd/scratchdb/main.go:232-243 | an insert keeps the invariant: select yields the rows inserted so far, and the slots after them are zero |
| `Storage.InsertedRowsAreSelected` | cmd/scratchdb/main.go:232-253 | rows inserted in order into an empty table, at most 113 of them, are exactly what select yields |
| `Storage.AppendedRowAt` | cmd/scratchdb/main.go:245-251 | after the rows were appended, row i decodes as the i-th of them |
| `Storage.CloseRunFirstPage` | cmd/scratchdb/main.go:108-111 | for rows on page 0, step i of `Close` writes page 0, as first fetched, at 36 * i |
| `Storage.FirstWriteLayout` | cmd/scratchdb/main.go:108-111 | after the first write of `Close`, the file has the page at offset 0 |
| `Storage.NextWriteLayout` | cmd/scratchdb/main.go:108-111 | each further write of the page at the next row's offset extends the file by one row stretch holding the page's first 36 bytes |
| `Storage.CloseFirstPageLayout` | cmd/scratchdb/main.go:104-114 | after `Close` of n rows on page 0, every 36-byte stretch of the file below n holds the first row of page 0 |
| `Storage.ReadBackLayout` | cmd/scratchdb/main.go:153-180 | reading page 0 back from such a file shows the old row 0 in every slot below n |
| `Storage.ReopenedRowsAreRowZero` | cmd/scratchdb/main.go:104-133 | after a close of n rows (n at most 1024) and a reopen, each of those n rows that fits page 0 decodes as the old row 0 |
| `Storage.StretchAfterClosedRows` | cmd/scratchdb/main.go:104-114 | after `Close` of n rows on page 0, the file's stretch n holds bytes 36..71 of page 0, the old row 1 |
| `Storage.ReopenedRowAfterClosed` | cmd/scratchdb/main.go:104-133 | after a close of n rows and a reopen, row n decodes as the old row 1 when it fits page 0 |
| `Storage.ReadBackStretch` | cmd/scratchdb/main.go:169-178 | a stretch of the file inside the first page reads back unchanged through `getPage`'s read |
| `Storage.ReopenAfterTwo` | cmd/scratchdb/main.go:104-133 | closing a table of two rows and reopening it gives the first row twice, in a file one row plus one page long |
| `Storage.TwoRowFile` | cmd/scratchdb/main.go:130 | such a file counts 114 rows, and row 113 does not fit |
| `Storage.DurabilityRoundTripFails` | cmd/scratchdb/main.go:104-133 | insert rows a and b into an empty table, close and reopen: its first two rows are a and a, row 2 is b, and the table claims 114 rows |
| `Storage.InsertImage` | cmd/scratchdb/main.go:237-239 | an insert keeps the pager well formed and never touches the file |
| `Storage.PanicImage` | cmd/scratchdb/main.go:237-239 | an insert that panics keeps the pager well formed and never touches the file |
| `Storage.LoadRun` | cmd/scratchdb/main.go:246-248 | a scan keeps the pager well formed and never touches the file |
| `Storage.Table.Open` | cmd/scratchdb/main.go:121-133 | a pager over the file with an empty cache, and `NumRows` = `uint32(size) / RowSize` |
| `Storage.Table.RowSlot` | cmd/scratchdb/main.go:186-196 | the row's page is fetched through the pager; the method returns that buffer, whose bytes are the page's, and the row's offset inside it |
| `Storage.Table.ExecuteInsert` | cmd/scratchdb/main.go:232-243 | full table: TableFull, nothing changes; slot past the page: a panic, with partial writes and `NumRows` unchanged; otherwise Success, the row serialized at row `NumRows`, and `NumRows` + 1 |
| `Storage.Table.ScanRow` | cmd/scratchdb/main.go:247-250 | one step of the scan fetches row i's page and decodes row i, or panics exactly at row 113 |
| `Storage.Table.ExecuteSelect` | cmd/scratchdb/main.go:245-253 | it panics exactly when `NumRows` exceeds 113; the rows it prints are rows 0..min(`NumRows`, 113)-1 in order |
| `Storage.Table.CloseRow` | cmd/scratchdb/main.go:109-110 | one step of `Close`: the page of row i is written whole at row i's intra-page offset |
| `Storage.Table.Close` | cmd/scratchdb/main.go:104-114 | the file afterwards is the result of writing, for rows 0..n-1 in order, each row's page at its intra-page offset |
| `Commands.PrepareStatement` | cmd/scratchdb/main.go:307-323 | "insert" lines are inserts that are syntax errors unless all three values scan; "select" lines select; anything else is unrecognized |
| `Commands.TrimNewlines` | cmd/scratchdb/main.go:55 | `strings.Trim(in, "\n")` |
| `Commands.Dispatch` | cmd/scratchdb/main.go:55-81 | one line: trimmed; blank is skipped; a dot line is a meta command; otherwise it is prepared and executed on success |
| `Commands.DoMetaCommand` | cmd/scratchdb/main.go:263-270 | it aborts if and only if the line is ".exit", and it never reports success |
| `Commands.SkipSpaces` | cmd/scratchdb/main.go:310 | the input left once the scanner skips leading white space, never longer than the input |
| `Commands.DigitRun` | cmd/scratchdb/main.go:310 | the length of the digit run `%d` reads, at most the input's length |
| `Commands.WordRun` | cmd/scratchdb/main.go:310 | the length of the non-space run `%s` reads, at most the input's length |
| `Commands.SkipSpacesShape` | cmd/scratchdb/main.go:310 | the scanner skips exactly the leading run of white space |
| `Commands.DigitRunShape` | cmd/scratchdb/main.go:310 | `%d` takes the longest run of digits |
| `Commands.WordRunShape` | cmd/scratchdb/main.go:310 | `%s` takes the longest run of bytes that are not white space |
| `Commands.SkipOneSpace` | cmd/scratchdb/main.go:310 | one space in front of a token is skipped, and nothing more |
| `Commands.DigitRunOf` | cmd/scratchdb/main.go:310 | `%d` reads exactly a digit string followed by a byte that is not a digit |
| `Commands.WordRunOf` | cmd/scratchdb/main.go:310 | `%s` reads exactly a token followed by white space or the end of the line |
| `Commands.Decimal` | cmd/scratchdb/main.go:310 | the decimal digits of a number are non-empty and all digits |
| `Commands.DecimalRoundTrip` | cmd/scratchdb/main.go:310 | reading back the decimal digits of n gives n |
| `Commands.ScanInsert` | cmd/scratchdb/main.go:310-313 | Sscanf stores at most three values, in order; values it does not reach stay empty |
| `Commands.ScanInsertTokens` | cmd/scratchdb/main.go:310-313 | every value Sscanf stores is a whole token: the ID spells a uint32 in digits, and the strings are non-empty with no white space |
| `Commands.PrepareSuccessShape` | cmd/scratchdb/main.go:307-323 | only two kinds of line prepare successfully: an insert of %s tokens, and a line that starts with "select" and not with "insert" |
| `Commands.ScanInsertLine` | cmd/scratchdb/main.go:310-313 | Sscanf reads every field of a row back from its line "insert id username email", when the strings are ASCII %s tokens |
| `Commands.PrepareInsertLine` | cmd/scratchdb/main.go:307-315 | preparing that line, for ASCII %s tokens, gives a successful insert of exactly that row |
| `Commands.GluedTokensRejected` | cmd/scratchdb/main.go:310-312 | a username glued to the ID, as in "insert 12abc x", is a syntax error |
| `Commands.MissingEmailIsSyntaxError` | cmd/scratchdb/main.go:310-312 | an insert with only an ID and a username is a syntax error |
| `Commands.IdOverflowIsSyntaxError` | cmd/scratchdb/main.go:310-312 | an ID that overflows a uint32 is a syntax error, whatever follows it |
| `Commands.Uint32ModulusOverflows` | cmd/scratchdb/main.go:310-312 | an ID of 2^32 has such digits |
| `Commands.SelectPrefixSelects` | cmd/scratchdb/main.go:317-320 | a line such as "selection" selects |
| `Commands.DispatchExitIff` | cmd/scratchdb/main.go:55-62 | the loop exits exactly on the line ".exit", with any newlines trimmed |
| `Commands.DispatchExecutes` | cmd/scratchdb/main.go:55-81 | a statement is executed exactly when the trimmed line is non-empty, does not start with '.', and prepares successfully; the statement executed is the prepared one |
| `Commands.TrimTypedNewline` | cmd/scratchdb/main.go:46-55 | trimming a line that has no newline of its own, followed by its newline, gives the line back |
| `Commands.DispatchInsertLine` | cmd/scratchdb/main.go:55-81 | the typed line of a row whose strings are ASCII %s tokens executes an insert of that row |
| `Commands.DispatchSelectLine` | cmd/scratchdb/main.go:55-81 | the typed line "select" executes a select |
| `Repl.ReadLinesFrom` | cmd/scratchdb/main.go:46-53 | the lines `ReadString` hands over, each ending with its newline, given the start of the current line |
| `Repl.ReadLines` | cmd/scratchdb/main.go:46-53 | the lines of the input; a last fragment without a newline, which comes back with `io.EOF`, is dropped |
| `Repl.RunSpec` | cmd/scratchdb/main.go:30-83 | run as a value: the session over the lines on a table opened from the file, then the file the deferred Close leaves |
| `Repl.ExecuteTurn` | cmd/scratchdb/main.go:78-80 | executing a statement keeps the file and never lowers `NumRows` or raises it past the maximum |
| `Repl.LineTurn` | cmd/scratchdb/main.go:55-81 | handling one line keeps the file, and `NumRows` stays between its old value and the maximum |
| `Repl.Session` | cmd/scratchdb/main.go:44-82 | the loop keeps the file until the deferred close, and `NumRows` stays between its old value and the maximum |
| `Repl.ExecuteStatement` | cmd/scratchdb/main.go:198-205 | `executeStatement` followed by "Executed" on the table gives the output, the table and the continuation `ExecuteTurn` specifies |
| `Repl.RunLine` | cmd/scratchdb/main.go:55-81 | one pass of the loop on the table gives the output, the table and the continuation `LineTurn` specifies |
| `Repl.Loop` | cmd/scratchdb/main.go:44-82 | the loop over the lines gives the output, the table and the ending `Session` specifies |
| `Repl.Run` | cmd/scratchdb/main.go:30-83 | run's output and ending, and the file the deferred `Close` leaves, are those of `RunSpec` |
| `Repl.ReadLinesFromBody` | cmd/scratchdb/main.go:46 | bytes up to a newline join the line being read |
| `Repl.ReadLinesOfLines` | cmd/scratchdb/main.go:46-53 | reading complete lines followed by a last fragment with no newline gives back those lines; the fragment is never handled |
| `Repl.AppendedSameContents` | cmd/scratchdb/main.go:246-251 | what select shows depends only on the bytes a reader sees, not on which pages are cached |
| `Repl.InsertTurn` | cmd/scratchdb/main.go:55-81 | typing an insert into a table with fewer than 113 rows prints "Executed" and appends the row |
| `Repl.SelectTurn` | cmd/scratchdb/main.go:55-81 | typing select into a table of at most 113 appended rows prints exactly those rows and "Executed" |
| `Repl.ScriptedSession` | cmd/scratchdb/main.go:44-82 | in a session of inserts and selects, each select prints the rows inserted so far, in order, with at most 113 rows; the loop reaches the end of the input |
| `Repl.ScriptedRunFromEmptyFile` | cmd/scratchdb/main.go:30-83 | run on an empty file and such a session prints exactly that |
| `Repl.CommandLineComplete` | cmd/scratchdb/main.go:46 | a typed insert or select line is one complete input line |
| `Repl.InsertPastCapacityPanics` | cmd/scratchdb/main.go:232-243 | with 113 rows stored, typing another insert panics: it prints nothing and `NumRows` stays |
| `Repl.FullTableStillExecuted` | cmd/scratchdb/main.go:78-80 | once `NumRows` has reached `TableMaxRows`, a typed insert leaves the table as it was and still prints "Executed" |
| `Repl.ExitStopsSession` | cmd/scratchdb/main.go:59-62 | ".exit" ends the loop at once; the table is unchanged and nothing is printed for it, and later lines are never read |

## Left out

- Prompt and output text: the "db > " prompt, the `DEBUG` prints, and the JSON
  text of each selected row.
  - Output is modelled as `Reply` values.
  - A select's output is the list of rows it decoded.
- Files and standard input are not modelled as operating-system objects.
  - The database file is a byte sequence, and standard input is a byte string.
  - `os.OpenFile` and `Stat` are not modelled and never fail.
  - `Seek`, `Read` and `WriteAt` are pure functions that never fail, so the I/O error branches of `getPage`, `openDB` and `run` are not modelled.
  - `Sync` and closing the file handle change no bytes and are left out.
- `main` and its exit status are left out: they are process plumbing.
- The file name "scratch.db" is not modelled. `Run` takes the file's bytes instead.
- Multi-byte Unicode white space is not treated as white space by the scanner.
  - Only the bytes tab through carriage return and space are.
  - Go's `fmt` would also skip U+0085, U+00A0, U+1680, U+2000 to U+200A,
    U+2028, U+2029, U+202F, U+205F and U+3000.
- Commands.ScanInsert: stores the bytes of a %s token unchanged. Go's scanner
  decodes runes and stores a byte that is not valid UTF-8 as U+FFFD (EF BF BD).
  The read-back lemmas (`ScanInsertLine`, `PrepareInsertLine`,
  `DispatchInsertLine` and the sessions built on `Typable`) therefore require
  ASCII tokens, where both agree.
- Sscanf's treatment of newlines inside the input is not modelled. A line from
  `ReadString` never holds a newline after trimming.
- `Paging.Pager.GetPage`: requires that page number 4096 is never asked for.
  - In Go, that page number passes the guard and then indexes past the cache array, which is a run-time panic.
  - No row below `TableMaxRows` reaches that page.
- `Storage.Table.RowSlot`: requires that the row number is below `TableMaxRows`.
  - Past it, `rowSlot` panics.
  - `executeInsert` never asks for such a row, and `executeSelect` panics at row 113 first.
- `Storage.Table.Close`: requires `NumRows <= TableMaxRows`.
  - A larger count can only come from a file over 151 MB. Closing it would panic in `rowSlot`, and that panic is not modelled.
- `Repl.Run`, `Repl.RunSpec`: require that the file's row count is at most `TableMaxRows`, for the same reason.
- `Repl.ExecuteTurn`, `Repl.LineTurn` and `Repl.Session` state only bounds and
  invariants in their own contracts. Their behaviour is given by
  `ExecuteStatement`, `RunLine` and `Loop`, and by the session lemmas.
- The Go standard library is not part of this model. That covers `fmt`, `bytes`, `bufio` and `encoding/binary`.
  - Their behaviour is stated from their documented contracts: little-endian
    byte order, the trimming of a cut set, and `ReadString` returning the text
    read so far together with `io.EOF`.
