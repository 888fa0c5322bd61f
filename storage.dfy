/** The table: the row count, row addressing through the pager, append-only insert,
    the sequential select scan and the write-back loop of Table.Close. */
module Storage {
  import opened Layout
  import opened RowCodec
  import opened Paging

  datatype ExecuteResult = ExecuteTableFull | ExecuteSuccess | ExecuteFail

  /** NumRows as openDB computes it: uint32(fstat.Size()) / RowSize. */
  function RowCount(fileSize: nat): (numRows: uint32)
  {
    (fileSize % Uint32Modulus) / RowSize
  }

  /** For a file whose size fits in a uint32, the row count is the number of whole
      encoded rows the file holds; a trailing partial row is ignored. */
  lemma RowCountWholeRows(fileSize: nat)
    requires fileSize < Uint32Modulus
    ensures RowCount(fileSize) * RowSize <= fileSize < (RowCount(fileSize) + 1) * RowSize
  {
    assert fileSize % Uint32Modulus == fileSize;
  }

  /** The pager of an empty file with nothing cached. */
  const EmptyImage := PagerImage([], map[])

  /** The encoded bytes of row i's slot. */
  function SlotBytes(st: PagerImage, i: nat): (b: seq<byte>)
    requires ValidImage(st) && SlotFits(i)
    ensures |b| == RowSize
  {
    Window(PageOf(st, SlotOf(i).page), SlotOf(i).offset, RowSize)
  }

  /** Row i as deserializeRow decodes it from its slot. */
  function RowAt(st: PagerImage, i: nat): (row: Row)
    requires ValidImage(st) && SlotFits(i)
  {
    DeserializeRow(SlotBytes(st, i), 0)
  }

  /** RowAt is what deserializeRow reads from the row's page at the row's offset. */
  lemma RowAtIsDeserialized(st: PagerImage, i: nat)
    requires ValidImage(st) && SlotFits(i)
    ensures RowAt(st, i) == DeserializeRow(PageOf(st, SlotOf(i).page), SlotOf(i).offset)
  {
    SlotFitsIff(i);
    DeserializeWindow(PageOf(st, SlotOf(i).page), SlotOf(i).offset);
  }

  predicate SlotZeroAt(st: PagerImage, i: nat)
    requires ValidImage(st) && SlotFits(i)
  {
    AllZero(SlotBytes(st, i))
  }

  /** What executeSelect produces: rows 0..n-1 in increasing row order. */
  function SelectRows(st: PagerImage, n: nat): (rows: seq<Row>)
    requires ValidImage(st) && forall i :: 0 <= i < n ==> SlotFits(i)
    ensures |rows| == n
  {
    seq(n, i requires 0 <= i < n => RowAt(st, i))
  }

  /** Selecting one row more appends that row. */
  lemma SelectRowsSnoc(st: PagerImage, n: nat)
    requires ValidImage(st) && forall i :: 0 <= i <= n ==> SlotFits(i)
    ensures SelectRows(st, n + 1) == SelectRows(st, n) + [RowAt(st, n)]
  {
  }

  /** One step of the select scan: decoding row n from its page extends the rows by RowAt(st, n). */
  lemma SelectStep(st: PagerImage, n: nat, rows: seq<Row>, row: Row)
    requires ValidImage(st) && forall i :: 0 <= i <= n ==> SlotFits(i)
    requires rows == SelectRows(st, n)
    requires SlotOf(n).page < TableMaxPages && SlotOf(n).offset + RowSize <= PageSize
    requires row == DeserializeRow(PageOf(st, SlotOf(n).page), SlotOf(n).offset)
    ensures rows + [row] == SelectRows(st, n + 1)
  {
    RowAtIsDeserialized(st, n);
    SelectRowsSnoc(st, n);
  }

  /** The pager after the pages of rows 0..n-1 have been fetched in order, as a scan does. */
  function LoadRun(st: PagerImage, n: nat): (r: PagerImage)
    requires ValidImage(st) && n <= TableMaxRows
    ensures ValidImage(r) && r.file == st.file
  {
    if n == 0 then st else LoadImage(LoadRun(st, n - 1), SlotOf(n - 1).page)
  }

  /** Fetching pages changes no byte a reader sees. */
  lemma {:induction false} LoadRunKeepsContents(st: PagerImage, n: nat)
    requires ValidImage(st) && n <= TableMaxRows
    ensures SameContents(LoadRun(st, n), st)
  {
    if n > 0 {
      LoadRunKeepsContents(st, n - 1);
      LoadKeepsContents(LoadRun(st, n - 1), SlotOf(n - 1).page);
      SameContentsTrans(LoadRun(st, n), LoadRun(st, n - 1), st);
    }
  }

  /** The pager after executeInsert appended row as row number n. */
  function InsertImage(st: PagerImage, n: nat, row: Row): (r: PagerImage)
    requires ValidImage(st) && SlotFits(n)
    ensures ValidImage(r) && r.file == st.file
  {
    var s := SlotOf(n);
    PagerImage(st.file, st.cache[s.page := Serialized(PageOf(st, s.page), s.offset, row)])
  }

  /** Fetching the row's page first and then serializing into the cached buffer
      gives the image InsertImage describes. */
  lemma InsertAfterLoad(st: PagerImage, n: nat, row: Row)
    requires ValidImage(st) && SlotFits(n)
    ensures var s := SlotOf(n);
      PagerImage(st.file, LoadImage(st, s.page).cache[s.page := Serialized(PageOf(st, s.page), s.offset, row)])
      == InsertImage(st, n, row)
  {
  }

  /** The pager after executeInsert of row n panicked in serializeRow: the row's page
      was fetched and the writes that fit before the panic were made. */
  function PanicImage(st: PagerImage, n: nat, row: Row): (r: PagerImage)
    requires ValidImage(st) && n < TableMaxRows
    ensures ValidImage(r) && r.file == st.file
  {
    var s := SlotOf(n);
    PagerImage(st.file, LoadImage(st, s.page).cache[s.page := Stored(PageOf(st, s.page), s.offset, row)])
  }

  /** A panicking insert of row n leaves the bytes of every other fitting row as they were. */
  lemma PanicKeepsOtherSlots(st: PagerImage, n: nat, row: Row, j: nat)
    requires ValidImage(st) && n < TableMaxRows && !SlotFits(n) && SlotFits(j)
    ensures SlotBytes(PanicImage(st, n, row), j) == SlotBytes(st, j)
  {
    var r := PanicImage(st, n, row);
    var sn, sj := SlotOf(n), SlotOf(j);
    SlotFitsIff(j);
    if sn.page == sj.page {
      SlotFitsIff(n);
      assert j % RowsPerPage < n % RowsPerPage;
      assert sj.offset + RowSize <= sn.offset;
      var before := PageOf(st, sj.page);
      var wa, wb := Window(PageOf(r, sj.page), sj.offset, RowSize), Window(before, sj.offset, RowSize);
      forall k | 0 <= k < RowSize ensures wa[k] == wb[k] {
        StoredStaysInSlot(before, sn.offset, row, sj.offset + k);
      }
    } else {
      assert PageOf(r, sj.page) == PageOf(st, sj.page);
    }
  }

  /** A panicking insert changes no row that select can read. */
  lemma PanicKeepsRows(st: PagerImage, n: nat, row: Row, m: nat)
    requires ValidImage(st) && n < TableMaxRows && !SlotFits(n)
    requires forall i :: 0 <= i < m ==> SlotFits(i)
    ensures SelectRows(PanicImage(st, n, row), m) == SelectRows(st, m)
  {
    var r := PanicImage(st, n, row);
    forall i | 0 <= i < m ensures RowAt(r, i) == RowAt(st, i) {
      PanicKeepsOtherSlots(st, n, row, i);
    }
  }

  /** Appending row n touches no other slot. */
  lemma InsertKeepsOtherSlots(st: PagerImage, n: nat, row: Row, j: nat)
    requires ValidImage(st) && SlotFits(n) && SlotFits(j) && j != n
    ensures SlotBytes(InsertImage(st, n, row), j) == SlotBytes(st, j)
  {
    var r := InsertImage(st, n, row);
    var sn, sj := SlotOf(n), SlotOf(j);
    if sn.page == sj.page {
      SlotsDisjoint(n, j);
      var before := PageOf(st, sj.page);
      var after := PageOf(r, sj.page);
      assert after == Serialized(before, sn.offset, row);
      var wa, wb := Window(after, sj.offset, RowSize), Window(before, sj.offset, RowSize);
      forall k | 0 <= k < RowSize ensures wa[k] == wb[k] {
        SerializedAt(before, sn.offset, row, sj.offset + k);
      }
    } else {
      assert PageOf(r, sj.page) == PageOf(st, sj.page);
    }
  }

  /** A well-formed row appended into an all-zero slot reads back unchanged. */
  lemma InsertThenRead(st: PagerImage, n: nat, row: Row)
    requires ValidImage(st) && SlotFits(n) && SlotZeroAt(st, n) && WellFormed(row)
    ensures RowAt(InsertImage(st, n, row), n) == row
  {
    var s := SlotOf(n);
    var page := PageOf(st, s.page);
    SlotFitsIff(n);
    RoundTrip(page, s.offset, row);
    RowAtIsDeserialized(InsertImage(st, n, row), n);
  }

  /** Append-only: inserting row n leaves the rows below n as they were. */
  lemma InsertKeepsPrefix(st: PagerImage, n: nat, row: Row, m: nat)
    requires ValidImage(st) && SlotFits(n) && m <= n
    requires forall i :: 0 <= i < m ==> SlotFits(i)
    ensures SelectRows(InsertImage(st, n, row), m) == SelectRows(st, m)
  {
    var r := InsertImage(st, n, row);
    forall i | 0 <= i < m ensures RowAt(r, i) == RowAt(st, i) {
      InsertKeepsOtherSlots(st, n, row, i);
    }
  }

  /** Select after an append into a fresh slot yields the old rows and then the new one. */
  lemma SelectAfterInsert(st: PagerImage, n: nat, row: Row)
    requires ValidImage(st) && forall i :: 0 <= i <= n ==> SlotFits(i)
    requires SlotZeroAt(st, n) && WellFormed(row)
    ensures SelectRows(InsertImage(st, n, row), n + 1) == SelectRows(st, n) + [row]
  {
    InsertKeepsPrefix(st, n, row, n);
    InsertThenRead(st, n, row);
    SelectRowsSnoc(InsertImage(st, n, row), n);
  }

  /** The state of a table that rows were appended to, in order, starting from an
      empty file: select yields exactly those rows, and every slot after them that
      fits its page is still all zero. */
  predicate Appended(st: PagerImage, rows: seq<Row>)
    requires ValidImage(st)
  {
    (forall i :: 0 <= i < |rows| ==> SlotFits(i))
    && SelectRows(st, |rows|) == rows
    && forall j :: |rows| <= j < TableMaxRows && SlotFits(j) ==> SlotZeroAt(st, j)
  }

  /** Every page of an empty file reads as zeros. */
  lemma EmptyFileIsZero(i: nat)
    requires SlotFits(i)
    ensures SlotZeroAt(EmptyImage, i)
  {
    var p := SlotOf(i).page;
    assert PageOf(EmptyImage, p) == LoadedPage([], p);
    assert forall k :: 0 <= k < PageSize ==> LoadedPage([], p)[k] == 0;
  }

  /** A table opened on an empty file holds no rows and only zero slots. */
  lemma EmptyAppended()
    ensures Appended(EmptyImage, [])
  {
    forall j | SlotFits(j) ensures SlotZeroAt(EmptyImage, j) {
      EmptyFileIsZero(j);
    }
  }

  /** executeInsert keeps the invariant: appending a well-formed row whose slot fits
      makes select yield the old rows followed by the new one. */
  lemma AppendPreserves(st: PagerImage, rows: seq<Row>, row: Row)
    requires ValidImage(st) && Appended(st, rows)
    requires SlotFits(|rows|) && WellFormed(row)
    ensures Appended(InsertImage(st, |rows|, row), rows + [row])
  {
    var n := |rows|;
    var r := InsertImage(st, n, row);
    assert SlotZeroAt(st, n);
    SelectAfterInsert(st, n, row);
    forall j | n + 1 <= j < TableMaxRows && SlotFits(j) ensures SlotZeroAt(r, j) {
      assert SlotZeroAt(st, j);
      InsertKeepsOtherSlots(st, n, row, j);
    }
  }

  lemma SnocLast(rows: seq<Row>)
    requires rows != []
    ensures rows[..|rows| - 1] + [rows[|rows| - 1]] == rows
  {
  }

  lemma AppendStep(prev: PagerImage, next: PagerImage, rows: seq<Row>)
    requires rows != [] && ValidImage(prev) && Appended(prev, rows[..|rows| - 1])
    requires SlotFits(|rows| - 1) && WellFormed(rows[|rows| - 1])
    requires next == InsertImage(prev, |rows| - 1, rows[|rows| - 1])
    ensures Appended(next, rows)
  {
    var k := |rows| - 1;
    SnocLast(rows);
    AppendPreserves(prev, rows[..k], rows[k]);
  }

  /** The pager after rows are appended one by one from row number n on. */
  function InsertAll(st: PagerImage, n: nat, rows: seq<Row>): (r: PagerImage)
    requires ValidImage(st) && forall i :: n <= i < n + |rows| ==> SlotFits(i)
    ensures ValidImage(r) && r.file == st.file
  {
    if rows == [] then st
    else
      var k := |rows| - 1;
      InsertImage(InsertAll(st, n, rows[..k]), n + k, rows[k])
  }

  /** A table opened on an empty file that has rows appended in order selects
      exactly those rows. At most PageSize / RowSize rows fit (see FittingPrefix). */
  lemma {:induction false} InsertedRowsAreSelected(rows: seq<Row>)
    requires |rows| <= PageSize / RowSize
    requires forall k :: 0 <= k < |rows| ==> WellFormed(rows[k])
    ensures forall i :: 0 <= i < |rows| ==> SlotFits(i)
    ensures Appended(InsertAll(EmptyImage, 0, rows), rows)
  {
    FittingPrefix(|rows|);
    if rows == [] {
      EmptyAppended();
    } else {
      var k := |rows| - 1;
      InsertedRowsAreSelected(rows[..k]);
      assert WellFormed(rows[k]);
      AppendStep(InsertAll(EmptyImage, 0, rows[..k]), InsertAll(EmptyImage, 0, rows), rows);
    }
  }

  /** One iteration of Table.Close for row i: fetch the row's page through the
      pager and write the WHOLE page at the row's intra-page offset. */
  function CloseStep(st: PagerImage, i: nat): (r: PagerImage)
    requires ValidImage(st) && i < TableMaxRows
    ensures ValidImage(r)
  {
    var s := SlotOf(i);
    var loaded := LoadImage(st, s.page);
    PagerImage(Written(st.file, loaded.cache[s.page], s.offset), loaded.cache)
  }

  lemma CloseStepOf(st: PagerImage, i: nat, loaded: PagerImage, pg: seq<byte>)
    requires ValidImage(st) && i < TableMaxRows
    requires loaded == LoadImage(st, SlotOf(i).page) && pg == loaded.cache[SlotOf(i).page]
    ensures CloseStep(st, i) == PagerImage(Written(st.file, pg, SlotOf(i).offset), loaded.cache)
  {
  }

  /** The pager after Table.Close has run its loop over rows 0..n-1. */
  function CloseRun(st: PagerImage, n: nat): (r: PagerImage)
    requires ValidImage(st) && n <= TableMaxRows
    ensures ValidImage(r)
  {
    if n == 0 then st else CloseStep(CloseRun(st, n - 1), n - 1)
  }

  /** The j-th RowSize-byte stretch of a file. */
  function FileRow(f: seq<byte>, j: nat): (b: seq<byte>)
    requires RowSize * j + RowSize <= |f|
    ensures |b| == RowSize
  {
    Window(f, RowSize * j, RowSize)
  }

  /** For rows on the first page, step i of Close writes page 0 (as first fetched)
      at RowSize * i, and page 0 stays cached with those bytes. */
  lemma {:induction false} CloseRunFirstPage(st: PagerImage, n: nat)
    requires ValidImage(st) && 1 <= n <= RowsPerPage
    ensures var r := CloseRun(st, n);
      0 in r.cache && r.cache[0] == PageOf(st, 0)
      && r.file == Written(CloseRun(st, n - 1).file, PageOf(st, 0), RowSize * (n - 1))
  {
    assert SlotOf(n - 1) == Slot(0, RowSize * (n - 1));
    if n > 1 {
      CloseRunFirstPage(st, n - 1);
      assert LoadImage(CloseRun(st, n - 1), 0) == CloseRun(st, n - 1);
    }
  }

  /** The shape of the file after n of Close's writes of page pg over the file base:
      the last write put all of pg at RowSize * (n - 1), and every one of the n row
      stretches holds the first RowSize bytes of pg. */
  predicate CloseLayout(f: seq<byte>, base: seq<byte>, pg: seq<byte>, n: nat)
    requires |pg| == PageSize && n >= 1
  {
    var w := RowSize * (n - 1);
    |f| == Max(|base|, w + PageSize)
    && Window(f, w, PageSize) == pg
    && forall j :: 0 <= j < n ==> FileRow(f, j) == Window(pg, 0, RowSize)
  }

  lemma FirstWriteLayout(base: seq<byte>, pg: seq<byte>)
    requires |pg| == PageSize
    ensures CloseLayout(Written(base, pg, 0), base, pg, 1)
  {
    var f := Written(base, pg, 0);
    assert Window(f, 0, PageSize) == pg;
    assert FileRow(f, 0) == Window(pg, 0, RowSize);
  }

  /** One more write of pg at the next row offset extends the layout by one row. */
  lemma NextWriteLayout(g: seq<byte>, base: seq<byte>, pg: seq<byte>, n: nat)
    requires |pg| == PageSize && n >= 2
    requires CloseLayout(g, base, pg, n - 1)
    ensures CloseLayout(Written(g, pg, RowSize * (n - 1)), base, pg, n)
  {
    var w := RowSize * (n - 1);
    var f := Written(g, pg, w);
    assert Window(f, w, PageSize) == pg;
    assert FileRow(f, n - 1) == Window(pg, 0, RowSize);
    forall j | 0 <= j < n - 1 ensures FileRow(f, j) == Window(pg, 0, RowSize) {
      assert FileRow(g, j) == Window(pg, 0, RowSize);
      var a, b := FileRow(f, j), FileRow(g, j);
      forall k | 0 <= k < RowSize ensures a[k] == b[k] {
      }
    }
  }

  /** The file Table.Close leaves for n rows on the first page has the close layout
      of page 0 as first fetched over the original file. */
  lemma {:induction false} CloseFirstPageLayout(st: PagerImage, n: nat)
    requires ValidImage(st) && 1 <= n <= RowsPerPage
    ensures CloseLayout(CloseRun(st, n).file, st.file, PageOf(st, 0), n)
  {
    CloseRunFirstPage(st, n);
    if n == 1 {
      FirstWriteLayout(st.file, PageOf(st, 0));
    } else {
      CloseFirstPageLayout(st, n - 1);
      NextWriteLayout(CloseRun(st, n - 1).file, st.file, PageOf(st, 0), n);
    }
  }

  /** Past the n closed rows the file goes on with the rest of page 0 from the last
      write: stretch n holds the old row 1's bytes, not a row Close was asked to keep. */
  lemma StretchAfterClosedRows(st: PagerImage, n: nat)
    requires ValidImage(st) && 1 <= n <= RowsPerPage
    ensures RowSize * n + RowSize <= |CloseRun(st, n).file|
    ensures FileRow(CloseRun(st, n).file, n) == Window(PageOf(st, 0), RowSize, RowSize)
  {
    var f := CloseRun(st, n).file;
    var pg := PageOf(st, 0);
    CloseFirstPageLayout(st, n);
    var w := RowSize * (n - 1);
    assert Window(f, w, PageSize) == pg;
    var a, b := FileRow(f, n), Window(pg, RowSize, RowSize);
    forall k | 0 <= k < RowSize ensures a[k] == b[k] {
      assert a[k] == f[w + RowSize + k];
      assert Window(f, w, PageSize)[RowSize + k] == f[w + RowSize + k];
    }
  }

  /** Reading the first page back from a file with the close layout gives, in every
      row slot below n, the first RowSize bytes of pg. */
  lemma ReadBackLayout(f: seq<byte>, base: seq<byte>, pg: seq<byte>, n: nat, j: nat)
    requires |pg| == PageSize && n >= 1 && CloseLayout(f, base, pg, n)
    requires j < n && RowSize * j + RowSize <= PageSize
    ensures Window(ReadWindow(f, 0), RowSize * j, RowSize) == Window(pg, 0, RowSize)
  {
    var r := Window(ReadWindow(f, 0), RowSize * j, RowSize);
    assert FileRow(f, j) == Window(pg, 0, RowSize);
    forall k | 0 <= k < RowSize ensures r[k] == FileRow(f, j)[k] {
    }
  }

  /** After Close and a reopen, every row below n that fits its page decodes from the
      bytes of the old row 0: Close does not preserve the rows it was asked to persist. */
  lemma ReopenedRowsAreRowZero(st: PagerImage, n: nat, j: nat)
    requires ValidImage(st) && 1 <= n <= RowsPerPage
    requires j < n && SlotFits(j)
    ensures SlotFits(0)
    ensures SlotBytes(PagerImage(CloseRun(st, n).file, map[]), j) == SlotBytes(st, 0)
    ensures RowAt(PagerImage(CloseRun(st, n).file, map[]), j) == RowAt(st, 0)
  {
    var f := CloseRun(st, n).file;
    CloseFirstPageLayout(st, n);
    assert SlotOf(j) == Slot(0, RowSize * j) && SlotOf(0) == Slot(0, 0);
    SlotFitsIff(j);
    ReadBackLayout(f, st.file, PageOf(st, 0), n, j);
    assert PageOf(PagerImage(f, map[]), 0) == ReadWindow(f, 0);
  }

  /** After Close of n rows and a reopen, the row just past them that still fits
      page 0 decodes from the bytes of the old row 1. */
  lemma ReopenedRowAfterClosed(st: PagerImage, n: nat)
    requires ValidImage(st) && 1 <= n < PageSize / RowSize
    ensures SlotFits(n) && SlotFits(1)
    ensures SlotBytes(PagerImage(CloseRun(st, n).file, map[]), n) == SlotBytes(st, 1)
    ensures RowAt(PagerImage(CloseRun(st, n).file, map[]), n) == RowAt(st, 1)
  {
    var f := CloseRun(st, n).file;
    FirstPageSlots(n);
    FirstPageSlots(1);
    StretchAfterClosedRows(st, n);
    assert PageOf(PagerImage(f, map[]), 0) == ReadWindow(f, 0);
    ReadBackStretch(f, n);
  }

  /** A stretch of the file inside the first page reads back unchanged. */
  lemma ReadBackStretch(f: seq<byte>, j: nat)
    requires RowSize * j + RowSize <= PageSize && RowSize * j + RowSize <= |f|
    ensures Window(ReadWindow(f, 0), RowSize * j, RowSize) == FileRow(f, j)
  {
    var a, b := Window(ReadWindow(f, 0), RowSize * j, RowSize), FileRow(f, j);
    forall k | 0 <= k < RowSize ensures a[k] == b[k] {
    }
  }

  /** In the appended state, row i decodes as the i-th appended row. */
  lemma AppendedRowAt(st: PagerImage, rows: seq<Row>, i: nat)
    requires ValidImage(st) && Appended(st, rows) && i < |rows|
    ensures RowAt(st, i) == rows[i]
  {
    assert SelectRows(st, |rows|)[i] == RowAt(st, i);
  }

  lemma PairOf(s: seq<Row>, x: Row)
    requires |s| == 2 && s[0] == x && s[1] == x
    ensures s == [x, x]
  {
  }

  /** Closing a table of two rows and reopening it: both reopened rows decode as
      the old row 0, and the file is one row plus one page long. */
  lemma ReopenAfterTwo(st: PagerImage, x: Row)
    requires ValidImage(st) && SlotFits(0) && RowAt(st, 0) == x
    ensures SlotFits(1)
    ensures var f := CloseRun(st, 2).file;
      SelectRows(PagerImage(f, map[]), 2) == [x, x]
      && |f| == Max(|st.file|, RowSize + PageSize)
  {
    FittingPrefix(2);
    var f := CloseRun(st, 2).file;
    var re := PagerImage(f, map[]);
    var sel := SelectRows(re, 2);
    ReopenedRowsAreRowZero(st, 2, 0);
    ReopenedRowsAreRowZero(st, 2, 1);
    assert sel[0] == RowAt(re, 0) && sel[1] == RowAt(re, 1);
    PairOf(sel, x);
    CloseFirstPageLayout(st, 2);
  }

  /** A file of one row plus one page counts 114 rows, and row 113 does not fit. */
  lemma TwoRowFile()
    ensures RowCount(Max(0, RowSize + PageSize)) == 114 && !SlotFits(113)
  {
    SlotFitsIff(113);
  }

  /** The durability round trip fails: insert two different rows into an empty
      table, close, reopen. The reopened table reads the first row twice, and it
      counts 114 rows, one more than fit, so a select on it would panic. */
  lemma DurabilityRoundTripFails(a: Row, b: Row)
    requires WellFormed(a) && WellFormed(b)
    ensures SlotFits(0) && SlotFits(1) && SlotFits(2)
    ensures var f := CloseRun(InsertAll(EmptyImage, 0, [a, b]), 2).file;
      SelectRows(PagerImage(f, map[]), 2) == [a, a]
      && RowAt(PagerImage(f, map[]), 2) == b
      && RowCount(|f|) == 114 && !SlotFits(113)
  {
    var st := InsertAll(EmptyImage, 0, [a, b]);
    InsertedRowsAreSelected([a, b]);
    AppendedRowAt(st, [a, b], 0);
    AppendedRowAt(st, [a, b], 1);
    ReopenAfterTwo(st, a);
    ReopenedRowAfterClosed(st, 2);
    TwoRowFile();
  }

  class Table {
    var numRows: uint32
    const pager: Pager

    ghost predicate Valid()
      reads this, pager, pager.Repr
    {
      this !in pager.Repr && pager.Valid()
    }

    /** openDB: a pager over the file, and NumRows from the file size. */
    constructor Open(file: seq<byte>)
      ensures Valid() && fresh(pager.Repr)
      ensures pager.Image() == PagerImage(file, map[])
      ensures numRows == RowCount(|file|)
    {
      pager := new Pager(file);
      numRows := (|file| % Uint32Modulus) / RowSize;
    }

    /** rowSlot: the row's page, fetched through the pager, and its byte offset.
        Rows from TableMaxRows on would make getPage fail or index past the cache,
        and rowSlot panics then. */
    method RowSlot(rowNum: uint32) returns (page: array<byte>, slot: uint32)
      requires Valid()
      requires rowNum < TableMaxRows
      modifies pager.Repr
      ensures Valid() && fresh(pager.Repr - old(pager.Repr))
      ensures slot == SlotOf(rowNum).offset
      ensures page == pager.pages[SlotOf(rowNum).page] && page.Length == PageSize
      ensures page[..] == PageOf(old(pager.Image()), SlotOf(rowNum).page)
      ensures pager.Image() == LoadImage(old(pager.Image()), SlotOf(rowNum).page)
      ensures pager.Image().cache[SlotOf(rowNum).page] == page[..]
    {
      var pageNum := rowNum / RowsPerPage;
      var r := pager.GetPage(pageNum);
      page := r.value;
      var rowOffset := rowNum % RowsPerPage;
      slot := rowOffset * RowSize;
    }

    /** executeInsert: TableFull once NumRows reaches TableMaxRows; otherwise the row is
        serialized into the slot of row NumRows and NumRows grows by one. When that slot
        runs past the end of its page, serializeRow panics part-way (panicked) and
        NumRows stays. */
    method ExecuteInsert(row: Row) returns (res: ExecuteResult, panicked: bool)
      requires Valid()
      modifies this, pager.Repr
      ensures Valid() && fresh(pager.Repr - old(pager.Repr))
      ensures old(numRows) >= TableMaxRows ==>
                !panicked && res == ExecuteTableFull && numRows == old(numRows) && pager.Image() == old(pager.Image())
      ensures old(numRows) < TableMaxRows && !SlotFits(old(numRows)) ==>
                panicked && numRows == old(numRows) && pager.Image() == PanicImage(old(pager.Image()), old(numRows), row)
      ensures old(numRows) < TableMaxRows && SlotFits(old(numRows)) ==>
                !panicked && res == ExecuteSuccess && numRows == old(numRows) + 1
                && pager.Image() == InsertImage(old(pager.Image()), old(numRows), row)
    {
      if numRows >= TableMaxRows {
        return ExecuteTableFull, false;
      }
      SlotFitsIff(numRows);
      ghost var before := pager.Image();
      ghost var p := SlotOf(numRows).page;
      var page, slot := RowSlot(numRows);
      panicked := pager.StoreRow(page, p, slot, row);
      if panicked {
        return ExecuteFail, true;
      }
      InsertAfterLoad(before, numRows as nat, row);
      numRows := numRows + 1;
      res := ExecuteSuccess;
    }

    /** One iteration of executeSelect's loop: rowSlot, then deserializeRow, which
        panics when the slot runs past the page. */
    method ScanRow(i: uint32, ghost st0: PagerImage) returns (row: Row, panicked: bool)
      requires Valid() && ValidImage(st0) && i <= PageSize / RowSize
      requires pager.Image() == LoadRun(st0, i)
      modifies pager.Repr
      ensures Valid() && fresh(pager.Repr - old(pager.Repr))
      ensures pager.Image() == LoadRun(st0, i + 1)
      ensures panicked <==> i == PageSize / RowSize
      ensures !panicked ==> SlotFits(i) && row == RowAt(st0, i)
    {
      FirstPageSlots(i as nat);
      var page, slot := RowSlot(i);
      if slot + RowSize > PageSize {
        return Row(0, [], []), true;
      }
      LoadRunKeepsContents(st0, i as nat);
      row := DeserializeRow(page[..], slot);
      RowAtIsDeserialized(st0, i as nat);
      panicked := false;
    }

    /** executeSelect: decodes rows 0..NumRows-1 in order, fetching each row's page;
        the rows it prints are returned. Row PageSize / RowSize is the first whose slot
        runs past its page, and deserializeRow panics there (panicked) after the rows
        before it were printed. */
    method ExecuteSelect() returns (res: ExecuteResult, rows: seq<Row>, panicked: bool)
      requires Valid()
      modifies pager.Repr
      ensures Valid() && fresh(pager.Repr - old(pager.Repr))
      ensures panicked <==> numRows > PageSize / RowSize
      ensures var k := Min(numRows, PageSize / RowSize);
        (forall i :: 0 <= i < k ==> SlotFits(i)) && rows == SelectRows(old(pager.Image()), k)
      ensures !panicked ==> res == ExecuteSuccess && pager.Image() == LoadRun(old(pager.Image()), numRows)
      ensures panicked ==> pager.Image() == LoadRun(old(pager.Image()), PageSize / RowSize + 1)
    {
      ghost var st0 := pager.Image();
      rows := [];
      res := ExecuteSuccess;
      panicked := false;
      var i: uint32 := 0;
      while i < numRows && !panicked
        invariant i <= numRows && i <= PageSize / RowSize
        invariant forall j :: 0 <= j < i ==> SlotFits(j)
        invariant Valid() && fresh(pager.Repr - old(pager.Repr))
        invariant rows == SelectRows(st0, i)
        invariant !panicked ==> pager.Image() == LoadRun(st0, i)
        invariant panicked ==> i == PageSize / RowSize && i < numRows && pager.Image() == LoadRun(st0, i + 1)
        decreases numRows - i, !panicked
      {
        var row;
        row, panicked := ScanRow(i, st0);
        if !panicked {
          SelectRowsSnoc(st0, i as nat);
          rows := rows + [row];
          i := i + 1;
        }
      }
    }

    /** One iteration of Table.Close's loop: the page of row i, written at the row's offset. */
    method CloseRow(i: uint32, ghost st0: PagerImage)
      requires Valid() && i < TableMaxRows && ValidImage(st0)
      requires pager.Image() == CloseRun(st0, i)
      modifies pager.Repr
      ensures Valid() && fresh(pager.Repr - old(pager.Repr))
      ensures pager.Image() == CloseRun(st0, i + 1)
    {
      ghost var prev := pager.Image();
      var page, slot := RowSlot(i);
      CloseStepOf(prev, i as nat, pager.Image(), page[..]);
      pager.WriteAt(page, slot);
    }

    /** Table.Close: for each row, the row's page is written whole at the row's
        intra-page byte offset. Sync and closing the handle do not change the bytes. */
    method Close()
      requires Valid()
      requires numRows <= TableMaxRows
      modifies pager.Repr
      ensures Valid() && fresh(pager.Repr - old(pager.Repr))
      ensures pager.Image() == CloseRun(old(pager.Image()), numRows)
    {
      ghost var st0 := pager.Image();
      var n := numRows;
      var i: uint32 := 0;
      while i < n
        invariant i <= n
        invariant Valid() && fresh(pager.Repr - old(pager.Repr))
        invariant pager.Image() == CloseRun(st0, i)
      {
        CloseRow(i, st0);
        i := i + 1;
      }
    }
  }
}
