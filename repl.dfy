/** run: the read-eval-print loop over standard input. Each line is dispatched and
    executed against the table; the loop ends on ".exit", at the end of input, or
    when a statement panics, and in every case the deferred Table.Close writes the
    pages back before run returns. */
module Repl {
  import opened Layout
  import opened RowCodec
  import opened Paging
  import opened Storage
  import opened Commands

  /** What run writes for one line, besides the "db > " prompt. */
  datatype Reply =
    | UnrecognizedCommand(line: seq<byte>)     // "Unrecognized command: (<line>)"
    | UnrecognizedStatement(line: seq<byte>)   // "Unrecognized statement (<line>)"
    | SyntaxErrorReply                         // "Syntax error"
    | RowsPrinted(rows: seq<Row>)              // executeSelect's "row <i> <row>" lines
    | Executed                                 // "Executed"

  /** How the loop ends: ".exit", the end of the input, or a run-time panic. */
  datatype Ending = Exited | EndOfInput | Panicked

  datatype Next = Continue | Stop(ending: Ending)

  /** The table as a value: the pager and NumRows. */
  datatype Db = Db(image: PagerImage, numRows: uint32)

  /** One line handled: the table afterwards, what was written, and whether the loop goes on. */
  datatype Turn = Turn(db: Db, replies: seq<Reply>, next: Next)

  /** executeStatement followed by "Executed". The result of executeInsert is ignored,
      so a full table still reports "Executed"; a panic stops the loop before that. */
  function ExecuteTurn(db: Db, stmt: Statement): (t: Turn)
    requires ValidImage(db.image)
    ensures ValidImage(t.db.image) && t.db.image.file == db.image.file
    ensures db.numRows <= t.db.numRows <= Max(db.numRows, TableMaxRows)
  {
    var n := db.numRows;
    match stmt.kind
    case StatementKindInsert =>
      if n >= TableMaxRows then Turn(db, [Executed], Continue)
      else if !SlotFits(n) then Turn(Db(PanicImage(db.image, n, stmt.rowToInsert), n), [], Stop(Panicked))
      else Turn(Db(InsertImage(db.image, n, stmt.rowToInsert), n + 1), [Executed], Continue)
    case StatementKindSelect =>
      var k := Min(n, PageSize / RowSize);
      FittingPrefix(k);
      if n > PageSize / RowSize then
        Turn(Db(LoadRun(db.image, k + 1), n), [RowsPrinted(SelectRows(db.image, k))], Stop(Panicked))
      else
        Turn(Db(LoadRun(db.image, n), n), [RowsPrinted(SelectRows(db.image, n)), Executed], Continue)
    case _ => Turn(db, [Executed], Continue)
  }

  /** The body of run's loop for one line read from the input. */
  function LineTurn(db: Db, raw: seq<byte>): (t: Turn)
    requires ValidImage(db.image)
    ensures ValidImage(t.db.image) && t.db.image.file == db.image.file
    ensures db.numRows <= t.db.numRows <= Max(db.numRows, TableMaxRows)
  {
    match Dispatch(raw)
    case Skip => Turn(db, [], Continue)
    case Exit => Turn(db, [], Stop(Exited))
    case UnknownCommand(line) => Turn(db, [UnrecognizedCommand(line)], Continue)
    case UnknownStatement(line) => Turn(db, [UnrecognizedStatement(line)], Continue)
    case SyntaxError => Turn(db, [SyntaxErrorReply], Continue)
    case Execute(stmt) => ExecuteTurn(db, stmt)
  }

  /** The loop over the lines, up to the first that stops it. */
  datatype SessionEnd = SessionEnd(db: Db, replies: seq<Reply>, ending: Ending)

  function Session(db: Db, lines: seq<seq<byte>>): (s: SessionEnd)
    requires ValidImage(db.image)
    ensures ValidImage(s.db.image) && s.db.image.file == db.image.file
    ensures db.numRows <= s.db.numRows <= Max(db.numRows, TableMaxRows)
    decreases |lines|
  {
    if lines == [] then SessionEnd(db, [], EndOfInput)
    else
      var t := LineTurn(db, lines[0]);
      if t.next.Stop? then SessionEnd(t.db, t.replies, t.next.ending)
      else
        var rest := Session(t.db, lines[1..]);
        SessionEnd(rest.db, t.replies + rest.replies, rest.ending)
  }

  /** The lines bufio.Reader.ReadString('\n') hands to the loop, each with its newline.
      A last fragment without a newline comes back with io.EOF, and run returns
      without handling it. */
  function ReadLines(input: seq<byte>): (lines: seq<seq<byte>>)
  {
    ReadLinesFrom(input, [])
  }

  /** ReadLines with the start of the current line already read. */
  function ReadLinesFrom(input: seq<byte>, cur: seq<byte>): (lines: seq<seq<byte>>)
    decreases |input|
  {
    if input == [] then []
    else if input[0] == Newline then [cur + [Newline]] + ReadLinesFrom(input[1..], [])
    else ReadLinesFrom(input[1..], cur + [input[0]])
  }

  /** What run leaves behind: its output, how it ended, and the database file after
      the deferred Close. */
  datatype RunResult = RunResult(replies: seq<Reply>, ending: Ending, file: seq<byte>)

  function RunSpec(file: seq<byte>, input: seq<byte>): (r: RunResult)
    requires RowCount(|file|) <= TableMaxRows
  {
    var s := Session(Db(PagerImage(file, map[]), RowCount(|file|)), ReadLines(input));
    RunResult(s.replies, s.ending, CloseRun(s.db.image, s.db.numRows).file)
  }

  /** executeStatement on the table, then "Executed" unless it panicked. */
  method ExecuteStatement(table: Table, stmt: Statement) returns (out: seq<Reply>, next: Next)
    requires table.Valid()
    modifies table, table.pager.Repr
    ensures table.Valid() && fresh(table.pager.Repr - old(table.pager.Repr))
    ensures Turn(Db(table.pager.Image(), table.numRows), out, next)
            == ExecuteTurn(Db(old(table.pager.Image()), old(table.numRows)), stmt)
  {
    match stmt.kind
    case StatementKindInsert =>
      var _, panicked := table.ExecuteInsert(stmt.rowToInsert);
      if panicked {
        return [], Stop(Panicked);
      }
      return [Executed], Continue;
    case StatementKindSelect =>
      var _, rows, panicked := table.ExecuteSelect();
      if panicked {
        return [RowsPrinted(rows)], Stop(Panicked);
      }
      return [RowsPrinted(rows), Executed], Continue;
    case _ =>
      return [Executed], Continue;
  }

  /** One pass of run's loop for the line raw. */
  method RunLine(table: Table, raw: seq<byte>) returns (out: seq<Reply>, next: Next)
    requires table.Valid()
    modifies table, table.pager.Repr
    ensures table.Valid() && fresh(table.pager.Repr - old(table.pager.Repr))
    ensures Turn(Db(table.pager.Image(), table.numRows), out, next)
            == LineTurn(Db(old(table.pager.Image()), old(table.numRows)), raw)
  {
    match Dispatch(raw)
    case Skip => return [], Continue;
    case Exit => return [], Stop(Exited);
    case UnknownCommand(line) => return [UnrecognizedCommand(line)], Continue;
    case UnknownStatement(line) => return [UnrecognizedStatement(line)], Continue;
    case SyntaxError => return [SyntaxErrorReply], Continue;
    case Execute(stmt) => out, next := ExecuteStatement(table, stmt);
  }

  /** Session after the first k lines, when none of them stopped the loop. */
  lemma SessionStep(db: Db, lines: seq<seq<byte>>, k: nat)
    requires ValidImage(db.image) && k < |lines|
    ensures var t := LineTurn(db, lines[k]);
      Session(db, lines[k..]) ==
        if t.next.Stop? then SessionEnd(t.db, t.replies, t.next.ending)
        else var rest := Session(t.db, lines[k + 1..]); SessionEnd(rest.db, t.replies + rest.replies, rest.ending)
  {
    assert lines[k..][0] == lines[k] && lines[k..][1..] == lines[k + 1..];
  }

  /** run's loop: the lines in order until one stops it or they run out. */
  method Loop(table: Table, lines: seq<seq<byte>>) returns (replies: seq<Reply>, ending: Ending)
    requires table.Valid()
    modifies table, table.pager.Repr
    ensures table.Valid() && fresh(table.pager.Repr - old(table.pager.Repr))
    ensures Session(Db(old(table.pager.Image()), old(table.numRows)), lines)
            == SessionEnd(Db(table.pager.Image(), table.numRows), replies, ending)
  {
    ghost var db0 := Db(table.pager.Image(), table.numRows);
    replies := [];
    ending := EndOfInput;
    var k := 0;
    while k < |lines|
      invariant k <= |lines| && table.Valid() && fresh(table.pager.Repr - old(table.pager.Repr))
      invariant var s := Session(Db(table.pager.Image(), table.numRows), lines[k..]);
        Session(db0, lines) == SessionEnd(s.db, replies + s.replies, s.ending)
    {
      ghost var cur := Db(table.pager.Image(), table.numRows);
      SessionStep(cur, lines, k);
      var out, next := RunLine(table, lines[k]);
      replies := replies + out;
      if next.Stop? {
        return replies, next.ending;
      }
      k := k + 1;
    }
    assert lines[k..] == [];
  }

  /** run: open the table on the file, handle the lines of the input until one stops
      the loop or the input ends, then Close, which writes the pages back. */
  method Run(file: seq<byte>, input: seq<byte>) returns (replies: seq<Reply>, ending: Ending, written: seq<byte>)
    requires RowCount(|file|) <= TableMaxRows
    ensures RunResult(replies, ending, written) == RunSpec(file, input)
  {
    var table := new Table.Open(file);
    replies, ending := Loop(table, ReadLines(input));
    table.Close();
    written := table.pager.file;
  }

  /** The input split back into its lines. */
  function Flatten(lines: seq<seq<byte>>): (bytes: seq<byte>)
  {
    if lines == [] then [] else lines[0] + Flatten(lines[1..])
  }

  /** A complete line as ReadString returns it: a newline at the end and nowhere else. */
  predicate CompleteLine(line: seq<byte>)
  {
    line != [] && line[|line| - 1] == Newline && Newline !in line[..|line| - 1]
  }

  /** Bytes up to a newline join the line being read. */
  lemma {:induction false} ReadLinesFromBody(body: seq<byte>, rest: seq<byte>, cur: seq<byte>)
    requires Newline !in body
    ensures ReadLinesFrom(body + rest, cur) == ReadLinesFrom(rest, cur + body)
    decreases |body|
  {
    if body == [] {
      assert body + rest == rest && cur + body == cur;
    } else {
      assert body[0] in body;
      assert (body + rest)[0] == body[0] && (body + rest)[1..] == body[1..] + rest;
      assert cur + [body[0]] + body[1..] == cur + body;
      ReadLinesFromBody(body[1..], rest, cur + [body[0]]);
    }
  }

  /** Reading the concatenation of complete lines, and then a last fragment with no
      newline, gives back those lines: the fragment is never handled. */
  lemma {:induction false} ReadLinesOfLines(lines: seq<seq<byte>>, fragment: seq<byte>)
    requires forall i :: 0 <= i < |lines| ==> CompleteLine(lines[i])
    requires Newline !in fragment
    ensures ReadLines(Flatten(lines) + fragment) == lines
  {
    if lines == [] {
      assert fragment + [] == fragment && [] + fragment == fragment;
      ReadLinesFromBody(fragment, [], []);
    } else {
      var line := lines[0];
      var body := line[..|line| - 1];
      var rest := Flatten(lines[1..]) + fragment;
      assert line == body + [Newline];
      assert Flatten(lines) + fragment == body + ([Newline] + rest);
      ReadLinesFromBody(body, [Newline] + rest, []);
      assert ([Newline] + rest)[1..] == rest;
      assert [] + body + [Newline] == line;
      ReadLinesOfLines(lines[1..], fragment);
      assert ReadLinesFrom([Newline] + rest, body) == [line] + lines[1..];
    }
  }

  /** The statements of a scripted session, for the end-to-end properties. */
  datatype Command = InsertCommand(row: Row) | SelectCommand

  /** The line a user types for a command, with its newline. */
  function CommandLine(c: Command): (line: seq<byte>)
  {
    match c
    case InsertCommand(row) => InsertLine(row) + [Newline]
    case SelectCommand => SelectKeyword + [Newline]
  }

  function CommandLines(cs: seq<Command>): (lines: seq<seq<byte>>)
    ensures |lines| == |cs|
  {
    seq(|cs|, i requires 0 <= i < |cs| => CommandLine(cs[i]))
  }

  /** An insert a user can type and read back: each string is an ASCII %s token
      that fits its serialized field and holds no NUL. */
  predicate Typable(c: Command)
  {
    c.InsertCommand? ==> WellFormed(c.row) && AsciiWord(c.row.username) && AsciiWord(c.row.email)
  }

  /** The rows the inserts of cs add, in order. */
  function Inserted(cs: seq<Command>): (rows: seq<Row>)
  {
    if cs == [] then [] else (if cs[0].InsertCommand? then [cs[0].row] else []) + Inserted(cs[1..])
  }

  /** The output a session of cs produces when select shows exactly the rows inserted
      before it, starting with rows already in the table. */
  function Expected(rows: seq<Row>, cs: seq<Command>): (replies: seq<Reply>)
    decreases |cs|
  {
    if cs == [] then []
    else match cs[0]
      case InsertCommand(r) => [Executed] + Expected(rows + [r], cs[1..])
      case SelectCommand => [RowsPrinted(rows), Executed] + Expected(rows, cs[1..])
  }

  /** What a reader sees of a table is unchanged when only the cache changes. */
  lemma AppendedSameContents(st1: PagerImage, st2: PagerImage, rows: seq<Row>)
    requires ValidImage(st1) && ValidImage(st2) && SameContents(st1, st2) && Appended(st1, rows)
    ensures Appended(st2, rows)
  {
    forall j | SlotFits(j) ensures SlotBytes(st2, j) == SlotBytes(st1, j) {
      assert PageOf(st2, SlotOf(j).page) == PageOf(st1, SlotOf(j).page);
    }
    assert SelectRows(st2, |rows|) == SelectRows(st1, |rows|);
  }

  /** Typing an insert of a row into a table holding rows appends it. */
  lemma InsertTurn(db: Db, rows: seq<Row>, row: Row)
    requires ValidImage(db.image) && Appended(db.image, rows) && db.numRows as int == |rows|
    requires Typable(InsertCommand(row)) && |rows| < PageSize / RowSize
    ensures var t := LineTurn(db, CommandLine(InsertCommand(row)));
      t.replies == [Executed] && t.next == Continue && t.db.numRows as int == |rows| + 1
      && Appended(t.db.image, rows + [row])
  {
    DispatchInsertLine(row);
    FirstPageSlots(|rows|);
    AppendPreserves(db.image, rows, row);
  }

  /** Typing select into a table holding rows prints exactly those rows. */
  lemma SelectTurn(db: Db, rows: seq<Row>)
    requires ValidImage(db.image) && Appended(db.image, rows) && db.numRows as int == |rows|
    requires |rows| <= PageSize / RowSize
    ensures var t := LineTurn(db, CommandLine(SelectCommand));
      t.replies == [RowsPrinted(rows), Executed] && t.next == Continue && t.db.numRows == db.numRows
      && Appended(t.db.image, rows)
  {
    DispatchSelectLine();
    LoadRunKeepsContents(db.image, |rows|);
    AppendedSameContents(db.image, LoadRun(db.image, |rows|), rows);
  }

  /** A scripted session on a table holding rows: every select prints the rows inserted
      so far, in order, every insert answers "Executed", and the loop reaches the end
      of the input, as long as all rows fit the first page. */
  lemma {:induction false} ScriptedSession(db: Db, rows: seq<Row>, cs: seq<Command>)
    requires ValidImage(db.image) && Appended(db.image, rows) && db.numRows as int == |rows|
    requires forall i :: 0 <= i < |cs| ==> Typable(cs[i])
    requires |rows| + |Inserted(cs)| <= PageSize / RowSize
    ensures Session(db, CommandLines(cs)).replies == Expected(rows, cs)
    ensures Session(db, CommandLines(cs)).ending == EndOfInput
    decreases |cs|
  {
    if cs != [] {
      var lines := CommandLines(cs);
      assert lines[0] == CommandLine(cs[0]) && lines[1..] == CommandLines(cs[1..]);
      var t := LineTurn(db, lines[0]);
      match cs[0]
      case InsertCommand(r) =>
        InsertTurn(db, rows, r);
        ScriptedSession(t.db, rows + [r], cs[1..]);
      case SelectCommand =>
        SelectTurn(db, rows);
        ScriptedSession(t.db, rows, cs[1..]);
    }
  }

  /** Starting from an empty database file, run answers a scripted session exactly as
      Expected says: each select shows every row inserted before it. */
  lemma ScriptedRunFromEmptyFile(cs: seq<Command>)
    requires forall i :: 0 <= i < |cs| ==> Typable(cs[i])
    requires |Inserted(cs)| <= PageSize / RowSize
    ensures RunSpec([], Flatten(CommandLines(cs))).replies == Expected([], cs)
    ensures RunSpec([], Flatten(CommandLines(cs))).ending == EndOfInput
  {
    var lines := CommandLines(cs);
    forall i | 0 <= i < |lines| ensures CompleteLine(lines[i]) {
      CommandLineComplete(cs[i]);
    }
    ReadLinesOfLines(lines, []);
    assert Flatten(lines) + [] == Flatten(lines);
    EmptyAppended();
    ScriptedSession(Db(EmptyImage, 0), [], cs);
  }

  /** A typed command line is a complete line. */
  lemma CommandLineComplete(c: Command)
    requires Typable(c)
    ensures CompleteLine(CommandLine(c))
  {
    var line := CommandLine(c);
    assert line[..|line| - 1] == if c.SelectCommand? then SelectKeyword else InsertLine(c.row);
    if c.InsertCommand? {
      ghost var row := c.row;
      assert InsertLine(row) == InsertKeyword + ([Space] + (Decimal(row.id) + ([Space] + (row.username + ([Space] + row.email)))));
    }
  }

  /** The table holds PageSize / RowSize rows: once they are there, typing another
      insert panics in serializeRow and ends the session with no reply. */
  lemma InsertPastCapacityPanics(db: Db, row: Row)
    requires ValidImage(db.image) && db.numRows as int == PageSize / RowSize
    requires Typable(InsertCommand(row))
    ensures var t := LineTurn(db, CommandLine(InsertCommand(row)));
      t.replies == [] && t.next == Stop(Panicked) && t.db.numRows == db.numRows
  {
    DispatchInsertLine(row);
    FirstPageSlots(PageSize / RowSize);
  }

  /** ".exit" ends the loop at once: the table is left as it was, nothing is written
      for it, and the lines after it are never read. */
  lemma ExitStopsSession(db: Db, rest: seq<seq<byte>>)
    requires ValidImage(db.image)
    ensures Session(db, [ExitCommand + [Newline]] + rest) == SessionEnd(db, [], Exited)
  {
    TrimTypedNewline(ExitCommand);
    DispatchExitIff(ExitCommand + [Newline]);
    assert ([ExitCommand + [Newline]] + rest)[0] == ExitCommand + [Newline];
  }

  /** executeInsert's TableFull result is ignored: once NumRows has reached
      TableMaxRows, a typed insert changes nothing and still prints "Executed". */
  lemma FullTableStillExecuted(db: Db, row: Row)
    requires ValidImage(db.image) && db.numRows >= TableMaxRows
    requires Typable(InsertCommand(row))
    ensures LineTurn(db, CommandLine(InsertCommand(row))) == Turn(db, [Executed], Continue)
  {
    DispatchInsertLine(row);
  }
}
