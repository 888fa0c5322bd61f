/** The REPL's command layer: meta commands, prepareStatement with the part of
    fmt.Sscanf it relies on, and the per-line dispatch of run. Input is handled as
    bytes, as Go strings are. */
module Commands {
  import opened Layout
  import opened RowCodec

  const Newline: byte := 0x0a
  const Space: byte := 0x20
  const Dot: byte := 0x2e
  const ExitCommand: seq<byte> := [0x2e, 0x65, 0x78, 0x69, 0x74]        // ".exit"
  const InsertKeyword: seq<byte> := [0x69, 0x6e, 0x73, 0x65, 0x72, 0x74] // "insert"
  const SelectKeyword: seq<byte> := [0x73, 0x65, 0x6c, 0x65, 0x63, 0x74] // "select"

  predicate HasPrefix(s: seq<byte>, p: seq<byte>)
  {
    |p| <= |s| && s[..|p|] == p
  }

  datatype MetaCommand = MetaCommandAbort | MetaCommandSuccess | MetaCommandUnrecognizedCommand

  /** doMetaCommand: ".exit" aborts, and every other line is unrecognized. */
  function DoMetaCommand(line: seq<byte>): (r: MetaCommand)
    ensures r == MetaCommandAbort <==> line == ExitCommand
    ensures r != MetaCommandSuccess
  {
    if line == ExitCommand then MetaCommandAbort else MetaCommandUnrecognizedCommand
  }

  /** StatementKindNone stands for the zero value of a fresh Statement{}, which names no kind. */
  datatype StatementKind = StatementKindNone | StatementKindUnknown | StatementKindInsert | StatementKindSelect
  datatype Statement = Statement(kind: StatementKind, rowToInsert: Row)
  datatype PrepareResult = PrepareStatementUnrecognized | PrepareResultSyntaxError | PrepareResultSuccess

  /** What prepareStatement returns, with the statement it filled in. */
  datatype Prepared = Prepared(result: PrepareResult, stmt: Statement)

  const ZeroRow := Row(0, [], [])

  /** The bytes fmt's scanner skips as white space: tab, newline, vertical tab,
      form feed, carriage return and space. */
  predicate IsSpace(b: byte)
  {
    9 <= b <= 13 || b == Space
  }

  predicate IsDigit(b: byte)
  {
    0x30 <= b <= 0x39
  }

  /** What is left of s once its leading white space is skipped. */
  function SkipSpaces(s: seq<byte>): (r: seq<byte>)
    ensures |r| <= |s|
  {
    if s != [] && IsSpace(s[0]) then SkipSpaces(s[1..]) else s
  }

  /** The length of the run of decimal digits s starts with: the token %d reads. */
  function DigitRun(s: seq<byte>): (n: nat)
    ensures n <= |s|
  {
    if s != [] && IsDigit(s[0]) then 1 + DigitRun(s[1..]) else 0
  }

  /** The length of the run of non-space bytes s starts with: the token %s reads. */
  function WordRun(s: seq<byte>): (n: nat)
    ensures n <= |s|
  {
    if s != [] && !IsSpace(s[0]) then 1 + WordRun(s[1..]) else 0
  }

  /** A token %s can produce: non-empty and free of white space. */
  predicate Word(s: seq<byte>)
  {
    s != [] && forall k :: 0 <= k < |s| ==> !IsSpace(s[k])
  }

  /** A %s token that Go's scanner stores byte for byte: ASCII only, since the
      scanner decodes runes and stores a byte that is not valid UTF-8 as U+FFFD. */
  predicate AsciiWord(s: seq<byte>)
  {
    Word(s) && forall k :: 0 <= k < |s| ==> s[k] < 0x80
  }

  predicate AllDigits(s: seq<byte>)
  {
    forall k :: 0 <= k < |s| ==> IsDigit(s[k])
  }

  /** SkipSpaces removes a run of white space from the front, and all of it. */
  lemma {:induction false} SkipSpacesShape(s: seq<byte>)
    ensures var r := SkipSpaces(s);
      r == s[|s| - |r|..] && (forall k :: 0 <= k < |s| - |r| ==> IsSpace(s[k]))
      && (r != [] ==> !IsSpace(r[0]))
  {
    if s != [] && IsSpace(s[0]) {
      SkipSpacesShape(s[1..]);
      var r := SkipSpaces(s);
      assert s[1..][|s| - 1 - |r|..] == s[|s| - |r|..];
      forall k | 1 <= k < |s| - |r| ensures IsSpace(s[k]) {
        assert s[k] == s[1..][k - 1];
      }
    }
  }

  /** DigitRun(s) is the length of the longest prefix of s made of digits. */
  lemma {:induction false} DigitRunShape(s: seq<byte>)
    ensures var n := DigitRun(s); AllDigits(s[..n]) && (n < |s| ==> !IsDigit(s[n]))
  {
    if s != [] && IsDigit(s[0]) {
      DigitRunShape(s[1..]);
      var n := DigitRun(s);
      forall k | 1 <= k < n ensures IsDigit(s[k]) {
        assert s[k] == s[1..][k - 1];
      }
    }
  }

  /** WordRun(s) is the length of the longest prefix of s free of white space. */
  lemma {:induction false} WordRunShape(s: seq<byte>)
    ensures var n := WordRun(s); (forall k :: 0 <= k < n ==> !IsSpace(s[k])) && (n < |s| ==> IsSpace(s[n]))
  {
    if s != [] && !IsSpace(s[0]) {
      WordRunShape(s[1..]);
      var n := WordRun(s);
      forall k | 1 <= k < n ensures !IsSpace(s[k]) {
        assert s[k] == s[1..][k - 1];
      }
    }
  }

  /** One space in front of a token is skipped, and nothing more. */
  lemma SkipOneSpace(y: seq<byte>)
    requires y == [] || !IsSpace(y[0])
    ensures SkipSpaces([Space] + y) == y
  {
    assert ([Space] + y)[1..] == y;
  }

  /** %d reads exactly the digit string t from t + y when y does not start with a digit. */
  lemma {:induction false} DigitRunOf(t: seq<byte>, y: seq<byte>)
    requires AllDigits(t) && (y == [] || !IsDigit(y[0]))
    ensures DigitRun(t + y) == |t|
  {
    if t != [] {
      assert (t + y)[1..] == t[1..] + y;
      DigitRunOf(t[1..], y);
    }
  }

  /** %s reads exactly the token t from t + y when y is empty or starts with white space. */
  lemma {:induction false} WordRunOf(t: seq<byte>, y: seq<byte>)
    requires (forall k :: 0 <= k < |t| ==> !IsSpace(t[k])) && (y == [] || IsSpace(y[0]))
    ensures WordRun(t + y) == |t|
  {
    if t != [] {
      assert (t + y)[1..] == t[1..] + y;
      WordRunOf(t[1..], y);
    }
  }

  /** The numeric value of a digit byte. */
  function DigitValue(b: byte): (d: nat)
  {
    if IsDigit(b) then b - 0x30 else 0
  }

  /** The number a string of decimal digits spells, most significant digit first. */
  function DecimalValue(ds: seq<byte>): (v: nat)
  {
    if ds == [] then 0 else DecimalValue(ds[..|ds| - 1]) * 10 + DigitValue(ds[|ds| - 1])
  }

  /** The decimal digits of n, without leading zeros. */
  function Decimal(n: nat): (ds: seq<byte>)
    ensures ds != [] && AllDigits(ds)
  {
    if n < 10 then [0x30 + n] else Decimal(n / 10) + [0x30 + n % 10]
  }

  /** Reading back the digits of n gives n. */
  lemma {:induction false} DecimalRoundTrip(n: nat)
    ensures DecimalValue(Decimal(n)) == n
  {
    var ds := Decimal(n);
    if n >= 10 {
      DecimalRoundTrip(n / 10);
      assert ds[..|ds| - 1] == Decimal(n / 10);
    }
  }

  /** A space in a Sscanf format matches one or more spaces of the input, or its end. */
  predicate Separated(s: seq<byte>)
  {
    s == [] || IsSpace(s[0])
  }

  /** What fmt.Sscanf(line, "insert %d %s %s", &id, &username, &email) leaves behind:
      n is how many of the three values it stored, and row holds them, with the
      values it did not reach still zero. The literal must match the start of the
      line; each space of the format needs white space (or the end of the line) in
      the input; each verb skips white space first; %d takes the longest run of
      digits and fails when there is none or when the value overflows a uint32; %s
      takes the longest run of non-space bytes and fails when there is none. Input
      after the third value is ignored. */
  function ScanInsert(line: seq<byte>): (sc: (nat, Row))
    ensures sc.0 <= 3
    ensures sc.0 < 3 ==> sc.1.email == []
    ensures sc.0 < 2 ==> sc.1.username == []
  {
    if !HasPrefix(line, InsertKeyword) || !Separated(line[|InsertKeyword|..]) then (0, ZeroRow)
    else
      var r1 := SkipSpaces(line[|InsertKeyword|..]);
      var n1 := DigitRun(r1);
      if n1 == 0 || DecimalValue(r1[..n1]) >= Uint32Modulus then (0, ZeroRow)
      else
        var id := DecimalValue(r1[..n1]);
        if !Separated(r1[n1..]) then (1, Row(id, [], []))
        else
          var r2 := SkipSpaces(r1[n1..]);
          var n2 := WordRun(r2);
          if n2 == 0 then (1, Row(id, [], []))
          else
            // %s stops at white space or at the end, so the next space matches
            var r3 := SkipSpaces(r2[n2..]);
            var n3 := WordRun(r3);
            if n3 == 0 then (2, Row(id, r2[..n2], []))
            else (3, Row(id, r2[..n2], r3[..n3]))
  }

  /** Every value Sscanf stores is a whole token: the ID is the value of a non-empty
      digit string and the strings are non-empty and free of white space. */
  lemma ScanInsertTokens(line: seq<byte>)
    ensures var sc := ScanInsert(line);
      (sc.0 >= 1 ==> HasPrefix(line, InsertKeyword) && exists ds :: ds != [] && AllDigits(ds) && DecimalValue(ds) == sc.1.id)
      && (sc.0 >= 2 ==> Word(sc.1.username)) && (sc.0 == 3 ==> Word(sc.1.email))
  {
    if HasPrefix(line, InsertKeyword) && Separated(line[|InsertKeyword|..]) {
      var r1 := SkipSpaces(line[|InsertKeyword|..]);
      DigitRunShape(r1);
      var n1 := DigitRun(r1);
      if n1 > 0 && DecimalValue(r1[..n1]) < Uint32Modulus && Separated(r1[n1..]) {
        var r2 := SkipSpaces(r1[n1..]);
        WordRunShape(r2);
        var n2 := WordRun(r2);
        if n2 > 0 {
          var r3 := SkipSpaces(r2[n2..]);
          WordRunShape(r3);
        }
      }
    }
  }

  /** prepareStatement: a line starting with "insert" is an insert, and it is a syntax
      error unless Sscanf stored all three values; a line starting with "select" is a
      select, whatever follows; anything else is unrecognized. */
  function PrepareStatement(line: seq<byte>): (p: Prepared)
  {
    if HasPrefix(line, InsertKeyword) then
      var (n, row) := ScanInsert(line);
      Prepared(if n != 3 then PrepareResultSyntaxError else PrepareResultSuccess,
               Statement(StatementKindInsert, row))
    else if HasPrefix(line, SelectKeyword) then
      Prepared(PrepareResultSuccess, Statement(StatementKindSelect, ZeroRow))
    else
      Prepared(PrepareStatementUnrecognized, Statement(StatementKindNone, ZeroRow))
  }

  /** The outcome of a successful prepare is an insert of a row whose strings are
      %s tokens, or a select; nothing else prepares successfully. */
  lemma PrepareSuccessShape(line: seq<byte>)
    requires PrepareStatement(line).result == PrepareResultSuccess
    ensures var s := PrepareStatement(line).stmt;
      (s.kind == StatementKindInsert && HasPrefix(line, InsertKeyword)
         && Word(s.rowToInsert.username) && Word(s.rowToInsert.email))
      || (s.kind == StatementKindSelect && HasPrefix(line, SelectKeyword) && !HasPrefix(line, InsertKeyword))
  {
    ScanInsertTokens(line);
  }

  /** The canonical insert line for a row: "insert <id> <username> <email>". */
  function InsertLine(row: Row): (line: seq<byte>)
  {
    InsertKeyword + ([Space] + (Decimal(row.id) + ([Space] + (row.username + ([Space] + row.email)))))
  }

  /** Sscanf reads back every field of a row from its canonical line, provided the
      strings are ASCII %s tokens. */
  lemma ScanInsertLine(row: Row)
    requires AsciiWord(row.username) && AsciiWord(row.email)
    ensures ScanInsert(InsertLine(row)) == (3, row)
  {
    var ds, u, e := Decimal(row.id), row.username, row.email;
    var t2 := u + ([Space] + e);
    var t1 := [Space] + t2;
    var t0 := ds + t1;
    var line := InsertLine(row);
    assert HasPrefix(line, InsertKeyword) && Separated(line[|InsertKeyword|..])
      && SkipSpaces(line[|InsertKeyword|..]) == t0 by {
      assert line[..|InsertKeyword|] == InsertKeyword && line[|InsertKeyword|..] == [Space] + t0;
      assert t0[0] == ds[0];
      SkipOneSpace(t0);
    }
    assert DigitRun(t0) == |ds| && t0[..|ds|] == ds && t0[|ds|..] == t1 by {
      DigitRunOf(ds, t1);
    }
    assert DecimalValue(ds) == row.id by {
      DecimalRoundTrip(row.id);
    }
    assert SkipSpaces(t1) == t2 && WordRun(t2) == |u| && t2[..|u|] == u && t2[|u|..] == [Space] + e by {
      assert t2[0] == u[0];
      SkipOneSpace(t2);
      WordRunOf(u, [Space] + e);
    }
    assert SkipSpaces(t2[|u|..]) == e && WordRun(e) == |e| && e[..|e|] == e by {
      SkipOneSpace(e);
      WordRunOf(e, []);
      assert e + [] == e;
    }
    ScanInsertSteps(line, t0, |ds|, t2, |u|, e, |e|);
  }

  /** Preparing the canonical line of a row whose strings are ASCII %s tokens gives
      an insert of exactly that row. */
  lemma PrepareInsertLine(row: Row)
    requires AsciiWord(row.username) && AsciiWord(row.email)
    ensures PrepareStatement(InsertLine(row)) == Prepared(PrepareResultSuccess, Statement(StatementKindInsert, row))
  {
    ScanInsertLine(row);
    assert InsertLine(row)[..|InsertKeyword|] == InsertKeyword;
  }

  /** ScanInsert in terms of its intermediate results, for a line where all three
      values are stored. */
  lemma ScanInsertSteps(line: seq<byte>, r1: seq<byte>, n1: nat, r2: seq<byte>, n2: nat, r3: seq<byte>, n3: nat)
    requires HasPrefix(line, InsertKeyword) && Separated(line[|InsertKeyword|..])
    requires SkipSpaces(line[|InsertKeyword|..]) == r1
    requires DigitRun(r1) == n1 > 0 && DecimalValue(r1[..n1]) < Uint32Modulus && Separated(r1[n1..])
    requires SkipSpaces(r1[n1..]) == r2 && WordRun(r2) == n2 > 0
    requires SkipSpaces(r2[n2..]) == r3 && WordRun(r3) == n3 > 0
    ensures ScanInsert(line) == (3, Row(DecimalValue(r1[..n1]), r2[..n2], r3[..n3]))
  {
  }

  /** The format's space after %d needs white space in the input, so a username
      glued to the ID, as in "insert 12abc x", is a syntax error. */
  lemma GluedTokensRejected(ds: seq<byte>, u: seq<byte>, e: seq<byte>)
    requires ds != [] && AllDigits(ds) && u != [] && !IsDigit(u[0]) && !IsSpace(u[0])
    ensures PrepareStatement(InsertKeyword + ([Space] + (ds + (u + ([Space] + e))))).result == PrepareResultSyntaxError
  {
    var t2 := u + ([Space] + e);
    var t0 := ds + t2;
    var line := InsertKeyword + ([Space] + t0);
    assert HasPrefix(line, InsertKeyword) && Separated(line[|InsertKeyword|..]) by {
      assert line[..|InsertKeyword|] == InsertKeyword && line[|InsertKeyword|..] == [Space] + t0;
    }
    assert SkipSpaces(line[|InsertKeyword|..]) == t0 by {
      assert line[|InsertKeyword|..] == [Space] + t0;
      assert t0[0] == ds[0];
      SkipOneSpace(t0);
    }
    assert DigitRun(t0) == |ds| && t0[|ds|..] == t2 && !Separated(t2) by {
      DigitRunOf(ds, t2);
    }
    assert ScanInsert(line).0 < 3;
  }

  /** An insert with only two values, such as "insert 1 a", is a syntax error. */
  lemma MissingEmailIsSyntaxError(ds: seq<byte>, u: seq<byte>)
    requires ds != [] && AllDigits(ds) && Word(u)
    ensures PrepareStatement(InsertKeyword + ([Space] + (ds + ([Space] + u)))).result == PrepareResultSyntaxError
  {
    var t2 := [Space] + u;
    var t0 := ds + t2;
    var line := InsertKeyword + ([Space] + t0);
    assert HasPrefix(line, InsertKeyword) && Separated(line[|InsertKeyword|..])
      && SkipSpaces(line[|InsertKeyword|..]) == t0 by {
      assert line[..|InsertKeyword|] == InsertKeyword && line[|InsertKeyword|..] == [Space] + t0;
      assert t0[0] == ds[0];
      SkipOneSpace(t0);
    }
    assert DigitRun(t0) == |ds| && t0[|ds|..] == t2 by {
      DigitRunOf(ds, t2);
    }
    assert SkipSpaces(t2) == u && WordRun(u) == |u| && u[|u|..] == [] by {
      SkipOneSpace(u);
      WordRunOf(u, []);
      assert u + [] == u;
    }
    assert ScanInsert(line).0 < 3;
  }

  /** An ID that overflows the uint32 it is scanned into, such as 4294967296, makes
      the line a syntax error whatever follows it. */
  lemma IdOverflowIsSyntaxError(ds: seq<byte>, y: seq<byte>)
    requires ds != [] && AllDigits(ds) && DecimalValue(ds) >= Uint32Modulus
    requires y == [] || !IsDigit(y[0])
    ensures PrepareStatement(InsertKeyword + ([Space] + (ds + y))).result == PrepareResultSyntaxError
  {
    var t0 := ds + y;
    var line := InsertKeyword + ([Space] + t0);
    assert HasPrefix(line, InsertKeyword) && Separated(line[|InsertKeyword|..])
      && SkipSpaces(line[|InsertKeyword|..]) == t0 by {
      assert line[..|InsertKeyword|] == InsertKeyword && line[|InsertKeyword|..] == [Space] + t0;
      assert t0[0] == ds[0];
      SkipOneSpace(t0);
    }
    assert DigitRun(t0) == |ds| && t0[..|ds|] == ds by {
      DigitRunOf(ds, y);
    }
  }

  /** 2^32 is written with digits that overflow a uint32. */
  lemma Uint32ModulusOverflows()
    ensures var ds := Decimal(Uint32Modulus); ds != [] && AllDigits(ds) && DecimalValue(ds) >= Uint32Modulus
  {
    DecimalRoundTrip(Uint32Modulus);
  }

  /** Any line that starts with "select" selects, such as "selection". */
  lemma SelectPrefixSelects()
    ensures PrepareStatement(SelectKeyword + [0x69, 0x6f, 0x6e]).result == PrepareResultSuccess
    ensures PrepareStatement(SelectKeyword + [0x69, 0x6f, 0x6e]).stmt.kind == StatementKindSelect
  {
    var line := SelectKeyword + [0x69, 0x6f, 0x6e];
    assert line[..6] == SelectKeyword;
    assert line[..6] != InsertKeyword;
  }

  /** What run does with one line read from standard input. */
  datatype Action =
    | Skip                                  // blank line
    | Exit                                  // .exit
    | UnknownCommand(line: seq<byte>)       // "Unrecognized command: (...)"
    | UnknownStatement(line: seq<byte>)     // "Unrecognized statement (...)"
    | SyntaxError                           // "Syntax error"
    | Execute(stmt: Statement)              // executeStatement, then "Executed"

  /** strings.Trim(in, "\n"). */
  function TrimNewlines(raw: seq<byte>): (line: seq<byte>)
  {
    Trim(raw, Newline)
  }

  /** run's handling of one line: newlines are trimmed from both ends; a blank line
      is skipped; a line starting with '.' is a meta command and never reaches
      prepareStatement; every other line is prepared and, when that succeeds, executed. */
  function Dispatch(raw: seq<byte>): (a: Action)
  {
    var line := TrimNewlines(raw);
    if line == [] then Skip
    else if line[0] == Dot then
      match DoMetaCommand(line)
      case MetaCommandAbort => Exit
      case MetaCommandSuccess => Skip
      case MetaCommandUnrecognizedCommand => UnknownCommand(line)
    else
      var p := PrepareStatement(line);
      match p.result
      case PrepareStatementUnrecognized => UnknownStatement(line)
      case PrepareResultSyntaxError => SyntaxError
      case PrepareResultSuccess => Execute(p.stmt)
  }

  /** The session ends exactly on the line ".exit", with any newlines around it. */
  lemma DispatchExitIff(raw: seq<byte>)
    ensures Dispatch(raw) == Exit <==> TrimNewlines(raw) == ExitCommand
  {
  }

  /** Only statements that prepared successfully are executed, and a line starting with
      '.' is never executed. */
  lemma DispatchExecutes(raw: seq<byte>)
    ensures Dispatch(raw).Execute? <==>
      var line := TrimNewlines(raw);
      line != [] && line[0] != Dot && PrepareStatement(line).result == PrepareResultSuccess
    ensures Dispatch(raw).Execute? ==> Dispatch(raw).stmt == PrepareStatement(TrimNewlines(raw)).stmt
  {
  }

  /** Reading a line that neither starts nor ends with a newline, followed by the
      newline that ends it, gives back that line. */
  lemma TrimTypedNewline(line: seq<byte>)
    requires line != [] && line[0] != Newline && line[|line| - 1] != Newline
    ensures TrimNewlines(line + [Newline]) == line
  {
    assert Repeat(Newline, 0) + line + Repeat(Newline, 1) == line + [Newline];
    TrimPadded(0, line, 1, Newline);
  }

  /** The line a user types for a row, with its newline, executes an insert of that row. */
  lemma DispatchInsertLine(row: Row)
    requires AsciiWord(row.username) && AsciiWord(row.email)
    ensures Dispatch(InsertLine(row) + [Newline]) == Execute(Statement(StatementKindInsert, row))
  {
    var line := InsertLine(row);
    assert line[0] == 0x69 && line[|line| - 1] == row.email[|row.email| - 1];
    TrimTypedNewline(line);
    PrepareInsertLine(row);
  }

  /** The line "select", with its newline, executes a select. */
  lemma DispatchSelectLine()
    ensures Dispatch(SelectKeyword + [Newline]) == Execute(Statement(StatementKindSelect, ZeroRow))
  {
    TrimTypedNewline(SelectKeyword);
    assert SelectKeyword[..6] == SelectKeyword && SelectKeyword[..6] != InsertKeyword;
  }
}
