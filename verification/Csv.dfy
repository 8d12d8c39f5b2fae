/**
 The CSV printer of clients/web/src/lib/export.ts and the CSV parser of
 clients/web/src/lib/importers.ts, up to rows of cells.
 The printer quotes a cell holding a comma, a double quote or a line feed; the parser
 is a character automaton that also ends a row at an unquoted carriage return.
 */
module Csv {
  import opened Strings

  type Row = seq<string>

  // ----- the formula guard -----

  predicate IsFormulaChar(c: char) {
    c == '=' || c == '+' || c == '-' || c == '@' || c == '\t' || c == '\r'
  }

  /** The expression `^'*[=+\-@\t\r]`: apostrophes, then a formula character. */
  predicate LooksLikeFormula(v: string) {
    |v| > 0 && if v[0] == '\'' then LooksLikeFormula(v[1..]) else IsFormulaChar(v[0])
  }

  function Guard(v: string): (r: string) {
    if LooksLikeFormula(v) then "'" + v else v
  }

  /** The expression `^''*[=+\-@\t\r]` decides whether one apostrophe is removed. */
  function Unguard(v: string): (r: string) {
    if |v| > 0 && v[0] == '\'' && LooksLikeFormula(v[1..]) then v[1..] else v
  }

  predicate StartsFormula(v: string) {
    |v| > 0 && IsFormulaChar(v[0])
  }

  /** The formula characters, after any number of apostrophes. */
  ghost predicate FormulaAt(v: string, n: int) {
    0 <= n < |v| && v[n] in "=+-@\t\r" && forall k :: 0 <= k < n ==> v[k] == '\''
  }

  lemma {:induction false} LooksLikeFormulaIff(v: string)
    ensures LooksLikeFormula(v) <==> exists n :: FormulaAt(v, n)
  {
    if v != "" && v[0] == '\'' {
      LooksLikeFormulaIff(v[1..]);
      if LooksLikeFormula(v[1..]) {
        var n :| FormulaAt(v[1..], n);
        assert FormulaAt(v, n + 1);
      }
      if exists n :: FormulaAt(v, n) {
        var n :| FormulaAt(v, n);
        assert FormulaAt(v[1..], n - 1);
      }
    } else if v != "" && v[0] in "=+-@\t\r" {
      assert FormulaAt(v, 0);
    }
  }

  /** One apostrophe is added exactly to a formula behind any number of apostrophes, and removed exactly from a guarded one. */
  lemma GuardAddsOne(v: string)
    ensures Guard(v) == if exists n :: FormulaAt(v, n) then "'" + v else v
    ensures Unguard(v) == if exists n :: n > 0 && FormulaAt(v, n) then v[1..] else v
  {
    LooksLikeFormulaIff(v);
    if v != "" && v[0] == '\'' {
      LooksLikeFormulaIff(v[1..]);
      if LooksLikeFormula(v[1..]) {
        var n :| FormulaAt(v[1..], n);
        assert FormulaAt(v, n + 1);
      }
      if exists n :: n > 0 && FormulaAt(v, n) {
        var n :| n > 0 && FormulaAt(v, n);
        assert FormulaAt(v[1..], n - 1);
      }
    }
  }

  /** Guard is a bijection from all values onto the cells no spreadsheet would execute, and Unguard is its inverse. */
  lemma GuardIsReversible(v: string)
    ensures !StartsFormula(Guard(v))
    ensures Unguard(Guard(v)) == v
    ensures Guard(Unguard(v)) == v <==> !StartsFormula(v)
  {
  }

  // ----- printing -----

  predicate NeedsQuotes(cell: string) {
    ',' in cell || '"' in cell || '\n' in cell
  }

  function DoubleQuotes(cell: string): (r: string) {
    if cell == "" then ""
    else (if cell[0] == '"' then ['"', '"'] else [cell[0]]) + DoubleQuotes(cell[1..])
  }

  function Quote(cell: string): (r: string) {
    if NeedsQuotes(cell) then ['"'] + DoubleQuotes(cell) + ['"'] else cell
  }

  lemma {:induction false} DoubleQuotesGrows(cell: string)
    ensures |DoubleQuotes(cell)| >= |cell|
  {
    if cell != "" {
      DoubleQuotesGrows(cell[1..]);
    }
  }

  /** A cell is quoted only if it holds a comma, a double quote or a line feed. */
  lemma QuotedOnlyIfNeeded(cell: string)
    ensures Quote(cell) == cell <==> ',' !in cell && '"' !in cell && '\n' !in cell
  {
    DoubleQuotesGrows(cell);
  }

  function Join(parts: seq<string>, sep: char): (r: string) {
    if |parts| == 0 then ""
    else if |parts| == 1 then parts[0]
    else parts[0] + [sep] + Join(parts[1..], sep)
  }

  function QuoteAll(row: Row): (r: seq<string>) {
    seq(|row|, i requires 0 <= i < |row| => Quote(row[i]))
  }

  function PrintRow(row: Row): (r: string) {
    Join(QuoteAll(row), ',')
  }

  function PrintEach(rows: seq<Row>): (r: seq<string>) {
    seq(|rows|, i requires 0 <= i < |rows| => PrintRow(rows[i]))
  }

  function PrintRows(rows: seq<Row>): (r: string) {
    Join(PrintEach(rows), '\n')
  }

  /** The same rows with a line end of choice. */
  function PrintLines(rows: seq<Row>, eol: string): (r: string) {
    if rows == [] then ""
    else if |rows| == 1 then PrintRow(rows[0])
    else PrintRow(rows[0]) + eol + PrintLines(rows[1..], eol)
  }

  // ----- parsing -----

  /** The four variables of the parser's loop. */
  datatype Scanner = Scanner(rows: seq<Row>, row: Row, field: string, inQuotes: bool) {
    function PushField(): (r: Scanner) {
      Scanner(rows, row + [field], "", inQuotes)
    }

    function PushRow(): (r: Scanner) {
      Scanner(rows + [row + [field]], [], "", inQuotes)
    }

    function Append(c: char): (r: Scanner) {
      Scanner(rows, row, field + [c], inQuotes)
    }
  }

  const START := Scanner([], [], "", false)

  /** One turn of the loop: the scanner after it and the characters it took. */
  function Turn(s: string, st: Scanner): (r: (Scanner, nat))
    requires s != ""
    ensures 0 < r.1 <= |s|
  {
    if s[0] == '"' then
      if st.inQuotes && |s| > 1 && s[1] == '"' then (st.Append('"'), 2) else (st.(inQuotes := !st.inQuotes), 1)
    else if s[0] == ',' && !st.inQuotes then (st.PushField(), 1)
    else if (s[0] == '\n' || s[0] == '\r') && !st.inQuotes then
      (st.PushRow(), if s[0] == '\r' && |s| > 1 && s[1] == '\n' then 2 else 1)
    else (st.Append(s[0]), 1)
  }

  function Scan(s: string, st: Scanner): (r: Scanner)
    decreases |s|
  {
    if s == "" then st else Scan(s[Turn(s, st).1..], Turn(s, st).0)
  }

  function Finish(st: Scanner): (r: seq<Row>) {
    if st.field != "" || |st.row| > 0 then st.PushRow().rows else st.rows
  }

  predicate NonBlankCell(cell: string) {
    exists i :: 0 <= i < |cell| && !IsSpace(cell[i])
  }

  /** A cell counts as blank exactly if `trim` leaves nothing of it. */
  lemma BlankIsTrimmed(cell: string)
    ensures NonBlankCell(cell) <==> TrimEnd(TrimStart(cell)) != ""
  {
    TrimsToNothing(cell);
  }

  predicate NonBlank(row: Row) {
    exists i :: 0 <= i < |row| && NonBlankCell(row[i])
  }

  function DropBlank(rows: seq<Row>): (r: seq<Row>) {
    if rows == [] then []
    else (if NonBlank(rows[0]) then [rows[0]] else []) + DropBlank(rows[1..])
  }

  function ParsedRows(content: string): (r: seq<Row>) {
    DropBlank(Finish(Scan(content, START)))
  }

  method ParseCsv(content: string) returns (result: seq<Row>)
    ensures result == ParsedRows(content)
  {
    var rows: seq<Row>, row: Row, field: string, inQuotes := [], [], "", false;
    var i := 0;
    assert content[0..] == content;
    while i < |content|
      invariant 0 <= i <= |content|
      invariant Scan(content[i..], Scanner(rows, row, field, inQuotes)) == Scan(content, START)
    {
      var ch := content[i];
      ghost var rest := content[i..];
      assert rest[1..] == content[i + 1..];
      assert |rest| > 1 ==> rest[1] == content[i + 1] && rest[2..] == content[i + 2..];
      if ch == '"' {
        if inQuotes && i + 1 < |content| && content[i + 1] == '"' {
          field := field + ['"'];
          i := i + 1;
        } else {
          inQuotes := !inQuotes;
        }
      } else if ch == ',' && !inQuotes {
        row, field := row + [field], "";
      } else if (ch == '\n' || ch == '\r') && !inQuotes {
        if ch == '\r' && i + 1 < |content| && content[i + 1] == '\n' {
          i := i + 1;
        }
        rows, row, field := rows + [row + [field]], [], "";
      } else {
        field := field + [ch];
      }
      i := i + 1;
    }
    if field != "" || |row| > 0 {
      rows, row, field := rows + [row + [field]], [], "";
    }
    result := DropBlank(rows);
  }

  // ----- printed cells scan back to themselves -----

  /** The parser reads the printed cell back unless it holds a carriage return and stays unquoted. */
  predicate CrSafe(cell: string) {
    '\r' in cell ==> ',' in cell || '"' in cell || '\n' in cell
  }

  predicate CrSafeRow(row: Row) {
    forall i :: 0 <= i < |row| ==> CrSafe(row[i])
  }

  // One step of the automaton outside quotes.
  lemma ScanSeparator(c: char, rest: string, st: Scanner)
    requires !st.inQuotes && (c == '"' || c == ',' || c == '\n')
    ensures Scan([c] + rest, st)
         == Scan(rest, if c == '"' then st.(inQuotes := true) else if c == ',' then st.PushField() else st.PushRow())
  {
  }

  predicate IsLineEnd(eol: string) {
    eol == "\n" || eol == "\r\n" || eol == "\r"
  }

  lemma ScanLineEnd(eol: string, rest: string, st: Scanner)
    requires IsLineEnd(eol) && !st.inQuotes
    requires eol == "\r" ==> rest == "" || rest[0] != '\n'
    ensures Scan(eol + rest, st) == Scan(rest, st.PushRow())
  {
  }

  /** No printed line starts with a line feed: a cell that does is quoted. */
  lemma LineStart(rows: seq<Row>, eol: string)
    requires eol != "" && eol[0] != '\n'
    ensures PrintLines(rows, eol) == "" || PrintLines(rows, eol)[0] != '\n'
  {
    if rows != [] {
      RowStart(rows[0]);
    }
  }

  lemma RowStart(row: Row)
    ensures PrintRow(row) == "" || PrintRow(row)[0] != '\n'
  {
    if |row| == 1 {
      assert PrintRow(row) == Quote(row[0]);
    } else if |row| > 1 {
      PrintRowStep(row);
    }
  }

  // One character of a quoted cell.
  lemma ScanInQuotes(c: char, rest: string, st: Scanner)
    requires st.inQuotes
    ensures Scan(if c == '"' then ['"'] + (['"'] + rest) else [c] + rest, st) == Scan(rest, st.Append(c))
  {
    var s := if c == '"' then ['"'] + (['"'] + rest) else [c] + rest;
    assert if c == '"' then s[1] == '"' && s[2..] == rest else s[1..] == rest;
  }

  /** What follows the opening quote of a quoted cell. */
  ghost function Body(cell: string, rest: string): (r: string) {
    DoubleQuotes(cell) + ['"'] + rest
  }

  lemma QuoteOpensBody(cell: string, rest: string)
    requires NeedsQuotes(cell)
    ensures Quote(cell) + rest == ['"'] + Body(cell, rest)
  {
  }

  lemma BodyStep(cell: string, rest: string)
    requires cell != ""
    ensures Body(cell, rest)
         == if cell[0] == '"' then ['"'] + (['"'] + Body(cell[1..], rest)) else [cell[0]] + Body(cell[1..], rest)
  {
  }

  lemma {:induction false} ScanQuoted(cell: string, rest: string, st: Scanner)
    requires st.inQuotes
    requires rest == "" || rest[0] != '"'
    ensures Scan(Body(cell, rest), st) == Scan(rest, st.(field := st.field + cell, inQuotes := false))
  {
    if cell == "" {
      assert Body(cell, rest) == ['"'] + rest;
      assert (['"'] + rest)[1..] == rest;
      assert st.field + cell == st.field;
    } else {
      var next := st.Append(cell[0]);
      assert next.field + cell[1..] == st.field + cell;
      assert next.inQuotes && next.(field := st.field + cell, inQuotes := false) == st.(field := st.field + cell, inQuotes := false);
      hide *;
      BodyStep(cell, rest);
      ScanInQuotes(cell[0], Body(cell[1..], rest), st);
      ScanQuoted(cell[1..], rest, next);
    }
  }

  lemma {:induction false} ScanPlain(cell: string, rest: string, st: Scanner)
    requires !st.inQuotes && !NeedsQuotes(cell) && '\r' !in cell
    ensures Scan(cell + rest, st) == Scan(rest, st.(field := st.field + cell))
  {
    if cell == "" {
      assert cell + rest == rest;
      assert st.field + cell == st.field;
    } else {
      var next := st.Append(cell[0]);
      assert cell[0] in cell;
      assert forall c :: c in cell[1..] ==> c in cell;
      ScanPlain(cell[1..], rest, next);
      assert (cell + rest)[1..] == cell[1..] + rest;
      assert next.field + cell[1..] == st.field + cell;
    }
  }

  lemma ScanCell(cell: string, rest: string, st: Scanner)
    requires !st.inQuotes && st.field == "" && CrSafe(cell)
    requires rest == "" || rest[0] != '"'
    ensures Scan(Quote(cell) + rest, st) == Scan(rest, st.(field := cell))
  {
    hide Scan, Body;
    assert st.field + cell == cell;
    if NeedsQuotes(cell) {
      QuoteOpensBody(cell, rest);
      ScanSeparator('"', Body(cell, rest), st);
      ScanQuoted(cell, rest, st.(inQuotes := true));
    } else {
      ScanPlain(cell, rest, st);
    }
  }

  lemma PrintRowStep(row: Row)
    requires |row| > 1
    ensures PrintRow(row) == Quote(row[0]) + [','] + PrintRow(row[1..])
  {
    assert QuoteAll(row)[1..] == QuoteAll(row[1..]);
  }

  lemma PrintRowsStep(rows: seq<Row>)
    requires |rows| > 1
    ensures PrintRows(rows) == PrintRow(rows[0]) + ['\n'] + PrintRows(rows[1..])
  {
    assert PrintEach(rows)[1..] == PrintEach(rows[1..]);
  }

  lemma {:induction false} PrintRowsAreLines(rows: seq<Row>)
    ensures PrintRows(rows) == PrintLines(rows, "\n")
  {
    if |rows| > 1 {
      PrintRowsStep(rows);
      PrintRowsAreLines(rows[1..]);
    }
  }

  lemma {:induction false} ScanRow(row: Row, rest: string, st: Scanner)
    requires |row| > 0 && CrSafeRow(row)
    requires !st.inQuotes && st.field == ""
    requires rest == "" || rest[0] != '"'
    ensures Scan(PrintRow(row) + rest, st)
         == Scan(rest, st.(row := st.row + row[..|row| - 1], field := row[|row| - 1]))
  {
    hide Scan, Quote;
    if |row| == 1 {
      ScanCell(row[0], rest, st);
      assert st.row + row[..0] == st.row;
    } else {
      var next := ScanFirstCell(row, rest, st);
      ScanRow(row[1..], rest, next);
      assert next.row + row[1..][..|row| - 2] == st.row + row[..|row| - 1];
    }
  }

  lemma ScanFirstCell(row: Row, rest: string, st: Scanner) returns (next: Scanner)
    requires |row| > 1 && CrSafe(row[0])
    requires !st.inQuotes && st.field == ""
    ensures next == st.(row := st.row + [row[0]])
    ensures Scan(PrintRow(row) + rest, st) == Scan(PrintRow(row[1..]) + rest, next)
  {
    hide Scan, Quote, PrintRow;
    var tail := PrintRow(row[1..]) + rest;
    next := st.(field := row[0]).PushField();
    PrintRowStep(row);
    assert PrintRow(row) + rest == Quote(row[0]) + ([','] + tail);
    ScanCell(row[0], [','] + tail, st);
    ScanSeparator(',', tail, st.(field := row[0]));
  }

  /** A row without cells prints like a row holding one empty cell; both are blank. */
  lemma ScanLine(row: Row, rest: string, st: Scanner) returns (cells: Row)
    requires CrSafeRow(row)
    requires !st.inQuotes && st.field == "" && st.row == []
    requires rest == "" || rest[0] != '"'
    ensures |cells| > 0 && (cells == row || (row == [] && cells == [""]))
    ensures Scan(PrintRow(row) + rest, st)
         == Scan(rest, st.(row := cells[..|cells| - 1], field := cells[|cells| - 1]))
  {
    if row == [] {
      cells := [""];
      assert PrintRow(row) + rest == rest;
      assert st.(row := [], field := "") == st;
    } else {
      cells := row;
      ScanRow(row, rest, st);
      assert st.row + row[..|row| - 1] == row[..|row| - 1];
    }
  }

  lemma DropBlankConcat(a: seq<Row>, b: seq<Row>)
    ensures DropBlank(a + b) == DropBlank(a) + DropBlank(b)
  {
    if a == [] {
      assert a + b == b;
    } else {
      assert (a + b)[1..] == a[1..] + b;
      DropBlankConcat(a[1..], b);
    }
  }

  lemma DropBlankOne(row: Row)
    ensures DropBlank([row]) == if NonBlank(row) then [row] else []
  {
  }

  lemma BlankAlike(row: Row, cells: Row)
    requires cells == row || (row == [] && cells == [""])
    ensures NonBlank(cells) == NonBlank(row) && (cells == row || !NonBlank(row))
  {
  }

  lemma FinishLine(cells: Row, st: Scanner)
    requires |cells| > 0
    ensures Finish(st.(row := cells[..|cells| - 1], field := cells[|cells| - 1]))
         == if cells == [""] then st.rows else st.rows + [cells]
  {
    assert cells[..|cells| - 1] + [cells[|cells| - 1]] == cells;
  }

  lemma EmptyIsBlank()
    ensures !NonBlank([""]) && !NonBlank([])
  {
  }

  lemma LastLine(row: Row, cells: Row, st: Scanner)
    requires |cells| > 0 && (cells == row || (row == [] && cells == [""]))
    ensures DropBlank(Finish(st.(row := cells[..|cells| - 1], field := cells[|cells| - 1])))
         == DropBlank(st.rows) + DropBlank([row])
  {
    hide DropBlank, NonBlank, Finish;
    FinishLine(cells, st);
    EmptyIsBlank();
    DropBlankConcat(st.rows, [cells]);
    DropBlankOne(cells);
    DropBlankOne(row);
    assert DropBlank(st.rows) + [] == DropBlank(st.rows);
  }

  lemma ScanFirstLine(rows: seq<Row>, eol: string, st: Scanner) returns (cells: Row)
    requires |rows| > 1 && CrSafeRow(rows[0]) && IsLineEnd(eol)
    requires !st.inQuotes && st.field == "" && st.row == []
    ensures cells == rows[0] || (rows[0] == [] && cells == [""])
    ensures Scan(PrintLines(rows, eol), st) == Scan(PrintLines(rows[1..], eol), st.(rows := st.rows + [cells]))
  {
    hide Scan, PrintRow;
    var tail := PrintLines(rows[1..], eol);
    cells := ScanLine(rows[0], eol + tail, st);
    var atEnd := st.(row := cells[..|cells| - 1], field := cells[|cells| - 1]);
    assert PrintLines(rows, eol) == PrintRow(rows[0]) + (eol + tail);
    if eol == "\r" {
      LineStart(rows[1..], eol);
    }
    ScanLineEnd(eol, tail, atEnd);
    assert cells[..|cells| - 1] + [cells[|cells| - 1]] == cells;
  }

  lemma {:induction false} ScanLines(rows: seq<Row>, eol: string, st: Scanner)
    requires forall i :: 0 <= i < |rows| ==> CrSafeRow(rows[i])
    requires !st.inQuotes && st.field == "" && st.row == [] && IsLineEnd(eol)
    ensures DropBlank(Finish(Scan(PrintLines(rows, eol), st))) == DropBlank(st.rows) + DropBlank(rows)
  {
    if rows == [] {
      assert DropBlank(st.rows) + [] == DropBlank(st.rows);
    } else if |rows| == 1 {
      hide DropBlank, Finish;
      assert PrintLines(rows, eol) == PrintRow(rows[0]) + "";
      var cells := ScanLine(rows[0], "", st);
      LastLine(rows[0], cells, st);
      assert rows == [rows[0]];
    } else {
      hide *;
      var cells := ScanFirstLine(rows, eol, st);
      ScanLines(rows[1..], eol, st.(rows := st.rows + [cells]));
      FirstRowKept(rows, cells, st.rows);
    }
  }

  /** Line feed, CRLF or a bare carriage return: safe cells come back as they were and only blank rows are missing. */
  lemma AnyLineEndParses(rows: seq<Row>, eol: string)
    requires IsLineEnd(eol) && forall i :: 0 <= i < |rows| ==> CrSafeRow(rows[i])
    ensures ParsedRows(PrintLines(rows, eol)) == DropBlank(rows)
  {
    ScanLines(rows, eol, START);
    hide *;
    assert DropBlank([]) + DropBlank(rows) == DropBlank(rows) by { DropBlankConcat([], rows); assert [] + rows == rows; }
  }

  lemma FirstRowKept(rows: seq<Row>, cells: Row, before: seq<Row>)
    requires rows != [] && (cells == rows[0] || (rows[0] == [] && cells == [""]))
    ensures DropBlank(before + [cells]) + DropBlank(rows[1..]) == DropBlank(before) + DropBlank(rows)
  {
    hide DropBlank, NonBlank;
    DropBlankConcat(before, [cells]);
    DropBlankOne(cells);
    BlankAlike(rows[0], cells);
    DropBlankOne(rows[0]);
    DropBlankConcat([rows[0]], rows[1..]);
    assert rows == [rows[0]] + rows[1..];
    var kept := DropBlank([cells]);
    assert kept == DropBlank([rows[0]]);
    assert (DropBlank(before) + kept) + DropBlank(rows[1..]) == DropBlank(before) + (kept + DropBlank(rows[1..]));
  }

  // ----- what the parser makes of any document -----

  /** The double quotes of a text. */
  ghost function Quotes(s: string): (r: nat) {
    multiset(s)['"']
  }

  lemma TurnParity(s: string, st: Scanner)
    requires s != ""
    ensures var (next, used) := Turn(s, st);
            && (next.inQuotes == st.inQuotes <==> Quotes(s[..used]) % 2 == 0)
            && Quotes(s) == Quotes(s[..used]) + Quotes(s[used..])
  {
    var used := Turn(s, st).1;
    assert s == s[..used] + s[used..];
    assert s[..used] == if used == 1 then [s[0]] else [s[0], s[1]];
  }

  /** The scanner is inside quotes exactly after an odd number of double quotes. */
  lemma {:induction false} QuoteParity(s: string, st: Scanner)
    ensures Scan(s, st).inQuotes == (st.inQuotes != (Quotes(s) % 2 == 1))
    decreases |s|
  {
    if s != "" {
      hide Turn, Quotes;
      var (next, used) := Turn(s, st);
      TurnParity(s, st);
      QuoteParity(s[used..], next);
    }
  }

  /** The characters that can structure a document. */
  predicate IsStructure(c: char) {
    c == '"' || c == ',' || c == '\r' || c == '\n'
  }

  function Concat(parts: seq<string>): (r: string) {
    if parts == [] then "" else Concat(parts[..|parts| - 1]) + parts[|parts| - 1]
  }

  function ConcatRows(rows: seq<Row>): (r: string) {
    if rows == [] then "" else ConcatRows(rows[..|rows| - 1]) + Concat(rows[|rows| - 1])
  }

  /** Everything the scanner has read so far, in order. */
  function Content(st: Scanner): (r: string) {
    ConcatRows(st.rows) + Concat(st.row) + st.field
  }

  lemma PushedContent(st: Scanner)
    ensures Content(st.PushField()) == Content(st) && Content(st.PushRow()) == Content(st)
  {
    var row := st.row + [st.field];
    assert row[..|st.row|] == st.row && (st.rows + [row])[..|st.rows|] == st.rows;
    assert Concat(row) == Concat(st.row) + st.field;
    assert ConcatRows(st.rows + [row]) == ConcatRows(st.rows) + Concat(row);
    assert ConcatRows(st.rows) + (Concat(st.row) + st.field) == ConcatRows(st.rows) + Concat(st.row) + st.field;
  }

  /** What is left of a text when the structure is taken out. */
  function Plain(s: string): (r: string) {
    Without(s, IsStructure)
  }

  lemma TurnKeepsContent(s: string, st: Scanner)
    requires s != ""
    ensures var (next, used) := Turn(s, st);
            && Plain(Content(next)) == Plain(Content(st)) + Plain(s[..used])
            && Plain(s) == Plain(s[..used]) + Plain(s[used..])
  {
    hide Without, Concat, ConcatRows;
    var (next, used) := Turn(s, st);
    assert s == s[..used] + s[used..];
    WithoutConcat(s[..used], s[used..], IsStructure);
    PushedContent(st);
    WithoutOne(s[0], IsStructure);
    if used == 2 {
      assert s[..2] == [s[0]] + [s[1]];
      WithoutConcat([s[0]], [s[1]], IsStructure);
      WithoutOne(s[1], IsStructure);
    } else {
      assert s[..1] == [s[0]];
    }
    if next == st.Append(s[0]) {
      assert Content(next) == Content(st) + [s[0]];
      WithoutConcat(Content(st), [s[0]], IsStructure);
    }
  }

  /** Nothing else is lost, added or moved: the cells hold the document's other characters, in order. */
  lemma {:induction false} ScanKeepsContent(s: string, st: Scanner)
    ensures Plain(Content(Scan(s, st))) == Plain(Content(st)) + Plain(s)
    decreases |s|
  {
    hide Turn, Content, Without;
    if s == "" {
      assert Plain(s) == "" by { WithoutNone(s, IsStructure); }
    } else {
      hide Plain;
      var (next, used) := Turn(s, st);
      TurnKeepsContent(s, st);
      ScanKeepsContent(s[used..], next);
      var before, taken, rest := Plain(Content(st)), Plain(s[..used]), Plain(s[used..]);
      assert (before + taken) + rest == before + (taken + rest);
    }
  }

  // ----- carriage returns that survive parsing were inside quotes -----

  ghost function Cr(s: string): (r: nat) {
    multiset(s)['\r']
  }

  ghost function RowCr(row: Row): (r: nat) {
    if row == [] then 0 else Cr(row[0]) + RowCr(row[1..])
  }

  ghost function RowsCr(rows: seq<Row>): (r: nat) {
    if rows == [] then 0 else RowCr(rows[0]) + RowsCr(rows[1..])
  }

  ghost function StateCr(st: Scanner): (r: nat) {
    RowsCr(st.rows) + RowCr(st.row) + Cr(st.field)
  }

  /** Carriage returns of a document that lie between an odd and an even double quote. */
  ghost function QuotedCr(s: string, inQuotes: bool): (r: nat) {
    if s == "" then 0
    else if s[0] == '"' then QuotedCr(s[1..], !inQuotes)
    else (if inQuotes && s[0] == '\r' then 1 else 0) + QuotedCr(s[1..], inQuotes)
  }

  lemma RowCrConcat(a: Row, b: Row)
    ensures RowCr(a + b) == RowCr(a) + RowCr(b)
  {
    if a == [] {
      assert a + b == b;
    } else {
      assert (a + b)[1..] == a[1..] + b;
      RowCrConcat(a[1..], b);
    }
  }

  lemma RowsCrConcat(a: seq<Row>, b: seq<Row>)
    ensures RowsCr(a + b) == RowsCr(a) + RowsCr(b)
  {
    if a == [] {
      assert a + b == b;
    } else {
      assert (a + b)[1..] == a[1..] + b;
      RowsCrConcat(a[1..], b);
    }
  }

  lemma PushesKeepCr(st: Scanner, c: char)
    ensures StateCr(st.PushField()) == StateCr(st)
    ensures StateCr(st.PushRow()) == StateCr(st)
    ensures StateCr(st.Append(c)) == StateCr(st) + if c == '\r' then 1 else 0
  {
    RowCrConcat(st.row, [st.field]);
    assert RowCr([st.field]) == Cr(st.field) by { assert [st.field][1..] == []; }
    var full := st.row + [st.field];
    RowsCrConcat(st.rows, [full]);
    assert RowsCr([full]) == RowCr(full) by { assert [full][1..] == []; }
  }

  lemma {:induction false} ScanKeepsQuotedCr(s: string, st: Scanner)
    ensures StateCr(Scan(s, st)) == StateCr(st) + QuotedCr(s, st.inQuotes)
    decreases |s|
  {
    if s != "" {
      PushesKeepCr(st, s[0]);
      if s[0] == '"' {
        if st.inQuotes && |s| > 1 && s[1] == '"' {
          assert s[1..][1..] == s[2..] && s[1..][0] == '"';
          ScanKeepsQuotedCr(s[2..], st.Append('"'));
        } else {
          ScanKeepsQuotedCr(s[1..], st.(inQuotes := !st.inQuotes));
        }
      } else if s[0] == ',' && !st.inQuotes {
        ScanKeepsQuotedCr(s[1..], st.PushField());
      } else if (s[0] == '\n' || s[0] == '\r') && !st.inQuotes {
        if s[0] == '\r' && |s| > 1 && s[1] == '\n' {
          assert s[1..][1..] == s[2..] && s[1..][0] == '\n';
          ScanKeepsQuotedCr(s[2..], st.PushRow());
        } else {
          ScanKeepsQuotedCr(s[1..], st.PushRow());
        }
      } else {
        ScanKeepsQuotedCr(s[1..], st.Append(s[0]));
      }
    }
  }

  lemma CrStep(s: string)
    requires s != ""
    ensures Cr(s) == (if s[0] == '\r' then 1 else 0) + Cr(s[1..])
  {
    assert s == [s[0]] + s[1..];
  }

  lemma QuotedCrStep(c: char, rest: string, inQuotes: bool)
    ensures QuotedCr([c] + rest, inQuotes)
         == if c == '"' then QuotedCr(rest, !inQuotes)
            else (if inQuotes && c == '\r' then 1 else 0) + QuotedCr(rest, inQuotes)
  {
  }

  lemma {:induction false} QuotedCrOfBody(cell: string, rest: string)
    ensures QuotedCr(Body(cell, rest), true) == Cr(cell) + QuotedCr(rest, false)
  {
    if cell == "" {
      assert Body(cell, rest) == ['"'] + rest;
      QuotedCrStep('"', rest, true);
    } else {
      hide *;
      BodyStep(cell, rest);
      QuotedCrOfBody(cell[1..], rest);
      CrStep(cell);
      var tail := Body(cell[1..], rest);
      if cell[0] == '"' {
        QuotedCrStep('"', ['"'] + tail, true);
        QuotedCrStep('"', tail, false);
      } else {
        QuotedCrStep(cell[0], tail, true);
      }
    }
  }

  lemma {:induction false} QuotedCrOfPlain(cell: string, rest: string)
    requires '"' !in cell
    ensures QuotedCr(cell + rest, false) == QuotedCr(rest, false)
  {
    if cell == "" {
      assert cell + rest == rest;
    } else {
      assert cell[0] in cell;
      assert forall c :: c in cell[1..] ==> c in cell;
      QuotedCrOfPlain(cell[1..], rest);
      assert (cell + rest)[1..] == cell[1..] + rest;
    }
  }

  ghost function ProtectedCr(cell: string): (r: nat) {
    if NeedsQuotes(cell) then Cr(cell) else 0
  }

  ghost function ProtectedRowCr(row: Row): (r: nat) {
    if row == [] then 0 else ProtectedCr(row[0]) + ProtectedRowCr(row[1..])
  }

  ghost function ProtectedRowsCr(rows: seq<Row>): (r: nat) {
    if rows == [] then 0 else ProtectedRowCr(rows[0]) + ProtectedRowsCr(rows[1..])
  }

  lemma QuotedCrOfCell(cell: string, rest: string)
    ensures QuotedCr(Quote(cell) + rest, false) == ProtectedCr(cell) + QuotedCr(rest, false)
  {
    if NeedsQuotes(cell) {
      var body := Body(cell, rest);
      assert Quote(cell) + rest == ['"'] + body;
      QuotedCrStep('"', body, false);
      QuotedCrOfBody(cell, rest);
    } else {
      QuotedCrOfPlain(cell, rest);
    }
  }

  lemma {:induction false} QuotedCrOfRow(row: Row, rest: string)
    ensures QuotedCr(PrintRow(row) + rest, false) == ProtectedRowCr(row) + QuotedCr(rest, false)
  {
    hide QuotedCr;
    if row == [] {
      assert PrintRow(row) + rest == rest;
    } else if |row| == 1 {
      QuotedCrOfCell(row[0], rest);
    } else {
      PrintRowStep(row);
      var tail := PrintRow(row[1..]) + rest;
      assert PrintRow(row) + rest == Quote(row[0]) + ([','] + tail);
      QuotedCrOfCell(row[0], [','] + tail);
      QuotedCrStep(',', tail, false);
      QuotedCrOfRow(row[1..], rest);
    }
  }

  lemma {:induction false} QuotedCrOfRows(rows: seq<Row>)
    ensures QuotedCr(PrintRows(rows), false) == ProtectedRowsCr(rows)
  {
    if rows == [] {
    } else if |rows| == 1 {
      assert PrintRows(rows) == PrintRow(rows[0]) + "";
      QuotedCrOfRow(rows[0], "");
    } else {
      hide QuotedCr;
      PrintRowsStep(rows);
      assert PrintRows(rows) == PrintRow(rows[0]) + (['\n'] + PrintRows(rows[1..]));
      QuotedCrOfRow(rows[0], ['\n'] + PrintRows(rows[1..]));
      QuotedCrStep('\n', PrintRows(rows[1..]), false);
      QuotedCrOfRows(rows[1..]);
    }
  }

  lemma {:induction false} UnsafeRowLosesCr(row: Row)
    ensures ProtectedRowCr(row) <= RowCr(row)
    ensures ProtectedRowCr(row) == RowCr(row) <==> CrSafeRow(row)
  {
    if row != [] {
      UnsafeRowLosesCr(row[1..]);
      assert CrSafeRow(row) <==> CrSafe(row[0]) && CrSafeRow(row[1..]) by {
        assert forall i :: 0 <= i < |row| - 1 ==> row[1..][i] == row[i + 1];
        if CrSafe(row[0]) && CrSafeRow(row[1..]) {
          forall i | 0 <= i < |row| ensures CrSafe(row[i]) {
            if i > 0 { assert row[i] == row[1..][i - 1]; }
          }
        }
      }
    }
  }

  lemma {:induction false} UnsafeRowsLoseCr(rows: seq<Row>)
    ensures ProtectedRowsCr(rows) <= RowsCr(rows)
    ensures ProtectedRowsCr(rows) == RowsCr(rows) ==> forall i :: 0 <= i < |rows| ==> CrSafeRow(rows[i])
  {
    if rows != [] {
      UnsafeRowLosesCr(rows[0]);
      UnsafeRowsLoseCr(rows[1..]);
      if ProtectedRowsCr(rows) == RowsCr(rows) {
        forall i | 0 <= i < |rows| ensures CrSafeRow(rows[i]) {
          if i > 0 { assert rows[i] == rows[1..][i - 1]; }
        }
      }
    }
  }

  lemma {:induction false} DropBlankKeepsAll(rows: seq<Row>)
    ensures |DropBlank(rows)| <= |rows|
    ensures RowsCr(DropBlank(rows)) <= RowsCr(rows)
    ensures |DropBlank(rows)| == |rows| <==> DropBlank(rows) == rows
    ensures DropBlank(rows) == rows <==> forall i :: 0 <= i < |rows| ==> NonBlank(rows[i])
  {
    if rows != [] {
      var rest := DropBlank(rows[1..]);
      DropBlankKeepsAll(rows[1..]);
      assert rows == [rows[0]] + rows[1..];
      if NonBlank(rows[0]) {
        assert ([rows[0]] + rest)[1..] == rest;
        assert DropBlank(rows) == [rows[0]] + rest;
        if rest == rows[1..] {
          forall i | 0 <= i < |rows| ensures NonBlank(rows[i]) {
            if i > 0 { assert rows[i] == rows[1..][i - 1]; }
          }
        }
      } else {
        assert DropBlank(rows) == rest;
      }
    }
  }

  /** What the parser keeps of a printed document holds at most the carriage returns that were quoted. */
  lemma ParsedCrWasQuoted(content: string)
    ensures RowsCr(ParsedRows(content)) <= QuotedCr(content, false)
  {
    var st := Scan(content, START);
    ScanKeepsQuotedCr(content, START);
    PushesKeepCr(st, ' ');
    DropBlankKeepsAll(Finish(st));
  }

  predicate RoundTrips(rows: seq<Row>) {
    forall i :: 0 <= i < |rows| ==> NonBlank(rows[i]) && CrSafeRow(rows[i])
  }

  /**
   Printing then parsing returns the same rows and cells exactly when no row is blank and every
   cell with a carriage return also holds a comma, a double quote or a line feed.
   */
  lemma PrintParseRoundTrip(rows: seq<Row>)
    ensures ParsedRows(PrintRows(rows)) == rows <==> RoundTrips(rows)
  {
    hide Scan, PrintRows, NonBlank, CrSafeRow;
    DropBlankKeepsAll(rows);
    if ParsedRows(PrintRows(rows)) == rows {
      ParsedCrWasQuoted(PrintRows(rows));
      QuotedCrOfRows(rows);
      UnsafeRowsLoseCr(rows);
    }
    if forall i :: 0 <= i < |rows| ==> CrSafeRow(rows[i]) {
      PrintRowsAreLines(rows);
      AnyLineEndParses(rows, "\n");
    }
  }

  /** A cell the comment of the exporter promises to preserve, and that comes back as another cell. */
  lemma CarriageReturnIsLost()
    ensures ParsedRows(PrintRows([["a\rb"]])) != [["a\rb"]]
  {
    var rows := [["a\rb"]];
    assert rows[0][0][1] == '\r';
    assert !CrSafeRow(rows[0]);
    PrintParseRoundTrip(rows);
  }
}
