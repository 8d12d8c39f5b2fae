/**
 The whole-vault CSV round trip: buildExportCsv of clients/web/src/lib/export.ts followed by
 parseGenericCsv of clients/web/src/lib/importers.ts.
 */
module VaultCsv {
  import opened Wrappers
  import opened Csv
  import opened Strings

  datatype ItemType = LoginItem | NoteItem | CardItem | IdentityItem

  datatype Login = Login(username: string, password: string, uris: seq<string>, totp: Option<string>)

  /** The fields of a decrypted vault item that the CSV export reads. */
  datatype VaultItem = VaultItem(kind: ItemType, name: string, login: Option<Login>, note: Option<string>)

  /** A record of the importer; absent and null are both None. */
  datatype RawItem = RawItem(
    name: string, username: Option<string>, password: Option<string>,
    totp: Option<string>, uris: seq<string>, notes: Option<string>)

  // ----- export -----

  function Logins(items: seq<VaultItem>): (r: seq<VaultItem>) {
    if items == [] then []
    else
      var n := |items| - 1;
      Logins(items[..n]) + if items[n].kind == LoginItem then [items[n]] else []
  }

  /** The positions of the login items, in order and without a gap. */
  ghost predicate LoginPositions(items: seq<VaultItem>, at: seq<nat>) {
    && (forall k :: 0 <= k < |at| ==> at[k] < |items| && items[at[k]].kind == LoginItem)
    && (forall j, k :: 0 <= j < k < |at| ==> at[j] < at[k])
    && (forall i :: 0 <= i < |items| && items[i].kind == LoginItem ==> i in at)
  }

  /** The exported items are those at the login positions. */
  lemma {:induction false} LoginsAtPositions(items: seq<VaultItem>, at: seq<nat>)
    requires LoginPositions(items, at)
    ensures |Logins(items)| == |at| && forall k :: 0 <= k < |at| ==> at[k] < |items| && Logins(items)[k] == items[at[k]]
  {
    hide LoginPositions;
    if at != [] {
      SomePosition(items, at);
    }
    if items != [] {
      hide Logins;
      var n := |items| - 1;
      LastPosition(items, at);
      LoginsStep(items);
      var front := if items[n].kind == LoginItem then at[..|at| - 1] else at;
      LoginsAtPositions(items[..n], front);
      var before := Logins(items[..n]);
      forall k | 0 <= k < |front| ensures at[k] < n && Logins(items)[k] == items[at[k]] {
        assert at[k] == front[k] && before[k] == items[..n][front[k]];
      }
    }
  }

  lemma LoginsStep(items: seq<VaultItem>)
    requires items != []
    ensures var n := |items| - 1;
            Logins(items) == Logins(items[..n]) + if items[n].kind == LoginItem then [items[n]] else []
  {
  }

  lemma SomePosition(items: seq<VaultItem>, at: seq<nat>)
    requires LoginPositions(items, at) && at != []
    ensures items != []
  {
    assert at[0] < |items|;
  }

  /** The last item is at the last position or at none. */
  lemma LastPosition(items: seq<VaultItem>, at: seq<nat>)
    requires items != [] && LoginPositions(items, at)
    ensures var n := |items| - 1;
            if items[n].kind == LoginItem
            then at != [] && at[|at| - 1] == n && LoginPositions(items[..n], at[..|at| - 1])
            else LoginPositions(items[..n], at)
  {
    var n := |items| - 1;
    if items[n].kind == LoginItem {
      assert n in at;
      assert forall j :: 0 <= j < |at| - 1 ==> at[j] < at[|at| - 1] < |items|;
      var front := at[..|at| - 1];
      forall i | 0 <= i < n && items[i].kind == LoginItem ensures i in front {
        assert i in at;
        var j :| 0 <= j < |at| && at[j] == i;
        assert front[j] == i;
      }
    }
  }

  lemma {:induction false} PositionsExist(items: seq<VaultItem>) returns (at: seq<nat>)
    ensures LoginPositions(items, at)
  {
    at := [];
    if items != [] {
      hide LoginPositions;
      at := PositionsExist(items[..|items| - 1]);
      at := OnePositionMore(items, at);
    }
  }

  lemma OnePositionMore(items: seq<VaultItem>, front: seq<nat>) returns (at: seq<nat>)
    requires items != [] && LoginPositions(items[..|items| - 1], front)
    ensures LoginPositions(items, at)
  {
    var n := |items| - 1;
    var before := items[..n];
    assert forall i :: 0 <= i < n ==> before[i] == items[i];
    forall k | 0 <= k < |front| ensures front[k] < n && items[front[k]].kind == LoginItem {
      assert before[front[k]].kind == LoginItem;
    }
    forall i | 0 <= i < n && items[i].kind == LoginItem ensures i in front {
      assert before[i].kind == LoginItem;
    }
    if items[n].kind == LoginItem {
      at := front + [n];
      LastAdded(front, n);
    } else {
      at := front;
    }
  }

  lemma LastAdded(front: seq<nat>, n: nat)
    ensures n in front + [n] && forall i :: i in front ==> i in front + [n]
  {
    assert (front + [n])[|front|] == n;
  }

  /** The six cells of an item before escaping. */
  function Cells(item: VaultItem): (row: Row)
    ensures |row| == 6
  {
    [ item.name,
      if item.login.Some? then item.login.value.username else "",
      if item.login.Some? then item.login.value.password else "",
      if item.login.Some? && item.login.value.totp.Some? then item.login.value.totp.value else "",
      if item.login.Some? && |item.login.value.uris| > 0 then item.login.value.uris[0] else "",
      if item.note.Some? then item.note.value else ""
    ]
  }

  function CsvEscape(v: string): (r: string) {
    Quote(Guard(v))
  }

  function ExportLine(item: VaultItem): (r: string) {
    var c := Cells(item);
    Join([CsvEscape(c[0]), CsvEscape(c[1]), CsvEscape(c[2]), CsvEscape(c[3]), CsvEscape(c[4]), CsvEscape(c[5])], ',')
  }

  function Header(): (r: string) {
    "name,username,password,totp,url,notes"
  }

  function ExportLines(items: seq<VaultItem>): (r: seq<string>) {
    seq(|items|, i requires 0 <= i < |items| => ExportLine(items[i]))
  }

  function ExportCsv(items: seq<VaultItem>): (r: string) {
    Join([Header()] + ExportLines(Logins(items)), '\n')
  }

  // ----- import -----

  type Record = map<string, string>

  type Lowercase = string -> string

  /** What is used of `toLowerCase`: on ASCII texts it is the lowercase of the ASCII letters. */
  ghost predicate Lowercases(lower: Lowercase) {
    forall s: string :: IsAscii(s) ==> lower(s) == Lower(s)
  }

  function HeaderName(h: string, lower: Lowercase): (name: string) {
    TrimEnd(TrimStart(lower(h)))
  }

  function ColumnOr(cols: Row, i: nat): (r: string) {
    if i < |cols| then cols[i] else ""
  }

  /** The first n headers paired with the columns of a row; a repeated header keeps its last column. */
  function RecordOf(headers: Row, cols: Row, n: nat): (r: Record)
    requires n <= |headers|
  {
    if n == 0 then map[]
    else RecordOf(headers, cols, n - 1)[headers[n - 1] := ColumnOr(cols, n - 1)]
  }

  function HeaderNames(row: Row, lower: Lowercase): (names: Row) {
    seq(|row|, i requires 0 <= i < |row| => HeaderName(row[i], lower))
  }

  function RecordsOf(rows: seq<Row>, lower: Lowercase): (records: seq<Record>) {
    if |rows| < 2 then []
    else
      var headers := HeaderNames(rows[0], lower);
      seq(|rows| - 1, i requires 0 <= i < |rows| - 1 => RecordOf(headers, rows[i + 1], |headers|))
  }

  /** A record has exactly the headers for keys, each with the last column under that header, or "" where the row is shorter. */
  lemma {:induction false} RecordLookup(headers: Row, cols: Row, n: nat, key: string)
    requires n <= |headers|
    ensures key in RecordOf(headers, cols, n) <==> key in headers[..n]
    ensures forall i :: 0 <= i < n && headers[i] == key && key !in headers[i + 1..n] ==>
              key in RecordOf(headers, cols, n) && RecordOf(headers, cols, n)[key] == if i < |cols| then cols[i] else ""
  {
    if n > 0 {
      RecordLookup(headers, cols, n - 1, key);
      assert headers[..n] == headers[..n - 1] + [headers[n - 1]];
      forall i | 0 <= i < n && headers[i] == key && key !in headers[i + 1..n]
        ensures key in RecordOf(headers, cols, n) && RecordOf(headers, cols, n)[key] == if i < |cols| then cols[i] else ""
      {
        if i < n - 1 {
          assert headers[i + 1..n] == headers[i + 1..n - 1] + [headers[n - 1]];
        }
      }
    }
  }

  /** A header is read in any letter case and with any white space around it. */
  lemma HeaderIsRead(a: string, h: string, b: string, lower: Lowercase)
    requires Lowercases(lower) && IsAscii(a + h + b) && AllSpaces(a) && AllSpaces(b)
    requires h != "" && !IsSpace(h[0]) && !IsSpace(h[|h| - 1])
    ensures HeaderName(a + h + b, lower) == Lower(h)
  {
    hide TrimStart, TrimEnd;
    assert Lower(a) == a && Lower(b) == b;
    assert Lower(a + h + b) == a + Lower(h) + b;
    TrimPeels(a, Lower(h), b);
  }

  method FillRecord(headers: Row, cols: Row) returns (row: Record)
    ensures row == RecordOf(headers, cols, |headers|)
  {
    row := map[];
    for i := 0 to |headers|
      invariant row == RecordOf(headers, cols, i)
    {
      row := row[headers[i] := ColumnOr(cols, i)];
    }
  }

  method CsvRecords(csv: string, lower: Lowercase) returns (records: seq<Record>)
    ensures records == RecordsOf(ParsedRows(csv), lower)
  {
    hide ParsedRows, RecordOf, HeaderNames;
    var rows := ParseCsv(csv);
    if |rows| < 2 {
      return [];
    }
    var headers := HeaderNames(rows[0], lower);
    records := [];
    for k := 1 to |rows|
      invariant |records| == k - 1
      invariant forall i :: 0 <= i < k - 1 ==> records[i] == RecordOf(headers, rows[i + 1], |headers|)
    {
      var row := FillRecord(headers, rows[k]);
      records := records + [row];
    }
  }

  /** A property read followed by `||`: absent and empty are the same. */
  function Get(rec: Record, key: string): (r: string) {
    if key in rec then Unguard(rec[key]) else ""
  }

  function NullIfEmpty(s: string): (r: Option<string>) {
    if s == "" then None else Some(s)
  }

  function ItemOf(rec: Record): (r: RawItem) {
    RawItem(
      if Get(rec, "name") != "" then Get(rec, "name") else "Untitled",
      if Get(rec, "username") != "" then Some(Get(rec, "username")) else NullIfEmpty(Get(rec, "email")),
      NullIfEmpty(Get(rec, "password")),
      NullIfEmpty(Get(rec, "totp")),
      if Get(rec, "url") != "" then [Get(rec, "url")] else [],
      NullIfEmpty(Get(rec, "notes")))
  }

  /** The value under a key, guard removed; none when it is absent or empty. */
  ghost predicate Reads(rec: Record, key: string, value: Option<string>) {
    match value
    case Some(v) => v != "" && key in rec && Unguard(rec[key]) == v
    case None => key in rec ==> Unguard(rec[key]) == ""
  }

  /** Every field of an imported item, for any record: the email stands in for a missing username. */
  lemma ItemReads(rec: Record)
    ensures var item := ItemOf(rec);
            && Reads(rec, "password", item.password) && Reads(rec, "totp", item.totp) && Reads(rec, "notes", item.notes)
            && (Reads(rec, "name", Some(item.name)) || (Reads(rec, "name", None) && item.name == "Untitled"))
            && ((item.username.Some? && Reads(rec, "username", item.username))
                || (Reads(rec, "username", None) && Reads(rec, "email", item.username)))
            && if Reads(rec, "url", None) then item.uris == [] else |item.uris| == 1 && Reads(rec, "url", Some(item.uris[0]))
  {
  }

  function ItemsOf(records: seq<Record>): (r: seq<RawItem>) {
    seq(|records|, i requires 0 <= i < |records| => ItemOf(records[i]))
  }

  method ParseGenericCsv(csv: string, lower: Lowercase) returns (items: seq<RawItem>)
    ensures items == ItemsOf(RecordsOf(ParsedRows(csv), lower))
  {
    var records := CsvRecords(csv, lower);
    items := ItemsOf(records);
  }

  // ----- what the round trip should give -----

  function LoginField(item: VaultItem, field: Login -> string): (r: Option<string>) {
    if item.login.Some? then NullIfEmpty(field(item.login.value)) else None
  }

  /** What should come back for an item: its own values, "" and absent becoming null, an empty name "Untitled". */
  function Imported(item: VaultItem): (r: RawItem) {
    RawItem(
      name := if item.name == "" then "Untitled" else item.name,
      username := LoginField(item, (l: Login) => l.username),
      password := LoginField(item, (l: Login) => l.password),
      totp := LoginField(item, (l: Login) => if l.totp.Some? then l.totp.value else ""),
      uris := if item.login.Some? && |item.login.value.uris| > 0 && item.login.value.uris[0] != ""
              then [item.login.value.uris[0]] else [],
      notes := if item.note.Some? then NullIfEmpty(item.note.value) else None)
  }

  lemma ImportedFromCells(item: VaultItem)
    ensures Imported(item) == FromCells(Cells(item))
  {
  }

  function FromCells(c: Row): (r: RawItem)
    requires |c| == 6
  {
    RawItem(
      if c[0] != "" then c[0] else "Untitled",
      NullIfEmpty(c[1]), NullIfEmpty(c[2]), NullIfEmpty(c[3]),
      if c[4] != "" then [c[4]] else [],
      NullIfEmpty(c[5]))
  }

  function ImportedAll(items: seq<VaultItem>): (r: seq<RawItem>) {
    seq(|items|, i requires 0 <= i < |items| => Imported(items[i]))
  }

  function GuardedCells(item: VaultItem): (row: Row)
    ensures |row| == 6
  {
    seq(6, i requires 0 <= i < 6 => Guard(Cells(item)[i]))
  }

  /** The item's line is not blank and no cell holds a carriage return outside quotes. */
  predicate Exportable(item: VaultItem) {
    NonBlank(GuardedCells(item)) && CrSafeRow(GuardedCells(item))
  }

  // ----- the exported text is the header and the guarded rows, printed -----

  function HeaderRow(): (row: Row)
    ensures |row| == 6
  {
    ["name", "username", "password", "totp", "url", "notes"]
  }

  function DataRows(items: seq<VaultItem>): (rows: seq<Row>)
    ensures |rows| == |items|
    ensures forall i :: 0 <= i < |items| ==> rows[i] == GuardedCells(items[i])
  {
    seq(|items|, i requires 0 <= i < |items| => GuardedCells(items[i]))
  }

  lemma JoinStep(first: string, rest: seq<string>)
    requires |rest| > 0
    ensures Join([first] + rest, ',') == first + "," + Join(rest, ',')
  {
  }

  lemma HeaderTailJoins()
    ensures Join(["totp", "url", "notes"], ',') == "totp,url,notes"
  {
  }

  lemma HeaderMiddleJoins()
    ensures Join(["username", "password", "totp", "url", "notes"], ',') == "username,password,totp,url,notes"
  {
    hide Join;
    HeaderTailJoins();
    var tail := ["totp", "url", "notes"];
    JoinStep("password", tail);
    JoinStep("username", ["password"] + tail);
    assert ["username"] + (["password"] + tail) == ["username", "password", "totp", "url", "notes"];
  }

  lemma HeaderJoins()
    ensures Join(HeaderRow(), ',') == Header()
  {
    HeaderMiddleJoins();
    HeaderSplits();
    assert HeaderRow()[1..] == ["username", "password", "totp", "url", "notes"];
    hide Header;
  }

  lemma HeaderSplits()
    ensures Header() == "name" + [','] + "username,password,totp,url,notes"
  {
  }

  ghost predicate IsWord(h: string) {
    h != "" && forall i :: 0 <= i < |h| ==> 'a' <= h[i] <= 'z'
  }

  lemma HeaderWords(i: nat)
    requires i < 6
    ensures IsWord(HeaderRow()[i])
  {
  }

  lemma WordsArePlain(h: string)
    requires IsWord(h)
    ensures !NeedsQuotes(h) && '\r' !in h && NonBlankCell(h)
  {
    assert !IsSpace(h[0]);
  }

  lemma WordsStay(h: string, lower: Lowercase)
    requires IsWord(h) && Lowercases(lower)
    ensures HeaderName(h, lower) == h
  {
    assert Lower(h) == h;
    assert !IsSpace(h[0]) && !IsSpace(h[|h| - 1]);
  }

  lemma HeaderIsPlain(i: nat)
    requires i < 6
    ensures var h := HeaderRow()[i]; !NeedsQuotes(h) && '\r' !in h && NonBlankCell(h)
  {
    hide HeaderRow, NonBlankCell, NeedsQuotes;
    HeaderWords(i);
    WordsArePlain(HeaderRow()[i]);
  }

  lemma HeaderPrints()
    ensures PrintRow(HeaderRow()) == Header()
    ensures CrSafeRow(HeaderRow()) && NonBlank(HeaderRow())
  {
    hide HeaderRow, Join, Header, NonBlankCell;
    HeaderJoins();
    forall i | 0 <= i < |HeaderRow()| ensures !NeedsQuotes(HeaderRow()[i]) && CrSafe(HeaderRow()[i]) && NonBlankCell(HeaderRow()[i]) {
      HeaderIsPlain(i);
    }
    assert NonBlankCell(HeaderRow()[0]);
    assert QuoteAll(HeaderRow()) == HeaderRow();
  }

  lemma ExportLinePrints(item: VaultItem)
    ensures ExportLine(item) == PrintRow(GuardedCells(item))
  {
    hide Join, Quote, Guard, Cells;
    var c := Cells(item);
    assert QuoteAll(GuardedCells(item))
        == [CsvEscape(c[0]), CsvEscape(c[1]), CsvEscape(c[2]), CsvEscape(c[3]), CsvEscape(c[4]), CsvEscape(c[5])];
  }

  lemma ExportPrintsRows(items: seq<VaultItem>)
    ensures ExportCsv(items) == PrintRows([HeaderRow()] + DataRows(Logins(items)))
  {
    hide HeaderRow, Header, Join, PrintRow, ExportLine, GuardedCells, Logins;
    var logins := Logins(items);
    HeaderPrints();
    forall i | 0 <= i < |logins|
      ensures ExportLine(logins[i]) == PrintRow(GuardedCells(logins[i]))
    {
      ExportLinePrints(logins[i]);
    }
    assert PrintEach([HeaderRow()] + DataRows(logins)) == [Header()] + ExportLines(logins);
  }

  // ----- records under the exported header -----

  lemma HeaderNamesAreThemselves(lower: Lowercase)
    requires Lowercases(lower)
    ensures HeaderNames(HeaderRow(), lower) == HeaderRow()
  {
    hide HeaderName, HeaderRow, IsWord, Lowercases;
    forall i | 0 <= i < |HeaderRow()| ensures HeaderName(HeaderRow()[i], lower) == HeaderRow()[i] {
      HeaderWords(i);
      WordsStay(HeaderRow()[i], lower);
    }
  }

  lemma RecordUnderHeader(cols: Row)
    ensures RecordOf(HeaderRow(), cols, 6)
         == map["name" := ColumnOr(cols, 0), "username" := ColumnOr(cols, 1), "password" := ColumnOr(cols, 2),
                "totp" := ColumnOr(cols, 3), "url" := ColumnOr(cols, 4), "notes" := ColumnOr(cols, 5)]
  {
    var h := HeaderRow();
    assert RecordOf(h, cols, 0) == map[];
    assert RecordOf(h, cols, 1) == map["name" := ColumnOr(cols, 0)];
    assert RecordOf(h, cols, 2) == map["name" := ColumnOr(cols, 0), "username" := ColumnOr(cols, 1)];
    assert RecordOf(h, cols, 3)
        == map["name" := ColumnOr(cols, 0), "username" := ColumnOr(cols, 1), "password" := ColumnOr(cols, 2)];
    assert RecordOf(h, cols, 4)
        == map["name" := ColumnOr(cols, 0), "username" := ColumnOr(cols, 1), "password" := ColumnOr(cols, 2),
               "totp" := ColumnOr(cols, 3)];
    assert RecordOf(h, cols, 5)
        == map["name" := ColumnOr(cols, 0), "username" := ColumnOr(cols, 1), "password" := ColumnOr(cols, 2),
               "totp" := ColumnOr(cols, 3), "url" := ColumnOr(cols, 4)];
  }

  /** The columns a row offers to the six headers, each with its guard removed. */
  function UnguardedColumns(cols: Row): (row: Row)
    ensures |row| == 6
  {
    seq(6, i requires 0 <= i < 6 => Unguard(ColumnOr(cols, i)))
  }

  lemma ItemUnderHeader(cols: Row, lower: Lowercase)
    requires Lowercases(lower)
    ensures ItemOf(RecordOf(HeaderNames(HeaderRow(), lower), cols, |HeaderRow()|)) == FromCells(UnguardedColumns(cols))
  {
    hide RecordOf, HeaderNames, Unguard, ColumnOr, HeaderRow;
    HeaderNamesAreThemselves(lower);
    RecordUnderHeader(cols);
    var rec := RecordOf(HeaderRow(), cols, 6);
    NoEmailColumn();
    assert Get(rec, "email") == "";
    assert Get(rec, "name") == UnguardedColumns(cols)[0];
    assert Get(rec, "username") == UnguardedColumns(cols)[1];
    assert Get(rec, "password") == UnguardedColumns(cols)[2];
    assert Get(rec, "totp") == UnguardedColumns(cols)[3];
    assert Get(rec, "url") == UnguardedColumns(cols)[4];
    assert Get(rec, "notes") == UnguardedColumns(cols)[5];
  }

  lemma NoEmailColumn()
    ensures "email" !in {"name", "username", "password", "totp", "url", "notes"}
  {
  }

  lemma GuardsCancel(item: VaultItem)
    ensures UnguardedColumns(GuardedCells(item)) == Cells(item)
  {
  }

  // ----- the first parsed row is always the header -----

  lemma {:induction false} ScanKeepsRows(s: string, st: Scanner)
    ensures st.rows <= Scan(s, st).rows
    decreases |s|
  {
    if s != "" {
      var (next, used) := Turn(s, st);
      ScanKeepsRows(s[used..], next);
    }
  }

  lemma {:induction false} PlainRowHasNoCr(row: Row)
    requires forall i :: 0 <= i < |row| ==> '\r' !in row[i]
    ensures RowCr(row) == 0
  {
    if row != [] {
      PlainRowHasNoCr(row[1..]);
    }
  }

  lemma HeaderHasNoCr()
    ensures RowCr(HeaderRow()) == 0 && ProtectedRowCr(HeaderRow()) == 0
  {
    hide HeaderRow;
    forall i | 0 <= i < |HeaderRow()| ensures '\r' !in HeaderRow()[i] {
      HeaderIsPlain(i);
    }
    PlainRowHasNoCr(HeaderRow());
    UnsafeRowLosesCr(HeaderRow());
  }

  lemma HeaderComesFirst(data: seq<Row>) returns (tail: seq<Row>)
    ensures ParsedRows(PrintRows([HeaderRow()] + data)) == [HeaderRow()] + tail
    ensures RowsCr(tail) <= ProtectedRowsCr(data)
  {
    hide HeaderRow, Scan, PrintRows, NonBlank, CrSafeRow;
    var all := [HeaderRow()] + data;
    HeaderPrints();
    if data == [] {
      tail := [];
      assert all == [HeaderRow()];
      PrintParseRoundTrip(all);
    } else {
      tail := HeaderBeforeData(data);
    }
    ParsedCrWasQuoted(PrintRows(all));
    QuotedCrOfRows(all);
    HeaderHasNoCr();
    assert all[1..] == data;
    assert ([HeaderRow()] + tail)[1..] == tail;
  }

  lemma HeaderBeforeData(data: seq<Row>) returns (tail: seq<Row>)
    requires data != []
    ensures ParsedRows(PrintRows([HeaderRow()] + data)) == [HeaderRow()] + tail
  {
    hide HeaderRow, Scan, PrintRows, NonBlank, CrSafeRow;
    var all := [HeaderRow()] + data;
    HeaderPrints();
    assert all[1..] == data;
    PrintRowsAreLines(all);
    PrintRowsAreLines(data);
    var cells := ScanFirstLine(all, "\n", START);
    ScanKeepsRows(PrintRows(data), START.(rows := [HeaderRow()]));
    var finished := Finish(Scan(PrintRows(all), START));
    assert START.rows + [cells] == [HeaderRow()];
    assert finished[0] == HeaderRow();
    tail := DropBlank(finished[1..]);
  }

  // ----- carriage returns of an imported item -----

  lemma SixCells(c: Row)
    requires |c| == 6
    ensures RowCr(c) == Cr(c[0]) + Cr(c[1]) + Cr(c[2]) + Cr(c[3]) + Cr(c[4]) + Cr(c[5])
  {
    hide Cr;
    RowCrConcat(c[..3], c[3..]);
    assert c == c[..3] + c[3..];
    ThreeCells(c[..3]);
    ThreeCells(c[3..]);
  }

  lemma ThreeCells(c: Row)
    requires |c| == 3
    ensures RowCr(c) == Cr(c[0]) + Cr(c[1]) + Cr(c[2])
  {
    assert c[1..][1..][1..] == [];
    assert RowCr(c[1..]) == Cr(c[1]) + RowCr(c[1..][1..]);
    assert RowCr(c[1..][1..]) == Cr(c[2]) + RowCr(c[1..][1..][1..]);
  }

  ghost function OptionCr(s: Option<string>): (r: nat) {
    if s.Some? then Cr(s.value) else 0
  }

  ghost function ItemCr(item: RawItem): (r: nat) {
    Cr(item.name) + OptionCr(item.username) + OptionCr(item.password) + OptionCr(item.totp)
    + RowCr(item.uris) + OptionCr(item.notes)
  }

  lemma ItemKeepsCr(c: Row)
    requires |c| == 6
    ensures ItemCr(FromCells(c)) == RowCr(c)
  {
    SixCells(c);
    NoCrInDefaults();
    assert RowCr([c[4]]) == Cr(c[4]) by { assert [c[4]][1..] == []; }
    hide Cr, RowCr;
    assert RowCr([]) == 0 by { NoCrInDefaults(); }
  }

  lemma NoCrInDefaults()
    ensures Cr("") == 0 && Cr("Untitled") == 0 && RowCr([]) == 0
  {
  }

  lemma UnguardKeepsCr(v: string)
    ensures Cr(Unguard(v)) == Cr(v)
  {
    if Unguard(v) != v {
      CrStep(v);
    }
  }

  lemma GuardKeepsCr(v: string)
    ensures Cr(Guard(v)) == Cr(v)
  {
  }

  lemma GuardedCellsKeepCr(item: VaultItem)
    ensures RowCr(GuardedCells(item)) == RowCr(Cells(item))
  {
    var c, g := Cells(item), GuardedCells(item);
    SixCells(c);
    SixCells(g);
    GuardKeepsCr(c[0]); GuardKeepsCr(c[1]); GuardKeepsCr(c[2]); GuardKeepsCr(c[3]); GuardKeepsCr(c[4]); GuardKeepsCr(c[5]);
  }

  /** No more carriage returns reach the six fields than the row held; extra columns are dropped. */
  lemma ColumnsLoseCr(cols: Row)
    ensures RowCr(UnguardedColumns(cols)) <= RowCr(cols)
  {
    var padded := seq(6, i requires 0 <= i < 6 => ColumnOr(cols, i));
    var u := UnguardedColumns(cols);
    SixCells(u);
    SixCells(padded);
    UnguardKeepsCr(padded[0]); UnguardKeepsCr(padded[1]); UnguardKeepsCr(padded[2]);
    UnguardKeepsCr(padded[3]); UnguardKeepsCr(padded[4]); UnguardKeepsCr(padded[5]);
    PaddingAddsNoCr(cols, 6);
  }

  lemma {:induction false} PaddingAddsNoCr(cols: Row, n: nat)
    ensures RowCr(seq(n, i requires 0 <= i < n => ColumnOr(cols, i))) <= RowCr(cols)
    decreases n
  {
    var padded := seq(n, i requires 0 <= i < n => ColumnOr(cols, i));
    if n > 0 {
      var rest := if cols == [] then [] else cols[1..];
      PaddingAddsNoCr(rest, n - 1);
      assert padded[1..] == seq(n - 1, i requires 0 <= i < n - 1 => ColumnOr(rest, i));
      assert cols == [] ==> padded[0] == "" && Cr("") == 0;
    }
  }

  lemma {:induction false} RowsCrMonotone(a: seq<Row>, b: seq<Row>)
    requires |a| == |b| && forall i :: 0 <= i < |a| ==> RowCr(a[i]) <= RowCr(b[i])
    ensures RowsCr(a) <= RowsCr(b)
  {
    if a != [] {
      RowsCrMonotone(a[1..], b[1..]);
    }
  }

  // ----- the round trip -----

  ghost function Reimported(items: seq<VaultItem>, lower: Lowercase): (raw: seq<RawItem>) {
    ItemsOf(RecordsOf(ParsedRows(ExportCsv(items)), lower))
  }

  lemma ReimportedFromTail(items: seq<VaultItem>, lower: Lowercase) returns (tail: seq<Row>)
    requires Lowercases(lower)
    ensures ParsedRows(ExportCsv(items)) == [HeaderRow()] + tail
    ensures RowsCr(tail) <= ProtectedRowsCr(DataRows(Logins(items)))
    ensures |Reimported(items, lower)| == |tail|
    ensures forall i :: 0 <= i < |tail| ==> Reimported(items, lower)[i] == FromCells(UnguardedColumns(tail[i]))
  {
    hide HeaderRow, ParsedRows, PrintRows, ExportCsv, RecordOf, HeaderNames, Lowercases, ItemOf, FromCells, UnguardedColumns;
    ExportPrintsRows(items);
    tail := HeaderComesFirst(DataRows(Logins(items)));
    var rows := [HeaderRow()] + tail;
    HeaderNamesAreThemselves(lower);
    forall i | 0 <= i < |tail|
      ensures Reimported(items, lower)[i] == FromCells(UnguardedColumns(tail[i]))
    {
      assert rows[i + 1] == tail[i];
      ItemUnderHeader(tail[i], lower);
    }
  }

  lemma SafeTailIsData(items: seq<VaultItem>, tail: seq<Row>)
    requires ParsedRows(ExportCsv(items)) == [HeaderRow()] + tail
    requires forall i :: 0 <= i < |Logins(items)| ==> CrSafeRow(GuardedCells(Logins(items)[i]))
    ensures tail == DropBlank(DataRows(Logins(items)))
  {
    hide HeaderRow, Scan, PrintRows, ExportCsv, CrSafeRow, GuardedCells, Logins, NonBlank, DropBlank;
    var data := DataRows(Logins(items));
    var all := [HeaderRow()] + data;
    ExportPrintsRows(items);
    HeaderPrints();
    PrintRowsAreLines(all);
    AnyLineEndParses(all, "\n");
    DropBlankConcat([HeaderRow()], data);
    DropBlankOne(HeaderRow());
    assert DropBlank(all) == [HeaderRow()] + DropBlank(data);
    assert ([HeaderRow()] + tail)[1..] == tail;
    assert ([HeaderRow()] + DropBlank(data))[1..] == DropBlank(data);
  }

  lemma LoginsReturn(items: seq<VaultItem>, lower: Lowercase)
    requires Lowercases(lower)
    ensures Reimported(items, lower) == ImportedAll(Logins(items))
       <==> forall i :: 0 <= i < |Logins(items)| ==> Exportable(Logins(items)[i])
  {
    hide *;
    ExportableItemsReturn(items, lower);
    EqualItemsAreExportable(items, lower);
  }

  /**
   Exporting the vault to CSV and importing the file returns the login items in order, with the six
   exported values intact, exactly when every login's line is not blank and none of its cells
   holds a carriage return without also holding a comma, a double quote or a line feed.
   */
  lemma VaultRoundTrip(items: seq<VaultItem>, at: seq<nat>, lower: Lowercase)
    requires Lowercases(lower) && LoginPositions(items, at)
    ensures var raw := Reimported(items, lower);
            && (|raw| == |at| && (forall k :: 0 <= k < |at| ==> raw[k] == Imported(items[at[k]])))
            <==> forall k :: 0 <= k < |at| ==> Exportable(items[at[k]])
  {
    hide Reimported, Imported, Exportable, Logins, Lowercases;
    LoginsReturn(items, lower);
    LoginsAtPositions(items, at);
  }

  lemma ExportableItemsReturn(items: seq<VaultItem>, lower: Lowercase)
    requires Lowercases(lower)
    ensures (forall i :: 0 <= i < |Logins(items)| ==> Exportable(Logins(items)[i]))
        ==> Reimported(items, lower) == ImportedAll(Logins(items))
  {
    hide HeaderRow, Reimported, NonBlank, CrSafeRow, GuardedCells, FromCells, Cells, Imported, UnguardedColumns, Logins;
    var logins := Logins(items);
    var data := DataRows(logins);
    if forall i :: 0 <= i < |logins| ==> Exportable(logins[i]) {
      var tail := ReimportedFromTail(items, lower);
      SafeTailIsData(items, tail);
      DropBlankKeepsAll(data);
      forall i | 0 <= i < |logins|
        ensures Reimported(items, lower)[i] == Imported(logins[i])
      {
        assert tail[i] == GuardedCells(logins[i]);
        GuardsCancel(logins[i]);
        ImportedFromCells(logins[i]);
      }
    }
  }

  lemma EqualItemsAreExportable(items: seq<VaultItem>, lower: Lowercase)
    requires Lowercases(lower)
    ensures Reimported(items, lower) == ImportedAll(Logins(items))
        ==> forall i :: 0 <= i < |Logins(items)| ==> Exportable(Logins(items)[i])
  {
    hide HeaderRow, Reimported, NonBlank, CrSafeRow, GuardedCells, FromCells, Cells, Imported, UnguardedColumns, Logins;
    var logins := Logins(items);
    var data := DataRows(logins);
    if Reimported(items, lower) == ImportedAll(logins) {
      var tail := ReimportedFromTail(items, lower);
      forall i | 0 <= i < |data|
        ensures RowCr(data[i]) <= RowCr(tail[i])
      {
        assert FromCells(UnguardedColumns(tail[i])) == Imported(logins[i]);
        ImportedFromCells(logins[i]);
        ItemKeepsCr(UnguardedColumns(tail[i]));
        ItemKeepsCr(Cells(logins[i]));
        GuardedCellsKeepCr(logins[i]);
        ColumnsLoseCr(tail[i]);
      }
      RowsCrMonotone(data, tail);
      UnsafeRowsLoseCr(data);
      SafeTailIsData(items, tail);
      DropBlankKeepsAll(data);
    }
  }
}
