/** CSV parser and Bitwarden-dialect printer: src/lib/csv.ts. The dialect is section 2 of RFC 4180. */
module Csv {
  import opened Text

  type Row = seq<string>

  // ---------------------------------------------------------------- parser

  /** The five variables the parser's loop carries, without the position. */
  datatype State = State(rows: seq<Row>, row: Row, field: string, inQuotes: bool)

  const START := State([], [], "", false)

  function EndRow(st: State): State {
    State(st.rows + [st.row + [st.field]], [], "", st.inQuotes)
  }

  /** The state after the remaining text has been consumed. */
  function Scan(text: string, st: State): State
    decreases |text|
  {
    if text == "" then st
    else if st.inQuotes then
      if text[0] == '"' then
        if |text| > 1 && text[1] == '"' then Scan(text[2..], st.(field := st.field + "\""))
        else Scan(text[1..], st.(inQuotes := false))
      else Scan(text[1..], st.(field := st.field + [text[0]]))
    else if text[0] == '"' then Scan(text[1..], st.(inQuotes := true))
    else if text[0] == ',' then Scan(text[1..], st.(row := st.row + [st.field], field := ""))
    else if text[0] == '\n' then Scan(text[1..], EndRow(st))
    else if text[0] == '\r' then
      Scan(if |text| > 1 && text[1] == '\n' then text[2..] else text[1..], EndRow(st))
    else Scan(text[1..], st.(field := st.field + [text[0]]))
  }

  /** The unterminated last row, if there is one. */
  function Flush(st: State): seq<Row> {
    if |st.field| > 0 || |st.row| > 0 then st.rows + [st.row + [st.field]] else st.rows
  }

  predicate Blank(row: Row) {
    forall i :: 0 <= i < |row| ==> row[i] == ""
  }

  function DropBlank(rows: seq<Row>): seq<Row> {
    if rows == [] then []
    else (if Blank(rows[0]) then [] else [rows[0]]) + DropBlank(rows[1..])
  }

  function Parse(text: string): seq<Row> {
    DropBlank(Flush(Scan(text, START)))
  }

  method ParseCsv(text: string) returns (result: seq<Row>)
    ensures result == Parse(text)
  {
    var rows: seq<Row>, row: Row, field, inQuotes := [], [], "", false;
    var i, n := 0, |text|;
    while i < n
      invariant 0 <= i <= n
      invariant Scan(text[i..], State(rows, row, field, inQuotes)) == Scan(text, START)
    {
      var ch := text[i];
      assert text[i..][0] == ch && text[i..][1..] == text[i + 1..];
      assert i + 1 < n ==> text[i..][1] == text[i + 1] && text[i..][2..] == text[i + 2..];
      if inQuotes {
        if ch == '"' {
          if i + 1 < n && text[i + 1] == '"' {
            field := field + "\"";
            i := i + 2;
            continue;
          }
          inQuotes := false;
          i := i + 1;
          continue;
        }
        field := field + [ch];
        i := i + 1;
        continue;
      }
      if ch == '"' {
        inQuotes := true;
        i := i + 1;
        continue;
      }
      if ch == ',' {
        row := row + [field];
        field := "";
        i := i + 1;
        continue;
      }
      if ch == '\n' || ch == '\r' {
        row := row + [field];
        field := "";
        rows := rows + [row];
        row := [];
        if ch == '\r' && i + 1 < n && text[i + 1] == '\n' {
          i := i + 2;
        } else {
          i := i + 1;
        }
        continue;
      }
      field := field + [ch];
      i := i + 1;
    }
    if |field| > 0 || |row| > 0 {
      row := row + [field];
      rows := rows + [row];
    }
    result := DropBlank(rows);
  }

  // --------------------------------------------------------------- printer

  predicate NeedsQuotes(value: string) {
    ',' in value || '"' in value || '\n' in value || '\r' in value
  }

  function DoubleQuotes(value: string): string {
    if value == "" then ""
    else (if value[0] == '"' then "\"\"" else [value[0]]) + DoubleQuotes(value[1..])
  }

  function EscapeCsvField(value: string): string {
    if NeedsQuotes(value) then "\"" + DoubleQuotes(value) + "\"" else value
  }

  function PrintRow(cells: Row): string {
    Join(seq(|cells|, i requires 0 <= i < |cells| => EscapeCsvField(cells[i])), ",")
  }

  /** The three line endings the parser recognises. */
  datatype Eol = LF | CR | CRLF {
    function Text(): string {
      match this case LF => "\n" case CR => "\r" case CRLF => "\r\n"
    }
  }

  function Print(rows: seq<Row>, eol: Eol): string {
    if rows == [] then "" else PrintRow(rows[0]) + eol.Text() + Print(rows[1..], eol)
  }

  // ------------------------------------------- parser state at print positions

  predicate CellEnd(rest: string) {
    rest == "" || rest[0] != '"'
  }

  lemma {:induction false} ScanBare(v: string, rest: string, st: State)
    requires !NeedsQuotes(v) && !st.inQuotes
    ensures Scan(v + rest, st) == Scan(rest, st.(field := st.field + v))
    decreases |v|
  {
    if v == "" {
      assert v + rest == rest && st.field + v == st.field;
    } else {
      ScanBare(v[1..], rest, st.(field := st.field + [v[0]]));
      assert (v + rest)[1..] == v[1..] + rest;
      assert st.field + [v[0]] + v[1..] == st.field + v;
    }
  }

  lemma {:induction false} ScanQuoted(v: string, rest: string, st: State)
    requires st.inQuotes && CellEnd(rest)
    ensures Scan(DoubleQuotes(v) + "\"" + rest, st) == Scan(rest, st.(field := st.field + v, inQuotes := false))
    decreases |v|
  {
    var text := DoubleQuotes(v) + "\"" + rest;
    if v == "" {
      assert text == "\"" + rest && text[1..] == rest && st.field + v == st.field;
    } else {
      var tail := DoubleQuotes(v[1..]) + "\"" + rest;
      ScanQuoted(v[1..], rest, st.(field := st.field + [v[0]]));
      assert st.field + [v[0]] + v[1..] == st.field + v;
      if v[0] == '"' {
        assert text == "\"\"" + tail && text[2..] == tail;
      } else {
        assert text == [v[0]] + tail && text[1..] == tail;
      }
    }
  }

  /** At the start of a cell, its printed form leaves exactly the cell in `field`. */
  lemma ScanCell(v: string, rest: string, st: State)
    requires !st.inQuotes && st.field == "" && CellEnd(rest)
    ensures Scan(EscapeCsvField(v) + rest, st) == Scan(rest, st.(field := v))
  {
    if NeedsQuotes(v) {
      var text := EscapeCsvField(v) + rest;
      assert text[1..] == DoubleQuotes(v) + "\"" + rest;
      ScanQuoted(v, rest, st.(inQuotes := true));
    } else {
      ScanBare(v, rest, st);
      assert "" + v == v;
    }
  }

  lemma PrintRowStep(cells: Row)
    requires |cells| > 1
    ensures PrintRow(cells) == EscapeCsvField(cells[0]) + "," + PrintRow(cells[1..])
  {
    var printed := seq(|cells|, i requires 0 <= i < |cells| => EscapeCsvField(cells[i]));
    var tail := cells[1..];
    assert printed[1..] == seq(|tail|, i requires 0 <= i < |tail| => EscapeCsvField(tail[i]));
  }

  lemma ScanComma(rest: string, st: State)
    requires !st.inQuotes
    ensures Scan("," + rest, st) == Scan(rest, st.(row := st.row + [st.field], field := ""))
  {
    assert ("," + rest)[1..] == rest;
  }

  lemma PrintOneCell(v: string)
    ensures PrintRow([v]) == EscapeCsvField(v)
  {
  }

  /** A printed row leaves all its cells in the state: the last one in `field`, the others in `row`. */
  lemma {:induction false} ScanRow(cells: Row, rest: string, st: State)
    requires |cells| > 0 && !st.inQuotes && st.field == "" && CellEnd(rest)
    ensures Scan(PrintRow(cells) + rest, st)
         == Scan(rest, st.(row := st.row + cells[..|cells| - 1], field := cells[|cells| - 1]))
    decreases |cells|
  {
    hide Scan, PrintRow, EscapeCsvField;
    if |cells| == 1 {
      PrintOneCell(cells[0]);
      ScanCell(cells[0], rest, st);
      assert cells == [cells[0]] && st.row + cells[..0] == st.row;
    } else {
      var tail := PrintRow(cells[1..]) + rest;
      var st' := st.(row := st.row + [cells[0]], field := "");
      PrintRowStep(cells);
      assert EscapeCsvField(cells[0]) + "," + PrintRow(cells[1..]) + rest == EscapeCsvField(cells[0]) + ("," + tail);
      ScanCell(cells[0], "," + tail, st);
      ScanComma(tail, st.(field := cells[0]));
      ScanRow(cells[1..], rest, st');
      assert st'.row + cells[1..][..|cells| - 2] == st.row + cells[..|cells| - 1];
    }
  }

  /** No printed row starts with a line feed, so a lone CR is never read as half of a CRLF. */
  lemma PrintedRowStart(cells: Row)
    ensures PrintRow(cells) == "" || PrintRow(cells)[0] != '\n'
  {
    if |cells| > 1 {
      PrintRowStep(cells);
    }
  }

  /** A row that was never written (no cells) and a row of one empty cell print alike. */
  function Shown(row: Row): Row {
    if row == [] then [""] else row
  }

  lemma ScanEol(eol: Eol, rest: string, st: State)
    requires !st.inQuotes && (eol.CR? ==> rest == "" || rest[0] != '\n')
    ensures Scan(eol.Text() + rest, st) == Scan(rest, EndRow(st))
  {
    var text := eol.Text() + rest;
    match eol
    case LF => assert text[1..] == rest;
    case CR => assert text[1..] == rest;
    case CRLF => assert text[2..] == rest;
  }

  lemma PrintShown(row: Row)
    ensures PrintRow(row) == PrintRow(Shown(row))
  {
  }

  lemma EolEndsCell(eol: Eol, rest: string)
    ensures CellEnd(eol.Text() + rest)
  {
  }

  lemma ScanFullRow(cells: Row, eol: Eol, rest: string, rows: seq<Row>)
    requires |cells| > 0 && (eol.CR? ==> rest == "" || rest[0] != '\n')
    ensures Scan(PrintRow(cells) + (eol.Text() + rest), State(rows, [], "", false))
         == Scan(rest, State(rows + [cells], [], "", false))
  {
    EolEndsCell(eol, rest);
    hide Scan, PrintRow;
    var n := |cells| - 1;
    ScanRow(cells, eol.Text() + rest, State(rows, [], "", false));
    ScanEol(eol, rest, State(rows, [] + cells[..n], cells[n], false));
    assert [] + cells[..n] + [cells[n]] == cells;
  }

  lemma ScanLine(row: Row, eol: Eol, rest: string, rows: seq<Row>)
    requires eol.CR? ==> rest == "" || rest[0] != '\n'
    ensures Scan(PrintRow(row) + eol.Text() + rest, State(rows, [], "", false))
         == Scan(rest, State(rows + [Shown(row)], [], "", false))
  {
    var line, ending := PrintRow(row), eol.Text();
    PrintShown(row);
    ScanFullRow(Shown(row), eol, rest, rows);
    assert line + ending + rest == line + (ending + rest);
  }

  function ShownAll(rows: seq<Row>): (shown: seq<Row>)
    ensures |shown| == |rows|
  {
    if rows == [] then [] else [Shown(rows[0])] + ShownAll(rows[1..])
  }

  lemma LinesCons(rows: seq<Row>, eol: Eol)
    requires rows != []
    ensures Print(rows, eol) == PrintRow(rows[0]) + eol.Text() + Print(rows[1..], eol)
    ensures ShownAll(rows) == [Shown(rows[0])] + ShownAll(rows[1..])
  {
    hide PrintRow, Shown;
  }

  lemma NoLines(eol: Eol)
    ensures Print([], eol) == "" && ShownAll([]) == []
  {
  }

  /** No line begins with a line feed. */
  lemma LinesStart(rows: seq<Row>, eol: Eol, rest: string)
    requires eol.CR? ==> rest == "" || rest[0] != '\n'
    ensures var text := Print(rows, eol) + rest; eol.CR? ==> text == "" || text[0] != '\n'
  {
    if rows != [] {
      PrintedRowStart(rows[0]);
      LinesCons(rows, eol);
      hide Print, PrintRow;
    }
  }

  lemma {:induction false} ScanLines(rows: seq<Row>, eol: Eol, rest: string, done: seq<Row>)
    requires eol.CR? ==> rest == "" || rest[0] != '\n'
    ensures Scan(Print(rows, eol) + rest, State(done, [], "", false))
         == Scan(rest, State(done + ShownAll(rows), [], "", false))
    decreases |rows|
  {
    hide *;
    if rows == [] {
      NoLines(eol);
      assert "" + rest == rest && done + [] == done;
    } else {
      var tail := Print(rows[1..], eol) + rest;
      LinesStart(rows[1..], eol, rest);
      LinesCons(rows, eol);
      assert PrintRow(rows[0]) + eol.Text() + Print(rows[1..], eol) + rest == PrintRow(rows[0]) + eol.Text() + tail;
      ScanLine(rows[0], eol, tail, done);
      ScanLines(rows[1..], eol, rest, done + [Shown(rows[0])]);
      assert done + [Shown(rows[0])] + ShownAll(rows[1..]) == done + ([Shown(rows[0])] + ShownAll(rows[1..]));
    }
  }

  lemma {:induction false} DropBlankShown(rows: seq<Row>)
    ensures DropBlank(ShownAll(rows)) == DropBlank(rows)
  {
    if rows != [] {
      DropBlankShown(rows[1..]);
      assert ShownAll(rows)[1..] == ShownAll(rows[1..]);
    }
  }

  lemma DropBlankCons(row: Row, rows: seq<Row>)
    ensures DropBlank([row] + rows) == (if Blank(row) then [] else [row]) + DropBlank(rows)
  {
    assert ([row] + rows)[1..] == rows;
  }

  lemma {:induction false} DropBlankConcat(a: seq<Row>, b: seq<Row>)
    ensures DropBlank(a + b) == DropBlank(a) + DropBlank(b)
  {
    if a == [] {
      assert a + b == b;
    } else {
      hide Blank, DropBlank;
      DropBlankConcat(a[1..], b);
      DropBlankCons(a[0], a[1..]);
      DropBlankCons(a[0], a[1..] + b);
      assert a == [a[0]] + a[1..] && a + b == [a[0]] + (a[1..] + b);
    }
  }

  predicate NoBlank(rows: seq<Row>) {
    forall i :: 0 <= i < |rows| ==> !Blank(rows[i])
  }

  lemma {:induction false} DropBlankExact(rows: seq<Row>)
    ensures NoBlank(DropBlank(rows)) && |DropBlank(rows)| <= |rows|
    ensures DropBlank(rows) == rows <==> NoBlank(rows)
  {
    if rows != [] {
      DropBlankExact(rows[1..]);
      if Blank(rows[0]) {
        assert !NoBlank(rows);
      } else {
        assert DropBlank(rows)[1..] == DropBlank(rows[1..]);
        assert NoBlank(rows) ==> NoBlank(rows[1..]);
        if NoBlank(rows[1..]) {
          forall i | 0 <= i < |rows| ensures !Blank(rows[i]) {
            if i > 0 { assert rows[i] == rows[1..][i - 1]; }
          }
        }
      }
    }
  }

  // ------------------------------------------------------------ round trips

  /** Printing then parsing keeps every cell of every row with content, whatever the line ending. */
  lemma ParsePrint(rows: seq<Row>, eol: Eol)
    ensures Parse(Print(rows, eol)) == DropBlank(rows)
  {
    ScanLines(rows, eol, "", []);
    assert Print(rows, eol) + "" == Print(rows, eol);
    assert [] + ShownAll(rows) == ShownAll(rows);
    DropBlankShown(rows);
  }

  /** The round trip is exact for precisely the tables in which every row has a non-empty cell. */
  lemma RoundTripExact(rows: seq<Row>, eol: Eol)
    ensures Parse(Print(rows, eol)) == rows <==> NoBlank(rows)
  {
    ParsePrint(rows, eol);
    DropBlankExact(rows);
  }

  /** The last line ending is optional. */
  lemma ParseWithoutFinalEol(rows: seq<Row>, last: Row, eol: Eol)
    ensures Parse(Print(rows, eol) + PrintRow(last)) == DropBlank(rows + [last])
  {
    hide Scan, Print, PrintRow, ShownAll, DropBlank, Flush;
    var cells, done := Shown(last), ShownAll(rows);
    var st := State(done, cells[..|cells| - 1], cells[|cells| - 1], false);
    ScanOpenRow(rows, last, eol);
    FlushOpenRow(done, cells);
    DropBlankConcat(rows, [last]);
    DropBlankShown(rows);
    OneShown(last);
  }

  /** After the last row its last cell is still open. */
  lemma ScanOpenRow(rows: seq<Row>, last: Row, eol: Eol)
    ensures var cells := Shown(last);
      Scan(Print(rows, eol) + PrintRow(last), START)
        == State(ShownAll(rows), cells[..|cells| - 1], cells[|cells| - 1], false)
  {
    var cells, done := Shown(last), ShownAll(rows);
    PrintedRowStart(last);
    ScanLines(rows, eol, PrintRow(last), []);
    assert [] + done == done;
    assert PrintRow(last) == PrintRow(cells) + "";
    ScanRow(cells, "", State(done, [], "", false));
    hide PrintRow, Print, ShownAll;
    assert [] + cells[..|cells| - 1] == cells[..|cells| - 1];
  }

  lemma FlushOpenRow(done: seq<Row>, cells: Row)
    requires cells != []
    ensures DropBlank(Flush(State(done, cells[..|cells| - 1], cells[|cells| - 1], false)))
      == DropBlank(done) + DropBlank([cells])
  {
    DropBlankConcat(done, [cells]);
    assert cells[..|cells| - 1] + [cells[|cells| - 1]] == cells;
    assert cells == [""] ==> DropBlank([cells]) == [];
  }

  lemma OneShown(row: Row)
    ensures DropBlank([Shown(row)]) == DropBlank([row])
  {
  }

  /** Parsing what was printed from a parse gives that parse back, for every text at all. */
  lemma ParsePrintParse(text: string, eol: Eol)
    ensures Parse(Print(Parse(text), eol)) == Parse(text)
  {
    DropBlankExact(Flush(Scan(text, START)));
    RoundTripExact(Parse(text), eol);
  }

  // -------------------------------------------------------- Bitwarden export

  datatype ExportKind = Login | Note
  datatype CustomField = CustomField(name: string, value: string)
  datatype ExportRow = ExportRow(
    folder: string, favorite: bool, kind: ExportKind, name: string, notes: string,
    loginUris: seq<string>, loginUsername: string, loginPassword: string, loginTotp: string,
    fields: seq<CustomField>, reprompt: bool)

  const BITWARDEN_HEADERS: Row := [
    "folder", "favorite", "type", "name", "notes", "fields", "reprompt",
    "login_uri", "login_username", "login_password", "login_totp"]

  function SerializeFields(fields: seq<CustomField>): string {
    Join(seq(|fields|, i requires 0 <= i < |fields| => fields[i].name + ": " + fields[i].value), "\n")
  }

  function Cells(row: ExportRow): Row {
    [row.folder,
     if row.favorite then "1" else "0",
     if row.kind.Login? then "login" else "note",
     row.name, row.notes, SerializeFields(row.fields),
     if row.reprompt then "1" else "0",
     Join(row.loginUris, "\n"), row.loginUsername, row.loginPassword, row.loginTotp]
  }

  function Table(rows: seq<ExportRow>): (table: seq<Row>)
    ensures |table| == |rows|
    ensures forall i :: 0 <= i < |rows| ==> table[i] == Cells(rows[i])
  {
    seq(|rows|, i requires 0 <= i < |rows| => Cells(rows[i]))
  }

  function Lines(rows: seq<Row>): (lines: seq<string>)
    ensures |lines| == |rows|
  {
    seq(|rows|, i requires 0 <= i < |rows| => PrintRow(rows[i]))
  }

  lemma {:induction false} JoinedLines(rows: seq<Row>)
    requires |rows| > 0
    ensures Join(Lines(rows), "\r\n") + "\r\n" == Print(rows, CRLF)
  {
    if |rows| == 1 {
      assert Print(rows[1..], CRLF) == "";
    } else {
      JoinedLines(rows[1..]);
      assert Lines(rows)[1..] == Lines(rows[1..]);
    }
  }

  lemma HeadersArePlain()
    ensures Join(BITWARDEN_HEADERS, ",") == PrintRow(BITWARDEN_HEADERS)
  {
    var printed := seq(|BITWARDEN_HEADERS|,
      i requires 0 <= i < |BITWARDEN_HEADERS| => EscapeCsvField(BITWARDEN_HEADERS[i]));
    forall i | 0 <= i < |BITWARDEN_HEADERS| ensures !NeedsQuotes(BITWARDEN_HEADERS[i]) {
    }
    assert printed == BITWARDEN_HEADERS;
  }

  lemma LinesStep(rows: seq<Row>, k: nat)
    requires k < |rows|
    ensures Lines(rows)[..k + 1] == Lines(rows)[..k] + [PrintRow(rows[k])]
  {
  }

  lemma ExportHasNoBlankRow(rows: seq<ExportRow>)
    ensures NoBlank([BITWARDEN_HEADERS] + Table(rows))
  {
    var table := [BITWARDEN_HEADERS] + Table(rows);
    forall i | 0 <= i < |table| ensures !Blank(table[i]) {
      assert table[i][1] != "";
    }
  }

  // ------------------------------------------------- what the columns hold

  /** Wherever row 0 has the name, and it has it somewhere, that row has the cell. */
  ghost predicate Under(table: seq<Row>, row: nat, name: string, cell: string)
    requires 0 < |table| && row < |table|
  {
    && name in table[0]
    && forall i :: 0 <= i < |table[0]| && table[0][i] == name ==> i < |table[row]| && table[row][i] == cell
  }

  /** An item, told by the names in the header row. */
  ghost predicate Tells(table: seq<Row>, row: nat, item: ExportRow)
    requires 0 < |table| && row < |table|
  {
    && Under(table, row, "folder", item.folder)
    && Under(table, row, "favorite", if item.favorite then "1" else "0")
    && Under(table, row, "type", if item.kind == Login then "login" else "note")
    && Under(table, row, "name", item.name)
    && Under(table, row, "notes", item.notes)
    && Under(table, row, "fields", SerializeFields(item.fields))
    && Under(table, row, "reprompt", if item.reprompt then "1" else "0")
    && Under(table, row, "login_uri", Join(item.loginUris, "\n"))
    && Under(table, row, "login_username", item.loginUsername)
    && Under(table, row, "login_password", item.loginPassword)
    && Under(table, row, "login_totp", item.loginTotp)
  }

  ghost predicate Distinct(names: Row) {
    forall i, j :: 0 <= i < j < |names| ==> names[i] != names[j]
  }

  lemma HeadersDiffer()
    ensures Distinct(BITWARDEN_HEADERS)
  {
    var h := BITWARDEN_HEADERS;
    assert h[0][1] != h[5][1] && h[1][0] != h[6][0] && h[2][0] != h[3][0] && h[8][6] != h[9][6];
    assert |h[0]| == 6 && |h[1]| == 8 && |h[2]| == 4 && |h[3]| == 4 && |h[4]| == 5 && |h[5]| == 6 && |h[6]| == 8;
    assert |h[7]| == 9 && |h[8]| == 14 && |h[9]| == 14 && |h[10]| == 10;
  }

  lemma UnderAt(table: seq<Row>, row: nat, i: nat)
    requires 0 < |table| && row < |table| && i < |table[0]| && i < |table[row]| && Distinct(table[0])
    ensures Under(table, row, table[0][i], table[row][i])
  {
  }

  lemma ElevenUnder(table: seq<Row>, row: nat)
    requires 0 < |table| && row < |table| && |table[0]| == |table[row]| == 11 && Distinct(table[0])
    ensures forall i :: 0 <= i < 11 ==> Under(table, row, table[0][i], table[row][i])
  {
    hide *;
    forall i: nat | i < 11 ensures Under(table, row, table[0][i], table[row][i]) {
      UnderAt(table, row, i);
    }
  }

  lemma ColumnsTell(rows: seq<ExportRow>, k: nat)
    requires k < |rows|
    ensures Tells([BITWARDEN_HEADERS] + Table(rows), k + 1, rows[k])
  {
    HeadersDiffer();
    var table := [BITWARDEN_HEADERS] + Table(rows);
    assert table[0] == BITWARDEN_HEADERS && table[k + 1] == Cells(rows[k]);
    hide SerializeFields, Join, Under, Distinct, Table;
    ElevenUnder(table, k + 1);
    CellsUnder(table, k + 1, rows[k]);
  }

  lemma CellsUnder(table: seq<Row>, row: nat, item: ExportRow)
    requires 0 < |table| && row < |table| && table[0] == BITWARDEN_HEADERS && table[row] == Cells(item)
    requires forall i :: 0 <= i < 11 ==> Under(table, row, BITWARDEN_HEADERS[i], Cells(item)[i])
    ensures Tells(table, row, item)
  {
    hide SerializeFields, Join, Under;
    var h, c := BITWARDEN_HEADERS, Cells(item);
    assert Under(table, row, h[0], c[0]);
    assert Under(table, row, h[1], c[1]);
    assert Under(table, row, h[2], c[2]);
    assert Under(table, row, h[3], c[3]);
    assert Under(table, row, h[4], c[4]);
    assert Under(table, row, h[5], c[5]);
    assert Under(table, row, h[6], c[6]);
    assert Under(table, row, h[7], c[7]);
    assert Under(table, row, h[8], c[8]);
    assert Under(table, row, h[9], c[9]);
    assert Under(table, row, h[10], c[10]);
  }

  // --------------------------------------- lists folded into one cell

  /** The addresses a reader finds in a cell: one a line, and none in an empty cell. */
  function AddressesIn(cell: string): seq<string> {
    if cell == "" then [] else Split(cell, '\n')
  }

  lemma JoinedEmpty(parts: seq<string>)
    ensures Join(parts, "\n") == "" <==> parts == [] || parts == [""]
  {
  }

  /** The addresses come back exactly where none has a line feed in it and there is not just an empty one. */
  lemma AddressesBack(uris: seq<string>)
    ensures AddressesIn(Join(uris, "\n")) == uris
      <==> uris != [""] && forall i :: 0 <= i < |uris| ==> '\n' !in uris[i]
  {
    hide Join, Split;
    JoinedEmpty(uris);
    if uris != [] && forall i :: 0 <= i < |uris| ==> '\n' !in uris[i] {
      SplitJoin(uris, '\n');
    }
  }

  predicate ColonAt(line: string, i: nat) {
    i + 1 < |line| && line[i] == ':' && line[i + 1] == ' '
  }

  /** Where a line is cut in two: the first colon with a space after it. */
  function Cut(line: string): (p: nat)
    ensures p <= |line| && (p < |line| ==> ColonAt(line, p))
    ensures forall i :: 0 <= i < p ==> !ColonAt(line, i)
  {
    if line == "" || ColonAt(line, 0) then 0
    else
      assert forall i :: 0 < i ==> (ColonAt(line, i) <==> ColonAt(line[1..], i - 1));
      1 + Cut(line[1..])
  }

  function FieldIn(line: string): CustomField {
    var p := Cut(line);
    CustomField(line[..p], if p + 2 <= |line| then line[p + 2..] else "")
  }

  /** The custom fields a reader finds in a cell: one a line, a name and a value; none in an empty cell. */
  function FieldsIn(cell: string): (fields: seq<CustomField>) {
    var lines := Split(cell, '\n');
    if cell == "" then [] else seq(|lines|, i requires 0 <= i < |lines| => FieldIn(lines[i]))
  }

  ghost predicate NoColon(name: string) {
    forall i: nat :: !ColonAt(name, i)
  }

  lemma FieldBack(f: CustomField)
    ensures FieldIn(f.name + ": " + f.value) == f <==> NoColon(f.name)
  {
    var line := f.name + ": " + f.value;
    assert ColonAt(line, |f.name|);
    assert forall i: nat :: i < |f.name| ==> (ColonAt(line, i) <==> ColonAt(f.name, i));
    var p := Cut(line);
    if NoColon(f.name) {
      assert p == |f.name|;
      assert line[..p] == f.name && line[p + 2..] == f.value;
    } else {
      var i: nat :| ColonAt(f.name, i);
      assert ColonAt(line, i);
    }
  }

  predicate OneLine(f: CustomField) {
    '\n' !in f.name && '\n' !in f.value
  }

  function FieldLines(fields: seq<CustomField>): (lines: seq<string>)
    ensures |lines| == |fields|
    ensures forall i :: 0 <= i < |fields| ==> lines[i] == fields[i].name + ": " + fields[i].value
  {
    seq(|fields|, i requires 0 <= i < |fields| => fields[i].name + ": " + fields[i].value)
  }

  lemma FieldLinesBack(fields: seq<CustomField>)
    requires fields != [] && forall i :: 0 <= i < |fields| ==> OneLine(fields[i])
    ensures SerializeFields(fields) != "" && Split(SerializeFields(fields), '\n') == FieldLines(fields)
  {
    var lines := FieldLines(fields);
    assert SerializeFields(fields) == Join(lines, "\n");
    hide SerializeFields, Join, Split;
    SplitJoin(lines, '\n');
    JoinedEmpty(lines);
    assert |lines[0]| >= 2;
  }

  lemma FieldInOneLine(line: string)
    requires '\n' !in line
    ensures OneLine(FieldIn(line))
  {
  }

  lemma FoundInOneLine(cell: string)
    ensures forall i :: 0 <= i < |FieldsIn(cell)| ==> OneLine(FieldsIn(cell)[i])
  {
    var lines := Split(cell, '\n');
    hide Split, FieldIn, OneLine;
    forall i | 0 <= i < |FieldsIn(cell)| ensures OneLine(FieldsIn(cell)[i]) {
      FieldInOneLine(lines[i]);
    }
  }

  /** The custom fields come back exactly where none has a line feed in it, nor a colon and a space in its name. */
  lemma FieldsBack(fields: seq<CustomField>)
    ensures FieldsIn(SerializeFields(fields)) == fields
      <==> forall i :: 0 <= i < |fields| ==> OneLine(fields[i]) && NoColon(fields[i].name)
  {
    FoundInOneLine(SerializeFields(fields));
    if fields == [] {
      assert SerializeFields(fields) == "";
    } else if forall i :: 0 <= i < |fields| ==> OneLine(fields[i]) {
      FieldLinesBack(fields);
      FieldListsBack(fields);
    }
  }

  lemma FieldListsBack(fields: seq<CustomField>)
    ensures var lines := FieldLines(fields);
      seq(|lines|, i requires 0 <= i < |lines| => FieldIn(lines[i])) == fields
      <==> forall i :: 0 <= i < |fields| ==> NoColon(fields[i].name)
  {
    var lines := FieldLines(fields);
    var found := seq(|lines|, i requires 0 <= i < |lines| => FieldIn(lines[i]));
    forall i | 0 <= i < |fields| ensures found[i] == fields[i] <==> NoColon(fields[i].name) {
      FieldBack(fields[i]);
    }
    hide FieldIn, NoColon;
    if found == fields {
      assert forall i :: 0 <= i < |fields| ==> found[i] == fields[i];
    }
  }

  /** What the app exports, its own parser reads back: the header row and every cell of every item, under its name. */
  method SerializeBitwardenCsv(rows: seq<ExportRow>) returns (text: string)
    ensures text == Print([BITWARDEN_HEADERS] + Table(rows), CRLF)
    ensures Parse(text) == [BITWARDEN_HEADERS] + Table(rows)
    ensures forall k :: 0 <= k < |rows| ==> Tells(Parse(text), k + 1, rows[k])
  {
    HeadersArePlain();
    ExportHasNoBlankRow(rows);
    hide Tells, Cells, PrintRow, Join, Parse, Print, NoBlank, BITWARDEN_HEADERS;
    var lines := [Join(BITWARDEN_HEADERS, ",")];
    ghost var table := [BITWARDEN_HEADERS] + Table(rows);
    for k := 0 to |rows|
      invariant lines == Lines(table)[..k + 1]
    {
      LinesStep(table, k + 1);
      lines := lines + [PrintRow(Cells(rows[k]))];
    }
    assert lines == Lines(table);
    JoinedLines(table);
    text := Join(lines, "\r\n") + "\r\n";
    RoundTripExact(table, CRLF);
    forall k | 0 <= k < |rows| ensures Tells(table, k + 1, rows[k]) {
      ColumnsTell(rows, k);
    }
  }
}
