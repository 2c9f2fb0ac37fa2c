/** Reading a KeePassXC export: `parseKeepassCsv` of src/lib/csv.ts. */
module Keepass {
  import opened Csv
  import opened Text

  datatype Entry = Entry(
    group: string, title: string, username: string, password: string, url: string, notes: string, totp: string)

  datatype Import = Entries(entries: seq<Entry>) | NoTitle

  /** `trim().toLowerCase()`; the second half is the host's. */
  type Lower = string -> string

  function Normalized(header: Row, lower: Lower): (h: Row)
    ensures |h| == |header|
    ensures forall i :: 0 <= i < |header| ==> h[i] == lower(Trim(header[i], JsSpaces))
  {
    seq(|header|, i requires 0 <= i < |header| => lower(Trim(header[i], JsSpaces)))
  }

  /** `indexOf`: the first position, or -1. */
  function IndexOf(header: Row, name: string): (i: int)
    ensures -1 <= i < |header|
    ensures i >= 0 ==> header[i] == name && name !in header[..i]
    ensures i < 0 <==> name !in header
  {
    if header == [] then -1
    else if header[0] == name then 0
    else
      var rest := IndexOf(header[1..], name);
      assert rest >= 0 ==> header[..rest + 1] == [header[0]] + header[1..][..rest];
      if rest < 0 then -1 else rest + 1
  }

  /** A column the header does not have, or the row does not reach, reads as empty. */
  function Pick(row: Row, i: int): string {
    if 0 <= i < |row| then row[i] else ""
  }

  function Cell(header: Row, row: Row, name: string): string {
    Pick(row, IndexOf(header, name))
  }

  function ReadRow(header: Row, row: Row): Entry {
    Entry(
      Trim(Cell(header, row, "group"), JsSpaces), Trim(Cell(header, row, "title"), JsSpaces),
      Cell(header, row, "username"), Cell(header, row, "password"), Trim(Cell(header, row, "url"), JsSpaces),
      Cell(header, row, "notes"), Trim(Cell(header, row, "totp"), JsSpaces))
  }

  function ReadRows(header: Row, rows: seq<Row>): (entries: seq<Entry>)
    ensures |entries| == |rows|
    ensures forall i :: 0 <= i < |rows| ==> entries[i] == ReadRow(header, rows[i])
  {
    seq(|rows|, i requires 0 <= i < |rows| => ReadRow(header, rows[i]))
  }

  /** `parseKeepassCsv`. */
  function ParseKeepass(text: string, lower: Lower): Import {
    var rows := Parse(text);
    if |rows| < 2 then Entries([])
    else
      var header := Normalized(rows[0], lower);
      if IndexOf(header, "title") < 0 then NoTitle else Entries(ReadRows(header, rows[1..]))
  }

  /** Passwords, user names and notes keep their white space; the rest is trimmed. */
  function Trimmed(e: Entry): Entry {
    Entry(Trim(e.group, JsSpaces), Trim(e.title, JsSpaces), e.username, e.password, Trim(e.url, JsSpaces), e.notes,
      Trim(e.totp, JsSpaces))
  }

  function AllTrimmed(entries: seq<Entry>): (r: seq<Entry>)
    ensures |r| == |entries|
    ensures forall i :: 0 <= i < |entries| ==> r[i] == Trimmed(entries[i])
  {
    seq(|entries|, i requires 0 <= i < |entries| => Trimmed(entries[i]))
  }

  /** The first column of that name has the value; no such column, or a row too short for it, stands for nothing. */
  ghost predicate Has(header: Row, row: Row, name: string, value: string) {
    && (name !in header ==> value == "")
    && forall i :: 0 <= i < |header| && header[i] == name && name !in header[..i] ==>
         value == if i < |row| then row[i] else ""
  }

  /** The row holds the entry, in whatever order the header lists the columns; other columns hold anything. */
  ghost predicate Holds(header: Row, row: Row, e: Entry) {
    && Has(header, row, "group", e.group) && Has(header, row, "title", e.title)
    && Has(header, row, "username", e.username) && Has(header, row, "password", e.password)
    && Has(header, row, "url", e.url) && Has(header, row, "notes", e.notes) && Has(header, row, "totp", e.totp)
  }

  lemma HadIsCell(header: Row, row: Row, name: string, value: string)
    requires Has(header, row, name, value)
    ensures Cell(header, row, name) == value
  {
  }

  lemma HeldIsRead(header: Row, row: Row, e: Entry)
    requires Holds(header, row, e)
    ensures ReadRow(header, row) == Trimmed(e)
  {
    hide Has, Cell;
    HadIsCell(header, row, "group", e.group);
    HadIsCell(header, row, "title", e.title);
    HadIsCell(header, row, "username", e.username);
    HadIsCell(header, row, "password", e.password);
    HadIsCell(header, row, "url", e.url);
    HadIsCell(header, row, "notes", e.notes);
    HadIsCell(header, row, "totp", e.totp);
  }

  ghost predicate AllHold(header: Row, rows: seq<Row>, entries: seq<Entry>) {
    |entries| == |rows| && forall i :: 0 <= i < |rows| ==> Holds(header, rows[i], entries[i])
  }

  lemma {:induction false} AllHeldAreRead(header: Row, rows: seq<Row>, entries: seq<Entry>)
    requires AllHold(header, rows, entries)
    ensures ReadRows(header, rows) == AllTrimmed(entries)
  {
    forall i | 0 <= i < |rows| ensures ReadRow(header, rows[i]) == Trimmed(entries[i]) {
      HeldIsRead(header, rows[i], entries[i]);
    }
  }

  lemma {:induction false} ParsedTable(text: string, header: Row, rows: seq<Row>, lower: Lower)
    requires Parse(text) == [header] + rows && |rows| > 0
    ensures var h := Normalized(header, lower);
      ParseKeepass(text, lower) == if "title" in h then Entries(ReadRows(h, rows)) else NoTitle
  {
    hide Parse, Normalized;
    assert ([header] + rows)[1..] == rows;
  }

  /**
   * The header decides: entries written under any arrangement of columns, in any spelling that normalises to the known
   * names and with any cell content, are read back; without a title column the import is refused.
   */
  lemma {:induction false} KeepassReads(header: Row, rows: seq<Row>, entries: seq<Entry>, lower: Lower, eol: Eol)
    requires NoBlank([header] + rows) && |rows| > 0 && AllHold(Normalized(header, lower), rows, entries)
    ensures ParseKeepass(Print([header] + rows, eol), lower)
      == if "title" in Normalized(header, lower) then Entries(AllTrimmed(entries)) else NoTitle
  {
    hide *;
    RoundTripExact([header] + rows, eol);
    ParsedTable(Print([header] + rows, eol), header, rows, lower);
    AllHeldAreRead(Normalized(header, lower), rows, entries);
  }
}
