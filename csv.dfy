/**
 * The CSV export of the reports page (`exportCSV`): a header line and one
 * line per report entry, fields joined by commas and lines by newlines.
 *
 * As written, fields are joined without quoting, so a field that contains a
 * comma (a description such as "Call, follow-up", or a date such as
 * "Jan 5, 2024" as `toLocaleDateString` renders it in the en-US locale)
 * spreads over two columns. The corrected export quotes every field as
 * section 2 of RFC 4180 describes, and `ParseDocument` reads it back exactly.
 */
module Csv {
  import opened Wrappers
  import opened Numerals
  import opened Text
  import opened Records

  /** The locale-dependent renderings the export uses: `formatDate` and `toLocaleTimeString` with hours and minutes. */
  datatype Formats = Formats(date: int -> string, clock: int -> string)

  const Header: seq<string> :=
    ["Date", "Client", "Project", "Description", "Start Time", "End Time", "Duration (min)", "Billable"]

  /**
   * The eight fields of one entry's row, column by column under `Header`: the
   * formatted start date, the client's name, the project, the description, the
   * formatted start and end clocks, the duration's numeral and "Yes" exactly
   * for a billable entry ("No" otherwise).
   */
  function Row(e: TimeEntry, clients: seq<Client>, fmt: Formats): (row: seq<string>)
    ensures |row| == |Header|
    ensures row[0] == fmt.date(e.startTime)
    ensures row[1] == ClientName(clients, e.clientId)
    ensures row[2] == e.project && row[3] == e.description
    ensures row[4] == fmt.clock(e.startTime) && row[5] == fmt.clock(e.endTime)
    ensures row[6] == IntToString(e.duration)
    ensures row[7] == "Yes" <==> e.billable
    ensures row[7] == "No" <==> !e.billable
  {
    assert "Yes"[0] != "No"[0];
    [fmt.date(e.startTime),
     ClientName(clients, e.clientId),
     e.project,
     e.description,
     fmt.clock(e.startTime),
     fmt.clock(e.endTime),
     IntToString(e.duration),
     if e.billable then "Yes" else "No"]
  }

  function Rows(entries: seq<TimeEntry>, clients: seq<Client>, fmt: Formats): (rows: seq<seq<string>>)
    ensures |rows| == |entries|
    ensures forall i :: 0 <= i < |entries| ==> rows[i] == Row(entries[i], clients, fmt)
  {
    seq(|entries|, i requires 0 <= i < |entries| => Row(entries[i], clients, fmt))
  }

  // ---------------------------------------------------------------- as written

  /** `row.join(',')` for the header and every row. */
  function PlainLines(records: seq<seq<string>>): (lines: seq<string>)
    ensures |lines| == |records|
    ensures forall i :: 0 <= i < |records| ==> lines[i] == Join(records[i], ',')
  {
    seq(|records|, i requires 0 <= i < |records| => Join(records[i], ','))
  }

  /** `exportCSV` as written: nothing (the "No data to export" alert) for an empty report, else the joined lines. */
  function ExportAsWritten(entries: seq<TimeEntry>, clients: seq<Client>, fmt: Formats): (csv: Option<string>)
    ensures csv.None? <==> entries == []
  {
    if |entries| == 0 then None
    else Some(Join(PlainLines([Header] + Rows(entries, clients, fmt)), '\n'))
  }

  /** A string with no comma and no newline: a field the plain export keeps in one column. */
  predicate PlainField(s: string) {
    ',' !in s && '\n' !in s
  }

  lemma CountSumZero(parts: seq<string>, c: char)
    requires forall i :: 0 <= i < |parts| ==> c !in parts[i]
    ensures SumCount(parts, c) == 0
  {
    if parts != [] {
      CountZero(parts[0], c);
      CountSumZero(parts[1..], c);
    }
  }

  lemma JoinKeepsOut(parts: seq<string>, sep: char, c: char)
    requires sep != c && forall i :: 0 <= i < |parts| ==> c !in parts[i]
    ensures c !in Join(parts, sep)
  {
    if |parts| > 1 {
      JoinKeepsOut(parts[1..], sep, c);
    }
  }

  /** Records of plain fields read back from their plain lines. */
  lemma PlainReadsBack(records: seq<seq<string>>)
    requires |records| >= 1
    requires forall i :: 0 <= i < |records| ==> |records[i]| >= 1
    requires forall i, j :: 0 <= i < |records| && 0 <= j < |records[i]| ==> PlainField(records[i][j])
    ensures var lines := Split(Join(PlainLines(records), '\n'), '\n');
      |lines| == |records| && forall i :: 0 <= i < |records| ==> Split(lines[i], ',') == records[i]
  {
    var lines := PlainLines(records);
    forall i | 0 <= i < |records| ensures '\n' !in lines[i] && Split(lines[i], ',') == records[i] {
      JoinKeepsOut(records[i], ',', '\n');
      SplitJoin(records[i], ',');
    }
    SplitJoin(lines, '\n');
  }

  lemma HeaderPlain()
    ensures forall j :: 0 <= j < |Header| ==> PlainField(Header[j])
  {
  }

  /**
   * When no field contains a comma or a newline, the plain export reads back:
   * it splits into the header line and one line per entry, and each line into
   * its eight fields.
   */
  lemma ExportAsWrittenReadsBack(entries: seq<TimeEntry>, clients: seq<Client>, fmt: Formats)
    requires entries != []
    requires forall i, j :: 0 <= i < |entries| && 0 <= j < |Header| ==> PlainField(Row(entries[i], clients, fmt)[j])
    ensures var lines := Split(ExportAsWritten(entries, clients, fmt).value, '\n');
      |lines| == 1 + |entries| &&
      Split(lines[0], ',') == Header &&
      forall i :: 0 <= i < |entries| ==> Split(lines[i + 1], ',') == Row(entries[i], clients, fmt)
  {
    var records := [Header] + Rows(entries, clients, fmt);
    HeaderPlain();
    assert forall i :: 0 < i < |records| ==> records[i] == Row(entries[i - 1], clients, fmt);
    PlainReadsBack(records);
  }

  /** When only part `k` may contain `c`, the parts hold exactly its occurrences of `c`. */
  lemma {:induction false} SumCountOne(parts: seq<string>, c: char, k: int)
    requires 0 <= k < |parts|
    requires forall j :: 0 <= j < |parts| && j != k ==> c !in parts[j]
    ensures SumCount(parts, c) == Count(parts[k], c)
  {
    if k == 0 {
      CountSumZero(parts[1..], c);
    } else {
      CountZero(parts[0], c);
      SumCountOne(parts[1..], c, k - 1);
    }
  }

  /**
   * The discrepancy: every comma inside a field adds a column, so a row whose
   * description holds one comma splits into nine pieces under an eight-column header.
   */
  lemma CommaShiftsColumns(e: TimeEntry, clients: seq<Client>, fmt: Formats)
    requires forall j :: 0 <= j < |Header| && j != 3 ==> ',' !in Row(e, clients, fmt)[j]
    ensures |Split(Join(Row(e, clients, fmt), ','), ',')| == |Header| + Count(e.description, ',')
  {
    var row := Row(e, clients, fmt);
    CountJoin(row, ',');
    SumCountOne(row, ',', 3);
  }

  /** The entry of the concrete counterexample: a description with one comma. */
  function ExampleEntry(): TimeEntry {
    TimeEntry(None, "c", "p", "a,b", 0, 60000, 1, true)
  }

  function ExampleFormats(): Formats {
    Formats(t => "d", t => "t")
  }

  lemma ExampleRow()
    ensures Row(ExampleEntry(), [], ExampleFormats()) == ["d", UnknownClient, "p", "a,b", "t", "t", "1", "Yes"]
  {
    assert NatToString(1) == [DigitChar(1)];
  }

  lemma ExampleCommas()
    ensures Count("a,b", ',') == 1
  {
    assert "a,b"[1..] == ",b" && ",b"[1..] == "b" && "b"[1..] == "";
  }

  /** A concrete row: with no stored clients, the description "a,b" yields nine columns. */
  lemma CommaShiftsColumnsExample()
    ensures |Split(Join(Row(ExampleEntry(), [], ExampleFormats()), ','), ',')| == 9
  {
    ExampleRow();
    ExampleCommas();
    ExampleOtherFields(Row(ExampleEntry(), [], ExampleFormats()));
    CommaShiftsColumns(ExampleEntry(), [], ExampleFormats());
  }

  /** Only the description of the example row holds a comma. */
  lemma ExampleOtherFields(row: seq<string>)
    requires row == ["d", UnknownClient, "p", "a,b", "t", "t", "1", "Yes"]
    ensures forall j :: 0 <= j < |Header| && j != 3 ==> ',' !in row[j]
  {
    assert ',' !in UnknownClient && ',' !in "Yes";
  }

  // ----------------------------------------------------------------- corrected

  /** Doubles every double quote inside a field. */
  function Escape(f: string): (r: string)
    ensures |r| >= |f|
  {
    if f == [] then [] else (if f[0] == '"' then "\"\"" else [f[0]]) + Escape(f[1..])
  }

  /** A field enclosed in double quotes, as section 2 of RFC 4180 describes. */
  function Quote(f: string): string {
    "\"" + Escape(f) + "\""
  }

  function QuotedLine(fields: seq<string>): string {
    Join(seq(|fields|, i requires 0 <= i < |fields| => Quote(fields[i])), ',')
  }

  function QuotedLines(records: seq<seq<string>>): (lines: seq<string>)
    ensures |lines| == |records|
  {
    seq(|records|, i requires 0 <= i < |records| => QuotedLine(records[i]))
  }

  function QuotedDocument(records: seq<seq<string>>): string {
    Join(QuotedLines(records), '\n')
  }

  /** The corrected `exportCSV`: every field quoted. */
  function ExportQuoted(entries: seq<TimeEntry>, clients: seq<Client>, fmt: Formats): (csv: Option<string>)
    ensures csv.None? <==> entries == []
  {
    if |entries| == 0 then None else Some(QuotedDocument([Header] + Rows(entries, clients, fmt)))
  }

  /** A field's contents and what follows its closing quote. */
  datatype Parsed = Parsed(field: string, rest: string)

  /** Reads a quoted field's contents, starting just after its opening quote. */
  function ParseBody(s: string): (r: Option<Parsed>)
    ensures r.Some? ==> |r.value.rest| < |s|
  {
    if s == [] then None
    else if s[0] == '"' then
      if |s| >= 2 && s[1] == '"' then
        match ParseBody(s[2..])
        case None => None
        case Some(p) => Some(Parsed("\"" + p.field, p.rest))
      else Some(Parsed("", s[1..]))
    else
      match ParseBody(s[1..])
      case None => None
      case Some(p) => Some(Parsed([s[0]] + p.field, p.rest))
  }

  /** The fields of one record, what follows it, and whether a newline ended it. */
  datatype Fields = Fields(fields: seq<string>, rest: string, more: bool)

  /** Reads one record of quoted fields separated by commas. */
  function ParseFields(s: string): (r: Option<Fields>)
    ensures r.Some? ==> |r.value.rest| < |s|
    decreases |s|
  {
    if s == [] || s[0] != '"' then None
    else
      match ParseBody(s[1..])
      case None => None
      case Some(p) =>
        if p.rest == [] then Some(Fields([p.field], [], false))
        else if p.rest[0] == ',' then
          match ParseFields(p.rest[1..])
          case None => None
          case Some(fs) => Some(Fields([p.field] + fs.fields, fs.rest, fs.more))
        else if p.rest[0] == '\n' then Some(Fields([p.field], p.rest[1..], true))
        else None
  }

  /** Reads a document of records separated by newlines. */
  function ParseDocument(s: string): Option<seq<seq<string>>>
    decreases |s|
  {
    match ParseFields(s)
    case None => None
    case Some(fs) =>
      if !fs.more then Some([fs.fields])
      else
        match ParseDocument(fs.rest)
        case None => None
        case Some(rs) => Some([fs.fields] + rs)
  }

  lemma {:induction false} BodyRoundTrip(f: string, rest: string)
    requires rest == [] || rest[0] != '"'
    ensures ParseBody(Escape(f) + "\"" + rest) == Some(Parsed(f, rest))
  {
    var s := Escape(f) + "\"" + rest;
    if f == [] {
      assert s == "\"" + rest;
      assert s[1..] == rest;
    } else {
      var tail := Escape(f[1..]) + "\"" + rest;
      BodyRoundTrip(f[1..], rest);
      EscapeStep(f, rest, s, tail);
      BodyStep(f, s, tail, rest);
    }
  }

  lemma EscapeStep(f: string, rest: string, s: string, tail: string)
    requires f != [] && s == Escape(f) + "\"" + rest && tail == Escape(f[1..]) + "\"" + rest
    ensures s == (if f[0] == '"' then "\"\"" else [f[0]]) + tail
  {
  }

  /** One character of the escaped field, read back. */
  lemma BodyStep(f: string, s: string, tail: string, rest: string)
    requires f != [] && s == (if f[0] == '"' then "\"\"" else [f[0]]) + tail
    requires ParseBody(tail) == Some(Parsed(f[1..], rest))
    ensures ParseBody(s) == Some(Parsed(f, rest))
  {
    if f[0] == '"' {
      assert s[2..] == tail;
      assert "\"" + f[1..] == f;
    } else {
      assert s[1..] == tail;
      assert [f[0]] + f[1..] == f;
    }
  }

  /** A quoted field followed by anything but a quote is read back as that field. */
  lemma QuotedFieldThen(f: string, after: string)
    requires after == [] || after[0] != '"'
    ensures var s := Quote(f) + after;
      s != [] && s[0] == '"' && ParseBody(s[1..]) == Some(Parsed(f, after))
  {
    var s := Quote(f) + after;
    assert s[1..] == Escape(f) + "\"" + after;
    BodyRoundTrip(f, after);
  }

  /** The last field of a record. */
  lemma LastFieldRoundTrip(f: string, tail: string)
    requires tail == [] || tail[0] == '\n'
    ensures ParseFields(Quote(f) + tail) == Some(Fields([f], if tail == [] then [] else tail[1..], tail != []))
  {
    QuotedFieldThen(f, tail);
  }

  /** A field followed by a comma and the rest of the record. */
  lemma NextFieldRoundTrip(f: string, more: string)
    ensures ParseFields(Quote(f) + ([','] + more)) ==
      match ParseFields(more)
      case None => None
      case Some(fs) => Some(Fields([f] + fs.fields, fs.rest, fs.more))
  {
    QuotedFieldThen(f, [','] + more);
    assert ([','] + more)[1..] == more;
  }

  lemma {:induction false} LineRoundTrip(fields: seq<string>, tail: string)
    requires |fields| >= 1
    requires tail == [] || tail[0] == '\n'
    ensures ParseFields(QuotedLine(fields) + tail) ==
      Some(Fields(fields, if tail == [] then [] else tail[1..], tail != []))
  {
    var qs := seq(|fields|, i requires 0 <= i < |fields| => Quote(fields[i]));
    var f := fields[0];
    if |fields| == 1 {
      assert QuotedLine(fields) == Quote(f);
      LastFieldRoundTrip(f, tail);
      assert [f] == fields;
    } else {
      var more := QuotedLine(fields[1..]);
      assert qs[1..] == seq(|fields[1..]|, i requires 0 <= i < |fields[1..]| => Quote(fields[1..][i]));
      assert QuotedLine(fields) + tail == Quote(f) + ([','] + (more + tail));
      NextFieldRoundTrip(f, more + tail);
      LineRoundTrip(fields[1..], tail);
      assert [f] + fields[1..] == fields;
    }
  }

  /** Reading the quoted document gives back exactly the records, whatever their fields contain. */
  lemma {:induction false} DocumentRoundTrip(records: seq<seq<string>>)
    requires |records| >= 1
    requires forall i :: 0 <= i < |records| ==> |records[i]| >= 1
    ensures ParseDocument(QuotedDocument(records)) == Some(records)
  {
    var lines := QuotedLines(records);
    if |records| == 1 {
      LineRoundTrip(records[0], []);
      assert QuotedDocument(records) == QuotedLine(records[0]);
      assert QuotedLine(records[0]) + [] == QuotedLine(records[0]);
      assert [records[0]] == records;
    } else {
      assert lines[1..] == QuotedLines(records[1..]);
      var rest := QuotedDocument(records[1..]);
      assert QuotedDocument(records) == QuotedLine(records[0]) + (['\n'] + rest);
      LineRoundTrip(records[0], ['\n'] + rest);
      assert (['\n'] + rest)[1..] == rest;
      DocumentRoundTrip(records[1..]);
      assert [records[0]] + records[1..] == records;
    }
  }

  /** The corrected export reads back as the header and one row of eight fields per entry. */
  lemma ExportQuotedReadsBack(entries: seq<TimeEntry>, clients: seq<Client>, fmt: Formats)
    requires entries != []
    ensures ParseDocument(ExportQuoted(entries, clients, fmt).value) == Some([Header] + Rows(entries, clients, fmt))
  {
    DocumentRoundTrip([Header] + Rows(entries, clients, fmt));
  }
}
