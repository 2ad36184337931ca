/**
  * The report CSV writer, and a reader for the file format of RFC 4180 section 2. The reader
  * is written from the RFC, not from the writer; reading back what the writer produced gives
  * the table with the formula guard applied, under an exact condition on its last record.
  */
module Csv {
  import opened Results

  const CRLF := "\r\n"

  // ---- The writer ----

  /** A cell value: null and undefined print as nothing, numbers as their decimal text. */
  type Cell = Option<string>

  datatype Column<!T> = Column(header: string, value: T -> Cell)

  predicate IsFormulaLead(ch: char) {
    ch == '=' || ch == '+' || ch == '-' || ch == '@' || ch == '\t' || ch == '\r'
  }

  predicate IsSpecial(ch: char) {
    ch == '"' || ch == ',' || ch == '\r' || ch == '\n'
  }

  /** The formula guard: a leading apostrophe. */
  function Guard(s: string): string {
    if s != "" && IsFormulaLead(s[0]) then "'" + s else s
  }

  function Text(c: Cell): string {
    match c
    case None => ""
    case Some(s) => s
  }

  function DoubleQuotes(s: string): string {
    if s == "" then "" else (if s[0] == '"' then "\"\"" else [s[0]]) + DoubleQuotes(s[1..])
  }

  function EscapeCell(c: Cell): string {
    var s := Guard(Text(c));
    if exists ch <- s :: IsSpecial(ch) then "\"" + DoubleQuotes(s) + "\"" else s
  }

  function Join(parts: seq<string>, sep: string): string {
    if parts == [] then ""
    else if |parts| == 1 then parts[0]
    else parts[0] + sep + Join(parts[1..], sep)
  }

  function Map<A, B>(f: A -> B, xs: seq<A>): (ys: seq<B>)
    ensures |ys| == |xs| && forall i | 0 <= i < |xs| :: ys[i] == f(xs[i])
  {
    seq(|xs|, i requires 0 <= i < |xs| => f(xs[i]))
  }

  function CsvRow(cells: seq<Cell>): string {
    Join(Map(EscapeCell, cells), ",")
  }

  function ToCsv<T>(columns: seq<Column<T>>, rows: seq<T>): string {
    var header := CsvRow(Map((c: Column<T>) => Some(c.header), columns));
    if rows == [] then header
    else header + CRLF + Join(Map((row: T) => CsvRow(Map((c: Column<T>) => c.value(row), columns)), rows), CRLF)
  }

  // ---- A reader for RFC 4180 section 2 ----

  datatype Parsed<+T> = Fail | Got(value: T, rest: string)

  /** The inside of a quoted field, up to its closing quote; a doubled quote is one quote. */
  function ParseQuoted(s: string): (p: Parsed<string>)
    ensures p.Got? ==> |p.rest| < |s|
  {
    if s == "" then Fail
    else if s[0] == '"' && (|s| == 1 || s[1] != '"') then Got("", s[1..])
    else
      var skip := if s[0] == '"' then 2 else 1;
      match ParseQuoted(s[skip..])
      case Fail => Fail
      case Got(v, rest) => Got([s[0]] + v, rest)
  }

  /** The characters an unquoted field may hold: no quote, comma, CR or LF. */
  predicate IsTextData(ch: char) {
    ch !in ['"', ',', '\r', '\n']
  }

  function ParsePlain(s: string): (p: Parsed<string>)
    ensures p.Got? && |p.rest| <= |s|
  {
    if s == "" || !IsTextData(s[0]) then Got("", s)
    else
      var p := ParsePlain(s[1..]);
      Got([s[0]] + p.value, p.rest)
  }

  function ParseField(s: string): (p: Parsed<string>)
    ensures p.Got? ==> |p.rest| <= |s|
  {
    if s != "" && s[0] == '"' then ParseQuoted(s[1..]) else ParsePlain(s)
  }

  function ParseRecord(s: string): (p: Parsed<seq<string>>)
    ensures p.Got? ==> |p.rest| <= |s| && p.value != []
    decreases |s|
  {
    match ParseField(s)
    case Fail => Fail
    case Got(v, rest) =>
      if rest != "" && rest[0] == ',' then
        match ParseRecord(rest[1..])
        case Fail => Fail
        case Got(vs, rest') => Got([v] + vs, rest')
      else Got([v], rest)
  }

  /** Records separated by CRLF; the line break after the last record is optional. */
  function ReadFile(s: string): Option<seq<seq<string>>>
    decreases |s|
  {
    match ParseRecord(s)
    case Fail => None
    case Got(record, rest) =>
      if rest == "" || rest == "\r\n" then Some([record])
      else if !("\r\n" <= rest) then None
      else
        match ReadFile(rest[2..])
        case None => None
        case Some(records) => Some([record] + records)
  }

  // ---- Reading back one field ----

  /** What may follow a field: the end, a comma, or a line break. */
  predicate Delimited(rest: string) {
    rest == "" || rest[0] == ',' || "\r\n" <= rest
  }

  lemma {:induction false} QuotedReads(s: string, rest: string)
    requires rest == "" || rest[0] != '"'
    ensures ParseQuoted(DoubleQuotes(s) + "\"" + rest) == Got(s, rest)
  {
    var whole := DoubleQuotes(s) + "\"" + rest;
    if s == "" {
      assert whole == "\"" + rest;
      assert whole[1..] == rest;
    } else {
      QuotedReads(s[1..], rest);
      var skip := if s[0] == '"' then 2 else 1;
      var lead := if s[0] == '"' then "\"\"" else [s[0]];
      assert whole == lead + (DoubleQuotes(s[1..]) + "\"" + rest);
      hide DoubleQuotes;
      assert whole[skip..] == DoubleQuotes(s[1..]) + "\"" + rest;
      assert s == [s[0]] + s[1..];
    }
  }

  lemma {:induction false} PlainReads(s: string, rest: string)
    requires forall ch <- s :: !IsSpecial(ch)
    requires Delimited(rest)
    ensures ParsePlain(s + rest) == Got(s, rest)
  {
    if s == "" {
      assert s + rest == rest;
    } else {
      assert s[0] in s && forall ch <- s[1..] :: ch in s;
      PlainReads(s[1..], rest);
      assert (s + rest)[1..] == s[1..] + rest;
      assert s == [s[0]] + s[1..];
    }
  }

  lemma FieldReads(c: Cell, rest: string)
    requires Delimited(rest)
    ensures ParseField(EscapeCell(c) + rest) == Got(Guard(Text(c)), rest)
  {
    hide Guard, DoubleQuotes, ParsePlain, ParseQuoted;
    var s := Guard(Text(c));
    if exists ch <- s :: IsSpecial(ch) {
      QuotedReads(s, rest);
      assert (EscapeCell(c) + rest)[1..] == DoubleQuotes(s) + "\"" + rest;
    } else {
      PlainReads(s, rest);
      assert s != "" ==> s[0] in s;
      assert EscapeCell(c) + rest != "" ==> (EscapeCell(c) + rest)[0] != '"';
    }
  }

  // ---- Reading back one record ----

  function GuardedRow(cells: seq<Cell>): seq<string> {
    Map(c => Guard(Text(c)), cells)
  }

  lemma SingleCell(cells: seq<Cell>)
    requires |cells| == 1
    ensures CsvRow(cells) == EscapeCell(cells[0])
    ensures GuardedRow(cells) == [Guard(Text(cells[0]))]
  {
  }

  lemma RowSplit(cells: seq<Cell>)
    requires |cells| >= 2
    ensures CsvRow(cells) == EscapeCell(cells[0]) + "," + CsvRow(cells[1..])
    ensures GuardedRow(cells) == [Guard(Text(cells[0]))] + GuardedRow(cells[1..])
  {
    assert Map(EscapeCell, cells)[1..] == Map(EscapeCell, cells[1..]);
  }

  lemma {:induction false} RecordReads(cells: seq<Cell>, rest: string)
    requires cells != []
    requires rest == "" || CRLF <= rest
    ensures ParseRecord(CsvRow(cells) + rest) == Got(GuardedRow(cells), rest)
  {
    hide ParseField, EscapeCell, Guard, GuardedRow, CsvRow, Text;
    if |cells| == 1 {
      SingleCell(cells);
      FieldReads(cells[0], rest);
    } else {
      RowSplit(cells);
      RecordReads(cells[1..], rest);
      var tail := "," + (CsvRow(cells[1..]) + rest);
      FieldReads(cells[0], tail);
      assert CsvRow(cells) + rest == EscapeCell(cells[0]) + tail;
      assert tail[1..] == CsvRow(cells[1..]) + rest;
    }
  }

  /** The one row that prints as nothing is a single empty cell. */
  lemma EmptyRow(cells: seq<Cell>)
    requires cells != []
    ensures CsvRow(cells) == "" <==> GuardedRow(cells) == [""]
  {
    if |cells| >= 2 {
      RowSplit(cells);
    }
  }

  // ---- Reading back a file ----

  function Print(table: seq<seq<Cell>>): string {
    Join(Map(CsvRow, table), CRLF)
  }

  function GuardedTable(table: seq<seq<Cell>>): seq<seq<string>> {
    Map(GuardedRow, table)
  }

  predicate NoEmptyRecords(table: seq<seq<Cell>>) {
    forall row <- table :: row != []
  }

  /** A last record of one empty cell is indistinguishable from the optional final line break. */
  predicate LastRecordVanishes(table: seq<seq<Cell>>)
    requires table != []
  {
    |table| > 1 && GuardedRow(table[|table| - 1]) == [""]
  }

  lemma PrintSplit(table: seq<seq<Cell>>)
    requires |table| >= 2
    ensures Print(table) == CsvRow(table[0]) + CRLF + Print(table[1..])
    ensures GuardedTable(table) == [GuardedRow(table[0])] + GuardedTable(table[1..])
  {
    assert Map(CsvRow, table)[1..] == Map(CsvRow, table[1..]);
  }

  lemma PrintEmpty(table: seq<seq<Cell>>)
    requires table != [] && NoEmptyRecords(table)
    ensures Print(table) == "" <==> |table| == 1 && GuardedRow(table[0]) == [""]
  {
    assert table[0] in table;
    EmptyRow(table[0]);
    if |table| >= 2 {
      PrintSplit(table);
    }
  }

  /** What a printed file reads back as: the table, less a vanishing last record. */
  function ReadBack(table: seq<seq<Cell>>): seq<seq<string>>
    requires table != []
  {
    if LastRecordVanishes(table) then GuardedTable(table)[..|table| - 1] else GuardedTable(table)
  }

  lemma ReadBackSplit(table: seq<seq<Cell>>)
    requires |table| >= 2 && NoEmptyRecords(table)
    ensures NoEmptyRecords(table[1..])
    ensures ReadBack(table)
         == [GuardedRow(table[0])] + if Print(table[1..]) == "" then [] else ReadBack(table[1..])
  {
    var more, all := table[1..], GuardedTable(table);
    assert forall row <- more :: row in table;
    hide GuardedRow, CsvRow, Print, GuardedTable, NoEmptyRecords;
    PrintSplit(table);
    PrintEmpty(more);
    assert more[|more| - 1] == table[|table| - 1];
    assert LastRecordVanishes(more) <==> LastRecordVanishes(table) && |more| > 1;
    assert Print(more) == "" <==> LastRecordVanishes(table) && |more| == 1;
    hide LastRecordVanishes;
    if LastRecordVanishes(table) && |more| > 1 {
      assert all[..|table| - 1] == [GuardedRow(table[0])] + GuardedTable(more)[..|more| - 1];
    } else if LastRecordVanishes(table) {
      assert all[..1] == [GuardedRow(table[0])];
    }
  }

  lemma {:induction false} FileReads(table: seq<seq<Cell>>)
    requires table != [] && NoEmptyRecords(table)
    ensures ReadFile(Print(table)) == Some(ReadBack(table))
  {
    hide ParseRecord, CsvRow, GuardedRow;
    assert table[0] in table;
    if |table| == 1 {
      RecordReads(table[0], "");
      assert CsvRow(table[0]) + "" == Print(table);
      assert GuardedTable(table) == [GuardedRow(table[0])];
    } else {
      var more := table[1..];
      ReadBackSplit(table);
      PrintSplit(table);
      hide Print, ReadBack, GuardedTable;
      RecordReads(table[0], CRLF + Print(more));
      assert Print(table) == CsvRow(table[0]) + (CRLF + Print(more));
      assert (CRLF + Print(more))[2..] == Print(more);
      if Print(more) != "" {
        FileReads(more);
      }
    }
  }

  lemma {:induction false} NoEmptyRecordsRead(s: string)
    ensures ReadFile(s).Some? ==> forall record <- ReadFile(s).value :: record != []
    decreases |s|
  {
    var p := ParseRecord(s);
    if p.Got? && p.rest != "" && p.rest != CRLF && CRLF <= p.rest {
      NoEmptyRecordsRead(p.rest[2..]);
    }
  }

  /**
    * A printed table reads back as itself, with the guard applied, exactly when no record is
    * empty and the last record of several is not a single empty cell.
    */
  lemma ReadsBackIff(table: seq<seq<Cell>>)
    requires table != []
    ensures ReadFile(Print(table)) == Some(GuardedTable(table))
       <==> NoEmptyRecords(table) && !LastRecordVanishes(table)
  {
    if NoEmptyRecords(table) {
      FileReads(table);
    } else {
      var i :| 0 <= i < |table| && table[i] == [];
      assert GuardedTable(table)[i] in GuardedTable(table);
      NoEmptyRecordsRead(Print(table));
    }
  }

  // ---- The report writer ----

  /** Header and body as one table of cells. */
  function TableOf<T>(columns: seq<Column<T>>, rows: seq<T>): (t: seq<seq<Cell>>)
    ensures |t| == |rows| + 1 && forall row <- t :: |row| == |columns|
  {
    [Map((c: Column<T>) => Some(c.header), columns)]
    + Map((row: T) => Map((c: Column<T>) => c.value(row), columns), rows)
  }

  lemma ToCsvPrints<T>(columns: seq<Column<T>>, rows: seq<T>)
    ensures ToCsv(columns, rows) == Print(TableOf(columns, rows))
  {
    var table := TableOf(columns, rows);
    if rows == [] {
      assert Map(CsvRow, table) == [CsvRow(table[0])];
    } else {
      PrintSplit(table);
      var body := Map((row: T) => CsvRow(Map((c: Column<T>) => c.value(row), columns)), rows);
      assert table[1..] == Map((row: T) => Map((c: Column<T>) => c.value(row), columns), rows);
      assert Map(CsvRow, table[1..]) == body;
    }
  }

  /**
    * With two or more columns, every report reads back as exactly its header and rows with
    * the guard applied; with one column, exactly when there is no last row printing as nothing.
    */
  lemma ReportReadsBack<T>(columns: seq<Column<T>>, rows: seq<T>)
    requires columns != []
    ensures ReadFile(ToCsv(columns, rows)) == Some(GuardedTable(TableOf(columns, rows)))
       <==> |columns| >= 2 || rows == [] || Text(columns[0].value(rows[|rows| - 1])) != ""
  {
    var table := TableOf(columns, rows);
    hide ReadFile, Print, GuardedTable, ToCsv;
    ToCsvPrints(columns, rows);
    ReadsBackIff(table);
    assert |table[|table| - 1]| == |columns| by {
      assert table[|table| - 1] in table;
    }
    assert NoEmptyRecords(table);
    if |columns| == 1 && rows != [] {
      assert GuardedRow(table[|rows|]) == [Guard(Text(columns[0].value(rows[|rows| - 1])))];
    }
  }

  // ---- What the guard does to a cell ----

  /** The characters a spreadsheet takes for the start of a formula. */
  const FORMULA_LEADS := ['=', '+', '-', '@', '\t', '\r']

  predicate LeadsFormula(text: string) {
    text != "" && text[0] in FORMULA_LEADS
  }

  /** A recovered cell holds a text: behind one apostrophe if the text leads with such a character, else bare. */
  predicate Holds(cell: string, text: string) {
    if LeadsFormula(text) then |cell| == |text| + 1 && cell[0] == '\'' && cell[1..] == text else cell == text
  }

  /** The guard puts an apostrophe before exactly the texts that lead with such a character, and keeps all of them. */
  lemma GuardExact(s: string)
    ensures Holds(Guard(s), s) && (Guard(s) == s <==> !LeadsFormula(s))
  {
    if LeadsFormula(s) {
      assert |Guard(s)| == |s| + 1;
    }
  }

  /** What a reader who takes such an apostrophe for the guard's own recovers. */
  function Unguard(cell: string): string {
    if |cell| >= 2 && cell[0] == '\'' && cell[1] in FORMULA_LEADS then cell[1..] else cell
  }

  /** He recovers the text exactly when it was not itself an apostrophe before such a character. */
  lemma UnguardExactly(s: string)
    ensures Unguard(Guard(s)) == s <==> !(|s| >= 2 && s[0] == '\'' && s[1] in FORMULA_LEADS)
  {
    GuardExact(s);
  }

  /** A cell is quoted exactly when its guarded text holds a quote, comma, CR or LF, and else printed bare. */
  lemma QuotedExactly(c: Cell)
    ensures var s, out := Guard(Text(c)), EscapeCell(c);
            if exists ch <- s :: !IsTextData(ch) then |out| >= |s| + 2 && out[0] == '"' && out[|out| - 1] == '"'
            else out == s
  {
    var s := Guard(Text(c));
    assert (exists ch <- s :: !IsTextData(ch)) <==> (exists ch <- s :: IsSpecial(ch));
    DoubledLength(s);
  }

  lemma {:induction false} DoubledLength(s: string)
    ensures |DoubleQuotes(s)| >= |s|
  {
    if s != "" {
      DoubledLength(s[1..]);
    }
  }

  /** The text of column `j` in record `i` of a report: a header, then the rows. */
  function ReportText<T>(columns: seq<Column<T>>, rows: seq<T>, i: nat, j: nat): string
    requires i <= |rows| && j < |columns|
  {
    if i == 0 then columns[j].header else Text(columns[j].value(rows[i - 1]))
  }

  /**
    * Reading a report back recovers one record for the header and one a row, each with one cell a
    * column that holds that column's text; the last of several records of one empty cell excepted.
    */
  lemma ReportRecovers<T>(columns: seq<Column<T>>, rows: seq<T>)
    requires columns != []
    requires |columns| >= 2 || rows == [] || Text(columns[0].value(rows[|rows| - 1])) != ""
    ensures ReadFile(ToCsv(columns, rows)).Some?
    ensures var records := ReadFile(ToCsv(columns, rows)).value;
            && |records| == |rows| + 1
            && forall i: nat, j: nat | i <= |rows| && j < |columns| ::
                 |records[i]| == |columns| && Holds(records[i][j], ReportText(columns, rows, i, j))
  {
    ReportReadsBack(columns, rows);
    var table := TableOf(columns, rows);
    forall i: nat, j: nat | i <= |rows| && j < |columns|
      ensures |GuardedTable(table)[i]| == |columns|
      ensures Holds(GuardedTable(table)[i][j], ReportText(columns, rows, i, j))
    {
      ReportCell(columns, rows, i, j);
      GuardExact(ReportText(columns, rows, i, j));
    }
    hide *;
  }

  /** What the table of a report holds at row and column, and the guarded table after it. */
  lemma ReportCell<T>(columns: seq<Column<T>>, rows: seq<T>, i: nat, j: nat)
    requires i <= |rows| && j < |columns|
    ensures var guarded := GuardedTable(TableOf(columns, rows));
            && |guarded| == |rows| + 1 && |guarded[i]| == |columns|
            && guarded[i][j] == Guard(ReportText(columns, rows, i, j))
  {
    var table := TableOf(columns, rows);
    assert table[i] in table;
    assert Text(table[i][j]) == ReportText(columns, rows, i, j);
    GuardedAt(table, i, j);
  }

  lemma GuardedAt(table: seq<seq<Cell>>, i: nat, j: nat)
    requires i < |table| && j < |table[i]|
    ensures |GuardedTable(table)[i]| == |table[i]| && GuardedTable(table)[i][j] == Guard(Text(table[i][j]))
  {
    hide Guard, Text;
  }

  /** No guarded text starts with a character that leads a formula. */
  lemma GuardLeadsNothing(s: string)
    ensures !LeadsFormula(Guard(s))
  {
    GuardExact(s);
  }

  /** No cell read back from any printed table starts with a character that leads a formula. */
  lemma NoFormulaReadBack(table: seq<seq<Cell>>, i: nat, j: nat)
    requires table != [] && NoEmptyRecords(table)
    requires ReadFile(Print(table)).Some? && i < |ReadFile(Print(table)).value| && j < |ReadFile(Print(table)).value[i]|
    ensures var cell := ReadFile(Print(table)).value[i][j];
            !LeadsFormula(cell)
  {
    FileReads(table);
    var n := |table| - if LastRecordVanishes(table) then 1 else 0;
    assert ReadBack(table) == GuardedTable(table)[..n];
    hide *;
    GuardedAt(table, i, j);
    GuardLeadsNothing(Text(table[i][j]));
  }
}
