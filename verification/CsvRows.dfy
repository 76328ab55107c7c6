/**
 Tables through both parsers: what is printed as a table comes back as rows keyed by its header.

 The theorems speak of the written cells and of the rows delivered. They say under which header each
 cell lands, whichever way the text was cut into chunks.
 */
module CsvRows {
  import opened Wrappers
  import opened CsvText
  import opened CsvScan
  import opened CsvChunks
  import opened CsvHeader
  import opened CsvFields
  import opened CsvParse

  // ----- One row

  /** No later header has the same name. */
  predicate IsLast(headers: seq<string>, k: nat) {
    k < |headers| && forall j :: k < j < |headers| ==> headers[j] != headers[k]
  }

  lemma {:induction false} RawValuesKeys(headers: seq<string>, values: seq<string>, n: nat, key: string)
    requires n <= |headers|
    ensures key in RawValues(headers, values, n) <==> exists k :: 0 <= k < n && headers[k] == key
  {
    if n > 0 {
      RawValuesKeys(headers, values, n - 1, key);
    }
  }

  lemma {:induction false} RawValuesAt(headers: seq<string>, values: seq<string>, n: nat, k: nat)
    requires k < n <= |headers| && forall j :: k < j < n ==> headers[j] != headers[k]
    ensures var raw := RawValues(headers, values, n);
            headers[k] in raw && raw[headers[k]] == if k < |values| then values[k] else ""
  {
    if k < n - 1 {
      RawValuesAt(headers, values, n - 1, k);
    }
  }

  /** The columns of a row are its headers. Each has the field at the header's last position, or is empty. */
  ghost predicate KeyedByHeader(raw: map<string, string>, headers: seq<string>, values: seq<string>) {
    && (forall key :: key in raw <==> key in headers)
    && (forall k: nat :: IsLast(headers, k) ==> raw[headers[k]] == if k < |values| then values[k] else "")
  }

  lemma RawValuesExactly(headers: seq<string>, values: seq<string>)
    ensures KeyedByHeader(RawValues(headers, values, |headers|), headers, values)
  {
    forall key ensures key in RawValues(headers, values, |headers|) <==> key in headers {
      RawValuesKeys(headers, values, |headers|, key);
    }
    forall k: nat | IsLast(headers, k)
      ensures RawValues(headers, values, |headers|)[headers[k]] == if k < |values| then values[k] else ""
    {
      RawValuesAt(headers, values, |headers|, k);
    }
  }

  // ----- What a table is read as

  /** The values that `texts` come out as. */
  ghost predicate ShownAs(values: seq<string>, cells: seq<Cell>, options: Options) {
    && |values| == |cells|
    && forall k :: 0 <= k < |cells| ==> values[k] == if options.trimValues then Trim(cells[k].text) else cells[k].text
  }

  /** Entry `k` maps a column of the row to `field`. */
  predicate MapsTo(raw: map<string, string>, entries: seq<(string, string)>, field: string, k: nat) {
    k < |entries| && entries[k].1 == field && entries[k].0 in raw
  }

  /** A column that is not empty, has no target of its own, and is nobody's target. */
  ghost predicate StaysAsItIs(raw: map<string, string>, entries: seq<(string, string)>, column: string) {
    && column in raw && raw[column] != ""
    && forall k :: 0 <= k < |entries| ==> entries[k].1 != column && (entries[k].0 == column ==> entries[k].1 == "")
  }

  /** Entry `k` maps a column of the row to its field, and no later entry does. */
  ghost predicate MapsLast(raw: map<string, string>, entries: seq<(string, string)>, k: nat) {
    && k < |entries| && MapsTo(raw, entries, entries[k].1, k)
    && forall j: nat :: k < j ==> !MapsTo(raw, entries, entries[k].1, j)
  }

  /** The subject is the row itself without a mapping; with one it has the mapped columns and those that stay. */
  ghost predicate IsSubject(subject: map<string, string>, raw: map<string, string>, mapping: Option<seq<(string, string)>>) {
    match mapping
    case None => subject == raw
    case Some(entries) =>
      && (forall field :: field in subject <==>
            (exists k: nat :: MapsTo(raw, entries, field, k)) || StaysAsItIs(raw, entries, field))
      && (forall k: nat :: MapsLast(raw, entries, k) ==> subject[entries[k].1] == raw[entries[k].0])
      && (forall column :: StaysAsItIs(raw, entries, column) ==> subject[column] == raw[column])
  }

  lemma StaysIsPassed(raw: map<string, string>, entries: seq<(string, string)>, column: string)
    ensures StaysAsItIs(raw, entries, column) <==> PassesThrough(raw, entries, column)
  {
  }

  lemma MapsIsNames(raw: map<string, string>, entries: seq<(string, string)>, field: string, k: nat)
    ensures MapsTo(raw, entries, field, k) <==> Names(raw, entries, field, k)
  {
  }

  lemma FieldsOfSubject(raw: map<string, string>, entries: seq<(string, string)>, field: string)
    ensures field in MappedSubject(raw, Some(entries)) <==>
      (exists k: nat :: MapsTo(raw, entries, field, k)) || StaysAsItIs(raw, entries, field)
  {
    MappedExactly(raw, entries, field);
    StaysIsPassed(raw, entries, field);
    forall k: nat ensures MapsTo(raw, entries, field, k) <==> Names(raw, entries, field, k) {
      MapsIsNames(raw, entries, field, k);
    }
  }

  lemma ValueOfLast(raw: map<string, string>, entries: seq<(string, string)>, k: nat)
    requires MapsLast(raw, entries, k)
    ensures var r := MappedSubject(raw, Some(entries)); entries[k].1 in r && r[entries[k].1] == raw[entries[k].0]
  {
    forall j: nat ensures MapsTo(raw, entries, entries[k].1, j) <==> Names(raw, entries, entries[k].1, j) {
      MapsIsNames(raw, entries, entries[k].1, j);
    }
    MappedValue(raw, entries, k);
  }

  lemma SubjectIsSubject(raw: map<string, string>, mapping: Option<seq<(string, string)>>)
    ensures IsSubject(MappedSubject(raw, mapping), raw, mapping)
  {
    if mapping.Some? {
      var entries, subject := mapping.value, MappedSubject(raw, mapping);
      forall field ensures field in subject <==>
          (exists k: nat :: MapsTo(raw, entries, field, k)) || StaysAsItIs(raw, entries, field)
      {
        FieldsOfSubject(raw, entries, field);
      }
      forall k: nat | MapsLast(raw, entries, k) ensures subject[entries[k].1] == raw[entries[k].0] {
        ValueOfLast(raw, entries, k);
      }
      forall column | StaysAsItIs(raw, entries, column) ensures subject[column] == raw[column] {
        StaysIsPassed(raw, entries, column);
        PassedValue(raw, entries, column);
      }
    }
  }

  /** The row with number `index` has the written cells under their headers, and the validator's verdict on them. */
  ghost predicate RowReads(row: ParsedRow, headers: seq<string>, cells: seq<Cell>, index: nat, options: Options) {
    && row.rowIndex == index
    && (exists values :: ShownAs(values, cells, options) && KeyedByHeader(row.rawValues, headers, values))
    && IsSubject(row.mappedSubject, row.rawValues, options.mapping)
    && options.validate(options.schemaId, row.mappedSubject) == Verdict(row.valid, row.errors)
  }

  ghost predicate TableReads(headers: seq<string>, out: seq<ParsedRow>, header: seq<Cell>, rows: seq<seq<Cell>>, options: Options) {
    && ShownAs(headers, header, options)
    && |out| == |rows|
    && forall i :: 0 <= i < |rows| ==> RowReads(out[i], headers, rows[i], i, options)
  }

  lemma ValuesShown(record: string, cells: seq<Cell>, options: Options)
    requires FieldsOf(record, options.delimiter) == Texts(cells)
    ensures ShownAs(Values(record, options), cells, options)
  {
  }

  lemma RowOfCells(record: string, headers: seq<string>, cells: seq<Cell>, index: nat, options: Options)
    requires FieldsOf(record, options.delimiter) == Texts(cells)
    ensures RowReads(Row(record, headers, index, options), headers, cells, index, options)
  {
    ValuesShown(record, cells, options);
    RawValuesExactly(headers, Values(record, options));
    SubjectIsSubject(RawValues(headers, Values(record, options), |headers|), options.mapping);
  }

  lemma {:induction false} RowsAt(records: seq<string>, headers: seq<string>, index: nat, options: Options, k: nat)
    requires k < |records|
    ensures Rows(records, headers, index, options)[k] == Row(records[k], headers, index + k, options)
    decreases k
  {
    if k > 0 {
      RowsAt(records[1..], headers, index + 1, options, k - 1);
    }
  }

  lemma {:induction false} PrintRowsAt(rows: seq<seq<Cell>>, delimiter: char, k: nat)
    requires IsTable(rows, delimiter) && k < |rows|
    ensures |PrintRows(rows, delimiter)| == |rows| && PrintRows(rows, delimiter)[k] == PrintRow(rows[k], delimiter)
    decreases |rows|
  {
    if |rows| > 1 {
      PrintRowsAt(rows[1..], delimiter, if k > 0 then k - 1 else 0);
    }
  }

  lemma RowsOfTable(headers: seq<string>, rows: seq<seq<Cell>>, options: Options)
    requires IsTable(rows, options.delimiter)
    ensures var out := Rows(PrintRows(rows, options.delimiter), headers, 0, options);
            |out| == |rows| && forall i :: 0 <= i < |rows| ==> RowReads(out[i], headers, rows[i], i, options)
  {
    var records := PrintRows(rows, options.delimiter);
    ParsePrintedRows(rows, options.delimiter);
    forall i | 0 <= i < |rows|
      ensures RowReads(Rows(records, headers, 0, options)[i], headers, rows[i], i, options)
    {
      PrintRowsAt(rows, options.delimiter, i);
      RowsAt(records, headers, 0, options, i);
      ParsePrintedRow(rows[i], options.delimiter);
      RowOfCells(records[i], headers, rows[i], i, options);
    }
  }

  // ----- The streaming parser

  /** Header and records of a printed table. */
  lemma SplitTable(header: seq<Cell>, rows: seq<seq<Cell>>, style: Style)
    requires IsTable([header] + rows, style.delimiter)
    ensures IsTable(rows, style.delimiter)
    ensures var text := PrintTable([header] + rows, style);
            && Lead(text, false) == PrintRow(header, style.delimiter)
            && NonBlank(Pieces(BodyOf(text))) == PrintRows(rows, style.delimiter)
  {
    var all, row := [header] + rows, PrintRow(header, style.delimiter);
    assert all[0] == header && all[1..] == rows;
    assert forall k :: 0 <= k < |rows| ==> rows[k] == all[k + 1];
    RowBalanced(header, style.delimiter);
    PiecesOfTable(rows, style);
    if rows == [] && !style.ended {
      PiecesWithoutEnd("");
      NonBlankOne("");
    } else {
      CutRow(row, style, PrintTable(rows, style));
    }
  }

  lemma TableOfParts(header: seq<Cell>, rows: seq<seq<Cell>>, options: Options)
    requires AreWritable(header, options.delimiter) && IsTable(rows, options.delimiter)
    ensures var headers := Values(PrintRow(header, options.delimiter), options);
            TableReads(headers, Rows(PrintRows(rows, options.delimiter), headers, 0, options), header, rows, options)
  {
    ParsePrintedRow(header, options.delimiter);
    ValuesShown(PrintRow(header, options.delimiter), header, options);
    RowsOfTable(Values(PrintRow(header, options.delimiter), options), rows, options);
  }

  /** A table printed in any style and cut into chunks in any safe way is read back by the streaming parser. */
  lemma StreamedTable(header: seq<Cell>, rows: seq<seq<Cell>>, style: Style, chunks: seq<string>, options: Options)
    requires IsTable([header] + rows, style.delimiter) && options.delimiter == style.delimiter
    requires Flatten(chunks) == PrintTable([header] + rows, style) && SafeChunks(chunks)
    ensures var headers, read := StreamHeaders(chunks, options, None), StreamRows(chunks, options, None, None);
            && headers.Success? && read.Success? && read.value.error.None?
            && TableReads(headers.value, read.value.rows, header, rows, options)
  {
    StreamReadsExactly(chunks);
    HeaderExact("", false, chunks);
    SplitTable(header, rows, style);
    assert ([header] + rows)[0] == header;
    TableOfParts(header, rows, options);
  }

  // ----- The buffered parser

  ghost predicate OneLineTexts(rows: seq<seq<Cell>>) {
    forall i, k :: 0 <= i < |rows| && 0 <= k < |rows[i]| ==> '\n' !in rows[i][k].text
  }

  lemma {:induction false} DoubledKeepsOut(field: string, c: char)
    requires c !in field && c != '"'
    ensures c !in Doubled(field)
  {
    if field != "" {
      assert field == [field[0]] + field[1..];
      DoubledKeepsOut(field[1..], c);
    }
  }

  lemma {:induction false} RowKeepsOut(cells: seq<Cell>, delimiter: char, c: char)
    requires cells != [] && c != '"' && c != delimiter
    requires forall k :: 0 <= k < |cells| ==> c !in cells[k].text
    ensures c !in PrintRow(cells, delimiter)
    decreases |cells|
  {
    DoubledKeepsOut(cells[0].text, c);
    if |cells| > 1 {
      RowKeepsOut(cells[1..], delimiter, c);
    }
  }

  lemma PlainRow(row: string, style: Style, rest: string)
    requires Balanced(row) && '\n' !in row && PlainNewlines(rest)
    ensures PlainNewlines(row + style.LineEnd() + rest)
  {
    var head := if style.crlf then row + "\r" else row;
    if style.crlf {
      PlainBalanced("\r");
      BalancedConcat(row, "\r");
    }
    assert row + style.LineEnd() + rest == head + "\n" + rest;
    PlainSplit(row + style.LineEnd() + rest, head, rest);
  }

  lemma {:induction false} TableIsPlain(rows: seq<seq<Cell>>, style: Style)
    requires IsTable(rows, style.delimiter) && OneLineTexts(rows)
    ensures PlainNewlines(PrintTable(rows, style))
    decreases |rows|
  {
    if rows != [] {
      var row := PrintRow(rows[0], style.delimiter);
      RowKeepsOut(rows[0], style.delimiter, '\n');
      RowBalanced(rows[0], style.delimiter);
      TableIsPlain(rows[1..], style);
      PlainRow(row, style, PrintTable(rows[1..], style));
      assert forall i :: 0 <= i < |row| ==> row[i] in row;
    }
  }

  /** The positions of the rows that the validator accepted. */
  ghost function ValidRows(rows: seq<ParsedRow>): set<nat> {
    set i: nat | i < |rows| && rows[i].valid
  }

  lemma {:induction false} CountValidCounts(rows: seq<ParsedRow>)
    ensures CountValid(rows) == |ValidRows(rows)|
  {
    if rows != [] {
      var n := |rows| - 1;
      CountValidCounts(rows[..n]);
      assert ValidRows(rows) == ValidRows(rows[..n]) + (if rows[n].valid then {n} else {});
    }
  }

  /** A table whose texts have no newline is read back by the buffered parser as well, and its rows are counted. */
  lemma BufferedTable(header: seq<Cell>, rows: seq<seq<Cell>>, style: Style, options: Options)
    requires IsTable([header] + rows, style.delimiter) && options.delimiter == style.delimiter
    requires OneLineTexts([header] + rows)
    ensures var b := Buffered(PrintTable([header] + rows, style), options);
            && TableReads(b.headers, b.rows, header, rows, options)
            && b.validCount == |ValidRows(b.rows)| && b.totalCount == |rows| && b.invalidCount == |rows| - b.validCount
  {
    var text := PrintTable([header] + rows, style);
    OneChunkSafe(text);
    FlattenOne(text);
    TableIsPlain([header] + rows, style);
    SplitTable(header, rows, style);
    assert ([header] + rows)[0] == header;
    StreamingRefinesBuffered([text], options);
    StreamedTable(header, rows, style, [text], options);
    CountValidCounts(Buffered(text, options).rows);
  }
}
