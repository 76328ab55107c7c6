/**
 The two CSV parsers of the batch pipeline, from text to validated rows: the buffered one
 (packages/batch-core/src/csv-parser.ts) and the streaming one that replaces it
 (packages/batch-core/src/streaming-csv-parser.ts). The delimiter is always given.
 */
module CsvParse {
  import opened Wrappers
  import opened Strings
  import opened CsvText
  import opened CsvScan
  import opened CsvCaps
  import opened CsvChunks
  import opened CsvHeader
  import opened CsvFields

  datatype Verdict = Verdict(valid: bool, errors: seq<(string, string)>)

  /** `mapping` lists the entries of the column mapping in order, with distinct column names. */
  datatype Options = Options(
    schemaId: string,
    delimiter: char,
    trimValues: bool,
    mapping: Option<seq<(string, string)>>,
    validate: (string, map<string, string>) -> Verdict)

  datatype ParsedRow = ParsedRow(
    rowIndex: nat,
    rawValues: map<string, string>,
    mappedSubject: map<string, string>,
    valid: bool,
    errors: seq<(string, string)>)

  // ----- One row

  function TrimAll(fields: seq<string>): (r: seq<string>)
    ensures |r| == |fields|
  {
    seq(|fields|, i requires 0 <= i < |fields| => Trim(fields[i]))
  }

  /** The fields of a record as both parsers use them. */
  function Values(record: string, options: Options): seq<string> {
    var fields := FieldsOf(record, options.delimiter);
    if options.trimValues then TrimAll(fields) else fields
  }

  /** The first `n` headers with their values; a missing value is empty, a later header overwrites. */
  function RawValues(headers: seq<string>, values: seq<string>, n: nat): map<string, string>
    requires n <= |headers|
  {
    if n == 0 then map[]
    else RawValues(headers, values, n - 1)[headers[n - 1] := if n - 1 < |values| then values[n - 1] else ""]
  }

  /** The mapped columns among the first `n` entries. */
  function Renamed(raw: map<string, string>, mapping: seq<(string, string)>, n: nat): map<string, string>
    requires n <= |mapping|
  {
    if n == 0 then map[]
    else
      var (column, field) := mapping[n - 1];
      var before := Renamed(raw, mapping, n - 1);
      if column in raw then before[field := raw[column]] else before
  }

  /** The column has a non-empty target. */
  predicate IsMapped(mapping: seq<(string, string)>, column: string) {
    exists k :: 0 <= k < |mapping| && mapping[k].0 == column && mapping[k].1 != ""
  }

  predicate IsTarget(mapping: seq<(string, string)>, field: string) {
    exists k :: 0 <= k < |mapping| && mapping[k].1 == field
  }

  /** The columns that pass through under their own name. */
  predicate PassesThrough(raw: map<string, string>, mapping: seq<(string, string)>, column: string) {
    column in raw && raw[column] != "" && !IsMapped(mapping, column) && !IsTarget(mapping, column)
  }

  function MappedSubject(raw: map<string, string>, mapping: Option<seq<(string, string)>>): map<string, string> {
    match mapping
    case None => raw
    case Some(entries) =>
      Renamed(raw, entries, |entries|) + Passing(raw, entries, raw.Keys)
  }

  /** The first loop of `applyMapping`. */
  method RenameColumns(raw: map<string, string>, entries: seq<(string, string)>) returns (mapped: map<string, string>)
    ensures mapped == Renamed(raw, entries, |entries|)
  {
    mapped := map[];
    var i := 0;
    while i < |entries|
      invariant 0 <= i <= |entries|
      invariant mapped == Renamed(raw, entries, i)
    {
      var (column, field) := entries[i];
      if column in raw {
        mapped := mapped[field := raw[column]];
      }
      i := i + 1;
    }
  }

  /** The columns among `columns` that pass through, with their values. */
  function Passing(raw: map<string, string>, entries: seq<(string, string)>, columns: set<string>): map<string, string> {
    map column | column in columns && PassesThrough(raw, entries, column) :: raw[column]
  }

  lemma PassOne(raw: map<string, string>, entries: seq<(string, string)>, columns: set<string>, key: string)
    requires key in raw
    ensures Passing(raw, entries, columns + {key})
            == if PassesThrough(raw, entries, key) then Passing(raw, entries, columns)[key := raw[key]]
               else Passing(raw, entries, columns)
  {
  }

  /** The second loop, over the columns of the row in any order. */
  method PassColumns(raw: map<string, string>, entries: seq<(string, string)>) returns (passed: map<string, string>)
    ensures passed == Passing(raw, entries, raw.Keys)
  {
    passed := map[];
    var left := raw.Keys;
    while left != {}
      invariant left <= raw.Keys
      invariant passed == Passing(raw, entries, raw.Keys - left)
      decreases |left|
    {
      var key :| key in left;
      PassOne(raw, entries, raw.Keys - left, key);
      assert raw.Keys - left + {key} == raw.Keys - (left - {key});
      if raw[key] != "" && !IsMapped(entries, key) && !IsTarget(entries, key) {
        passed := passed[key := raw[key]];
      }
      left := left - {key};
    }
    assert raw.Keys - {} == raw.Keys;
  }

  /** `applyMapping`: first the mapped columns, then every column that passes through. */
  method ApplyMapping(raw: map<string, string>, mapping: Option<seq<(string, string)>>) returns (mapped: map<string, string>)
    ensures mapped == MappedSubject(raw, mapping)
  {
    if mapping.None? {
      return raw;
    }
    var renamed := RenameColumns(raw, mapping.value);
    var passed := PassColumns(raw, mapping.value);
    mapped := renamed + passed;
  }

  /** Entry `k` names `field` for a column of the row. */
  predicate Names(raw: map<string, string>, mapping: seq<(string, string)>, field: string, k: nat) {
    k < |mapping| && mapping[k].1 == field && mapping[k].0 in raw
  }

  lemma {:induction false} RenamedExactly(raw: map<string, string>, mapping: seq<(string, string)>, n: nat, field: string)
    requires n <= |mapping|
    ensures field in Renamed(raw, mapping, n) <==> exists k: nat :: k < n && Names(raw, mapping, field, k)
  {
    if n > 0 {
      RenamedExactly(raw, mapping, n - 1, field);
      assert field == mapping[n - 1].1 && mapping[n - 1].0 in raw ==> Names(raw, mapping, field, n - 1);
    }
  }

  lemma {:induction false} LastEntryDecides(raw: map<string, string>, mapping: seq<(string, string)>, n: nat, k: nat)
    requires k < n <= |mapping| && Names(raw, mapping, mapping[k].1, k)
    requires forall j: nat :: k < j < n ==> !Names(raw, mapping, mapping[k].1, j)
    ensures var r := Renamed(raw, mapping, n); mapping[k].1 in r && r[mapping[k].1] == raw[mapping[k].0]
  {
    if k < n - 1 {
      LastEntryDecides(raw, mapping, n - 1, k);
      assert !Names(raw, mapping, mapping[k].1, n - 1);
    }
  }

  /** The fields of the subject: the targets of columns that the row has, and the columns that pass through. */
  lemma MappedExactly(raw: map<string, string>, mapping: seq<(string, string)>, field: string)
    ensures field in MappedSubject(raw, Some(mapping)) <==>
      (exists k: nat :: Names(raw, mapping, field, k)) || PassesThrough(raw, mapping, field)
  {
    RenamedExactly(raw, mapping, |mapping|, field);
  }

  /** The value of a target is that of the last column mapped to it. */
  lemma MappedValue(raw: map<string, string>, mapping: seq<(string, string)>, k: nat)
    requires k < |mapping| && Names(raw, mapping, mapping[k].1, k)
    requires forall j: nat :: k < j ==> !Names(raw, mapping, mapping[k].1, j)
    ensures var r := MappedSubject(raw, Some(mapping)); mapping[k].1 in r && r[mapping[k].1] == raw[mapping[k].0]
  {
    LastEntryDecides(raw, mapping, |mapping|, k);
    assert IsTarget(mapping, mapping[k].1);
  }

  /** A column that passes through keeps its value. */
  lemma PassedValue(raw: map<string, string>, mapping: seq<(string, string)>, column: string)
    requires PassesThrough(raw, mapping, column)
    ensures var r := MappedSubject(raw, Some(mapping)); column in r && r[column] == raw[column]
  {
  }

  /** The value of a column is in the subject, under the column's own name or the one it is mapped to. */
  ghost predicate IsKept(raw: map<string, string>, mapping: seq<(string, string)>, column: string)
    requires column in raw
  {
    var r := MappedSubject(raw, Some(mapping));
    || (PassesThrough(raw, mapping, column) && column in r && r[column] == raw[column])
    || exists k :: 0 <= k < |mapping| && mapping[k].0 == column && mapping[k].1 in r && r[mapping[k].1] == raw[column]
  }

  predicate DistinctTargets(mapping: seq<(string, string)>) {
    forall j, k :: 0 <= j < k < |mapping| ==> mapping[j].1 != mapping[k].1
  }

  /**
   With distinct targets the value of a non-empty column is lost exactly when the column is itself a target and no
   entry maps it elsewhere.
   */
  lemma ValueLostExactly(raw: map<string, string>, mapping: seq<(string, string)>, column: string)
    requires column in raw && raw[column] != "" && DistinctTargets(mapping)
    ensures IsKept(raw, mapping, column) <==>
      !IsTarget(mapping, column) || exists k :: 0 <= k < |mapping| && mapping[k].0 == column
  {
    if exists k :: 0 <= k < |mapping| && mapping[k].0 == column {
      var k :| 0 <= k < |mapping| && mapping[k].0 == column;
      MappedValue(raw, mapping, k);
    }
  }

  function Row(record: string, headers: seq<string>, index: nat, options: Options): ParsedRow {
    var raw := RawValues(headers, Values(record, options), |headers|);
    var subject := MappedSubject(raw, options.mapping);
    var verdict := options.validate(options.schemaId, subject);
    ParsedRow(index, raw, subject, verdict.valid, verdict.errors)
  }

  /** The rows of records that are numbered from `index` on. */
  function Rows(records: seq<string>, headers: seq<string>, index: nat, options: Options): (rows: seq<ParsedRow>)
    ensures |rows| == |records|
  {
    if records == [] then []
    else [Row(records[0], headers, index, options)] + Rows(records[1..], headers, index + 1, options)
  }

  /** The loop that keys the values of a row by the headers. */
  method CollectValues(headers: seq<string>, values: seq<string>) returns (raw: map<string, string>)
    ensures raw == RawValues(headers, values, |headers|)
  {
    raw := map[];
    var j := 0;
    while j < |headers|
      invariant 0 <= j <= |headers|
      invariant raw == RawValues(headers, values, j)
    {
      raw := raw[headers[j] := if j < |values| then values[j] else ""];
      j := j + 1;
    }
  }

  method BuildRow(record: string, headers: seq<string>, index: nat, options: Options) returns (row: ParsedRow)
    ensures row == Row(record, headers, index, options)
  {
    var fields := ParseRecord(record, options.delimiter);
    var trimmed := if options.trimValues then TrimAll(fields) else fields;
    var raw := CollectValues(headers, trimmed);
    var subject := ApplyMapping(raw, options.mapping);
    var verdict := options.validate(options.schemaId, subject);
    row := ParsedRow(index, raw, subject, verdict.valid, verdict.errors);
  }

  // ----- The buffered parser

  /** `csv.split(/\r?\n/)`. */
  function Lines(text: string): (lines: seq<string>)
    ensures lines != []
  {
    var i := IndexOf(text, '\n');
    if i == |text| then [text] else [Chomp(text[..i])] + Lines(text[i + 1..])
  }

  datatype ParseResult = ParseResult(
    headers: seq<string>, rows: seq<ParsedRow>, validCount: nat, invalidCount: nat, totalCount: nat)

  function CountValid(rows: seq<ParsedRow>): (n: nat)
    ensures n <= |rows|
  {
    if rows == [] then 0 else (if rows[|rows| - 1].valid then 1 else 0) + CountValid(rows[..|rows| - 1])
  }

  /** `parseRawCsv` and the row loop of `parseCsv`, as a function of the non-blank lines. */
  function ParseLines(lines: seq<string>, options: Options): ParseResult {
    var headers := if lines == [] then [] else Values(lines[0], options);
    var rows := if lines == [] then [] else Rows(lines[1..], headers, 0, options);
    ParseResult(headers, rows, CountValid(rows), |rows| - CountValid(rows), |rows|)
  }

  function Buffered(text: string, options: Options): ParseResult {
    ParseLines(NonBlank(Lines(text)), options)
  }

  /** `out` are the first of the rows `all`, and `left` are the records of the others. */
  ghost predicate Partway(all: seq<ParsedRow>, out: seq<ParsedRow>, left: seq<string>, headers: seq<string>, options: Options) {
    all == out + Rows(left, headers, |out|, options)
  }

  lemma PartwayStep(all: seq<ParsedRow>, out: seq<ParsedRow>, left: seq<string>, headers: seq<string>, options: Options,
                    row: ParsedRow)
    requires left != [] && Partway(all, out, left, headers, options)
    requires row == Row(left[0], headers, |out|, options)
    ensures Partway(all, out + [row], left[1..], headers, options) && |all| > |out| && all[..|out|] == out
  {
    var more := Rows(left[1..], headers, |out| + 1, options);
    assert out + ([row] + more) == (out + [row]) + more;
  }

  lemma PartwayEnds(all: seq<ParsedRow>, out: seq<ParsedRow>, headers: seq<string>, options: Options)
    ensures Partway(all, out, [], headers, options) <==> all == out
  {
    assert out + [] == out;
  }

  lemma PartwayStarts(left: seq<string>, headers: seq<string>, options: Options)
    ensures Partway(Rows(left, headers, 0, options), [], left, headers, options)
  {
    var all := Rows(left, headers, 0, options);
    assert [] + all == all;
  }

  /** `parseCsv`: a loop over the lines that builds rows and counts verdicts. */
  method ParseCsv(csv: string, options: Options) returns (r: ParseResult)
    ensures r == Buffered(csv, options)
  {
    var nonEmpty := NonBlank(Lines(csv));
    if nonEmpty == [] {
      return ParseResult([], [], 0, 0, 0);
    }
    var fields := ParseCsvLine(nonEmpty[0], options.delimiter);
    var headers := if options.trimValues then TrimAll(fields) else fields;
    var left := nonEmpty[1..];
    var parsedRows: seq<ParsedRow> := [];
    ghost var all := Rows(left, headers, 0, options);
    PartwayStarts(left, headers, options);
    var validCount, invalidCount := 0, 0;
    while left != []
      invariant Partway(all, parsedRows, left, headers, options)
      invariant validCount == CountValid(parsedRows) && validCount + invalidCount == |parsedRows|
      decreases |left|
    {
      var row := BuildRow(left[0], headers, |parsedRows|, options);
      if row.valid {
        validCount := validCount + 1;
      } else {
        invalidCount := invalidCount + 1;
      }
      assert (parsedRows + [row])[..|parsedRows|] == parsedRows;
      PartwayStep(all, parsedRows, left, headers, options, row);
      parsedRows := parsedRows + [row];
      left := left[1..];
    }
    PartwayEnds(all, parsedRows, headers, options);
    r := ParseResult(headers, parsedRows, validCount, invalidCount, |parsedRows|);
  }

  // ----- The streaming parser

  datatype RowsError = TooManyRows(limit: nat) | RecordTooLong(error: SizeError)

  /** The rows handed to the consumer, and the error that ended the iteration if one did. */
  datatype RowsResult = RowsResult(rows: seq<ParsedRow>, error: Option<RowsError>)

  /** At most `maxRows` rows come through; the next one turns into an error. */
  function Limited(rows: seq<ParsedRow>, error: Option<SizeError>, maxRows: Option<nat>): RowsResult {
    if maxRows.Some? && |rows| > maxRows.value then RowsResult(rows[..maxRows.value], Some(TooManyRows(maxRows.value)))
    else RowsResult(rows, if error.Some? then Some(RecordTooLong(error.value)) else None)
  }

  /** `iterateRows` over the records of the scanner. */
  method IterateRows(scanned: ScanResult, headers: seq<string>, options: Options, maxRows: Option<nat>) returns (r: RowsResult)
    ensures r == Limited(Rows(scanned.records, headers, 0, options), scanned.error, maxRows)
  {
    var left, out: seq<ParsedRow> := scanned.records, [];
    var rowIndex, yielded := 0, 0;
    ghost var all := Rows(scanned.records, headers, 0, options);
    PartwayStarts(left, headers, options);
    while left != []
      invariant Partway(all, out, left, headers, options)
      invariant rowIndex == yielded == |out|
      invariant maxRows.Some? ==> yielded <= maxRows.value
      decreases |left|
    {
      var parsed := BuildRow(left[0], headers, rowIndex, options);
      PartwayStep(all, out, left, headers, options, parsed);
      rowIndex := rowIndex + 1;
      yielded := yielded + 1;
      if maxRows.Some? && yielded > maxRows.value {
        return RowsResult(out, Some(TooManyRows(maxRows.value)));
      }
      out := out + [parsed];
      left := left[1..];
    }
    PartwayEnds(all, out, headers, options);
    r := RowsResult(out, if scanned.error.Some? then Some(RecordTooLong(scanned.error.value)) else None);
  }

  datatype HeadersError = HeaderRecordTooLong(error: SizeError) | RowsAlreadyConsumed

  /** The headers and rows of a stream of chunks. */
  function StreamHeaders(chunks: seq<string>, options: Options, cap: Option<nat>): Result<seq<string>, HeadersError> {
    match TakeHeader("", false, chunks, cap)
    case HeaderTooLong(e) => Failure(HeaderRecordTooLong(e))
    case Header(header, _) => Success(Values(header, options))
  }

  function StreamRows(chunks: seq<string>, options: Options, cap: Option<nat>, maxRows: Option<nat>): Result<RowsResult, HeadersError> {
    match TakeHeader("", false, chunks, cap)
    case HeaderTooLong(e) => Failure(HeaderRecordTooLong(e))
    case Header(header, tail) =>
      var scanned := Scan(INITIAL, tail, cap, AtStart);
      Success(Limited(Rows(scanned.records, Values(header, options), 0, options), scanned.error, maxRows))
  }

  /** The parser object: its closure variables are the fields. */
  class StreamingParser {
    const chunks: seq<string>
    const options: Options
    const maxRecordBytes: Option<nat>
    const maxRows: Option<nat>
    var cachedHeader: Option<seq<string>>
    var recordTail: seq<string>
    var rowsConsumed: bool

    /** A cached header is the header of the input, and the tail is what follows it. */
    ghost predicate Valid()
      reads this
    {
      cachedHeader.Some? ==>
        var h := TakeHeader("", false, chunks, maxRecordBytes);
        h.Header? && cachedHeader.value == Values(h.header, options) && recordTail == h.tail
    }

    constructor (chunks: seq<string>, options: Options, maxRecordBytes: Option<nat>, maxRows: Option<nat>)
      ensures Valid() && !rowsConsumed && cachedHeader.None?
      ensures this.chunks == chunks && this.options == options
      ensures this.maxRecordBytes == maxRecordBytes && this.maxRows == maxRows
    {
      this.chunks, this.options, this.maxRecordBytes, this.maxRows := chunks, options, maxRecordBytes, maxRows;
      cachedHeader, recordTail, rowsConsumed := None, [], false;
    }

    /** `headers()`: the same answer on every call. */
    method EnsureHeader() returns (r: Result<seq<string>, HeadersError>)
      requires Valid()
      modifies this`cachedHeader, this`recordTail
      ensures Valid() && r == StreamHeaders(chunks, options, maxRecordBytes)
      ensures r.Success? ==> cachedHeader == Some(r.value)
    {
      if cachedHeader.Some? {
        return Success(cachedHeader.value);
      }
      var h := TakeHeaderRecord(chunks, maxRecordBytes);
      if h.HeaderTooLong? {
        return Failure(HeaderRecordTooLong(h.error));
      }
      var fields := ParseRecord(h.header, options.delimiter);
      var headerFields := if options.trimValues then TrimAll(fields) else fields;
      cachedHeader := Some(headerFields);
      recordTail := h.tail;
      r := Success(headerFields);
    }

    /** `rows()`: all rows the first time, an error the second. */
    method IterateAll() returns (r: Result<RowsResult, HeadersError>)
      requires Valid()
      modifies this
      ensures Valid() && rowsConsumed
      ensures r == if old(rowsConsumed) then Failure(RowsAlreadyConsumed)
                   else StreamRows(chunks, options, maxRecordBytes, maxRows)
    {
      if rowsConsumed {
        return Failure(RowsAlreadyConsumed);
      }
      rowsConsumed := true;
      var headers := EnsureHeader();
      if headers.Failure? {
        return Failure(headers.error);
      }
      var scanned := ScanRecords(recordTail, maxRecordBytes);
      var rows := IterateRows(scanned, headers.value, options, maxRows);
      r := Success(rows);
    }
  }

  // ----- Caps never change what is delivered, only how much

  lemma {:induction false} RowsOfPrefix(a: seq<string>, b: seq<string>, headers: seq<string>, index: nat, options: Options)
    ensures Rows(a + b, headers, index, options)
            == Rows(a, headers, index, options) + Rows(b, headers, index + |a|, options)
    decreases |a|
  {
    if a == [] {
      assert a + b == b;
    } else {
      assert (a + b)[1..] == a[1..] + b;
      RowsOfPrefix(a[1..], b, headers, index + 1, options);
    }
  }

  lemma PrefixRows(a: seq<string>, b: seq<string>, headers: seq<string>, options: Options)
    requires Starts(a, b)
    ensures Rows(a, headers, 0, options) == Rows(b, headers, 0, options)[..|a|]
  {
    assert b == a + b[|a|..];
    RowsOfPrefix(a, b[|a|..], headers, 0, options);
  }

  lemma LimitedPrefix(rows: seq<ParsedRow>, whole: seq<ParsedRow>, error: Option<SizeError>, maxRows: Option<nat>)
    requires |rows| <= |whole| && rows == whole[..|rows|] && (error.None? ==> rows == whole)
    ensures var l := Limited(rows, error, maxRows);
            && |l.rows| <= |whole| && l.rows == whole[..|l.rows|]
            && (maxRows.Some? ==> |l.rows| <= maxRows.value)
            && (l.error.None? ==> l == RowsResult(whole, None))
  {
  }

  /** The records under any cap are a prefix of the uncapped ones, and all of them if nothing is thrown. */
  lemma ScanUnderCap(tail: seq<string>, cap: Option<nat>)
    ensures var a, b := Scan(INITIAL, tail, cap, AtStart), Scan(INITIAL, tail, None, AtStart);
            Starts(a.records, b.records) && b.error.None? && (a.error.None? ==> a == b)
  {
    CapExact(INITIAL, tail, if cap.Some? then cap.value else 0, AtStart);
  }

  /** The rows delivered under any caps are a prefix, at most `maxRows` long, of those of the uncapped run. */
  lemma CappedRowsArePrefix(chunks: seq<string>, options: Options, cap: Option<nat>, maxRows: Option<nat>)
    requires StreamRows(chunks, options, cap, maxRows).Success?
    ensures StreamRows(chunks, options, None, None).Success?
    ensures var capped, whole := StreamRows(chunks, options, cap, maxRows).value,
                                 StreamRows(chunks, options, None, None).value;
            && |capped.rows| <= |whole.rows| && capped.rows == whole.rows[..|capped.rows|]
            && (maxRows.Some? ==> |capped.rows| <= maxRows.value)
            && (capped.error.None? ==> capped == whole)
  {
    HeaderCapExact("", false, chunks, if cap.Some? then cap.value else 0);
    var h := TakeHeader("", false, chunks, None);
    var headers := Values(h.header, options);
    var a, b := Scan(INITIAL, h.tail, cap, AtStart), Scan(INITIAL, h.tail, None, AtStart);
    ScanUnderCap(h.tail, cap);
    PrefixRows(a.records, b.records, headers, options);
    LimitedPrefix(Rows(a.records, headers, 0, options), Rows(b.records, headers, 0, options), a.error, maxRows);
  }

  /** A limit of `n` rows delivers the first `n` and an error exactly when there are more. */
  lemma RowLimitExact(chunks: seq<string>, options: Options, n: nat)
    requires StreamRows(chunks, options, None, None).Success?
    ensures var whole := StreamRows(chunks, options, None, None).value.rows;
            StreamRows(chunks, options, None, Some(n))
            == Success(if |whole| > n then RowsResult(whole[..n], Some(TooManyRows(n))) else RowsResult(whole, None))
  {
    ScanUnderCap(TakeHeader("", false, chunks, None).tail, None);
  }

  /** Every error that ends a capped run names the limit and what exceeds it. */
  lemma ErrorsNameTheLimit(chunks: seq<string>, options: Options, cap: nat, maxRows: Option<nat>)
    ensures match StreamRows(chunks, options, Some(cap), maxRows)
      case Failure(e) => e.HeaderRecordTooLong? && e.error.limit == cap < e.error.recordBytes
      case Success(r) =>
        match r.error
        case None => true
        case Some(TooManyRows(n)) => maxRows == Some(n) && |r.rows| == n
        case Some(RecordTooLong(e)) => e.limit == cap < e.recordBytes
  {
    HeaderNamesExcess("", false, chunks, cap);
    var h := TakeHeader("", false, chunks, Some(cap));
    if h.Header? {
      ScanNamesExcess(INITIAL, h.tail, cap, AtStart);
    }
  }

  // ----- The streaming parser refines the buffered one

  /** No newline lies inside quotes. */
  ghost predicate PlainNewlines(text: string) {
    forall i :: 0 <= i < |text| && text[i] == '\n' ==> !Odd(text[..i])
  }

  /** Quotes and newlines of a text, before and after its first newline. */
  lemma PlainSplit(text: string, head: string, rest: string)
    requires text == head + "\n" + rest && '\n' !in head
    ensures PlainNewlines(text) <==> !Odd(head) && PlainNewlines(rest)
  {
    var n := |head| + 1;
    assert text[..|head|] == head;
    forall i | 0 <= i < |rest|
      ensures text[n + i] == rest[i] && Odd(text[..n + i]) == (Odd(head) != Odd(rest[..i]))
    {
      assert text[..n + i] == (head + "\n") + rest[..i];
      OddConcat(head + "\n", rest[..i]);
      OddConcat(head, "\n");
      assert !Odd("\n");
    }
    assert text[|head|] == '\n';
    assert forall k :: 0 <= k < |head| ==> text[k] == head[k] && head[k] in head;
    if PlainNewlines(text) {
      forall i | 0 <= i < |rest| && rest[i] == '\n'
        ensures !Odd(rest[..i])
      {
        assert text[n + i] == '\n';
      }
    }
    if !Odd(head) && PlainNewlines(rest) {
      forall i | 0 <= i < |text| && text[i] == '\n'
        ensures !Odd(text[..i])
      {
        if i > |head| {
          assert rest[i - n] == '\n';
        }
      }
    }
  }

  lemma FirstNewline(text: string, head: string, rest: string)
    requires text == head + "\n" + rest && '\n' !in head
    ensures IndexOf(text, '\n') == |head|
    ensures Lines(text) == [Chomp(head)] + Lines(rest)
  {
    assert forall k :: 0 <= k < |head| ==> text[k] == head[k] && head[k] in head;
    IndexOfIs(text, '\n', |head|);
    assert text[..|head|] == head && text[|head| + 1..] == rest;
  }

  lemma CutAtNewline(text: string) returns (head: string, rest: string)
    requires '\n' in text
    ensures text == head + "\n" + rest && '\n' !in head
  {
    var i := IndexOf(text, '\n');
    head, rest := text[..i], text[i + 1..];
    CutAt(text, i);
  }

  /** The lines that a newline ends all hold an even number of quotes exactly when no newline is quoted. */
  lemma {:induction false} EvenLinesArePlain(text: string)
    ensures PlainNewlines(text) <==> forall k :: 0 <= k < |Lines(text)| - 1 ==> !Odd(Lines(text)[k])
    decreases |text|
  {
    if '\n' in text {
      var head, rest := CutAtNewline(text);
      PlainSplit(text, head, rest);
      FirstNewline(text, head, rest);
      EvenLinesArePlain(rest);
      OddChomp(head);
      EvenCons(Chomp(head), Lines(rest));
    } else {
      assert forall i :: 0 <= i < |text| ==> text[i] in text;
    }
  }

  lemma EvenCons(first: string, rest: seq<string>)
    requires rest != []
    ensures (forall k :: 0 <= k < |[first] + rest| - 1 ==> !Odd(([first] + rest)[k]))
            <==> !Odd(first) && forall k :: 0 <= k < |rest| - 1 ==> !Odd(rest[k])
  {
    var all := [first] + rest;
    assert all[0] == first;
    assert forall k :: 0 <= k < |rest| ==> all[k + 1] == rest[k];
  }

  lemma OddChomp(s: string)
    ensures Odd(Chomp(s)) == Odd(s)
  {
    if Chomp(s) != s {
      assert s == Chomp(s) + "\r";
      OddConcat(Chomp(s), "\r");
      assert !Odd("\r");
    }
  }

  /** Without quoted newlines, the pieces are the lines. */
  lemma {:induction false} PlainPiecesAreLines(text: string)
    requires PlainNewlines(text)
    ensures Pieces(text) == Lines(text)
    decreases |text|
  {
    if '\n' in text {
      var head, rest := CutAtNewline(text);
      PlainSplit(text, head, rest);
      FirstNewline(text, head, rest);
      PlainPiecesAreLines(rest);
      CutEven(text, head, rest);
      Associative([Chomp(head)], Closed(rest), [Open(rest)]);
    } else {
      NoNewlineNoEnd(text, false);
      assert Closed(text) + [text] == [text];
    }
  }

  lemma CutEven(text: string, head: string, rest: string)
    requires text == head + "\n" + rest && '\n' !in head && !Odd(head)
    ensures FirstEnd(text, false) == |head|
    ensures Closed(text) == [Chomp(head)] + Closed(rest) && Open(text) == Open(rest)
  {
    NoNewlineNoEnd(head, false);
    FirstEndConcat(head, "\n" + rest, false);
    Associative(head, "\n", rest);
    CutOnce(text, head, rest);
  }

  lemma {:induction false} LinesHoldNoNewline(text: string)
    ensures forall k :: 0 <= k < |Lines(text)| ==> '\n' !in Lines(text)[k]
    decreases |text|
  {
    if '\n' in text {
      var head, rest := CutAtNewline(text);
      FirstNewline(text, head, rest);
      LinesHoldNoNewline(rest);
      assert forall c :: c in Chomp(head) ==> c in head;
    }
  }

  /** If no non-blank piece holds a newline, no newline is quoted. */
  lemma {:induction false} NewlineFreePiecesArePlain(text: string)
    requires forall s :: s in Pieces(text) && !Blank(s) ==> '\n' !in s
    ensures PlainNewlines(text)
    decreases |text|
  {
    var i := FirstEnd(text, false);
    if i == |text| {
      WholePieceIsPlain(text);
    } else {
      var head, rest := text[..i], text[i + 1..];
      CutAt(text, i);
      CutOnce(text, head, rest);
      assert Pieces(text) == [Chomp(head)] + Pieces(rest);
      forall s | s in Pieces(rest) && !Blank(s)
        ensures '\n' !in s
      {
        assert s in Pieces(text);
      }
      NewlineFreePiecesArePlain(rest);
      assert Chomp(head) in Pieces(text);
      HeadIsPlain(text, head);
      FirstEndIs(text, false);
      PlainSplit(text, head, rest);
    }
  }

  lemma QuoteBeforeNewline(s: string)
    requires FirstEnd(s, false) == |s| && '\n' in s
    ensures '"' in s
  {
    FirstEndIs(s, false);
    var k :| 0 <= k < |s| && s[k] == '\n';
    assert !EndsRecord(s, false, k);
    OddHoldsQuote(s[..k]);
  }

  /** A newline inside a record lies behind a quote, so the record is not blank. */
  lemma QuotedNewlineNotBlank(s: string)
    requires FirstEnd(s, false) == |s| && '\n' in s
    ensures !Blank(s) && !Blank(Chomp(s)) && '\n' in Chomp(s)
  {
    QuoteBeforeNewline(s);
    ChompKeeps(s, '"');
    ChompKeeps(s, '\n');
    SolidNotBlank(s, '"');
    SolidNotBlank(Chomp(s), '"');
  }

  lemma HeadIsPlain(text: string, head: string)
    requires FirstEnd(text, false) == |head| <= |text| && text[..|head|] == head
    requires !Blank(Chomp(head)) ==> '\n' !in Chomp(head)
    ensures '\n' !in head
  {
    HeadHoldsNoEnd(text, |head|);
    if '\n' in head {
      QuotedNewlineNotBlank(head);
    }
  }

  lemma HeadHoldsNoEnd(text: string, i: nat)
    requires i <= |text| && FirstEnd(text, false) == i
    ensures FirstEnd(text[..i], false) == i
  {
    assert text == text[..i] + text[i..];
    FirstEndConcat(text[..i], text[i..], false);
  }

  lemma WholePieceIsPlain(text: string)
    requires FirstEnd(text, false) == |text|
    requires forall s :: s in Pieces(text) && !Blank(s) ==> '\n' !in s
    ensures PlainNewlines(text)
  {
    assert text in Pieces(text);
    if '\n' in text {
      QuotedNewlineNotBlank(text);
    }
    assert forall i :: 0 <= i < |text| ==> text[i] in text;
  }

  /** The pieces of a text are its first record and the pieces after it. */
  lemma PiecesFromLead(text: string)
    ensures NonBlank(Pieces(text)) == NonBlank([Lead(text, false)] + Pieces(BodyOf(text)))
  {
    var i := FirstEnd(text, false);
    if i == |text| {
      assert Pieces("") == [""];
      assert Closed(text) + [text] == [text];
      NonBlankConcat([text], [""]);
      NonBlankOne("");
      assert NonBlank([text]) + [] == NonBlank([text]);
    } else {
      assert Pieces(text) == [Chomp(text[..i])] + Pieces(text[i + 1..]);
    }
  }

  /** The header and records of the stream, as one list. */
  function StreamList(text: string): seq<string> {
    [Lead(text, false)] + Records(BodyOf(text)).records
  }

  /**
   Header and records of the streaming reading are the non-blank lines of the buffered one if and only
   if no newline is quoted and the first line is not blank.
   */
  lemma StreamIsLinesExactly(text: string)
    ensures StreamList(text) == NonBlank(Lines(text)) <==> PlainNewlines(text) && !Blank(Lead(text, false))
  {
    var lead := Lead(text, false);
    PiecesFromLead(text);
    NonBlankConcat([lead], Pieces(BodyOf(text)));
    NonBlankOne(lead);
    if PlainNewlines(text) && !Blank(lead) {
      PlainPiecesAreLines(text);
    }
    if StreamList(text) == NonBlank(Lines(text)) {
      assert lead in StreamList(text);
      NonBlankIn(Lines(text), lead);
      LinesHoldNoNewline(text);
      forall s | s in Pieces(text) && !Blank(s)
        ensures '\n' !in s
      {
        NonBlankIn(Pieces(text), s);
        NonBlankIn(Lines(text), s);
      }
      NewlineFreePiecesArePlain(text);
    }
  }

  lemma QuotedNewlineDiffers(text: string, i: nat)
    requires i < |text| && text[i] == '\n' && Odd(text[..i])
    ensures StreamList(text) != NonBlank(Lines(text))
  {
    StreamIsLinesExactly(text);
  }

  lemma BlankLeadDiffers(text: string)
    requires text != "" && text[0] == '\n'
    ensures StreamList(text) != NonBlank(Lines(text))
  {
    StreamIsLinesExactly(text);
    assert Lead(text, false) == "";
  }

  /** Two texts on which they differ: a quoted newline, and a blank first line. */
  lemma StreamIsNotLines()
    ensures StreamList("a\n\"b\nc\"") != NonBlank(Lines("a\n\"b\nc\""))
    ensures StreamList("\na") != NonBlank(Lines("\na"))
  {
    var text, open := "a\n\"b\nc\"", "a\n\"b";
    assert text[..4] == open && text[4] == '\n';
    assert open[1..] == "\n\"b" && "\n\"b"[1..] == "\"b" && "\"b"[1..] == "b";
    assert Odd("\"b") && Odd("\n\"b") && Odd(open);
    QuotedNewlineDiffers(text, 4);
    BlankLeadDiffers("\na");
  }

  lemma RefinesWhenRead(chunks: seq<string>, text: string, options: Options)
    requires text == Flatten(chunks) && Stream(chunks) == StreamOf(text)
    requires StreamList(text) == NonBlank(Lines(text))
    ensures var b := Buffered(text, options);
            && StreamHeaders(chunks, options, None) == Success(b.headers)
            && StreamRows(chunks, options, None, None) == Success(RowsResult(b.rows, None))
  {
    HeaderExact("", false, chunks);
    var lines := NonBlank(Lines(text));
    assert lines[0] == Lead(text, false) && lines[1..] == Records(BodyOf(text)).records;
  }

  /** On a safe chunking of such a text, both parsers return the same headers and the same rows. */
  lemma StreamingRefinesBuffered(chunks: seq<string>, options: Options)
    requires SafeChunks(chunks)
    requires PlainNewlines(Flatten(chunks)) && !Blank(Lead(Flatten(chunks), false))
    ensures var b := Buffered(Flatten(chunks), options);
            && StreamHeaders(chunks, options, None) == Success(b.headers)
            && StreamRows(chunks, options, None, None) == Success(RowsResult(b.rows, None))
  {
    StreamReadsExactly(chunks);
    StreamIsLinesExactly(Flatten(chunks));
    RefinesWhenRead(chunks, Flatten(chunks), options);
  }

  /** For such a text, the streamed header and records are the buffered lines exactly on the safe chunkings. */
  lemma SafeChunksExactly(chunks: seq<string>)
    requires PlainNewlines(Flatten(chunks)) && !Blank(Lead(Flatten(chunks), false))
    ensures [Stream(chunks).0] + Stream(chunks).1.records == NonBlank(Lines(Flatten(chunks))) && Stream(chunks).1.error.None?
            <==> SafeChunks(chunks)
  {
    var text, s := Flatten(chunks), Stream(chunks);
    StreamReadsExactly(chunks);
    StreamIsLinesExactly(text);
    if [s.0] + s.1.records == StreamList(text) {
      assert ([s.0] + s.1.records)[0] == StreamList(text)[0];
      assert ([s.0] + s.1.records)[1..] == StreamList(text)[1..];
    }
  }
}
