/**
 Splitting one record into fields (`parseRecord` of the streaming parser, `parseCsvLine` of the buffered
 one) and the printer it inverts: every field quoted, quotes doubled (section 2 of RFC 4180).
 */
module CsvFields {
  import opened Wrappers
  import opened CsvText
  import opened CsvScan
  import opened CsvChunks

  // ----- Parsing

  /** The fields of `s`, when `current` has been read of the first one in quote state `quoted`. */
  function Fields(s: string, delimiter: char, current: string, quoted: bool): (fields: seq<string>)
    ensures fields != []
    decreases |s|
  {
    if s == "" then [current]
    else if quoted then
      if s[0] != '"' then Fields(s[1..], delimiter, current + [s[0]], true)
      else if |s| > 1 && s[1] == '"' then Fields(s[2..], delimiter, current + "\"", true)
      else Fields(s[1..], delimiter, current, false)
    else if s[0] == '"' then Fields(s[1..], delimiter, current, true)
    else if s[0] == delimiter then [current] + Fields(s[1..], delimiter, "", false)
    else Fields(s[1..], delimiter, current + [s[0]], false)
  }

  function FieldsOf(record: string, delimiter: char): (fields: seq<string>)
    ensures fields != []
  {
    Fields(record, delimiter, "", false)
  }

  /** One step of either parser loop, at the head of what is left of the record. */
  lemma FieldsStep(record: string, i: nat, delimiter: char, current: string, quoted: bool)
    requires i < |record|
    ensures var s := record[i..];
            Fields(s, delimiter, current, quoted) ==
            if quoted then
              if record[i] != '"' then Fields(record[i + 1..], delimiter, current + [record[i]], true)
              else if i + 1 < |record| && record[i + 1] == '"' then Fields(record[i + 2..], delimiter, current + "\"", true)
              else Fields(record[i + 1..], delimiter, current, false)
            else if record[i] == '"' then Fields(record[i + 1..], delimiter, current, true)
            else if record[i] == delimiter then [current] + Fields(record[i + 1..], delimiter, "", false)
            else Fields(record[i + 1..], delimiter, current + [record[i]], false)
  {
    var s := record[i..];
    assert s[1..] == record[i + 1..];
    assert |s| > 1 ==> s[2..] == record[i + 2..] && s[1] == record[i + 1];
  }

  /** `parseRecord`: a loop whose branches leave it by `continue`. */
  method ParseRecord(record: string, delimiter: char) returns (fields: seq<string>)
    ensures fields == FieldsOf(record, delimiter)
  {
    fields := [];
    var current, inQuotes, i := "", false, 0;
    ghost var left := record;
    while i < |record|
      invariant 0 <= i <= |record| && |left| == |record| - i
      invariant i > 0 ==> left == record[i..]
      invariant i == 0 ==> left == record
      invariant FieldsOf(record, delimiter) == fields + Fields(left, delimiter, current, inQuotes)
      decreases |record| - i
    {
      var ch := record[i];
      assert left == record[i..];
      FieldsStep(record, i, delimiter, current, inQuotes);
      if inQuotes {
        if ch == '"' {
          if i + 1 < |record| && record[i + 1] == '"' {
            current := current + "\"";
            i := i + 2;
            left := record[i..];
            continue;
          }
          inQuotes := false;
          i := i + 1;
          left := record[i..];
          continue;
        }
        current := current + [ch];
        i := i + 1;
        left := record[i..];
        continue;
      }
      if ch == '"' {
        inQuotes := true;
        i := i + 1;
        left := record[i..];
        continue;
      }
      if ch == delimiter {
        fields := fields + [current];
        current := "";
        i := i + 1;
        left := record[i..];
        continue;
      }
      current := current + [ch];
      i := i + 1;
      left := record[i..];
    }
    fields := fields + [current];
  }

  /** `parseCsvLine`: the same state machine with nested branches, as the buffered parser has it. */
  method ParseCsvLine(line: string, delimiter: char) returns (fields: seq<string>)
    ensures fields == FieldsOf(line, delimiter)
  {
    fields := [];
    var current, inQuotes, i := "", false, 0;
    ghost var left := line;
    while i < |line|
      invariant 0 <= i <= |line| && |left| == |line| - i
      invariant i > 0 ==> left == line[i..]
      invariant i == 0 ==> left == line
      invariant FieldsOf(line, delimiter) == fields + Fields(left, delimiter, current, inQuotes)
      decreases |line| - i
    {
      var ch := line[i];
      assert left == line[i..];
      FieldsStep(line, i, delimiter, current, inQuotes);
      if inQuotes {
        if ch == '"' {
          if i + 1 < |line| && line[i + 1] == '"' {
            current := current + "\"";
            i := i + 2;
          } else {
            inQuotes := false;
            i := i + 1;
          }
        } else {
          current := current + [ch];
          i := i + 1;
        }
      } else {
        if ch == '"' {
          inQuotes := true;
        } else if ch == delimiter {
          fields := fields + [current];
          current := "";
        } else {
          current := current + [ch];
        }
        i := i + 1;
      }
      left := line[i..];
    }
    fields := fields + [current];
  }

  // ----- Delimiters outside quotes

  /** One character that does not leave the quoted or unquoted state it is read in. */
  lemma FieldsHead(c: char, rest: string, delimiter: char, current: string, quoted: bool)
    requires c != '"'
    ensures Fields([c] + rest, delimiter, current, quoted)
            == if !quoted && c == delimiter then [current] + Fields(rest, delimiter, "", false)
               else Fields(rest, delimiter, current + [c], quoted)
  {
    assert ([c] + rest)[1..] == rest;
  }

  lemma FieldsQuote(rest: string, delimiter: char, current: string, quoted: bool)
    requires quoted ==> rest != "" ==> rest[0] != '"'
    ensures Fields("\"" + rest, delimiter, current, quoted) == Fields(rest, delimiter, current, !quoted)
  {
    assert ("\"" + rest)[1..] == rest;
  }

  lemma FieldsTwoQuotes(rest: string, delimiter: char, current: string)
    ensures Fields("\"\"" + rest, delimiter, current, true) == Fields(rest, delimiter, current + "\"", true)
  {
    assert ("\"\"" + rest)[2..] == rest;
  }

  lemma OddTwoQuotes(rest: string)
    ensures Odd("\"\"" + rest) == Odd(rest)
  {
    assert ("\"\"" + rest)[1..] == "\"" + rest;
    assert ("\"" + rest)[1..] == rest;
  }

  lemma OddHead(c: char, rest: string)
    ensures Odd([c] + rest) == ((c == '"') != Odd(rest))
  {
    assert ([c] + rest)[1..] == rest;
  }

  lemma {:induction false} SplitsFrom(a: string, b: string, delimiter: char, current: string, quoted: bool)
    requires Odd(a) == quoted && delimiter != '"'
    ensures Fields(a + ([delimiter] + b), delimiter, current, quoted)
            == Fields(a, delimiter, current, quoted) + FieldsOf(b, delimiter)
    decreases |a|
  {
    var more := [delimiter] + b;
    if a == "" {
      assert "" + more == more;
      FieldsHead(delimiter, b, delimiter, current, false);
    } else if quoted && |a| > 1 && a[0] == '"' && a[1] == '"' {
      var rest := a[2..];
      assert a == "\"\"" + rest;
      Associative("\"\"", rest, more);
      OddTwoQuotes(rest);
      FieldsTwoQuotes(rest, delimiter, current);
      FieldsTwoQuotes(rest + more, delimiter, current);
      SplitsFrom(rest, b, delimiter, current + "\"", true);
    } else {
      SplitFirst(a);
      SplitsHead(a[0], a[1..], b, delimiter, current, quoted);
    }
  }

  lemma {:induction false} SplitsHead(c: char, rest: string, b: string, delimiter: char, current: string, quoted: bool)
    requires Odd([c] + rest) == quoted && delimiter != '"'
    requires !(quoted && c == '"' && rest != "" && rest[0] == '"')
    ensures Fields([c] + rest + ([delimiter] + b), delimiter, current, quoted)
            == Fields([c] + rest, delimiter, current, quoted) + FieldsOf(b, delimiter)
    decreases |rest| + 1, 0
  {
    var more := [delimiter] + b;
    OddHead(c, rest);
    Associative([c], rest, more);
    if c == '"' {
      FieldsQuote(rest, delimiter, current, quoted);
      FieldsQuote(rest + more, delimiter, current, quoted);
      SplitsFrom(rest, b, delimiter, current, !quoted);
    } else {
      FieldsHead(c, rest, delimiter, current, quoted);
      FieldsHead(c, rest + more, delimiter, current, quoted);
      if !quoted && c == delimiter {
        SplitsFrom(rest, b, delimiter, "", false);
        Associative([current], Fields(rest, delimiter, "", false), FieldsOf(b, delimiter));
      } else {
        SplitsFrom(rest, b, delimiter, current + [c], quoted);
      }
    }
  }

  /** A delimiter with an even number of quotes before it parts the fields before it from those after it. */
  lemma SplitsAtDelimiter(a: string, b: string, delimiter: char)
    requires !Odd(a) && delimiter != '"'
    ensures FieldsOf(a + [delimiter] + b, delimiter) == FieldsOf(a, delimiter) + FieldsOf(b, delimiter)
  {
    SplitsFrom(a, b, delimiter, "", false);
    Associative(a, [delimiter], b);
  }

  // ----- Printing

  /** A field as it may be written: in quotes, or as it is. */
  datatype Cell = Cell(text: string, quoted: bool)

  /** How a table is written: rows end in `\n` or `\r\n`, and so may the last one. */
  datatype Style = Style(delimiter: char, crlf: bool, ended: bool) {
    function LineEnd(): string {
      if crlf then "\r\n" else "\n"
    }
  }

  predicate IsDelimiter(c: char) {
    c == ',' || c == ';' || c == '\t'
  }

  /** Only a text without quotes, delimiters and newlines may be written as it is (section 2 of RFC 4180). */
  predicate Writable(cell: Cell, delimiter: char) {
    cell.quoted || ('"' !in cell.text && delimiter !in cell.text && '\n' !in cell.text)
  }

  predicate AreWritable(cells: seq<Cell>, delimiter: char) {
    cells != [] && forall k :: 0 <= k < |cells| ==> Writable(cells[k], delimiter)
  }

  function Texts(cells: seq<Cell>): (texts: seq<string>)
    ensures |texts| == |cells|
  {
    seq(|cells|, k requires 0 <= k < |cells| => cells[k].text)
  }

  /** A field with every quote doubled. */
  function Doubled(field: string): string {
    if field == "" then ""
    else (if field[0] == '"' then "\"\"" else [field[0]]) + Doubled(field[1..])
  }

  function PrintCell(cell: Cell): string {
    if cell.quoted then "\"" + Doubled(cell.text) + "\"" else cell.text
  }

  function PrintRow(cells: seq<Cell>, delimiter: char): string
    requires cells != []
  {
    if |cells| == 1 then PrintCell(cells[0])
    else PrintCell(cells[0]) + [delimiter] + PrintRow(cells[1..], delimiter)
  }

  /** The row is not blank, and does not end in a carriage return that would pass for a part of the line end. */
  predicate IsLine(row: string) {
    !Blank(row) && Chomp(row) == row
  }

  ghost predicate IsTable(rows: seq<seq<Cell>>, delimiter: char) {
    && IsDelimiter(delimiter)
    && forall k :: 0 <= k < |rows| ==> AreWritable(rows[k], delimiter) && IsLine(PrintRow(rows[k], delimiter))
  }

  function PrintRows(rows: seq<seq<Cell>>, delimiter: char): seq<string>
    requires IsTable(rows, delimiter)
  {
    if rows == [] then [] else [PrintRow(rows[0], delimiter)] + PrintRows(rows[1..], delimiter)
  }

  function PrintTable(rows: seq<seq<Cell>>, style: Style): string
    requires IsTable(rows, style.delimiter)
  {
    if rows == [] then ""
    else if |rows| == 1 && !style.ended then PrintRow(rows[0], style.delimiter)
    else PrintRow(rows[0], style.delimiter) + style.LineEnd() + PrintTable(rows[1..], style)
  }

  // ----- Parsing what was printed

  lemma HeadOfConcat(a: string, b: string, n: nat)
    requires n <= |a|
    ensures (a + b)[n..] == a[n..] + b
  {
  }

  /** Reading a doubled field up to its closing quote collects exactly the field. */
  lemma {:induction false} ReadDoubled(field: string, rest: string, delimiter: char, current: string)
    requires rest != "" ==> rest[0] != '"'
    ensures Fields(Doubled(field) + ("\"" + rest), delimiter, current, true) == Fields(rest, delimiter, current + field, false)
    decreases |field|
  {
    var close := "\"" + rest;
    if field == "" {
      assert "" + close == close && close[1..] == rest && current + "" == current;
    } else {
      var first, more := field[0], Doubled(field[1..]);
      ReadDoubled(field[1..], rest, delimiter, current + [first]);
      assert current + [first] + field[1..] == current + field;
      var head := if first == '"' then "\"\"" else [first];
      Associative(head, more, close);
      HeadOfConcat(head, more + close, |head|);
      assert head[|head|..] + (more + close) == more + close;
    }
  }

  lemma ReadQuoted(field: string, rest: string, delimiter: char, current: string)
    requires rest != "" ==> rest[0] != '"'
    ensures Fields("\"" + Doubled(field) + "\"" + rest, delimiter, current, false) == Fields(rest, delimiter, current + field, false)
  {
    var inner := Doubled(field) + ("\"" + rest);
    assert "\"" + Doubled(field) + "\"" + rest == "\"" + inner;
    assert ("\"" + inner)[1..] == inner;
    ReadDoubled(field, rest, delimiter, current);
  }

  /** Reading a field written as it is collects the field. */
  lemma {:induction false} ReadPlain(field: string, rest: string, delimiter: char, current: string)
    requires '"' !in field && delimiter !in field
    ensures Fields(field + rest, delimiter, current, false) == Fields(rest, delimiter, current + field, false)
    decreases |field|
  {
    if field == "" {
      assert "" + rest == rest && current + "" == current;
    } else {
      var c, more := field[0], field[1..];
      assert field == [c] + more && c in field && forall d :: d in more ==> d in field;
      Associative([c], more, rest);
      FieldsHead(c, more + rest, delimiter, current, false);
      ReadPlain(more, rest, delimiter, current + [c]);
      Associative(current, [c], more);
    }
  }

  /** A cell adds its text to whatever has been read of the field before it. */
  lemma ReadCell(cell: Cell, rest: string, delimiter: char, current: string)
    requires Writable(cell, delimiter) && (rest != "" ==> rest[0] != '"')
    ensures Fields(PrintCell(cell) + rest, delimiter, current, false) == Fields(rest, delimiter, current + cell.text, false)
  {
    if cell.quoted {
      ReadQuoted(cell.text, rest, delimiter, current);
    } else {
      ReadPlain(cell.text, rest, delimiter, current);
    }
  }

  lemma {:induction false} ReadOpen(field: string, delimiter: char, current: string)
    requires '"' !in field
    ensures Fields(field, delimiter, current, true) == [current + field]
    decreases |field|
  {
    if field == "" {
      assert current + "" == current;
    } else {
      assert field == [field[0]] + field[1..];
      FieldsHead(field[0], field[1..], delimiter, current, true);
      ReadOpen(field[1..], delimiter, current + [field[0]]);
      Associative(current, [field[0]], field[1..]);
    }
  }

  /** A quote that is never closed takes the rest of the record into its field, delimiters included. */
  lemma UnclosedQuote(field: string, delimiter: char)
    requires '"' !in field
    ensures FieldsOf("\"" + field, delimiter) == [field]
  {
    FieldsQuote(field, delimiter, "", false);
    ReadOpen(field, delimiter, "");
    assert "" + field == field;
  }

  /** Parsing a printed row gives its fields back, embedded quotes, delimiters and newlines included. */
  lemma {:induction false} ParsePrintedRow(cells: seq<Cell>, delimiter: char)
    requires AreWritable(cells, delimiter) && delimiter != '"'
    ensures FieldsOf(PrintRow(cells, delimiter), delimiter) == Texts(cells)
    decreases |cells|
  {
    if |cells| == 1 {
      ReadCell(cells[0], "", delimiter, "");
      assert "" + cells[0].text == cells[0].text;
      assert PrintCell(cells[0]) + "" == PrintCell(cells[0]);
    } else {
      var rest := PrintRow(cells[1..], delimiter);
      ParsePrintedRow(cells[1..], delimiter);
      ReadCell(cells[0], [delimiter] + rest, delimiter, "");
      assert "" + cells[0].text == cells[0].text;
      Associative(PrintCell(cells[0]), [delimiter], rest);
      FieldsHead(delimiter, rest, delimiter, cells[0].text, false);
      assert Texts(cells) == [cells[0].text] + Texts(cells[1..]);
    }
  }

  // ----- Finding the printed rows again

  /** No record end inside, and the quote state is back where it began. */
  predicate Balanced(s: string) {
    FirstEnd(s, false) == |s| && !Odd(s)
  }

  lemma BalancedConcat(a: string, b: string)
    requires Balanced(a) && Balanced(b)
    ensures Balanced(a + b)
  {
    FirstEndConcat(a, b, false);
    OddConcat(a, b);
  }

  lemma {:induction false} DoubledInside(field: string)
    ensures FirstEnd(Doubled(field), true) == |Doubled(field)| && !Odd(Doubled(field))
  {
    if field != "" {
      DoubledInside(field[1..]);
      var head := if field[0] == '"' then "\"\"" else [field[0]];
      InsideHead(field[0]);
      FirstEndConcat(head, Doubled(field[1..]), true);
      OddConcat(head, Doubled(field[1..]));
    }
  }

  lemma InsideHead(c: char)
    ensures var head := if c == '"' then "\"\"" else [c];
            FirstEnd(head, true) == |head| && !Odd(head)
  {
    assert "\"\""[1..] == "\"";
    assert [c][1..] == "";
  }

  lemma QuotedBalanced(field: string)
    ensures Balanced("\"" + Doubled(field) + "\"")
  {
    DoubledInside(field);
    FirstEndConcat("\"", Doubled(field), false);
    OddConcat("\"", Doubled(field));
    FirstEndConcat("\"" + Doubled(field), "\"", false);
    OddConcat("\"" + Doubled(field), "\"");
    assert Odd("\"") && FirstEnd("\"", true) == 1 && FirstEnd("\"", false) == 1;
  }

  lemma PlainBalanced(field: string)
    requires '"' !in field && '\n' !in field
    ensures Balanced(field)
  {
    NoNewlineNoEnd(field, false);
    if Odd(field) {
      OddHoldsQuote(field);
    }
  }

  lemma CellBalanced(cell: Cell, delimiter: char)
    requires Writable(cell, delimiter)
    ensures Balanced(PrintCell(cell))
  {
    if cell.quoted {
      QuotedBalanced(cell.text);
    } else {
      PlainBalanced(cell.text);
    }
  }

  lemma {:induction false} RowBalanced(cells: seq<Cell>, delimiter: char)
    requires AreWritable(cells, delimiter) && IsDelimiter(delimiter)
    ensures Balanced(PrintRow(cells, delimiter))
    decreases |cells|
  {
    CellBalanced(cells[0], delimiter);
    if |cells| > 1 {
      PlainBalanced([delimiter]);
      BalancedConcat(PrintCell(cells[0]), [delimiter]);
      RowBalanced(cells[1..], delimiter);
      BalancedConcat(PrintCell(cells[0]) + [delimiter], PrintRow(cells[1..], delimiter));
    }
  }

  /** A row of quoted cells is a line: it starts and ends with a quote. */
  lemma {:induction false} QuotedRowIsLine(cells: seq<Cell>, delimiter: char)
    requires cells != [] && forall k :: 0 <= k < |cells| ==> cells[k].quoted
    ensures AreWritable(cells, delimiter) && IsLine(PrintRow(cells, delimiter))
    ensures var row := PrintRow(cells, delimiter); row != "" && row[0] == '"' && row[|row| - 1] == '"'
    decreases |cells|
  {
    if |cells| > 1 {
      QuotedRowIsLine(cells[1..], delimiter);
    }
  }

  lemma PiecesWithoutEnd(text: string)
    requires FirstEnd(text, false) == |text|
    ensures Pieces(text) == [text]
  {
    assert Closed(text) + [text] == [text];
  }

  /** A row in front of a line end is the first piece. */
  lemma CutRow(row: string, style: Style, rest: string)
    requires Balanced(row) && Chomp(row) == row
    ensures var text := row + style.LineEnd() + rest;
            && FirstEnd(text, false) < |text|
            && Chomp(text[..FirstEnd(text, false)]) == row && text[FirstEnd(text, false) + 1..] == rest
            && Pieces(text) == [row] + Pieces(rest)
  {
    var head := if style.crlf then row + "\r" else row;
    if style.crlf {
      PlainBalanced("\r");
      BalancedConcat(row, "\r");
    }
    var text := row + style.LineEnd() + rest;
    assert text == head + "\n" + rest;
    FirstEndConcat(head, "\n" + rest, false);
    Associative(head, "\n", rest);
    CutOnce(text, head, rest);
    assert text[..|head|] == head && text[|head| + 1..] == rest;
    Associative([row], Closed(rest), [Open(rest)]);
  }

  lemma NonBlankCons(first: string, rest: seq<string>)
    requires !Blank(first)
    ensures NonBlank([first] + rest) == [first] + NonBlank(rest)
  {
    assert ([first] + rest)[1..] == rest;
  }

  /** The non-blank pieces of a printed table are the printed rows. */
  lemma {:induction false} PiecesOfTable(rows: seq<seq<Cell>>, style: Style)
    requires IsTable(rows, style.delimiter)
    ensures NonBlank(Pieces(PrintTable(rows, style))) == PrintRows(rows, style.delimiter)
    decreases |rows|
  {
    if rows == [] {
      PiecesWithoutEnd("");
      NonBlankOne("");
    } else {
      var row := PrintRow(rows[0], style.delimiter);
      RowBalanced(rows[0], style.delimiter);
      PiecesOfTable(rows[1..], style);
      if |rows| == 1 && !style.ended {
        PiecesWithoutEnd(row);
        NonBlankOne(row);
        assert [row] + PrintRows(rows[1..], style.delimiter) == [row];
      } else {
        var rest := PrintTable(rows[1..], style);
        CutRow(row, style, rest);
        NonBlankCons(row, Pieces(rest));
      }
    }
  }

  /** The fields of every record. */
  function ParseAll(records: seq<string>, delimiter: char): (rows: seq<seq<string>>)
    ensures |rows| == |records|
  {
    if records == [] then [] else [FieldsOf(records[0], delimiter)] + ParseAll(records[1..], delimiter)
  }

  lemma {:induction false} ParsePrintedRows(rows: seq<seq<Cell>>, delimiter: char)
    requires IsTable(rows, delimiter)
    ensures |PrintRows(rows, delimiter)| == |rows|
    ensures forall k :: 0 <= k < |rows| ==> ParseAll(PrintRows(rows, delimiter), delimiter)[k] == Texts(rows[k])
    decreases |rows|
  {
    if rows != [] {
      var rest := PrintRows(rows[1..], delimiter);
      ParsePrintedRow(rows[0], delimiter);
      ParsePrintedRows(rows[1..], delimiter);
      assert PrintRows(rows, delimiter)[1..] == rest;
      forall k | 0 < k < |rows|
        ensures ParseAll(PrintRows(rows, delimiter), delimiter)[k] == Texts(rows[k])
      {
        assert rows[1..][k - 1] == rows[k];
      }
    }
  }

  /**
   The round trip: print any table, cut the text into chunks of which no boundary hurts, scan it and parse every
   record, and the same rows come back.
   */
  lemma PrintScanParse(rows: seq<seq<Cell>>, style: Style, chunks: seq<string>)
    requires IsTable(rows, style.delimiter)
    requires Flatten(chunks) == PrintTable(rows, style) && NoHurt("", chunks)
    ensures var r := Scan(INITIAL, chunks, None, AtStart);
            && r.error.None? && |r.records| == |rows|
            && forall k :: 0 <= k < |rows| ==> ParseAll(r.records, style.delimiter)[k] == Texts(rows[k])
  {
    ScanReadsExactly(chunks);
    PiecesOfTable(rows, style);
    ParsePrintedRows(rows, style.delimiter);
  }
}
