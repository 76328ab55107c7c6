/**
 The streaming record scanner (packages/batch-core/src/streaming-csv-parser.ts, `scanRecords`).

 The scanner keeps a rolling buffer, a quote flag and the position where scanning resumes. After a
 chunk that completed a record it resumes at the start of the surviving tail although the quote flag
 already covers that tail. The main theorem says exactly for which chunkings this matters.
 */
module CsvScan {
  import opened Wrappers
  import opened Strings
  import opened CsvText

  datatype SizeError = SizeError(recordBytes: nat, limit: nat)

  /** The records yielded, and the error that ended the iteration if one did. */
  datatype ScanResult = ScanResult(records: seq<string>, error: Option<SizeError>)

  /** The records completed by one chunk, up to the first that is too long. */
  datatype Emitted = Emitted(records: seq<string>, error: Option<SizeError>)

  /** What the inner loop leaves behind after one chunk; an error makes `tail` and `quoted` irrelevant. */
  datatype Drained = Drained(records: seq<string>, tail: string, quoted: bool, error: Option<SizeError>)

  datatype State = State(buf: string, quoted: bool, scanPos: nat) {
    predicate Valid() {
      scanPos <= |buf|
    }
  }

  /** Where scanning resumes in the tail that survives a chunk: as coded, or as the comment intends. */
  datatype Resume = AtStart | AtEnd

  predicate OverCap(n: nat, cap: Option<nat>) {
    cap.Some? && n > cap.value
  }

  // ----- What the scanner computes

  /** Whether an odd number of quotes lies between two positions. */
  predicate OddBetween(buf: string, from: nat, end: nat)
    requires from <= end <= |buf|
  {
    from < end && OddBetween(buf, from, end - 1) != (buf[end - 1] == '"')
  }

  /** Where the search that resumes at `scanPos` finds the next record end. */
  function NextEnd(buf: string, scanPos: nat, quoted: bool): (i: nat)
    requires scanPos <= |buf|
    ensures scanPos <= i <= |buf|
    decreases |buf| - scanPos
  {
    if scanPos == |buf| || (buf[scanPos] == '\n' && !quoted) then scanPos
    else NextEnd(buf, scanPos + 1, quoted != (buf[scanPos] == '"'))
  }

  /** The texts closed by a buffer whose first search resumes at `scanPos`. */
  function ClosedFrom(buf: string, scanPos: nat, quoted: bool): seq<string>
    requires scanPos <= |buf|
  {
    var i := NextEnd(buf, scanPos, quoted);
    if i == |buf| then [] else [Chomp(buf[..i])] + Closed(buf[i + 1..])
  }

  function OpenFrom(buf: string, scanPos: nat, quoted: bool): (tail: string)
    requires scanPos <= |buf|
    ensures |tail| <= |buf|
  {
    var i := NextEnd(buf, scanPos, quoted);
    if i == |buf| then buf else Open(buf[i + 1..])
  }

  function QuotedFrom(buf: string, scanPos: nat, quoted: bool): bool
    requires scanPos <= |buf|
  {
    var i := NextEnd(buf, scanPos, quoted);
    if i == |buf| then quoted != OddBetween(buf, scanPos, |buf|) else Odd(buf[i + 1..])
  }

  /** Blank texts are dropped; the first text over the cap ends everything. */
  function EmitAll(pieces: seq<string>, cap: Option<nat>): Emitted {
    if pieces == [] then Emitted([], None)
    else if Blank(pieces[0]) then EmitAll(pieces[1..], cap)
    else if OverCap(|pieces[0]|, cap) then Emitted([], Some(SizeError(|pieces[0]|, cap.value)))
    else
      var rest := EmitAll(pieces[1..], cap);
      rest.(records := [pieces[0]] + rest.records)
  }

  /** The inner loop over one buffer. */
  function Drain(buf: string, scanPos: nat, quoted: bool, cap: Option<nat>): (d: Drained)
    requires scanPos <= |buf|
    ensures |d.tail| <= |buf|
  {
    var e := EmitAll(ClosedFrom(buf, scanPos, quoted), cap);
    Drained(e.records, OpenFrom(buf, scanPos, quoted), QuotedFrom(buf, scanPos, quoted), e.error)
  }

  /** What one chunk yields, and the state carried to the next chunk. */
  datatype Taken = Taken(records: seq<string>, next: State, error: Option<SizeError>)

  function Take(state: State, chunk: string, cap: Option<nat>, resume: Resume): (t: Taken)
    requires state.Valid()
    ensures t.next.Valid()
  {
    var buf := state.buf + chunk;
    var d := Drain(buf, state.scanPos, state.quoted, cap);
    var scanPos := if |d.tail| < |buf| && resume == AtStart then 0 else |d.tail|;
    var error := if d.error.Some? then d.error
                 else if OverCap(|d.tail|, cap) then Some(SizeError(|d.tail|, cap.value))
                 else None;
    Taken(d.records, State(d.tail, d.quoted, scanPos), error)
  }

  function Prepend(records: seq<string>, r: ScanResult): ScanResult {
    r.(records := records + r.records)
  }

  /** The unterminated last record. */
  function Flush(buf: string, cap: Option<nat>): ScanResult {
    if Blank(buf) then ScanResult([], None)
    else if OverCap(|buf|, cap) then ScanResult([], Some(SizeError(|buf|, cap.value)))
    else ScanResult([buf], None)
  }

  function Scan(state: State, chunks: seq<string>, cap: Option<nat>, resume: Resume): ScanResult
    requires state.Valid()
    decreases chunks
  {
    if chunks == [] then Flush(state.buf, cap)
    else
      var t := Take(state, chunks[0], cap, resume);
      if t.error.Some? then ScanResult(t.records, t.error)
      else Prepend(t.records, Scan(t.next, chunks[1..], cap, resume))
  }

  const INITIAL := State("", false, 0)

  // ----- The loops of the source

  /** The outcome of the inner loop: positions instead of texts. */
  datatype Looped = Looped(records: seq<string>, recordStart: nat, quoted: bool, error: Option<SizeError>)

  /** A completed record in front of what the rest of the loop gives. */
  function EmitLooped(record: string, rest: Looped, recordStart: nat, quoted: bool, cap: Option<nat>): Looped {
    if Blank(record) then rest
    else if OverCap(|record|, cap) then Looped([], recordStart, quoted, Some(SizeError(|record|, cap.value)))
    else rest.(records := [record] + rest.records)
  }

  /** The text between two positions, spelled out so that no slice is taken at position zero. */
  function Between(buf: string, from: nat, end: nat): (s: string)
    requires from <= end <= |buf|
    ensures |s| == end - from
  {
    if from == end then "" else Between(buf, from, end - 1) + [buf[end - 1]]
  }

  lemma {:induction false} BetweenIs(buf: string, from: nat, end: nat)
    requires from <= end <= |buf|
    ensures Between(buf, from, end) == buf[from..end]
  {
    if from < end {
      BetweenIs(buf, from, end - 1);
      assert buf[from..end] == buf[from..end - 1] + [buf[end - 1]];
    }
  }

  /** The inner loop from position `i` on, one character at a time. */
  function Loop(buf: string, recordStart: nat, i: nat, quoted: bool, cap: Option<nat>): (l: Looped)
    requires recordStart <= i <= |buf|
    ensures recordStart <= l.recordStart <= |buf|
    decreases |buf| - i
  {
    if i == |buf| then Looped([], recordStart, quoted, None)
    else if buf[i] == '"' then Loop(buf, recordStart, i + 1, !quoted, cap)
    else if quoted || buf[i] != '\n' then Loop(buf, recordStart, i + 1, quoted, cap)
    else EmitLooped(Chomp(Between(buf, recordStart, i)), Loop(buf, i + 1, i + 1, quoted, cap), recordStart, quoted, cap)
  }

  function Add(records: seq<string>, l: Looped): Looped {
    l.(records := records + l.records)
  }

  lemma AddEmitted(records: seq<string>, record: string, rest: Looped, recordStart: nat, quoted: bool, cap: Option<nat>)
    ensures Add(records, EmitLooped(record, rest, recordStart, quoted, cap))
            == if Blank(record) then Add(records, rest)
               else if OverCap(|record|, cap) then
                 Looped(records, recordStart, quoted, Some(SizeError(|record|, cap.value)))
               else Add(records + [record], rest)
  {
    Associative(records, [record], rest.records);
    assert records + [] == records;
  }

  /** The two statements that cut a record out of the buffer. */
  method CutRecord(buf: string, recordStart: nat, i: nat) returns (record: string)
    requires recordStart <= i <= |buf|
    ensures record == Chomp(Between(buf, recordStart, i))
  {
    BetweenIs(buf, recordStart, i);
    var end := i;
    if end > recordStart && buf[end - 1] == '\r' {
      end := end - 1;
    }
    record := buf[recordStart..end];
  }

  /** The inner `for` loop: one pass over the buffer with a moving record start. */
  method DrainBuffer(buf: string, scanPos: nat, inQuotes: bool, maxRecordBytes: Option<nat>) returns (l: Looped)
    requires scanPos <= |buf|
    ensures l == Loop(buf, 0, scanPos, inQuotes, maxRecordBytes)
  {
    var records: seq<string>, recordStart: nat, quoted := [], 0, inQuotes;
    var i := scanPos;
    ghost var whole := Loop(buf, 0, scanPos, inQuotes, maxRecordBytes);
    assert [] + whole.records == whole.records;
    while i < |buf|
      invariant recordStart <= i <= |buf|
      invariant whole == Add(records, Loop(buf, recordStart, i, quoted, maxRecordBytes))
    {
      var ch := buf[i];
      if ch == '"' {
        quoted := !quoted;
      } else if !quoted && ch == '\n' {
        var record := CutRecord(buf, recordStart, i);
        AddEmitted(records, record, Loop(buf, i + 1, i + 1, quoted, maxRecordBytes), recordStart, quoted, maxRecordBytes);
        TrimEmpty(record);
        if Trim(record) != "" {
          if maxRecordBytes.Some? && |record| > maxRecordBytes.value {
            return Looped(records, recordStart, quoted, Some(SizeError(|record|, maxRecordBytes.value)));
          }
          records := records + [record];
        }
        recordStart := i + 1;
      }
      i := i + 1;
    }
    assert records + [] == records;
    l := Looped(records, recordStart, quoted, None);
  }

  lemma {:induction false} OddBetweenFirst(buf: string, from: nat, end: nat)
    requires from < end <= |buf|
    ensures OddBetween(buf, from, end) == ((buf[from] == '"') != OddBetween(buf, from + 1, end))
    decreases end
  {
    if from + 1 < end {
      OddBetweenFirst(buf, from, end - 1);
    }
  }

  /** Between the end of `pre` and the end of the buffer lies `post`. */
  lemma {:induction false} OddBetweenIs(pre: string, post: string)
    ensures OddBetween(pre + post, |pre|, |pre + post|) == Odd(post)
    decreases |post|
  {
    if post != "" {
      OddBetweenFirst(pre + post, |pre|, |pre + post|);
      OddBetweenIs(pre + [post[0]], post[1..]);
      assert pre + [post[0]] + post[1..] == pre + post;
    }
  }

  /** A search that resumes after `pre` is a search of `post`. */
  lemma {:induction false} NextEndAfter(pre: string, post: string, quoted: bool)
    ensures NextEnd(pre + post, |pre|, quoted) == |pre| + FirstEnd(post, quoted)
    decreases |post|
  {
    if post != "" {
      NextEndAfter(pre + [post[0]], post[1..], quoted != (post[0] == '"'));
      assert pre + [post[0]] + post[1..] == pre + post;
    }
  }

  /** Without a cap every record that is not blank is emitted. */
  lemma {:induction false} EmitUncapped(pieces: seq<string>)
    ensures EmitAll(pieces, None) == Emitted(NonBlank(pieces), None)
  {
    if pieces != [] {
      EmitUncapped(pieces[1..]);
    }
  }

  lemma EmitCons(record: string, pieces: seq<string>, cap: Option<nat>)
    ensures EmitAll([record] + pieces, cap)
            == if Blank(record) then EmitAll(pieces, cap)
               else if OverCap(|record|, cap) then Emitted([], Some(SizeError(|record|, cap.value)))
               else Emitted([record] + EmitAll(pieces, cap).records, EmitAll(pieces, cap).error)
  {
    assert ([record] + pieces)[1..] == pieces;
  }

  /** Texts instead of positions; the tail is told by its length. */
  predicate Matches(l: Looped, pieces: seq<string>, tail: string, quoted: bool, buf: string, cap: Option<nat>) {
    && l.records == EmitAll(pieces, cap).records
    && l.error == EmitAll(pieces, cap).error
    && (l.error.None? ==> l.recordStart + |tail| == |buf| && l.quoted == quoted)
  }

  lemma MatchesEmitted(record: string, l: Looped, recordStart: nat, state: bool, pieces: seq<string>, tail: string,
                       quoted: bool, buf: string, cap: Option<nat>)
    requires Matches(l, pieces, tail, quoted, buf, cap)
    ensures Matches(EmitLooped(record, l, recordStart, state, cap), [record] + pieces, tail, quoted, buf, cap)
  {
    EmitCons(record, pieces, cap);
  }

  lemma NextFromStart(buf: string, quoted: bool)
    ensures NextEnd(buf, 0, quoted) == FirstEnd(buf, quoted)
    ensures OddBetween(buf, 0, |buf|) == Odd(buf)
  {
    NextEndAfter("", buf, quoted);
    OddBetweenIs("", buf);
    assert "" + buf == buf;
  }

  lemma {:induction false} BetweenAfter(gone: string, b: string, i: nat)
    requires i <= |b|
    ensures Between(gone + b, |gone|, |gone| + i) == b[..i]
  {
    if i > 0 {
      BetweenAfter(gone, b, i - 1);
      assert b[..i] == b[..i - 1] + [b[i - 1]];
    }
  }

  /** A character that ends no record only moves the quote state. */
  lemma LoopPasses(buf: string, recordStart: nat, i: nat, quoted: bool, cap: Option<nat>)
    requires recordStart <= i < |buf| && !(buf[i] == '\n' && !quoted)
    ensures Loop(buf, recordStart, i, quoted, cap) == Loop(buf, recordStart, i + 1, quoted != (buf[i] == '"'), cap)
    ensures NextEnd(buf, i, quoted) == NextEnd(buf, i + 1, quoted != (buf[i] == '"'))
  {
  }

  /** The loop runs on to the next record end, whatever lies in between. */
  lemma {:induction false} LoopJumps(buf: string, recordStart: nat, i: nat, quoted: bool, cap: Option<nat>)
    requires recordStart <= i <= |buf|
    requires NextEnd(buf, i, quoted) < |buf|
    ensures var j := NextEnd(buf, i, quoted);
            Loop(buf, recordStart, i, quoted, cap)
            == EmitLooped(Chomp(Between(buf, recordStart, j)), Loop(buf, j + 1, j + 1, false, cap), recordStart, false, cap)
    decreases |buf| - i
  {
    if !(buf[i] == '\n' && !quoted) {
      LoopPasses(buf, recordStart, i, quoted, cap);
      LoopJumps(buf, recordStart, i + 1, quoted != (buf[i] == '"'), cap);
    }
  }

  /** Without another record end it runs to the end of the buffer. */
  lemma {:induction false} LoopEnds(buf: string, recordStart: nat, i: nat, quoted: bool, cap: Option<nat>)
    requires recordStart <= i <= |buf|
    requires NextEnd(buf, i, quoted) == |buf|
    ensures Loop(buf, recordStart, i, quoted, cap) == Looped([], recordStart, quoted != OddBetween(buf, i, |buf|), None)
    decreases |buf| - i
  {
    if i < |buf| {
      LoopPasses(buf, recordStart, i, quoted, cap);
      LoopEnds(buf, recordStart, i + 1, quoted != (buf[i] == '"'), cap);
      OddBetweenFirst(buf, i, |buf|);
    }
  }

  /** A record end at `j`, given what the loop yields after it. */
  lemma MatchesJump(buf: string, recordStart: nat, i: nat, quoted: bool, j: nat, head: string,
                    pieces: seq<string>, tail: string, odd: bool, cap: Option<nat>)
    requires recordStart <= i <= |buf|
    requires NextEnd(buf, i, quoted) == j < |buf| && Between(buf, recordStart, j) == head
    requires Matches(Loop(buf, j + 1, j + 1, false, cap), pieces, tail, odd, buf, cap)
    ensures Matches(Loop(buf, recordStart, i, quoted, cap), [Chomp(head)] + pieces, tail, odd, buf, cap)
  {
    LoopJumps(buf, recordStart, i, quoted, cap);
    MatchesEmitted(Chomp(head), Loop(buf, j + 1, j + 1, false, cap), recordStart, false, pieces, tail, odd, buf, cap);
  }

  lemma MatchesEnd(buf: string, gone: string, b: string, i: nat, quoted: bool, odd: bool, cap: Option<nat>)
    requires buf == gone + b && |gone| <= i <= |buf|
    requires NextEnd(buf, i, quoted) == |buf| && odd == (quoted != OddBetween(buf, i, |buf|))
    ensures Matches(Loop(buf, |gone|, i, quoted, cap), [], b, odd, buf, cap)
  {
    LoopEnds(buf, |gone|, i, quoted, cap);
  }

  /** The buffer around a record end: what was cut off before, the record, and the rest. */
  predicate Around(buf: string, gone: string, head: string, rest: string) {
    buf == gone + head + "\n" + rest
  }

  lemma BetweenHead(buf: string, gone: string, head: string, rest: string)
    requires Around(buf, gone, head, rest)
    ensures Between(buf, |gone|, |gone| + |head|) == head
  {
    var b := head + "\n" + rest;
    assert buf == gone + b;
    BetweenAfter(gone, b, |head|);
    assert b[..|head|] == head;
  }

  /** From the start of a record, the loop yields what the part `b` that is left of the buffer closes. */
  lemma {:induction false} LoopFromRecord(buf: string, gone: string, b: string, cap: Option<nat>)
    requires buf == gone + b
    ensures Matches(Loop(buf, |gone|, |gone|, false, cap), Closed(b), Open(b), Odd(b), buf, cap)
    decreases |b|, 1
  {
    var i := FirstEnd(b, false);
    NextEndAfter(gone, b, false);
    if i == |b| {
      OddBetweenIs(gone, b);
      MatchesEnd(buf, gone, b, |gone|, false, Odd(b), cap);
    } else {
      CutAt(b, i);
      OddAfterEnd(b);
      LoopCut(buf, gone, |gone|, false, b[..i], b[i + 1..], cap);
    }
  }

  /** When the next record end lies between `head` and `rest`, they make the next text and the remainder. */
  lemma {:induction false} LoopCut(buf: string, gone: string, i: nat, quoted: bool, head: string, rest: string, cap: Option<nat>)
    requires Around(buf, gone, head, rest) && |gone| <= i <= |buf|
    requires NextEnd(buf, i, quoted) == |gone| + |head|
    ensures Matches(Loop(buf, |gone|, i, quoted, cap), [Chomp(head)] + Closed(rest), Open(rest), Odd(rest), buf, cap)
    decreases |rest|, 2
  {
    BetweenHead(buf, gone, head, rest);
    LoopFromRecord(buf, gone + head + "\n", rest, cap);
    MatchesJump(buf, |gone|, i, quoted, |gone| + |head|, head, Closed(rest), Open(rest), Odd(rest), cap);
  }

  /** From the position where scanning resumes, it yields what the buffer closes from there. */
  lemma LoopFromScanPos(buf: string, scanPos: nat, quoted: bool, cap: Option<nat>)
    requires scanPos <= |buf|
    ensures Matches(Loop(buf, 0, scanPos, quoted, cap), ClosedFrom(buf, scanPos, quoted),
                    OpenFrom(buf, scanPos, quoted), QuotedFrom(buf, scanPos, quoted), buf, cap)
  {
    var i := NextEnd(buf, scanPos, quoted);
    if i == |buf| {
      assert buf == "" + buf;
      MatchesEnd(buf, "", buf, scanPos, quoted, QuotedFrom(buf, scanPos, quoted), cap);
    } else {
      CutAt(buf, i);
      NextEndNewline(buf, scanPos, quoted);
      LoopCutFirst(buf, scanPos, quoted, buf[..i], buf[i + 1..], cap);
    }
  }

  lemma {:induction false} NextEndNewline(buf: string, from: nat, quoted: bool)
    requires from <= |buf| && NextEnd(buf, from, quoted) < |buf|
    ensures buf[NextEnd(buf, from, quoted)] == '\n'
    decreases |buf| - from
  {
    if !(buf[from] == '\n' && !quoted) {
      NextEndNewline(buf, from + 1, quoted != (buf[from] == '"'));
    }
  }

  lemma LoopCutFirst(buf: string, i: nat, quoted: bool, head: string, rest: string, cap: Option<nat>)
    requires buf == head + "\n" + rest && i <= |buf| && NextEnd(buf, i, quoted) == |head|
    ensures Matches(Loop(buf, 0, i, quoted, cap), [Chomp(head)] + Closed(rest), Open(rest), Odd(rest), buf, cap)
  {
    assert "" + head == head;
    LoopCut(buf, "", i, quoted, head, rest, cap);
  }

  lemma {:induction false} OpenIsSuffix(text: string) returns (head: string)
    ensures text == head + Open(text)
    decreases |text|
  {
    var i := FirstEnd(text, false);
    if i == |text| {
      head := "";
    } else {
      var rest := OpenIsSuffix(text[i + 1..]);
      CutAt(text, i);
      Associative(text[..i] + [text[i]], rest, Open(text[i + 1..]));
      head := text[..i] + [text[i]] + rest;
    }
  }

  lemma OpenFromIsSuffix(buf: string, scanPos: nat, quoted: bool) returns (head: string)
    requires scanPos <= |buf|
    ensures buf == head + OpenFrom(buf, scanPos, quoted)
  {
    var i := NextEnd(buf, scanPos, quoted);
    if i == |buf| {
      head := "";
    } else {
      var rest := OpenIsSuffix(buf[i + 1..]);
      CutAt(buf, i);
      head := buf[..i] + [buf[i]] + rest;
    }
  }

  /** One chunk, as the loop leaves it. */
  lemma LoopMatches(buf: string, scanPos: nat, quoted: bool, cap: Option<nat>)
    requires scanPos <= |buf|
    ensures var l, d := Loop(buf, 0, scanPos, quoted, cap), Drain(buf, scanPos, quoted, cap);
            && l.records == d.records && l.error == d.error
            && (l.error.None? ==> buf[l.recordStart..] == d.tail && l.quoted == d.quoted)
  {
    LoopFromScanPos(buf, scanPos, quoted, cap);
    var head := OpenFromIsSuffix(buf, scanPos, quoted);
    assert (head + OpenFrom(buf, scanPos, quoted))[|head|..] == OpenFrom(buf, scanPos, quoted);
  }

  /** `scanRecords`: the records it yields before it ends or throws. */
  method ScanRecords(text: seq<string>, maxRecordBytes: Option<nat>) returns (r: ScanResult)
    ensures r == Scan(INITIAL, text, maxRecordBytes, AtStart)
  {
    var state := INITIAL;
    var yielded: seq<string> := [];
    var rest := text;
    ghost var whole := Scan(INITIAL, text, maxRecordBytes, AtStart);
    assert [] + whole.records == whole.records;
    while rest != []
      invariant state.Valid()
      invariant whole == Prepend(yielded, Scan(state, rest, maxRecordBytes, AtStart))
      decreases |rest|
    {
      var t := TakeChunk(state, rest[0], maxRecordBytes);
      ScanOne(state, rest, maxRecordBytes, yielded);
      yielded := yielded + t.records;
      if t.error.Some? {
        return ScanResult(yielded, t.error);
      }
      state := t.next;
      rest := rest[1..];
    }
    var last := FlushBuffer(state.buf, maxRecordBytes);
    r := Prepend(yielded, last);
  }

  /** The statements after the loop. */
  method FlushBuffer(buf: string, maxRecordBytes: Option<nat>) returns (r: ScanResult)
    ensures r == Flush(buf, maxRecordBytes)
  {
    TrimEmpty(buf);
    if Trim(buf) == "" {
      return ScanResult([], None);
    }
    if maxRecordBytes.Some? && |buf| > maxRecordBytes.value {
      return ScanResult([], Some(SizeError(|buf|, maxRecordBytes.value)));
    }
    r := ScanResult([buf], None);
  }

  /** The body of the outer loop: take in one chunk. */
  method TakeChunk(state: State, chunk: string, maxRecordBytes: Option<nat>)
    returns (t: Taken)
    requires state.Valid()
    ensures var spec := Take(state, chunk, maxRecordBytes, AtStart);
            t.records == spec.records && t.error == spec.error && (t.error.None? ==> t.next == spec.next)
  {
    var buf := state.buf + chunk;
    var l := DrainBuffer(buf, state.scanPos, state.quoted, maxRecordBytes);
    LoopMatches(buf, state.scanPos, state.quoted, maxRecordBytes);
    if l.error.Some? {
      return Taken(l.records, state, l.error);
    }
    var tail := buf[l.recordStart..];
    var scanPos := if l.recordStart > 0 then 0 else |tail|;
    var error := None;
    if maxRecordBytes.Some? && |tail| > maxRecordBytes.value {
      error := Some(SizeError(|tail|, maxRecordBytes.value));
    }
    t := Taken(l.records, State(tail, l.quoted, scanPos), error);
  }

  /** One chunk of `Scan`, behind the records yielded already. */
  lemma ScanOne(state: State, chunks: seq<string>, cap: Option<nat>, yielded: seq<string>)
    requires state.Valid() && chunks != []
    ensures var t := Take(state, chunks[0], cap, AtStart);
            Prepend(yielded, Scan(state, chunks, cap, AtStart))
            == if t.error.Some? then ScanResult(yielded + t.records, t.error)
               else Prepend(yielded + t.records, Scan(t.next, chunks[1..], cap, AtStart))
  {
    var t := Take(state, chunks[0], cap, AtStart);
    Associative(yielded, t.records, Scan(t.next, chunks[1..], cap, AtStart).records);
  }
}
