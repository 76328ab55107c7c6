/**
 Which chunkings the row scanner reads correctly.

 `Scan` as coded yields the records of the whole text exactly when no chunk boundary hurts. A boundary
 hurts when the chunk before it completed a record and left an unfinished record inside quotes,
 and a newline still follows the start of that record. The variant that resumes at the end of the
 surviving tail, as the source comment intends, reads every chunking correctly.
 */
module CsvChunks {
  import opened Wrappers
  import opened CsvText
  import opened CsvScan

  /** The records of a body: the non-blank pieces, without an error. */
  function Records(text: string): ScanResult {
    ScanResult(NonBlank(Pieces(text)), None)
  }

  /** The boundary after the first `k` chunks hurts; `carry` is an unfinished record from before. */
  predicate HurtsFrom(carry: string, chunks: seq<string>, k: nat) {
    && 0 < k < |chunks|
    && var open := Open(carry + Flatten(chunks[..k]));
    && |open| < |chunks[k - 1]|
    && Odd(open)
    && '\n' in open + Flatten(chunks[k..])
  }

  ghost predicate NoHurt(carry: string, chunks: seq<string>) {
    forall k: nat :: !HurtsFrom(carry, chunks, k)
  }

  // ----- One chunk from a state that agrees with the text

  /** The buffer is an unfinished record, and resuming where `state` says is resuming in step with it. */
  predicate Aligned(state: State) {
    && FirstEnd(state.buf, false) == |state.buf|
    && (|| (state.scanPos == |state.buf| && state.quoted == Odd(state.buf))
        || (state.scanPos == 0 && !state.quoted && !Odd(state.buf)))
  }

  /** A search that resumes behind a text without a record end, in step with it, is a search of the whole. */
  lemma SearchFromEnd(open: string, chunk: string, quoted: bool, after: bool)
    requires after == (quoted != Odd(open)) && FirstEnd(open, quoted) == |open|
    ensures NextEnd(open + chunk, |open|, after) == FirstEnd(open + chunk, quoted)
    ensures (after != OddBetween(open + chunk, |open|, |open + chunk|)) == (quoted != Odd(open + chunk))
  {
    NextEndAfter(open, chunk, after);
    OddBetweenIs(open, chunk);
    FirstEndConcat(open, chunk, quoted);
    OddConcat(open, chunk);
  }

  /** The texts closed from `scanPos` are those of the text when the two searches find the same end. */
  lemma SameEnd(buf: string, scanPos: nat, quoted: bool)
    requires scanPos <= |buf| && NextEnd(buf, scanPos, quoted) == FirstEnd(buf, false)
    requires (quoted != OddBetween(buf, scanPos, |buf|)) == Odd(buf)
    ensures ClosedFrom(buf, scanPos, quoted) == Closed(buf)
    ensures OpenFrom(buf, scanPos, quoted) == Open(buf)
    ensures QuotedFrom(buf, scanPos, quoted) == Odd(buf)
  {
    if FirstEnd(buf, false) < |buf| {
      OddAfterEnd(buf);
    }
  }

  lemma DrainAligned(state: State, chunk: string)
    requires Aligned(state)
    ensures var buf := state.buf + chunk;
            Drain(buf, state.scanPos, state.quoted, None)
            == Drained(NonBlank(Closed(buf)), Open(buf), Odd(buf), None)
  {
    var buf := state.buf + chunk;
    if state.scanPos == |state.buf| {
      SearchFromEnd(state.buf, chunk, false, Odd(state.buf));
    } else {
      NextFromStart(buf, false);
    }
    SameEnd(buf, state.scanPos, state.quoted);
    EmitUncapped(Closed(buf));
  }

  /** Where a chunk leaves the scanner: aligned, unless it completed a record and ended inside quotes. */
  lemma TakeAligned(state: State, chunk: string, resume: Resume)
    requires Aligned(state)
    ensures var t, open := Take(state, chunk, None, resume), Open(state.buf + chunk);
            && t.error.None? && t.records == NonBlank(Closed(state.buf + chunk)) && t.next.buf == open
            && (resume == AtStart && |open| < |state.buf + chunk| && Odd(open)
                ==> t.next == State(open, true, 0))
            && (resume == AtEnd || |open| == |state.buf + chunk| || !Odd(open) ==> Aligned(t.next))
  {
    DrainAligned(state, chunk);
    OpenIsOpen(state.buf + chunk);
  }

  /** A record end can only lie in the new chunk. */
  lemma EndInChunk(carry: string, chunk: string)
    requires FirstEnd(carry, false) == |carry|
    ensures |Open(carry + chunk)| < |carry + chunk| <==> |Open(carry + chunk)| < |chunk|
  {
    FirstEndConcat(carry, chunk, false);
    var text := carry + chunk;
    var i := FirstEnd(text, false);
    if i < |text| {
      assert |text[i + 1..]| < |chunk|;
    }
  }

  // ----- Reading on

  /** The records of a text, after those that its beginning closes. */
  lemma RecordsConcat(a: string, b: string)
    ensures Records(a + b) == Prepend(NonBlank(Closed(a)), Records(Open(a) + b))
  {
    CutConcat(a, b);
    Associative(Closed(a), Closed(Open(a) + b), [Open(Open(a) + b)]);
    NonBlankConcat(Closed(a), Pieces(Open(a) + b));
  }

  lemma CancelPrefix<T>(a: seq<T>, b: seq<T>, c: seq<T>)
    ensures a + b == a + c <==> b == c
  {
    assert (a + b)[|a|..] == b && (a + c)[|a|..] == c;
  }

  lemma PrependCancels(records: seq<string>, r: ScanResult, r': ScanResult)
    ensures Prepend(records, r) == Prepend(records, r') <==> r == r'
  {
    CancelPrefix(records, r.records, r'.records);
  }

  /** The first chunk taken from an aligned state, against the text it belongs to. */
  lemma TakeFirst(state: State, chunk: string, rest: seq<string>, resume: Resume)
    requires Aligned(state)
    ensures var next := Take(state, chunk, None, resume).next;
            Scan(state, [chunk] + rest, None, resume) == Records(state.buf + Flatten([chunk] + rest))
            <==> Scan(next, rest, None, resume) == Records(Open(state.buf + chunk) + Flatten(rest))
  {
    var t := Take(state, chunk, None, resume);
    var a := state.buf + chunk;
    TakeAligned(state, chunk, resume);
    assert ([chunk] + rest)[1..] == rest;
    Associative(state.buf, chunk, Flatten(rest));
    RecordsConcat(a, Flatten(rest));
    PrependCancels(t.records, Scan(t.next, rest, None, resume), Records(Open(a) + Flatten(rest)));
  }

  lemma NonBlankOne(s: string)
    ensures NonBlank([s]) == if Blank(s) then [] else [s]
  {
    assert [s][1..] == [];
  }

  lemma FlushIsRecords(buf: string)
    requires FirstEnd(buf, false) == |buf|
    ensures Flush(buf, None) == Records(buf)
  {
    assert Closed(buf) + [buf] == [buf];
    NonBlankOne(buf);
  }

  lemma NoChunks(state: State, resume: Resume)
    requires Aligned(state)
    ensures Scan(state, [], None, resume) == Records(state.buf + Flatten([]))
  {
    assert state.buf + "" == state.buf;
    FlushIsRecords(state.buf);
  }

  lemma SplitFirst<T>(s: seq<T>)
    requires s != []
    ensures s == [s[0]] + s[1..]
  {
  }

  // ----- The variant that resumes at the end of the tail

  /** Resuming at the end of the tail reads every chunking of every text correctly. */
  lemma {:induction false} ResumeAtEndReads(state: State, chunks: seq<string>)
    requires Aligned(state)
    ensures Scan(state, chunks, None, AtEnd) == Records(state.buf + Flatten(chunks))
    decreases |chunks|
  {
    if chunks == [] {
      NoChunks(state, AtEnd);
    } else {
      var chunk, rest := chunks[0], chunks[1..];
      SplitFirst(chunks);
      TakeAligned(state, chunk, AtEnd);
      ResumeAtEndReads(Take(state, chunk, None, AtEnd).next, rest);
      TakeFirst(state, chunk, rest, AtEnd);
    }
  }

  // ----- The scanner as coded: a boundary that hurts

  /** The first record of a text read from quote state `quoted`. */
  function Lead(text: string, quoted: bool): string {
    var i := FirstEnd(text, quoted);
    if i == |text| then text else Chomp(text[..i])
  }

  lemma LeadLength(text: string, quoted: bool)
    ensures var i := FirstEnd(text, quoted);
            && i - 1 <= |Lead(text, quoted)| <= i
            && (|Lead(text, quoted)| == i - 1 ==> i > 0 && text[i - 1] == '\r')
  {
  }

  /** Read from the two states, a text with a newline starts with two different records. */
  lemma LeadsDiffer(text: string)
    requires '\n' in text
    ensures Lead(text, true) != Lead(text, false)
  {
    NewlineEndsOne(text, false);
    LeadLength(text, true);
    LeadLength(text, false);
  }

  /** A record of an unfinished quoted text holds a quote, from either state. */
  lemma LeadHoldsQuote(open: string, more: string, quoted: bool)
    requires FirstEnd(open, false) == |open| && Odd(open)
    ensures !Blank(Lead(open + more, quoted))
  {
    var text := open + more;
    var i := FirstEnd(text, quoted);
    assert '"' in text[..i] by {
      if quoted && i < |text| {
        FirstEndIs(text, true);
        OddHoldsQuote(text[..i]);
      } else {
        OddHoldsQuote(open);
        FirstEndConcat(open, more, false);
        assert text[..|open|] == open;
      }
    }
    ChompKeeps(text[..i], '"');
    assert i == |text| ==> text[..i] == text;
    SolidNotBlank(Lead(text, quoted), '"');
  }

  lemma ChompKeeps(s: string, c: char)
    requires c in s && c != '\r'
    ensures c in Chomp(s)
  {
  }

  /** The scanner reads its buffer from quote state `quoted`, whichever of the two positions it resumes at. */
  predicate ReadsFrom(state: State, quoted: bool) {
    || (state.scanPos == |state.buf| && state.quoted == (quoted != Odd(state.buf)) && FirstEnd(state.buf, quoted) == |state.buf|)
    || (state.scanPos == 0 && state.quoted == quoted)
  }

  lemma SearchReadsFrom(state: State, chunk: string, quoted: bool)
    requires ReadsFrom(state, quoted)
    ensures var buf := state.buf + chunk;
            && NextEnd(buf, state.scanPos, state.quoted) == FirstEnd(buf, quoted)
            && (state.quoted != OddBetween(buf, state.scanPos, |buf|)) == (quoted != Odd(buf))
  {
    if state.scanPos == 0 && state.quoted == quoted {
      NextFromStart(state.buf + chunk, quoted);
    } else {
      SearchFromEnd(state.buf, chunk, quoted, state.quoted);
    }
  }

  lemma LeadOfPrefix(a: string, b: string, quoted: bool)
    requires FirstEnd(a, quoted) < |a|
    ensures Lead(a + b, quoted) == Chomp(a[..FirstEnd(a, quoted)])
  {
    FirstEndConcat(a, b, quoted);
    var i := FirstEnd(a, quoted);
    assert (a + b)[..i] == a[..i];
  }

  /** The first closed text leads the records, unless it is blank. */
  lemma ClosedLeads(state: State, chunk: string, rest: seq<string>, quoted: bool)
    requires ReadsFrom(state, quoted) && FirstEnd(state.buf + chunk, quoted) < |state.buf + chunk|
    requires !Blank(Chomp((state.buf + chunk)[..FirstEnd(state.buf + chunk, quoted)]))
    ensures var r := Scan(state, [chunk] + rest, None, AtStart).records;
            r != [] && r[0] == Chomp((state.buf + chunk)[..FirstEnd(state.buf + chunk, quoted)])
  {
    SearchReadsFrom(state, chunk, quoted);
    var buf := state.buf + chunk;
    var i := FirstEnd(buf, quoted);
    EmitCons(Chomp(buf[..i]), Closed(buf[i + 1..]), None);
    EmitUncapped([Chomp(buf[..i])] + Closed(buf[i + 1..]));
    assert ([chunk] + rest)[1..] == rest;
  }

  /** A chunk without a record end only grows the buffer. */
  lemma ChunkGrows(state: State, chunk: string, rest: seq<string>, quoted: bool)
    requires ReadsFrom(state, quoted) && FirstEnd(state.buf + chunk, quoted) == |state.buf + chunk|
    ensures var next := State(state.buf + chunk, quoted != Odd(state.buf + chunk), |state.buf + chunk|);
            ReadsFrom(next, quoted) && Scan(state, [chunk] + rest, None, AtStart) == Scan(next, rest, None, AtStart)
  {
    SearchReadsFrom(state, chunk, quoted);
    var next := State(state.buf + chunk, quoted != Odd(state.buf + chunk), |state.buf + chunk|);
    assert ([chunk] + rest)[1..] == rest;
    assert [] + Scan(next, rest, None, AtStart).records == Scan(next, rest, None, AtStart).records;
  }

  /** What the scanner yields first is the first record of the text in the state it reads from. */
  lemma {:induction false} FirstRecordIsLead(state: State, chunks: seq<string>, quoted: bool)
    requires ReadsFrom(state, quoted) && (chunks == [] ==> FirstEnd(state.buf, quoted) == |state.buf|)
    requires !Blank(Lead(state.buf + Flatten(chunks), quoted))
    ensures var r := Scan(state, chunks, None, AtStart).records;
            r != [] && r[0] == Lead(state.buf + Flatten(chunks), quoted)
    decreases |chunks|
  {
    if chunks == [] {
      assert state.buf + "" == state.buf;
    } else {
      var chunk, rest := chunks[0], chunks[1..];
      SplitFirst(chunks);
      Associative(state.buf, chunk, Flatten(rest));
      if FirstEnd(state.buf + chunk, quoted) < |state.buf + chunk| {
        LeadOfPrefix(state.buf + chunk, Flatten(rest), quoted);
        ClosedLeads(state, chunk, rest, quoted);
      } else {
        ChunkGrows(state, chunk, rest, quoted);
        FirstRecordIsLead(State(state.buf + chunk, quoted != Odd(state.buf + chunk), |state.buf + chunk|), rest, quoted);
      }
    }
  }

  lemma RecordsStartWithLead(text: string)
    requires !Blank(Lead(text, false))
    ensures var r := Records(text).records; r != [] && r[0] == Lead(text, false)
  {
    if FirstEnd(text, false) == |text| {
      FlushIsRecords(text);
    } else {
      assert Pieces(text)[0] == Lead(text, false);
    }
  }

  /** Resuming out of step, with a newline still to come, yields a wrong first record. */
  lemma OutOfStepMisreads(open: string, chunks: seq<string>)
    requires FirstEnd(open, false) == |open| && Odd(open) && chunks != []
    requires '\n' in open + Flatten(chunks)
    ensures Scan(State(open, true, 0), chunks, None, AtStart) != Records(open + Flatten(chunks))
  {
    var text := open + Flatten(chunks);
    LeadHoldsQuote(open, Flatten(chunks), true);
    LeadHoldsQuote(open, Flatten(chunks), false);
    FirstRecordIsLead(State(open, true, 0), chunks, true);
    RecordsStartWithLead(text);
    LeadsDiffer(text);
  }

  lemma NotInConcat<T>(x: T, a: seq<T>, b: seq<T>)
    requires x !in a + b
    ensures x !in a && x !in b
  {
    assert forall y :: y in a || y in b ==> y in a + b;
  }

  /** Without another newline, being out of step does no harm: there is just one record left. */
  lemma {:induction false} NoNewlineReads(state: State, chunks: seq<string>)
    requires state.Valid() && '\n' !in state.buf + Flatten(chunks)
    ensures Scan(state, chunks, None, AtStart) == Records(state.buf + Flatten(chunks))
    decreases |chunks|
  {
    if chunks == [] {
      assert state.buf + "" == state.buf;
      NoNewlineNoEnd(state.buf, false);
      FlushIsRecords(state.buf);
    } else {
      var chunk, rest := chunks[0], chunks[1..];
      Associative(state.buf, chunk, Flatten(rest));
      NotInConcat('\n', state.buf + chunk, Flatten(rest));
      var buf := state.buf + chunk;
      if NextEnd(buf, state.scanPos, state.quoted) < |buf| {
        NextEndNewline(buf, state.scanPos, state.quoted);
      }
      var next := Take(state, chunk, None, AtStart).next;
      NoNewlineReads(next, rest);
      assert Scan(state, chunks, None, AtStart) == Prepend([], Scan(next, rest, None, AtStart));
    }
  }

  // ----- The scanner as coded: every chunking

  lemma HurtsFirst(carry: string, chunk: string, rest: seq<string>)
    ensures HurtsFrom(carry, [chunk] + rest, 1)
            <==> rest != [] && |Open(carry + chunk)| < |chunk| && Odd(Open(carry + chunk))
                 && '\n' in Open(carry + chunk) + Flatten(rest)
  {
    assert ([chunk] + rest)[..1] == [chunk] && ([chunk] + rest)[1..] == rest;
    FlattenOne(chunk);
  }

  lemma HurtsLater(carry: string, chunk: string, rest: seq<string>, k: nat)
    requires k > 0
    ensures HurtsFrom(carry, [chunk] + rest, k + 1) <==> HurtsFrom(Open(carry + chunk), rest, k)
  {
    var chunks := [chunk] + rest;
    if k < |rest| {
      assert chunks[..k + 1] == [chunk] + rest[..k] && chunks[k + 1..] == rest[k..];
      SplitFirst([chunk] + rest[..k]);
      assert ([chunk] + rest[..k])[1..] == rest[..k];
      Associative(carry, chunk, Flatten(rest[..k]));
      CutConcat(carry + chunk, Flatten(rest[..k]));
    }
  }

  lemma NoHurtStep(carry: string, chunk: string, rest: seq<string>)
    ensures NoHurt(carry, [chunk] + rest)
            <==> !HurtsFrom(carry, [chunk] + rest, 1) && NoHurt(Open(carry + chunk), rest)
  {
    forall k: nat | k > 0
      ensures HurtsFrom(carry, [chunk] + rest, k + 1) <==> HurtsFrom(Open(carry + chunk), rest, k)
    {
      HurtsLater(carry, chunk, rest, k);
    }
    if !HurtsFrom(carry, [chunk] + rest, 1) && NoHurt(Open(carry + chunk), rest) {
      forall k: nat
        ensures !HurtsFrom(carry, [chunk] + rest, k)
      {
        if k > 1 {
          HurtsLater(carry, chunk, rest, k - 1);
        }
      }
    }
    if NoHurt(carry, [chunk] + rest) {
      forall k: nat
        ensures !HurtsFrom(Open(carry + chunk), rest, k)
      {
        if k > 0 {
          HurtsLater(carry, chunk, rest, k);
        }
      }
    }
  }

  lemma {:induction false} OpenWithin(text: string, c: char)
    requires c in Open(text)
    ensures c in text
    decreases |text|
  {
    var i := FirstEnd(text, false);
    if i < |text| {
      OpenWithin(text[i + 1..], c);
    }
  }

  lemma {:induction false} FlattenSplit(chunks: seq<string>, k: nat)
    requires k <= |chunks|
    ensures Flatten(chunks) == Flatten(chunks[..k]) + Flatten(chunks[k..])
  {
    FlattenConcat(chunks[..k], chunks[k..]);
    assert chunks[..k] + chunks[k..] == chunks;
  }

  /** After the last newline nothing hurts. */
  lemma NoNewlineNoHurt(carry: string, chunks: seq<string>)
    requires '\n' !in carry + Flatten(chunks)
    ensures NoHurt(carry, chunks)
  {
    forall k: nat
      ensures !HurtsFrom(carry, chunks, k)
    {
      if 0 < k < |chunks| {
        var a, b := carry + Flatten(chunks[..k]), Flatten(chunks[k..]);
        FlattenSplit(chunks, k);
        Associative(carry, Flatten(chunks[..k]), b);
        NotInConcat('\n', a, b);
        if '\n' in Open(a) + b {
          OpenWithin(a, '\n');
        }
      }
    }
  }

  /** From every aligned state, the records are those of the text exactly when no later boundary hurts. */
  lemma {:induction false} ScanExact(state: State, chunks: seq<string>)
    requires Aligned(state)
    ensures Scan(state, chunks, None, AtStart) == Records(state.buf + Flatten(chunks)) <==> NoHurt(state.buf, chunks)
    decreases |chunks|
  {
    if chunks == [] {
      NoChunks(state, AtStart);
    } else {
      var chunk, rest := chunks[0], chunks[1..];
      SplitFirst(chunks);
      TakeAligned(state, chunk, AtStart);
      TakeFirst(state, chunk, rest, AtStart);
      NoHurtStep(state.buf, chunk, rest);
      HurtsFirst(state.buf, chunk, rest);
      EndInChunk(state.buf, chunk);
      var open := Open(state.buf + chunk);
      if |open| < |chunk| && Odd(open) {
        OutOfStepExact(state, chunk, rest);
      } else {
        ScanExact(Take(state, chunk, None, AtStart).next, rest);
      }
    }
  }

  /** The step at which the scanner gets out of step. */
  lemma OutOfStepExact(state: State, chunk: string, rest: seq<string>)
    requires Aligned(state)
    requires |Open(state.buf + chunk)| < |state.buf + chunk| && Odd(Open(state.buf + chunk))
    ensures var open := Open(state.buf + chunk);
            Scan(State(open, true, 0), rest, None, AtStart) == Records(open + Flatten(rest))
            <==> !(rest != [] && '\n' in open + Flatten(rest)) && NoHurt(open, rest)
  {
    var open := Open(state.buf + chunk);
    OpenIsOpen(state.buf + chunk);
    if rest == [] {
      assert open + "" == open;
      FlushIsRecords(open);
    } else if '\n' in open + Flatten(rest) {
      OutOfStepMisreads(open, rest);
    } else {
      NoNewlineReads(State(open, true, 0), rest);
      NoNewlineNoHurt(open, rest);
    }
  }

  /**
   Chunk independence, exactly: the scanner yields the records of the whole text if and only if no
   chunk boundary hurts.
   */
  lemma ScanReadsExactly(chunks: seq<string>)
    ensures Scan(INITIAL, chunks, None, AtStart) == Records(Flatten(chunks)) <==> NoHurt("", chunks)
  {
    ScanExact(INITIAL, chunks);
    assert INITIAL.buf + Flatten(chunks) == Flatten(chunks);
  }

  /** The intended resume position reads every chunking. */
  lemma ResumeAtEndReadsAll(chunks: seq<string>)
    ensures Scan(INITIAL, chunks, None, AtEnd) == Records(Flatten(chunks))
  {
    ResumeAtEndReads(INITIAL, chunks);
    assert INITIAL.buf + Flatten(chunks) == Flatten(chunks);
  }

  /** No boundary inside quotes is enough. */
  lemma UnquotedBoundariesRead(chunks: seq<string>)
    requires forall k :: 0 < k < |chunks| ==> !Odd(Flatten(chunks[..k]))
    ensures Scan(INITIAL, chunks, None, AtStart) == Records(Flatten(chunks))
  {
    forall k: nat
      ensures !HurtsFrom("", chunks, k)
    {
      if 0 < k < |chunks| {
        assert "" + Flatten(chunks[..k]) == Flatten(chunks[..k]);
        OpenIsOpen(Flatten(chunks[..k]));
      }
    }
    ScanReadsExactly(chunks);
  }

  /** The whole text as one chunk is always read correctly. */
  lemma OneChunkReads(text: string)
    ensures Scan(INITIAL, [text], None, AtStart) == Records(text)
  {
    UnquotedBoundariesRead([text]);
    FlattenOne(text);
  }

  lemma MisreadBoundaryHurts()
    ensures HurtsFrom("", ["a\n\"b", "\nc\""], 1)
  {
    var first, second, rest := "a\n\"b", "\nc\"", "\"b";
    NoNewlineNoEnd(rest, false);
    assert rest[1..] == "b" && Odd(rest);
    assert first == "a" + "\n" + rest;
    assert FirstEnd(first, false) == 1 by {
      assert first[0] == 'a' && first[1..][0] == '\n';
    }
    CutOnce(first, "a", rest);
    assert "" + first == first;
    FlattenOne(second);
    assert (rest + second)[2] == '\n';
    HurtsFirst("", first, [second]);
    assert [first] + [second] == [first, second];
  }

  /** A body that is misread: the second record is cut at its quoted newline. */
  lemma MisreadExample()
    ensures Scan(INITIAL, ["a\n\"b", "\nc\""], None, AtStart) != Records("a\n\"b\nc\"")
  {
    var first, second := "a\n\"b", "\nc\"";
    MisreadBoundaryHurts();
    ScanReadsExactly([first, second]);
    assert Flatten([first, second]) == "a\n\"b\nc\"" by {
      FlattenOne(second);
      assert [first, second][1..] == [second];
    }
  }
}
