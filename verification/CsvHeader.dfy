/**
 The header splitter of the streaming parser (`takeHeaderRecord`) and the split of a whole stream into
 header and data records.

 Each pass of the header loop scans its whole buffer again, with the quote flag that the earlier
 passes left. The splitter is right exactly when the pass that stops starts outside quotes.
 */
module CsvHeader {
  import opened Wrappers
  import opened CsvText
  import opened CsvScan
  import opened CsvChunks

  datatype HeaderResult = Header(header: string, tail: seq<string>) | HeaderTooLong(error: SizeError)

  /** What follows the first record end. */
  function BodyOf(text: string): string {
    var i := FirstEnd(text, false);
    if i == |text| then "" else text[i + 1..]
  }

  /** The header cut off a buffer at position `i`, and the iterable handed to the row scanner. */
  function CutHeader(buf: string, i: nat, chunks: seq<string>, cap: Option<nat>): HeaderResult
    requires i < |buf|
  {
    var header, rest := Chomp(buf[..i]), buf[i + 1..];
    if OverCap(|header|, cap) then HeaderTooLong(SizeError(|header|, cap.value))
    else Header(header, (if rest == "" then [] else [rest]) + chunks)
  }

  /** The loop of `takeHeaderRecord`. */
  function TakeHeader(buf: string, quoted: bool, chunks: seq<string>, cap: Option<nat>): HeaderResult
    decreases chunks
  {
    if chunks == [] then
      if OverCap(|buf|, cap) then HeaderTooLong(SizeError(|buf|, cap.value)) else Header(buf, [])
    else
      var buf' := buf + chunks[0];
      var i := FirstEnd(buf', quoted);
      if i < |buf'| then CutHeader(buf', i, chunks[1..], cap)
      else if OverCap(|buf'|, cap) then HeaderTooLong(SizeError(|buf'|, cap.value))
      else TakeHeader(buf', quoted != Odd(buf'), chunks[1..], cap)
  }

  /** One pass: from position zero with the flag as it is. */
  method FindHeaderEnd(buf: string, inQuotes: bool) returns (i: nat, quoted: bool)
    ensures i == FirstEnd(buf, inQuotes)
    ensures i == |buf| ==> quoted == (inQuotes != Odd(buf))
  {
    i, quoted := 0, inQuotes;
    while i < |buf|
      invariant i <= |buf|
      invariant NextEnd(buf, i, quoted) == NextEnd(buf, 0, inQuotes)
      invariant quoted == (inQuotes != OddBetween(buf, 0, i))
    {
      if buf[i] == '"' {
        quoted := !quoted;
      } else if !quoted && buf[i] == '\n' {
        NextFromStart(buf, inQuotes);
        return;
      }
      i := i + 1;
    }
    NextFromStart(buf, inQuotes);
  }

  /** The statements that split a buffer at its first record end. */
  method SplitHeader(buf: string, i: nat, rest: seq<string>, maxRecordBytes: Option<nat>) returns (r: HeaderResult)
    requires i < |buf|
    ensures r == CutHeader(buf, i, rest, maxRecordBytes)
  {
    var end := i;
    if end > 0 && buf[end - 1] == '\r' {
      end := end - 1;
    }
    var header, after := buf[..end], buf[i + 1..];
    assert header == Chomp(buf[..i]);
    if maxRecordBytes.Some? && |header| > maxRecordBytes.value {
      return HeaderTooLong(SizeError(|header|, maxRecordBytes.value));
    }
    r := Header(header, (if |after| > 0 then [after] else []) + rest);
  }

  /** `takeHeaderRecord`: pulls chunks until a pass finds a record end. */
  method TakeHeaderRecord(chunks: seq<string>, maxRecordBytes: Option<nat>) returns (r: HeaderResult)
    ensures r == TakeHeader("", false, chunks, maxRecordBytes)
  {
    var buf, inQuotes, rest := "", false, chunks;
    while rest != []
      invariant TakeHeader(buf, inQuotes, rest, maxRecordBytes) == TakeHeader("", false, chunks, maxRecordBytes)
      decreases |rest|
    {
      buf := buf + rest[0];
      rest := rest[1..];
      var i, quoted := FindHeaderEnd(buf, inQuotes);
      if i < |buf| {
        r := SplitHeader(buf, i, rest, maxRecordBytes);
        return;
      }
      inQuotes := quoted;
      if maxRecordBytes.Some? && |buf| > maxRecordBytes.value {
        return HeaderTooLong(SizeError(|buf|, maxRecordBytes.value));
      }
    }
    if maxRecordBytes.Some? && |buf| > maxRecordBytes.value {
      return HeaderTooLong(SizeError(|buf|, maxRecordBytes.value));
    }
    r := Header(buf, []);
  }

  // ----- When the split is right

  /** The first pass that finds a record end starts outside quotes; if no pass does, there is none. */
  predicate StopsInStep(buf: string, quoted: bool, chunks: seq<string>)
    decreases chunks
  {
    if chunks == [] then FirstEnd(buf, false) == |buf|
    else
      var buf' := buf + chunks[0];
      if FirstEnd(buf', quoted) < |buf'| then !quoted
      else StopsInStep(buf', quoted != Odd(buf'), chunks[1..])
  }

  lemma LeadIsAll(text: string)
    ensures Lead(text, false) == text <==> FirstEnd(text, false) == |text|
  {
    LeadLength(text, false);
  }

  /** A pass over a prefix that stops gives the header of the whole text in that pass's state. */
  lemma CutIsLead(buf: string, quoted: bool, chunks: seq<string>)
    requires FirstEnd(buf, quoted) < |buf|
    ensures var r := CutHeader(buf, FirstEnd(buf, quoted), chunks, None);
            && r.Header? && r.header == Lead(buf + Flatten(chunks), quoted)
            && (!quoted ==> Flatten(r.tail) == BodyOf(buf + Flatten(chunks)))
  {
    var more, i := Flatten(chunks), FirstEnd(buf, quoted);
    LeadOfPrefix(buf, more, quoted);
    FirstEndConcat(buf, more, quoted);
    assert (buf + more)[i + 1..] == buf[i + 1..] + more;
    FlattenFirst(buf[i + 1..], chunks);
  }

  lemma FlattenFirst(first: string, chunks: seq<string>)
    ensures Flatten((if first == "" then [] else [first]) + chunks) == first + Flatten(chunks)
  {
    if first == "" {
      assert [] + chunks == chunks;
    } else {
      assert ([first] + chunks)[1..] == chunks;
    }
  }

  lemma StopGivesNewline(buf: string, quoted: bool, more: string)
    requires FirstEnd(buf, quoted) < |buf|
    ensures '\n' in buf + more
  {
    assert (buf + more)[FirstEnd(buf, quoted)] == '\n';
  }

  /** The header is that of the text exactly when the loop stops in step, and then so is the rest. */
  lemma {:induction false} HeaderExact(buf: string, quoted: bool, chunks: seq<string>)
    ensures var r, text := TakeHeader(buf, quoted, chunks, None), buf + Flatten(chunks);
            && r.Header?
            && (r.header == Lead(text, false) <==> StopsInStep(buf, quoted, chunks))
            && (StopsInStep(buf, quoted, chunks) ==> Flatten(r.tail) == BodyOf(text))
    decreases chunks
  {
    if chunks == [] {
      assert buf + "" == buf;
      LeadIsAll(buf);
    } else {
      var buf', rest := buf + chunks[0], chunks[1..];
      Associative(buf, chunks[0], Flatten(rest));
      if FirstEnd(buf', quoted) < |buf'| {
        CutIsLead(buf', quoted, rest);
        StopGivesNewline(buf', quoted, Flatten(rest));
        LeadsDiffer(buf' + Flatten(rest));
      } else {
        HeaderExact(buf', quoted != Odd(buf'), rest);
      }
    }
  }

  /** No chunk boundary, after the text `carry`, lies inside quotes. */
  ghost predicate UnquotedAfter(carry: string, chunks: seq<string>) {
    forall k :: 0 < k < |chunks| ==> !Odd(carry + Flatten(chunks[..k]))
  }

  lemma UnquotedStep(carry: string, chunk: string, rest: seq<string>)
    requires UnquotedAfter(carry, [chunk] + rest)
    ensures UnquotedAfter(carry + chunk, rest)
    ensures rest != [] ==> !Odd(carry + chunk)
  {
    var chunks := [chunk] + rest;
    forall k | 0 <= k < |rest|
      ensures !Odd((carry + chunk) + Flatten(rest[..k]))
    {
      assert chunks[..k + 1] == [chunk] + rest[..k];
      FlattenCons(chunk, rest[..k]);
      Associative(carry, chunk, Flatten(rest[..k]));
    }
    if rest != [] {
      assert rest[..0] == [] && (carry + chunk) + "" == carry + chunk;
    }
  }

  lemma FlattenCons(first: string, chunks: seq<string>)
    ensures Flatten([first] + chunks) == first + Flatten(chunks)
  {
    assert ([first] + chunks)[1..] == chunks;
  }

  /** Cutting off a text with an even number of quotes does not move any boundary into quotes. */
  lemma UnquotedTail(head: string, rest: string, chunks: seq<string>)
    requires !Odd(head) && UnquotedAfter(head + rest, chunks) && (chunks != [] ==> !Odd(head + rest))
    ensures UnquotedAfter("", (if rest == "" then [] else [rest]) + chunks)
  {
    var tail := (if rest == "" then [] else [rest]) + chunks;
    forall k | 0 < k < |tail|
      ensures !Odd("" + Flatten(tail[..k]))
    {
      if rest == "" {
        assert tail[..k] == chunks[..k] && head + rest == head;
        OddConcat(head, Flatten(chunks[..k]));
      } else {
        assert tail[..k] == [rest] + chunks[..k - 1];
        FlattenCons(rest, chunks[..k - 1]);
        Associative(head, rest, Flatten(chunks[..k - 1]));
        OddConcat(head, rest + Flatten(chunks[..k - 1]));
        if k == 1 {
          assert chunks[..0] == [] && (head + rest) + "" == head + rest;
        }
      }
      assert "" + Flatten(tail[..k]) == Flatten(tail[..k]);
    }
  }

  /** Without boundaries inside quotes the header stops in step and leaves none to the row scanner. */
  lemma {:induction false} UnquotedHeader(buf: string, chunks: seq<string>)
    requires FirstEnd(buf, false) == |buf| && UnquotedAfter(buf, chunks)
    ensures StopsInStep(buf, false, chunks)
    ensures var r := TakeHeader(buf, false, chunks, None); r.Header? && UnquotedAfter("", r.tail)
    decreases chunks
  {
    if chunks != [] {
      var buf', rest := buf + chunks[0], chunks[1..];
      SplitFirst(chunks);
      UnquotedStep(buf, chunks[0], rest);
      var i := FirstEnd(buf', false);
      if i < |buf'| {
        OddUpToEnd(buf', false);
        assert buf' == buf'[..i + 1] + buf'[i + 1..];
        UnquotedTail(buf'[..i + 1], buf'[i + 1..], rest);
      } else if rest != [] {
        UnquotedHeader(buf', rest);
      }
    }
  }

  // ----- The same on text and boundaries

  /** Some newline in `s` ends a record, when `quoted` is the state before the text. */
  ghost predicate HasEnd(s: string, quoted: bool) {
    exists i :: 0 <= i < |s| && EndsRecord(s, quoted, i)
  }

  /** How many of the first `k` chunk boundaries lie inside quotes. */
  function Crossings(chunks: seq<string>, k: nat): nat
    requires k <= |chunks|
  {
    if k == 0 then 0 else Crossings(chunks, k - 1) + (if Odd(Flatten(chunks[..k])) then 1 else 0)
  }

  /** The first `k` chunks hold a record end, for a reader that is wrong after an odd number of earlier crossings. */
  ghost predicate PassEnds(chunks: seq<string>, k: nat)
    requires 0 < k <= |chunks|
  {
    HasEnd(Flatten(chunks[..k]), Crossings(chunks, k - 1) % 2 == 1)
  }

  /** The first `k` chunks are the fewest that hold such an end. */
  ghost predicate StopsAt(chunks: seq<string>, k: nat) {
    0 < k <= |chunks| && PassEnds(chunks, k) && forall j: nat :: 0 < j < k ==> !PassEnds(chunks, j)
  }

  /** What the first `k` chunks hold behind their first record, and the chunks after them. */
  function RowChunks(chunks: seq<string>, k: nat): seq<string>
    requires k <= |chunks|
  {
    var rest := BodyOf(Flatten(chunks[..k]));
    (if rest == "" then [] else [rest]) + chunks[k..]
  }

  lemma HasEndIs(s: string, quoted: bool)
    ensures HasEnd(s, quoted) <==> FirstEnd(s, quoted) < |s|
  {
    FirstEndIs(s, quoted);
  }

  lemma FlattenSnoc(pre: seq<string>, chunk: string)
    ensures Flatten(pre + [chunk]) == Flatten(pre) + chunk
  {
    FlattenConcat(pre, [chunk]);
    FlattenOne(chunk);
  }

  /** A pass on the chunks read so far: its buffer, and the flag it starts with. */
  ghost predicate AtPass(chunks: seq<string>, k: nat, buf: string, quoted: bool) {
    k <= |chunks| && buf == Flatten(chunks[..k]) && quoted == (Crossings(chunks, k) % 2 == 1)
  }

  lemma NextPass(chunks: seq<string>, k: nat, buf: string, quoted: bool)
    requires k < |chunks| && AtPass(chunks, k, buf, quoted)
    ensures var buf' := buf + chunks[k];
      && AtPass(chunks, k + 1, buf', quoted != Odd(buf'))
      && (PassEnds(chunks, k + 1) <==> FirstEnd(buf', quoted) < |buf'|)
  {
    assert chunks[..k + 1] == chunks[..k] + [chunks[k]];
    FlattenSnoc(chunks[..k], chunks[k]);
    HasEndIs(buf + chunks[k], quoted);
  }

  ghost predicate NoPassEnds(chunks: seq<string>, k: nat)
    requires k <= |chunks|
  {
    forall j: nat :: 0 < j <= k ==> !PassEnds(chunks, j)
  }

  /** What the header loop comes to, said without it: where it stops, in step or not, and what is left. */
  ghost predicate FollowedTo(chunks: seq<string>, stop: nat, inStep: bool, tail: seq<string>) {
    if stop > 0 then
      && StopsAt(chunks, stop)
      && (inStep <==> Crossings(chunks, stop - 1) % 2 == 0)
      && (inStep ==> tail == RowChunks(chunks, stop))
    else
      NoPassEnds(chunks, |chunks|) && (inStep <==> !HasEnd(Flatten(chunks), false)) && tail == []
  }

  lemma {:induction false} FollowPasses(chunks: seq<string>, k: nat, rest: seq<string>, buf: string, quoted: bool)
    returns (stop: nat)
    requires AtPass(chunks, k, buf, quoted) && NoPassEnds(chunks, k) && chunks == chunks[..k] + rest
    ensures var h := TakeHeader(buf, quoted, rest, None);
      h.Header? && FollowedTo(chunks, stop, StopsInStep(buf, quoted, rest), h.tail)
    decreases |rest|
  {
    if rest == [] {
      assert chunks[..k] == chunks;
      HasEndIs(buf, false);
      stop := 0;
    } else {
      var buf' := buf + rest[0];
      assert chunks[k] == rest[0] && chunks[..k + 1] == chunks[..k] + [rest[0]] && chunks[k + 1..] == rest[1..];
      NextPass(chunks, k, buf, quoted);
      if FirstEnd(buf', quoted) < |buf'| {
        stop := k + 1;
      } else {
        stop := FollowPasses(chunks, k + 1, rest[1..], buf', quoted != Odd(buf'));
      }
    }
  }

  /** The loop from its start. */
  lemma FollowAll(chunks: seq<string>) returns (stop: nat)
    ensures var h := TakeHeader("", false, chunks, None);
      h.Header? && FollowedTo(chunks, stop, StopsInStep("", false, chunks), h.tail)
  {
    assert chunks[..0] == [] && chunks == chunks[..0] + chunks;
    stop := FollowPasses(chunks, 0, chunks, "", false);
  }

  lemma StopsOnce(chunks: seq<string>, j: nat, k: nat)
    requires StopsAt(chunks, j) && StopsAt(chunks, k)
    ensures j == k
  {
  }

  // ----- Header and records of a whole stream

  /** The raw header and data records of a stream, uncapped. */
  function Stream(chunks: seq<string>): (string, ScanResult)
  {
    HeaderExact("", false, chunks);
    var h := TakeHeader("", false, chunks, None);
    (h.header, Scan(INITIAL, h.tail, None, AtStart))
  }

  /** The declarative reading: the first record, then the non-blank records after it. */
  function StreamOf(text: string): (string, ScanResult) {
    (Lead(text, false), Records(BodyOf(text)))
  }

  /**
   The chunkings that are read correctly. Let the first `k` chunks be the fewest that hold a record end, read from
   inside quotes if an odd number of the boundaries between them lie in quotes, else from outside. Then that number is
   even, and no boundary of what follows the header hurts. If there are no such chunks, the text has no record end.
   */
  ghost predicate SafeChunks(chunks: seq<string>) {
    && (forall k: nat :: StopsAt(chunks, k) ==> Crossings(chunks, k - 1) % 2 == 0 && NoHurt("", RowChunks(chunks, k)))
    && (NoPassEnds(chunks, |chunks|) ==> !HasEnd(Flatten(chunks), false))
  }

  lemma NothingHurtsNothing()
    ensures NoHurt("", [])
  {
  }

  /** The condition in terms of the run: the header loop stops in step, and its tail is read right. */
  ghost predicate ReadsInStep(chunks: seq<string>) {
    var h := TakeHeader("", false, chunks, None);
    h.Header? && StopsInStep("", false, chunks) && NoHurt("", h.tail)
  }

  /** The condition on the text is the condition on the run. */
  lemma SafeIsInStep(chunks: seq<string>)
    ensures SafeChunks(chunks) <==> ReadsInStep(chunks)
  {
    var stop := FollowAll(chunks);
    NothingHurtsNothing();
    if stop > 0 {
      forall k: nat | StopsAt(chunks, k) ensures k == stop {
        StopsOnce(chunks, k, stop);
      }
    } else {
      forall k: nat ensures !StopsAt(chunks, k) {
      }
    }
  }

  lemma ReadsExactlyInStep(chunks: seq<string>)
    ensures Stream(chunks) == StreamOf(Flatten(chunks)) <==> ReadsInStep(chunks)
  {
    HeaderExact("", false, chunks);
    assert "" + Flatten(chunks) == Flatten(chunks);
    ScanReadsExactly(TakeHeader("", false, chunks, None).tail);
  }

  /** The streaming parser sees the header and records of the whole text exactly on the safe chunkings. */
  lemma StreamReadsExactly(chunks: seq<string>)
    ensures Stream(chunks) == StreamOf(Flatten(chunks)) <==> SafeChunks(chunks)
  {
    SafeIsInStep(chunks);
    ReadsExactlyInStep(chunks);
  }

  /** A chunking without boundaries inside quotes is safe. */
  lemma UnquotedBoundariesSafe(chunks: seq<string>)
    requires UnquotedAfter("", chunks)
    ensures SafeChunks(chunks)
  {
    UnquotedHeader("", chunks);
    var tail := TakeHeader("", false, chunks, None).tail;
    forall k | 0 < k < |tail|
      ensures !Odd(Flatten(tail[..k]))
    {
      assert "" + Flatten(tail[..k]) == Flatten(tail[..k]);
    }
    UnquotedBoundariesRead(tail);
    ScanReadsExactly(tail);
    SafeIsInStep(chunks);
  }

  lemma OneChunkSafe(text: string)
    ensures SafeChunks([text])
  {
    UnquotedBoundariesSafe([text]);
  }

  /** Chunk independence: two safe chunkings of one text give the same header and records. */
  lemma SafeChunkingsAgree(chunks: seq<string>, chunks': seq<string>)
    requires Flatten(chunks) == Flatten(chunks') && SafeChunks(chunks) && SafeChunks(chunks')
    ensures Stream(chunks) == Stream(chunks') == Stream([Flatten(chunks)])
  {
    StreamReadsExactly(chunks);
    StreamReadsExactly(chunks');
    OneChunkSafe(Flatten(chunks));
    StreamReadsExactly([Flatten(chunks)]);
    FlattenOne(Flatten(chunks));
  }

  /** Scanning a text without newlines passes over it. */
  lemma EndBehind(s: string, t: string, quoted: bool)
    requires '\n' !in s
    ensures FirstEnd(s + t, quoted) == |s| + FirstEnd(t, quoted != Odd(s))
  {
    NoNewlineNoEnd(s, quoted);
    FirstEndConcat(s, t, quoted);
  }

  lemma CountQuotes()
    ensures Odd("\"a") && !Odd("\"ab\"")
  {
    assert "\"a"[1..] == "a" && "\"ab\""[1..] == "ab\"" && "ab\""[1..] == "b\"" && "b\""[1..] == "\"";
    assert Odd("\"") && Odd("b\"") && Odd("ab\"");
  }

  lemma EndsOfExample(whole: string)
    requires whole == "\"ab\"" + "\n1"
    ensures FirstEnd(whole, true) == |whole| && FirstEnd(whole, false) == 4
  {
    CountQuotes();
    EndBehind("\"ab\"", "\n1", true);
    EndBehind("\"ab\"", "\n1", false);
    NoNewlineNoEnd("1", true);
    assert "\n1"[1..] == "1";
  }

  /** A pass that finds no record end keeps its buffer and turns the flag. */
  lemma PassGoesOn(buf: string, quoted: bool, chunk: string, rest: seq<string>, all: string)
    requires all == buf + chunk && FirstEnd(all, quoted) == |all|
    ensures TakeHeader(buf, quoted, [chunk] + rest, None) == TakeHeader(all, quoted != Odd(all), rest, None)
  {
    assert ([chunk] + rest)[1..] == rest;
  }

  lemma FirstPassOfExample(whole: string)
    requires whole == "\"ab\"" + "\n1"
    ensures TakeHeader("", false, ["\"a", "b\"\n1"], None) == Header(whole, [])
  {
    var first, second := "\"a", "b\"\n1";
    CountQuotes();
    NoNewlineNoEnd(first, false);
    EndsOfExample(whole);
    PassGoesOn("", false, first, [second], first);
    PassGoesOn(first, true, second, [], whole);
    assert [first] + [second] == [first, second] && [second] + [] == [second];
  }

  /** A quoted header cut by a boundary: its end is passed over, and the whole input is taken for the header. */
  lemma MisreadHeader(whole: string)
    requires whole == "\"ab\"\n1"
    ensures TakeHeader("", false, ["\"a", "b\"\n1"], None) == Header(whole, [])
    ensures Stream(["\"a", "b\"\n1"]).0 == whole && StreamOf(whole).0 == "\"ab\""
  {
    FirstPassOfExample(whole);
    EndsOfExample(whole);
    assert whole[..4] == "\"ab\"";
  }

  // ----- The cap on the header

  /** The lengths the buffer reaches in a capped run: once for each chunk that is pulled. */
  function HeaderBuffered(buf: string, quoted: bool, chunks: seq<string>, cap: nat): (lengths: seq<nat>)
    ensures |lengths| <= |chunks|
    decreases chunks
  {
    if chunks == [] then []
    else
      var buf' := buf + chunks[0];
      [|buf'|] + if FirstEnd(buf', quoted) < |buf'| || |buf'| > cap then []
                 else HeaderBuffered(buf', quoted != Odd(buf'), chunks[1..], cap)
  }

  /** The lengths of the text kept between the chunks of an uncapped run, and after the last one if none stops it. */
  function HeaderRetained(buf: string, quoted: bool, chunks: seq<string>): seq<nat>
    decreases chunks
  {
    if chunks == [] then [|buf|]
    else
      var buf' := buf + chunks[0];
      if FirstEnd(buf', quoted) < |buf'| then [] else [|buf'|] + HeaderRetained(buf', quoted != Odd(buf'), chunks[1..])
  }

  /** Each length is within the cap and the chunk that was pulled for it. */
  predicate GrowsByChunk(lengths: seq<nat>, chunks: seq<string>, cap: nat) {
    |lengths| <= |chunks| && forall k :: 0 <= k < |lengths| ==> lengths[k] <= cap + |chunks[k]|
  }

  lemma GrowsByChunkCons(n: nat, rest: seq<nat>, chunks: seq<string>, cap: nat)
    requires chunks != [] && n <= cap + |chunks[0]| && GrowsByChunk(rest, chunks[1..], cap)
    ensures GrowsByChunk([n] + rest, chunks, cap)
  {
    forall k | 0 < k < |rest| + 1 ensures ([n] + rest)[k] <= cap + |chunks[k]| {
      assert chunks[k] == chunks[1..][k - 1];
    }
  }

  /** Memory: the header's buffer, too, never exceeds the cap by more than the newest chunk. */
  lemma {:induction false} HeaderBufferBounded(buf: string, quoted: bool, chunks: seq<string>, cap: nat)
    requires |buf| <= cap
    ensures GrowsByChunk(HeaderBuffered(buf, quoted, chunks, cap), chunks, cap)
    decreases chunks
  {
    if chunks != [] {
      var buf' := buf + chunks[0];
      if FirstEnd(buf', quoted) == |buf'| && |buf'| <= cap {
        HeaderBufferBounded(buf', quoted != Odd(buf'), chunks[1..], cap);
        GrowsByChunkCons(|buf'|, HeaderBuffered(buf', quoted != Odd(buf'), chunks[1..], cap), chunks, cap);
      }
    }
  }

  predicate WithinCap(lengths: seq<nat>, cap: nat) {
    forall k :: 0 <= k < |lengths| ==> lengths[k] <= cap
  }

  /**
   A capped run gives the header and tail of the uncapped one, or throws; it throws exactly when the header or a text
   kept between chunks is too long.
   */
  lemma {:induction false} HeaderCapExact(buf: string, quoted: bool, chunks: seq<string>, cap: nat)
    ensures var r, whole := TakeHeader(buf, quoted, chunks, Some(cap)), TakeHeader(buf, quoted, chunks, None);
      && whole.Header?
      && (r.Header? <==> |whole.header| <= cap && WithinCap(HeaderRetained(buf, quoted, chunks), cap))
      && (r.Header? ==> r == whole)
    decreases chunks
  {
    if chunks != [] {
      var buf' := buf + chunks[0];
      if FirstEnd(buf', quoted) == |buf'| {
        var later := HeaderRetained(buf', quoted != Odd(buf'), chunks[1..]);
        HeaderCapExact(buf', quoted != Odd(buf'), chunks[1..], cap);
        WithinCapCons(|buf'|, later, cap);
      }
    }
  }

  /** An error of the header loop names the cap and a length above it. */
  lemma {:induction false} HeaderNamesExcess(buf: string, quoted: bool, chunks: seq<string>, cap: nat)
    ensures var r := TakeHeader(buf, quoted, chunks, Some(cap));
            r.HeaderTooLong? ==> r.error.limit == cap < r.error.recordBytes
    decreases chunks
  {
    if chunks != [] {
      var buf' := buf + chunks[0];
      HeaderNamesExcess(buf', quoted != Odd(buf'), chunks[1..], cap);
    }
  }

  lemma WithinCapCons(n: nat, rest: seq<nat>, cap: nat)
    ensures WithinCap([n] + rest, cap) <==> n <= cap && WithinCap(rest, cap)
  {
    assert forall k :: 0 <= k < |rest| ==> ([n] + rest)[k + 1] == rest[k];
    assert ([n] + rest)[0] == n;
  }
}
