/**
 The record cap of the row scanner: what it bounds, what it lets through, and exactly when it fires.
 All statements hold for both resume positions, so they do not depend on how a chunking is read.
 */
module CsvCaps {
  import opened Wrappers
  import opened CsvText
  import opened CsvScan

  /** The lengths of the text kept after each chunk of an uncapped run. */
  function Retained(state: State, chunks: seq<string>, resume: Resume): seq<nat>
    requires state.Valid()
    decreases chunks
  {
    if chunks == [] then []
    else
      var next := Take(state, chunks[0], None, resume).next;
      [|next.buf|] + Retained(next, chunks[1..], resume)
  }

  /** The lengths the buffer reaches in a capped run: once for each chunk that is pulled. */
  function Buffered(state: State, chunks: seq<string>, cap: nat, resume: Resume): (lengths: seq<nat>)
    requires state.Valid()
    ensures |lengths| <= |chunks|
    decreases chunks
  {
    if chunks == [] then []
    else
      var t := Take(state, chunks[0], Some(cap), resume);
      [|state.buf + chunks[0]|] + if t.error.Some? then [] else Buffered(t.next, chunks[1..], cap, resume)
  }

  predicate ShortRecords(records: seq<string>, cap: nat) {
    forall k :: 0 <= k < |records| ==> |records[k]| <= cap
  }

  predicate ShortTexts(lengths: seq<nat>, cap: nat) {
    forall k :: 0 <= k < |lengths| ==> lengths[k] <= cap
  }

  /** `a` is a prefix of `b`. */
  predicate Starts(a: seq<string>, b: seq<string>) {
    |a| <= |b| && a == b[..|a|]
  }

  // ----- One chunk

  /** Capped emission: the short records before the first long one, and an error exactly if there is one. */
  lemma {:induction false} EmitCapped(pieces: seq<string>, cap: nat)
    ensures var e, all := EmitAll(pieces, Some(cap)), NonBlank(pieces);
            && ShortRecords(e.records, cap)
            && Starts(e.records, all)
            && (e.error.None? <==> ShortRecords(all, cap))
            && (e.error.None? ==> e.records == all)
  {
    if pieces != [] {
      EmitCapped(pieces[1..], cap);
      var first, e := pieces[0], EmitAll(pieces[1..], Some(cap));
      if Blank(first) {
        assert NonBlank(pieces) == NonBlank(pieces[1..]);
      } else {
        ShortCons(first, NonBlank(pieces[1..]), cap);
        ShortCons(first, e.records, cap);
        StartsCons(first, e.records, NonBlank(pieces[1..]));
      }
    }
  }

  lemma ShortCons(first: string, rest: seq<string>, cap: nat)
    ensures ShortRecords([first] + rest, cap) <==> |first| <= cap && ShortRecords(rest, cap)
  {
    assert ([first] + rest)[0] == first;
    assert forall k :: 0 <= k < |rest| ==> rest[k] == ([first] + rest)[k + 1];
  }

  lemma StartsCons(first: string, a: seq<string>, b: seq<string>)
    ensures Starts(a, b) ==> Starts([first] + a, [first] + b)
  {
  }

  lemma ShortConcat(a: seq<string>, b: seq<string>, cap: nat)
    ensures ShortRecords(a + b, cap) <==> ShortRecords(a, cap) && ShortRecords(b, cap)
  {
    assert forall k :: 0 <= k < |a| ==> a[k] == (a + b)[k];
    assert forall k :: 0 <= k < |b| ==> b[k] == (a + b)[|a| + k];
  }

  lemma ShortTextsCons(n: nat, rest: seq<nat>, cap: nat)
    ensures ShortTexts([n] + rest, cap) <==> n <= cap && ShortTexts(rest, cap)
  {
    assert ([n] + rest)[0] == n;
    assert forall k :: 0 <= k < |rest| ==> rest[k] == ([n] + rest)[k + 1];
  }

  lemma StartsConcat(a: seq<string>, b: seq<string>, c: seq<string>)
    ensures Starts(b, c) ==> Starts(a + b, a + c)
    ensures Starts(a, b) ==> Starts(a, b + c)
    ensures Starts(a, a + c)
  {
  }

  /** One chunk of a capped run against the same chunk of an uncapped one. */
  lemma TakeCapped(state: State, chunk: string, cap: nat, resume: Resume)
    requires state.Valid()
    ensures var t, u := Take(state, chunk, Some(cap), resume), Take(state, chunk, None, resume);
            && u.error.None? && t.next == u.next
            && ShortRecords(t.records, cap) && Starts(t.records, u.records)
            && (t.error.None? <==> ShortRecords(u.records, cap) && |u.next.buf| <= cap)
            && (t.error.None? ==> t.records == u.records)
  {
    var pieces := ClosedFrom(state.buf + chunk, state.scanPos, state.quoted);
    EmitCapped(pieces, cap);
    EmitUncapped(pieces);
  }

  // ----- Whole runs

  /** What a capped run is, given the uncapped one and the texts it retains. */
  predicate CappedRun(capped: ScanResult, whole: ScanResult, retained: seq<nat>, cap: nat) {
    && ShortRecords(capped.records, cap)
    && Starts(capped.records, whole.records)
    && (capped.error.None? <==> ShortRecords(whole.records, cap) && ShortTexts(retained, cap))
    && (capped.error.None? ==> capped == whole)
    && whole.error.None?
  }

  lemma FlushCapped(buf: string, cap: nat)
    ensures CappedRun(Flush(buf, Some(cap)), Flush(buf, None), [], cap)
  {
    assert [buf][0] == buf;
  }

  lemma RunPrepend(t: Taken, u: Taken, capped: ScanResult, whole: ScanResult, retained: seq<nat>, cap: nat)
    requires u.error.None? && ShortRecords(t.records, cap) && Starts(t.records, u.records)
    requires t.error.None? <==> ShortRecords(u.records, cap) && |u.next.buf| <= cap
    requires t.error.None? ==> t.records == u.records
    requires CappedRun(capped, whole, retained, cap)
    ensures CappedRun(if t.error.Some? then ScanResult(t.records, t.error) else Prepend(t.records, capped),
                      Prepend(u.records, whole), [|u.next.buf|] + retained, cap)
  {
    ShortConcat(u.records, whole.records, cap);
    ShortConcat(t.records, capped.records, cap);
    ShortTextsCons(|u.next.buf|, retained, cap);
    StartsConcat(t.records, u.records, whole.records);
    StartsConcat(u.records, capped.records, whole.records);
  }

  /**
   The cap over a whole run: every yielded record is short, the yielded records are a prefix of the
   uncapped run, and the run throws exactly when a record or a text kept between chunks is too long.
   */
  lemma {:induction false} CapExact(state: State, chunks: seq<string>, cap: nat, resume: Resume)
    requires state.Valid()
    ensures CappedRun(Scan(state, chunks, Some(cap), resume), Scan(state, chunks, None, resume),
                      Retained(state, chunks, resume), cap)
    decreases chunks
  {
    if chunks == [] {
      FlushCapped(state.buf, cap);
    } else {
      TakeCapped(state, chunks[0], cap, resume);
      var t, u := Take(state, chunks[0], Some(cap), resume), Take(state, chunks[0], None, resume);
      CapExact(u.next, chunks[1..], cap, resume);
      RunPrepend(t, u, Scan(u.next, chunks[1..], Some(cap), resume), Scan(u.next, chunks[1..], None, resume),
                 Retained(u.next, chunks[1..], resume), cap);
    }
  }

  /** An error names the cap and a length above it. */
  predicate NamesExcess(error: Option<SizeError>, cap: nat) {
    error.Some? ==> error.value.limit == cap < error.value.recordBytes
  }

  lemma {:induction false} EmitNamesExcess(pieces: seq<string>, cap: nat)
    ensures NamesExcess(EmitAll(pieces, Some(cap)).error, cap)
  {
    if pieces != [] {
      EmitNamesExcess(pieces[1..], cap);
    }
  }

  lemma TakeNamesExcess(state: State, chunk: string, cap: nat, resume: Resume)
    requires state.Valid()
    ensures NamesExcess(Take(state, chunk, Some(cap), resume).error, cap)
  {
    EmitNamesExcess(ClosedFrom(state.buf + chunk, state.scanPos, state.quoted), cap);
  }

  lemma {:induction false} ScanNamesExcess(state: State, chunks: seq<string>, cap: nat, resume: Resume)
    requires state.Valid()
    ensures NamesExcess(Scan(state, chunks, Some(cap), resume).error, cap)
    decreases chunks
  {
    if chunks != [] {
      TakeNamesExcess(state, chunks[0], cap, resume);
      ScanNamesExcess(Take(state, chunks[0], Some(cap), resume).next, chunks[1..], cap, resume);
    }
  }

  /** Memory: the buffer never exceeds the cap by more than the newest chunk. */
  lemma {:induction false} BufferBounded(state: State, chunks: seq<string>, cap: nat, resume: Resume)
    requires state.Valid() && |state.buf| <= cap
    ensures var lengths := Buffered(state, chunks, cap, resume);
            forall k :: 0 <= k < |lengths| ==> lengths[k] <= cap + |chunks[k]|
    decreases chunks
  {
    if chunks != [] {
      var t := Take(state, chunks[0], Some(cap), resume);
      if t.error.None? {
        BufferBounded(t.next, chunks[1..], cap, resume);
        var later := Buffered(t.next, chunks[1..], cap, resume);
        forall k | 0 < k < |later| + 1
          ensures later[k - 1] <= cap + |chunks[k]|
        {
          assert chunks[k] == chunks[1..][k - 1];
        }
      }
    }
  }
}
