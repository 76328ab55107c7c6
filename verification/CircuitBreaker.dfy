/**
 The circuit breaker of packages/dedi-client/src/circuit-breaker.ts.

 A call is split at its one `await`: admission and the start of the wrapped call come before it, settling after. So
 any number of calls can be between the two. The theorems read the state off the history and hold for any list of
 events, so for every interleaving of calls, of which each settles after it was admitted.
 */
module CircuitBreaker {

  datatype BreakerState = CLOSED | OPEN | HALF_OPEN

  datatype Options = Options(threshold: int, resetTimeoutMs: int, countAuthFailures: bool)

  /** The failures that open the breaker: a threshold below one works like one. */
  function Limit(options: Options): nat {
    if options.threshold < 1 then 1 else options.threshold
  }

  /** How a wrapped call ends: a client error carries the status of the response. */
  datatype Result = Done | ClientError(status: int) | OtherError

  /** Client errors below 500 do not count, except 401 and 403 when configured. */
  predicate Counts(r: Result, options: Options) {
    match r
    case Done => false
    case ClientError(status) => status >= 500 || (options.countAuthFailures && (status == 401 || status == 403))
    case OtherError => true
  }

  /** The fields of a breaker as one value. */
  datatype Fields = Fields(state: BreakerState, failureCount: nat, lastFailureTime: int)

  const INITIAL := Fields(CLOSED, 0, 0)

  predicate Admits(b: Fields, now: int, options: Options) {
    b.state == OPEN ==> now - b.lastFailureTime >= options.resetTimeoutMs
  }

  function Entered(b: Fields, now: int, options: Options): Fields {
    if b.state == OPEN && Admits(b, now, options) then b.(state := HALF_OPEN) else b
  }

  function Failed(b: Fields, now: int, options: Options): Fields {
    var count := b.failureCount + 1;
    Fields(if b.state == HALF_OPEN || count >= options.threshold then OPEN else b.state, count, now)
  }

  function Settled(b: Fields, r: Result, now: int, options: Options): Fields {
    if r == Done then Fields(CLOSED, 0, b.lastFailureTime)
    else if Counts(r, options) then Failed(b, now, options)
    else b
  }

  class CircuitBreaker {
    const options: Options
    var state: BreakerState
    var failureCount: nat
    var lastFailureTime: int

    function View(): Fields
      reads this
    {
      Fields(state, failureCount, lastFailureTime)
    }

    constructor (options: Options)
      ensures this.options == options && View() == INITIAL
    {
      this.options := options;
      state, failureCount, lastFailureTime := CLOSED, 0, 0;
    }

    /** The part of `execute` before the wrapped call: rejected calls leave the breaker as it is. */
    method Enter(now: int) returns (admitted: bool)
      modifies this
      ensures admitted == Admits(old(View()), now, options)
      ensures View() == Entered(old(View()), now, options)
    {
      if state == OPEN {
        if now - lastFailureTime >= options.resetTimeoutMs {
          state := HALF_OPEN;
        } else {
          return false;
        }
      }
      return true;
    }

    /** The part of `execute` after the wrapped call. */
    method Settle(r: Result, now: int)
      modifies this
      ensures View() == Settled(old(View()), r, now, options)
    {
      if r == Done {
        OnSuccess();
      } else if r.ClientError? && r.status < 500 {
        if options.countAuthFailures && (r.status == 401 || r.status == 403) {
          OnFailure(now);
        }
      } else {
        OnFailure(now);
      }
    }

    method OnSuccess()
      modifies this
      ensures View() == Fields(CLOSED, 0, old(lastFailureTime))
    {
      failureCount := 0;
      state := CLOSED;
    }

    method OnFailure(now: int)
      modifies this
      ensures View() == Failed(old(View()), now, options)
    {
      failureCount := failureCount + 1;
      lastFailureTime := now;
      if state == HALF_OPEN {
        state := OPEN;
      } else if failureCount >= options.threshold {
        state := OPEN;
      }
    }
  }

  // ----- Runs

  datatype Event = Enter(now: int) | Settle(r: Result, now: int)

  function Next(b: Fields, e: Event, options: Options): Fields {
    match e
    case Enter(now) => Entered(b, now, options)
    case Settle(r, now) => Settled(b, r, now, options)
  }

  function RunOf(events: seq<Event>, options: Options): Fields {
    if events == [] then INITIAL
    else Next(RunOf(events[..|events| - 1], options), events[|events| - 1], options)
  }

  // ----- What the history says

  predicate IsSuccess(e: Event) {
    e.Settle? && e.r == Done
  }

  predicate IsFailure(e: Event, options: Options) {
    e.Settle? && Counts(e.r, options)
  }

  /** The events after the last success. */
  function SinceSuccess(events: seq<Event>): seq<Event> {
    if events == [] then []
    else if exists i :: 1 <= i < |events| && IsSuccess(events[i]) then SinceSuccess(events[1..])
    else if IsSuccess(events[0]) then events[1..]
    else events
  }

  /** The number of counted failures among `events`. */
  function FailuresIn(events: seq<Event>, options: Options): nat {
    if events == [] then 0
    else (if IsFailure(events[0], options) then 1 else 0) + FailuresIn(events[1..], options)
  }

  /** `i` is where the last counted failure is. */
  ghost predicate IsLastFailure(events: seq<Event>, i: int, options: Options) {
    && 0 <= i < |events| && IsFailure(events[i], options)
    && forall j :: i < j < |events| ==> !IsFailure(events[j], options)
  }

  /** Since the last counted failure, at `i`, some call came when the timeout was over. */
  ghost predicate Probed(events: seq<Event>, i: int, options: Options)
    requires 0 <= i < |events|
  {
    exists j :: i < j < |events| && events[j].Enter? && events[j].now - events[i].now >= options.resetTimeoutMs
  }

  lemma {:induction false} FailuresAppend(events: seq<Event>, e: Event, options: Options)
    ensures FailuresIn(events + [e], options) == FailuresIn(events, options) + (if IsFailure(e, options) then 1 else 0)
  {
    if events == [] {
      assert events + [e] == [e];
    } else {
      FailuresAppend(events[1..], e, options);
      assert (events + [e])[1..] == events[1..] + [e];
    }
  }

  predicate NoSuccess(events: seq<Event>) {
    forall i :: 0 <= i < |events| ==> !IsSuccess(events[i])
  }

  lemma {:induction false} SinceSuccessIs(before: seq<Event>, s: Event, after: seq<Event>)
    requires IsSuccess(s) && NoSuccess(after)
    ensures SinceSuccess(before + [s] + after) == after
  {
    var events := before + [s] + after;
    if before == [] {
      assert events == [s] + after;
      assert forall i :: 1 <= i < |events| ==> events[i] == after[i - 1];
    } else {
      assert IsSuccess(events[|before|]);
      assert events[1..] == before[1..] + [s] + after;
      SinceSuccessIs(before[1..], s, after);
    }
  }

  lemma NeverSucceeded(events: seq<Event>)
    requires NoSuccess(events)
    ensures SinceSuccess(events) == events
  {
  }

  /** Either nothing succeeded, or the events after the last success follow it. */
  lemma {:induction false} SplitAtSuccess(events: seq<Event>) returns (before: seq<Event>, s: Event)
    requires !NoSuccess(events)
    ensures IsSuccess(s) && NoSuccess(SinceSuccess(events)) && events == before + [s] + SinceSuccess(events)
  {
    if exists i :: 1 <= i < |events| && IsSuccess(events[i]) {
      var i :| 1 <= i < |events| && IsSuccess(events[i]);
      assert IsSuccess(events[1..][i - 1]);
      before, s := SplitAtSuccess(events[1..]);
      before := [events[0]] + before;
      assert events == [events[0]] + events[1..];
    } else {
      before, s := [], events[0];
      assert events == [events[0]] + events[1..];
    }
  }

  lemma SinceSuccessAppend(events: seq<Event>, e: Event)
    ensures SinceSuccess(events + [e]) == if IsSuccess(e) then [] else SinceSuccess(events) + [e]
  {
    if IsSuccess(e) {
      assert events + [e] == events + [e] + [];
      SinceSuccessIs(events, e, []);
    } else if NoSuccess(events) {
      NeverSucceeded(events);
      NeverSucceeded(events + [e]);
    } else {
      var before, s := SplitAtSuccess(events);
      assert events + [e] == before + [s] + (SinceSuccess(events) + [e]);
      SinceSuccessIs(before, s, SinceSuccess(events) + [e]);
    }
  }

  lemma PrefixOf(events: seq<Event>)
    requires events != []
    ensures events == events[..|events| - 1] + [events[|events| - 1]]
  {
  }

  /** `failureCount` is the number of counted failures since the last success. */
  lemma {:induction false} CountsSinceSuccess(events: seq<Event>, options: Options)
    ensures RunOf(events, options).failureCount == FailuresIn(SinceSuccess(events), options)
  {
    if events != [] {
      var front, last := events[..|events| - 1], events[|events| - 1];
      PrefixOf(events);
      CountsSinceSuccess(front, options);
      SinceSuccessAppend(front, last);
      FailuresAppend(SinceSuccess(front), last, options);
    }
  }

  /** The breaker is closed exactly when fewer failures than the threshold counted since the last success. */
  lemma {:induction false} ClosedExactlyBelow(events: seq<Event>, options: Options)
    ensures RunOf(events, options).state == CLOSED <==> FailuresIn(SinceSuccess(events), options) < Limit(options)
  {
    CountsSinceSuccess(events, options);
    if events != [] {
      var front := events[..|events| - 1];
      CountsSinceSuccess(front, options);
      ClosedExactlyBelow(front, options);
    }
  }

  lemma LastFailureMoves(events: seq<Event>, i: int, options: Options)
    requires events != [] && IsLastFailure(events, i, options) && i < |events| - 1
    ensures IsLastFailure(events[..|events| - 1], i, options) && !IsFailure(events[|events| - 1], options)
  {
  }

  /** The breaker remembers the time of the last counted failure, and is half open once that failure was probed. */
  lemma {:induction false} RemembersLastFailure(events: seq<Event>, i: int, options: Options)
    requires IsLastFailure(events, i, options)
    ensures RunOf(events, options).lastFailureTime == events[i].now
    ensures RunOf(events, options).state != CLOSED ==>
              (RunOf(events, options).state == HALF_OPEN <==> Probed(events, i, options))
  {
    if i < |events| - 1 {
      var front, last := events[..|events| - 1], events[|events| - 1];
      LastFailureMoves(events, i, options);
      RemembersLastFailure(front, i, options);
      ProbedGrows(events, i, options);
    }
  }

  lemma ProbedGrows(events: seq<Event>, i: int, options: Options)
    requires 0 <= i < |events| - 1
    ensures var last := events[|events| - 1];
      Probed(events, i, options) <==>
        Probed(events[..|events| - 1], i, options) || (last.Enter? && last.now - events[i].now >= options.resetTimeoutMs)
  {
    var front := events[..|events| - 1];
    if Probed(front, i, options) {
      var j :| i < j < |front| && front[j].Enter? && front[j].now - front[i].now >= options.resetTimeoutMs;
      assert events[j] == front[j];
    }
    if Probed(events, i, options) {
      var j :| i < j < |events| && events[j].Enter? && events[j].now - events[i].now >= options.resetTimeoutMs;
      if j < |front| {
        assert front[j] == events[j];
      }
    }
  }

  /** Some failure counted, so there is a last one. */
  lemma {:induction false} HasLastFailure(events: seq<Event>, options: Options) returns (i: int)
    requires FailuresIn(SinceSuccess(events), options) > 0
    ensures IsLastFailure(events, i, options)
  {
    if events == [] {
      assert false;
    } else {
      var front, last := events[..|events| - 1], events[|events| - 1];
      PrefixOf(events);
      if IsFailure(last, options) {
        i := |events| - 1;
      } else {
        SinceSuccessAppend(front, last);
        FailuresAppend(SinceSuccess(front), last, options);
        i := HasLastFailure(front, options);
      }
    }
  }

  /**
   A call is turned away exactly when the threshold is reached, nobody has probed since the last counted failure, and
   that failure is less than the timeout ago. No wrapped call starts otherwise, and none is refused.
   */
  lemma TurnedAwayExactly(events: seq<Event>, now: int, options: Options)
    ensures !Admits(RunOf(events, options), now, options) <==>
      && FailuresIn(SinceSuccess(events), options) >= Limit(options)
      && exists i :: IsLastFailure(events, i, options) && !Probed(events, i, options)
                     && now - events[i].now < options.resetTimeoutMs
  {
    ClosedExactlyBelow(events, options);
    if FailuresIn(SinceSuccess(events), options) >= Limit(options) {
      var i := HasLastFailure(events, options);
      RemembersLastFailure(events, i, options);
      forall k | IsLastFailure(events, k, options) ensures k == i {
      }
    }
  }

  // ----- The same on statuses

  /** The end of a call counts: no response, a server error, or 401 and 403 when these are counted. */
  predicate Harms(r: Result, options: Options) {
    || r == OtherError
    || (r.ClientError? && r.status >= 500)
    || (options.countAuthFailures && (r == ClientError(401) || r == ClientError(403)))
  }

  /** A failure that counts at position `i`, and no success behind it. */
  ghost predicate StandsAt(events: seq<Event>, i: int, options: Options) {
    && 0 <= i < |events| && events[i].Settle? && Harms(events[i].r, options)
    && forall j :: i < j < |events| ==> events[j].Settle? ==> events[j].r != Done
  }

  /** The positions of the failures that count against the breaker. */
  ghost function Standing(events: seq<Event>, options: Options): set<int> {
    set i | 0 <= i < |events| && StandsAt(events, i, options)
  }

  lemma StandsAppend(events: seq<Event>, e: Event, i: int, options: Options)
    ensures StandsAt(events + [e], i, options) <==>
      if i == |events| then e.Settle? && Harms(e.r, options)
      else StandsAt(events, i, options) && e != Settle(Done, e.now)
  {
    var all := events + [e];
    assert all[|events|] == e && forall j :: 0 <= j < |events| ==> all[j] == events[j];
  }

  lemma StandingAppend(events: seq<Event>, e: Event, options: Options)
    ensures Standing(events + [e], options)
         == (if e == Settle(Done, e.now) then {} else Standing(events, options))
            + (if e.Settle? && Harms(e.r, options) then {|events|} else {})
  {
    forall i ensures StandsAt(events + [e], i, options) <==>
      if i == |events| then e.Settle? && Harms(e.r, options)
      else StandsAt(events, i, options) && e != Settle(Done, e.now)
    {
      StandsAppend(events, e, i, options);
    }
  }

  predicate ClosedBelow(b: Fields, n: nat, options: Options) {
    b.failureCount == n && (b.state == CLOSED <==> n == 0 || n < options.threshold)
  }

  lemma NextCounts(b: Fields, n: nat, e: Event, options: Options)
    requires ClosedBelow(b, n, options)
    ensures var kept := if e == Settle(Done, e.now) then 0 else n;
            ClosedBelow(Next(b, e, options), kept + if e.Settle? && Harms(e.r, options) then 1 else 0, options)
  {
  }

  lemma StandingCounts(events: seq<Event>, e: Event, options: Options)
    ensures |Standing(events + [e], options)|
         == (if e == Settle(Done, e.now) then 0 else |Standing(events, options)|)
            + (if e.Settle? && Harms(e.r, options) then 1 else 0)
  {
    StandingAppend(events, e, options);
    assert |events| !in Standing(events, options);
  }

  /**
   Over any run: the count is that of the harmful ends behind which there is no success, and the breaker is closed exactly when
   there are fewer of them than the threshold, or none.
   */
  lemma {:induction false} ClosedExactly(events: seq<Event>, options: Options)
    ensures ClosedBelow(RunOf(events, options), |Standing(events, options)|, options)
  {
    if events != [] {
      var front, last := events[..|events| - 1], events[|events| - 1];
      ClosedExactly(front, options);
      StandingCounts(front, last, options);
      NextCounts(RunOf(front, options), |Standing(front, options)|, last, options);
      PrefixOf(events);
    }
  }

  /** Client errors below 500 alone never open the breaker; 401 and 403 are among them unless they are counted. */
  lemma ClientErrorsNeverOpen(events: seq<Event>, options: Options)
    requires forall i :: 0 <= i < |events| && events[i].Settle? ==>
      events[i].r == Done
      || (events[i].r.ClientError? && events[i].r.status < 500
          && (options.countAuthFailures ==> events[i].r.status != 401 && events[i].r.status != 403))
    ensures RunOf(events, options).state == CLOSED && RunOf(events, options).failureCount == 0
  {
    assert Standing(events, options) == {};
    ClosedExactly(events, options);
  }
}
