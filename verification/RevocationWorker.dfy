/**
 The background revocation driver (apps/server/src/revocation-worker.ts).

 The driver's loop is split at its awaits: a loop waits for a query, for a publish, or for a delay. The events of any
 number of loops interleave. The client of the registry is not part of this model: an event says how its call ended.
 */
module RevocationWorker {
  import opened Wrappers
  import opened Strings

  // ----- Keys

  const COLON := ':'

  function NamespaceOf(namespace: Option<string>): string {
    match namespace case Some(n) => n case None => ""
  }

  function KeyFor(hash: string, namespace: Option<string>): string {
    NamespaceOf(namespace) + [COLON] + hash
  }

  lemma ColonFurtherRight(a: string, h: string, b: string, g: string)
    requires a + [COLON] + h == b + [COLON] + g && |a| < |b|
    ensures COLON in h
  {
    var i := |b| - |a| - 1;
    assert (a + [COLON] + h)[|b|] == h[i] && (b + [COLON] + g)[|b|] == COLON;
  }

  lemma ColonWithin(a: string, h: string, b: string, g: string)
    requires a + [COLON] + h == b + [COLON] + g && |a| < |b|
    ensures COLON in b
  {
    assert (a + [COLON] + h)[|a|] == COLON && (b + [COLON] + g)[|a|] == b[|a|];
  }

  lemma CutAtColon(a: string, h: string, b: string, g: string)
    requires COLON !in h && COLON !in g && a + [COLON] + h == b + [COLON] + g
    ensures a == b && h == g
  {
    if |a| < |b| {
      ColonFurtherRight(a, h, b, g);
    } else if |b| < |a| {
      ColonFurtherRight(b, g, a, h);
    } else {
      var s, t := a + [COLON] + h, b + [COLON] + g;
      assert s[..|a|] == a && t[..|b|] == b;
      assert s[|a| + 1..] == h && t[|b| + 1..] == g;
    }
  }

  /** Keys of hashes without colons are the same exactly for the same hash in the same namespace, none being "". */
  lemma KeysDistinguish(hash: string, namespace: Option<string>, other: string, namespace': Option<string>)
    requires COLON !in hash && COLON !in other
    ensures KeyFor(hash, namespace) == KeyFor(other, namespace') <==>
      hash == other && NamespaceOf(namespace) == NamespaceOf(namespace')
  {
    if KeyFor(hash, namespace) == KeyFor(other, namespace') {
      CutAtColon(NamespaceOf(namespace), hash, NamespaceOf(namespace'), other);
    }
  }

  /** Another hash or namespace has the key of these. */
  ghost predicate KeyIsShared(hash: string, namespace: Option<string>) {
    exists other, namespace' ::
      && KeyFor(other, namespace') == KeyFor(hash, namespace)
      && (other != hash || NamespaceOf(namespace') != NamespaceOf(namespace))
  }

  lemma Regrouped(a: string, b: string, c: string)
    ensures KeyFor(b + [COLON] + c, Some(a)) == KeyFor(c, Some(a + [COLON] + b))
  {
    assert a + [COLON] + (b + [COLON] + c) == (a + [COLON] + b) + [COLON] + c;
  }

  lemma ColonShares(hash: string, namespace: Option<string>)
    requires COLON in hash || COLON in NamespaceOf(namespace)
    ensures KeyIsShared(hash, namespace)
  {
    var name := NamespaceOf(namespace);
    if COLON in hash {
      var i := IndexOf(hash, COLON);
      CutAt(hash, i);
      Regrouped(name, hash[..i], hash[i + 1..]);
      assert KeyFor(hash[i + 1..], Some(name + [COLON] + hash[..i])) == KeyFor(hash, namespace);
    } else {
      var i := IndexOf(name, COLON);
      CutAt(name, i);
      Regrouped(name[..i], name[i + 1..], hash);
      assert KeyFor(name[i + 1..] + [COLON] + hash, Some(name[..i])) == KeyFor(hash, namespace);
    }
  }

  lemma KeyReadsBack(a: string, h: string, b: string, g: string)
    requires COLON !in a && COLON !in h && a + [COLON] + h == b + [COLON] + g
    ensures a == b && h == g
  {
    if |a| < |b| {
      ColonFurtherRight(a, h, b, g);
    } else if |b| < |a| {
      ColonWithin(b, g, a, h);
    } else {
      var s, t := a + [COLON] + h, b + [COLON] + g;
      assert s[..|a|] == a && t[..|b|] == b;
      assert s[|a| + 1..] == h && t[|b| + 1..] == g;
    }
  }

  /** A key is shared by another hash or namespace exactly when a colon occurs in the hash or in the namespace. */
  lemma SharedExactlyByColons(hash: string, namespace: Option<string>)
    ensures KeyIsShared(hash, namespace) <==> COLON in hash || COLON in NamespaceOf(namespace)
  {
    if COLON in hash || COLON in NamespaceOf(namespace) {
      ColonShares(hash, namespace);
    } else if KeyIsShared(hash, namespace) {
      var other, namespace' :|
        && KeyFor(other, namespace') == KeyFor(hash, namespace)
        && (other != hash || NamespaceOf(namespace') != NamespaceOf(namespace));
      KeyReadsBack(NamespaceOf(namespace), hash, NamespaceOf(namespace'), other);
    }
  }

  // ----- One loop

  datatype QueryEnd = Revoked | NotRevoked | QueryFailed

  datatype PublishEnd = Published | AlreadyThere | PublishFailed

  datatype Phase = Querying | Publishing | Sleeping

  /** A loop that is waiting, with what it has done so far. */
  datatype Loop = Loop(key: string, maxAttempts: int, attempt: nat, phase: Phase, publishes: nat, sleeps: nat)

  /** After the query: None when the loop ends. */
  function AfterQuery(l: Loop, query: QueryEnd): Option<Loop> {
    if query == Revoked then None
    else Some(l.(phase := Publishing, publishes := l.publishes + 1))
  }

  /** After the publish: the last attempt has no delay behind it. */
  function AfterPublish(l: Loop, publish: PublishEnd): Option<Loop> {
    if publish == AlreadyThere || l.attempt >= l.maxAttempts then None
    else Some(l.(phase := Sleeping, sleeps := l.sleeps + 1))
  }

  function AfterSleep(l: Loop): Loop {
    l.(phase := Querying, attempt := l.attempt + 1)
  }

  function FirstAttempt(key: string, maxAttempts: int): Loop {
    Loop(key, maxAttempts, 1, Querying, 0, 0)
  }

  /** The counts of a loop follow from its attempt and what it waits for. */
  predicate Counted(l: Loop) {
    && 1 <= l.attempt <= l.maxAttempts
    && l.publishes == (if l.phase == Querying then l.attempt - 1 else l.attempt)
    && l.sleeps == (if l.phase == Sleeping then l.attempt else l.attempt - 1)
    && (l.phase == Sleeping ==> l.attempt < l.maxAttempts)
  }

  /** How many more events a loop can take. */
  function StepsLeft(l: Loop): nat
    requires Counted(l)
  {
    3 * (l.maxAttempts - l.attempt) + (match l.phase case Querying => 2 case Publishing => 1 case Sleeping => 0)
  }

  /** How a loop ends: whether the revocation was confirmed, and what it has done. */
  datatype End = End(confirmed: bool, publishes: nat, sleeps: nat)

  /** The end of a loop that gets the given answers at each attempt. */
  function EndOf(l: Loop, query: nat -> QueryEnd, publish: nat -> PublishEnd): End
    requires Counted(l)
    decreases StepsLeft(l)
  {
    match l.phase
    case Querying =>
      (match AfterQuery(l, query(l.attempt))
       case None => End(true, l.publishes, l.sleeps)
       case Some(next) => EndOf(next, query, publish))
    case Publishing =>
      (match AfterPublish(l, publish(l.attempt))
       case None => End(publish(l.attempt) == AlreadyThere, l.publishes, l.sleeps)
       case Some(next) => EndOf(next, query, publish))
    case Sleeping =>
      EndOf(AfterSleep(l), query, publish)
  }

  /** Attempt `k` ends the loop: the record is found live, or publishing finds it in the registry. */
  predicate Confirms(k: nat, query: nat -> QueryEnd, publish: nat -> PublishEnd) {
    query(k) == Revoked || publish(k) == AlreadyThere
  }

  /** The end of a loop about to make an attempt, or done with its last. */
  function EndFrom(maxAttempts: int, attempt: nat, publishes: nat, sleeps: nat,
                   query: nat -> QueryEnd, publish: nat -> PublishEnd): End
    requires 1 <= attempt <= maxAttempts + 1 && publishes == attempt - 1
    requires attempt <= maxAttempts ==> sleeps == attempt - 1
  {
    if attempt <= maxAttempts then EndOf(Loop("", maxAttempts, attempt, Querying, publishes, sleeps), query, publish)
    else End(false, publishes, sleeps)
  }

  /** What one attempt does to the end. */
  lemma AttemptOf(maxAttempts: int, attempt: nat, publishes: nat, sleeps: nat,
                  query: nat -> QueryEnd, publish: nat -> PublishEnd)
    requires 1 <= attempt <= maxAttempts && publishes == sleeps == attempt - 1
    ensures EndFrom(maxAttempts, attempt, publishes, sleeps, query, publish)
         == if query(attempt) == Revoked then End(true, publishes, sleeps)
            else if publish(attempt) == AlreadyThere then End(true, publishes + 1, sleeps)
            else EndFrom(maxAttempts, attempt + 1, publishes + 1, if attempt < maxAttempts then sleeps + 1 else sleeps, query, publish)
  {
    var l := Loop("", maxAttempts, attempt, Querying, publishes, sleeps);
    var published := l.(phase := Publishing, publishes := publishes + 1);
    assert query(attempt) != Revoked ==> EndOf(l, query, publish) == EndOf(published, query, publish);
    if publish(attempt) != AlreadyThere && attempt < maxAttempts {
      var slept := published.(phase := Sleeping, sleeps := sleeps + 1);
      assert EndOf(published, query, publish) == EndOf(slept, query, publish);
      assert EndOf(slept, query, publish) == EndOf(AfterSleep(slept), query, publish);
    }
  }

  /**
   The loop of the source with given answers: it stops at the first attempt that confirms, and otherwise makes every
   attempt; the counts are exact.
   */
  method RunLoop(maxAttempts: int, query: nat -> QueryEnd, publish: nat -> PublishEnd)
    returns (confirmed: bool, publishes: nat, sleeps: nat)
    ensures maxAttempts >= 1 ==> End(confirmed, publishes, sleeps) == EndOf(FirstAttempt("", maxAttempts), query, publish)
    ensures confirmed <==> exists k: nat :: 1 <= k <= maxAttempts && Confirms(k, query, publish)
    ensures confirmed ==> exists k: nat ::
      && 1 <= k <= maxAttempts && Confirms(k, query, publish)
      && (forall j: nat :: 1 <= j < k ==> !Confirms(j, query, publish))
      && publishes == (if query(k) == Revoked then k - 1 else k) && sleeps == k - 1
    ensures !confirmed && maxAttempts >= 1 ==> publishes == maxAttempts && sleeps == maxAttempts - 1
    ensures !confirmed && maxAttempts < 1 ==> publishes == 0 && sleeps == 0
  {
    publishes, sleeps := 0, 0;
    var attempt: nat := 1;
    while attempt <= maxAttempts
      invariant 1 <= attempt && if maxAttempts >= 1 then attempt <= maxAttempts + 1 else attempt == 1
      invariant forall j: nat :: 1 <= j < attempt ==> !Confirms(j, query, publish)
      invariant publishes == attempt - 1
      invariant sleeps == if 1 <= maxAttempts < attempt then attempt - 2 else attempt - 1
      invariant maxAttempts >= 1 ==>
        EndFrom(maxAttempts, 1, 0, 0, query, publish) == EndFrom(maxAttempts, attempt, publishes, sleeps, query, publish)
      decreases maxAttempts - attempt
    {
      AttemptOf(maxAttempts, attempt, publishes, sleeps, query, publish);
      if query(attempt) == Revoked {
        assert Confirms(attempt, query, publish);
        return true, publishes, sleeps;
      }
      publishes := publishes + 1;
      if publish(attempt) == AlreadyThere {
        assert Confirms(attempt, query, publish);
        return true, publishes, sleeps;
      }
      if attempt < maxAttempts {
        sleeps := sleeps + 1;
      }
      attempt := attempt + 1;
    }
    confirmed := false;
  }

  // ----- Loops that interleave

  /** The set of the source, the running loops, and the loops that have ended. */
  datatype State = State(inFlight: set<string>, running: map<nat, Loop>, ended: map<nat, Loop>)

  datatype Event =
    | Drive(id: nat, hash: string, namespace: Option<string>, maxAttempts: int)
    | QueryEnds(id: nat, query: QueryEnd)
    | PublishEnds(id: nat, publish: PublishEnd)
    | Wakes(id: nat)

  const START := State({}, map[], map[])

  /** A call to drive is a new one; any other event is what its loop waits for. */
  predicate Enabled(s: State, e: Event) {
    match e
    case Drive(id, _, _, _) => id !in s.running && id !in s.ended
    case QueryEnds(id, _) => id in s.running && s.running[id].phase == Querying
    case PublishEnds(id, _) => id in s.running && s.running[id].phase == Publishing
    case Wakes(id) => id in s.running && s.running[id].phase == Sleeping
  }

  /** The `finally` block: the key is released. */
  function Ended(s: State, id: nat): State
    requires id in s.running
  {
    var loop := s.running[id];
    State(s.inFlight - {loop.key}, s.running - {id}, s.ended[id := loop])
  }

  /** The loop goes on, or ends. */
  function Continue(s: State, id: nat, next: Option<Loop>): State
    requires id in s.running
  {
    match next
    case Some(loop) => s.(running := s.running[id := loop])
    case None => Ended(s, id)
  }

  function Next(s: State, e: Event): State
    requires Enabled(s, e)
  {
    match e
    case Drive(id, hash, namespace, maxAttempts) =>
      var loop := FirstAttempt(KeyFor(hash, namespace), maxAttempts);
      if loop.key in s.inFlight then s
      else if maxAttempts < 1 then s.(ended := s.ended[id := loop])
      else State(s.inFlight + {loop.key}, s.running[id := loop], s.ended)
    case QueryEnds(id, query) => Continue(s, id, AfterQuery(s.running[id], query))
    case PublishEnds(id, publish) => Continue(s, id, AfterPublish(s.running[id], publish))
    case Wakes(id) => Continue(s, id, Some(AfterSleep(s.running[id])))
  }

  // ----- The invariant

  /** At most `maxAttempts` publishes, one sleep less, and none of either without attempts. */
  predicate Bounded(l: Loop) {
    if l.maxAttempts < 1 then l.publishes == 0 && l.sleeps == 0
    else l.publishes <= l.maxAttempts && l.sleeps <= l.maxAttempts - 1
  }

  predicate OnePerKey(running: map<nat, Loop>) {
    forall i, j :: i in running && j in running && running[i].key == running[j].key ==> i == j
  }

  ghost predicate Valid(s: State) {
    && (forall i :: i in s.running ==> Counted(s.running[i]))
    && (forall i :: i in s.ended ==> Bounded(s.ended[i]))
    && OnePerKey(s.running)
    && s.inFlight == KeysOf(s.running)
  }

  function KeysOf(running: map<nat, Loop>): set<string> {
    set i | i in running :: running[i].key
  }

  lemma KeysWithout(running: map<nat, Loop>, id: nat)
    requires OnePerKey(running) && id in running
    ensures KeysOf(running - {id}) == KeysOf(running) - {running[id].key}
  {
    var left := running - {id};
    forall key | key in KeysOf(running) && key != running[id].key ensures key in KeysOf(left) {
      var i :| i in running && running[i].key == key;
      assert i in left && left[i].key == key;
    }
  }

  lemma KeysWith(running: map<nat, Loop>, id: nat, loop: Loop)
    ensures id !in running ==> KeysOf(running[id := loop]) == KeysOf(running) + {loop.key}
    ensures id in running && running[id].key == loop.key ==> KeysOf(running[id := loop]) == KeysOf(running)
  {
    var more := running[id := loop];
    assert id in more && more[id].key == loop.key;
    forall key | key in KeysOf(running) ensures key in KeysOf(more) || (id in running && running[id].key == key) {
      var i :| i in running && running[i].key == key;
      if i != id {
        assert i in more && more[i].key == key;
      }
    }
  }

  lemma EndedKeepsValid(s: State, id: nat)
    requires Valid(s) && id in s.running
    ensures Valid(Ended(s, id))
  {
    KeysWithout(s.running, id);
  }

  lemma ContinueKeepsValid(s: State, id: nat, next: Option<Loop>)
    requires Valid(s) && id in s.running
    requires next.Some? ==> next.value.key == s.running[id].key && Counted(next.value)
    ensures Valid(Continue(s, id, next))
  {
    if next.Some? {
      KeysWith(s.running, id, next.value);
    } else {
      EndedKeepsValid(s, id);
    }
  }

  /** A key that is not in flight is no running loop's. */
  lemma StartedKeepsValid(s: State, id: nat, loop: Loop)
    requires Valid(s) && id !in s.running && loop.key !in s.inFlight && Counted(loop)
    ensures Valid(State(s.inFlight + {loop.key}, s.running[id := loop], s.ended))
  {
    KeysWith(s.running, id, loop);
    assert forall i :: i in s.running ==> s.running[i].key in KeysOf(s.running);
  }

  /** No step of any loop breaks the invariant. */
  lemma NextKeepsValid(s: State, e: Event)
    requires Valid(s) && Enabled(s, e)
    ensures Valid(Next(s, e))
  {
    match e
    case Drive(id, hash, namespace, maxAttempts) =>
      var loop := FirstAttempt(KeyFor(hash, namespace), maxAttempts);
      if loop.key !in s.inFlight && maxAttempts >= 1 {
        StartedKeepsValid(s, id, loop);
      }
    case QueryEnds(id, query) =>
      ContinueKeepsValid(s, id, AfterQuery(s.running[id], query));
    case PublishEnds(id, publish) =>
      ContinueKeepsValid(s, id, AfterPublish(s.running[id], publish));
    case Wakes(id) =>
      ContinueKeepsValid(s, id, Some(AfterSleep(s.running[id])));
  }

  ghost predicate Reachable(events: seq<Event>, s: State) {
    if events == [] then s == START
    else
      var front, last := events[..|events| - 1], events[|events| - 1];
      exists before: State :: Reachable(front, before) && Enabled(before, last) && s == Next(before, last)
  }

  /**
   Under every interleaving the in-flight set is the keys of the running loops, no two loops share a key, and every
   loop, running or ended, has kept to its attempts.
   */
  lemma {:induction false} EveryRunIsValid(events: seq<Event>, s: State)
    requires Reachable(events, s)
    ensures Valid(s)
    ensures forall i :: i in s.running ==> Bounded(s.running[i])
  {
    if events != [] {
      var front, last := events[..|events| - 1], events[|events| - 1];
      var before :| Reachable(front, before) && Enabled(before, last) && s == Next(before, last);
      EveryRunIsValid(front, before);
      NextKeepsValid(before, last);
    }
  }

  // ----- Loops end

  /** Each of its events brings a loop closer to its end, and no other event touches it. */
  lemma LoopsGetCloser(s: State, e: Event, i: nat)
    requires Valid(s) && Enabled(s, e) && i in s.running
    ensures var t := Next(s, e);
      if i in t.running then
        Counted(t.running[i]) && (if i == e.id then StepsLeft(t.running[i]) < StepsLeft(s.running[i])
                                  else t.running[i] == s.running[i])
      else
        i == e.id && i in t.ended && t.ended[i].key == s.running[i].key && s.running[i].key !in t.inFlight
  {
    NextKeepsValid(s, e);
    if i == e.id && i !in Next(s, e).running {
      assert Next(s, e) == Ended(s, i);
    }
  }

  // ----- The worker

  /** The module's set and its loops, each waiting for its next event. */
  class Worker {
    var inFlight: set<string>
    var running: map<nat, Loop>
    ghost var ended: map<nat, Loop>

    ghost function View(): State
      reads this
    {
      State(inFlight, running, ended)
    }

    constructor ()
      ensures View() == START && Valid(View())
    {
      inFlight, running, ended := {}, map[], map[];
    }

    /** A call for a key in flight does nothing; a loop without attempts ends at once. */
    method DriveToLive(id: nat, hash: string, namespace: Option<string>, maxAttempts: int)
      requires Valid(View()) && Enabled(View(), Drive(id, hash, namespace, maxAttempts))
      modifies this
      ensures View() == Next(old(View()), Drive(id, hash, namespace, maxAttempts)) && Valid(View())
    {
      NextKeepsValid(View(), Drive(id, hash, namespace, maxAttempts));
      var key := KeyFor(hash, namespace);
      if key in inFlight {
        return;
      }
      inFlight := inFlight + {key};
      running := running[id := FirstAttempt(key, maxAttempts)];
      if maxAttempts < 1 {
        assert running - {id} == old(running);
        Finally(id);
      }
    }

    method Finally(id: nat)
      requires id in running
      modifies this
      ensures View() == Ended(old(View()), id)
    {
      inFlight := inFlight - {running[id].key};
      ended := ended[id := running[id]];
      running := running - {id};
    }

    method OnQuery(id: nat, query: QueryEnd)
      requires Valid(View()) && Enabled(View(), QueryEnds(id, query))
      modifies this
      ensures View() == Next(old(View()), QueryEnds(id, query)) && Valid(View())
    {
      NextKeepsValid(View(), QueryEnds(id, query));
      var loop := running[id];
      if query == Revoked {
        Finally(id);
      } else {
        running := running[id := loop.(phase := Publishing, publishes := loop.publishes + 1)];
      }
    }

    method OnPublish(id: nat, publish: PublishEnd)
      requires Valid(View()) && Enabled(View(), PublishEnds(id, publish))
      modifies this
      ensures View() == Next(old(View()), PublishEnds(id, publish)) && Valid(View())
    {
      NextKeepsValid(View(), PublishEnds(id, publish));
      var loop := running[id];
      if publish == AlreadyThere {
        Finally(id);
      } else if loop.attempt < loop.maxAttempts {
        running := running[id := loop.(phase := Sleeping, sleeps := loop.sleeps + 1)];
      } else {
        Finally(id);
      }
    }

    method OnWake(id: nat)
      requires Valid(View()) && Enabled(View(), Wakes(id))
      modifies this
      ensures View() == Next(old(View()), Wakes(id)) && Valid(View())
    {
      NextKeepsValid(View(), Wakes(id));
      var loop := running[id];
      running := running[id := loop.(phase := Querying, attempt := loop.attempt + 1)];
    }
  }
}
