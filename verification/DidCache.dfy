/**
 The signer DID document cache (packages/signing/src/signer-did-cache.ts).

 The source keeps least-recently-used order in a Map, which iterates in insertion order: `entries` is that Map as a
 list. A call is split at its one `await`: looking up the fingerprint comes before it, storing the document after.
 */
module DidCache {
  import opened Wrappers
  import opened Strings

  datatype Entry<Doc> = Entry(key: string, doc: Doc)

  datatype Signer = Signer(id: string, fingerprint: string)

  // ----- Map in insertion order

  function Find<Doc>(entries: seq<Entry<Doc>>, key: string): Option<Doc> {
    if entries == [] then None
    else if entries[0].key == key then Some(entries[0].doc)
    else Find(entries[1..], key)
  }

  /** `Map.delete`. */
  function Without<Doc>(entries: seq<Entry<Doc>>, key: string): seq<Entry<Doc>> {
    if entries == [] then []
    else if entries[0].key == key then entries[1..]
    else [entries[0]] + Without(entries[1..], key)
  }

  /** `Map.set`: a key that is there keeps its place. */
  function With<Doc>(entries: seq<Entry<Doc>>, key: string, doc: Doc): seq<Entry<Doc>> {
    if entries == [] then [Entry(key, doc)]
    else if entries[0].key == key then [Entry(key, doc)] + entries[1..]
    else [entries[0]] + With(entries[1..], key, doc)
  }

  function Keys<Doc>(entries: seq<Entry<Doc>>): (keys: seq<string>)
    ensures |keys| == |entries|
  {
    if entries == [] then [] else [entries[0].key] + Keys(entries[1..])
  }

  predicate Distinct(keys: seq<string>) {
    forall i, j :: 0 <= i < j < |keys| ==> keys[i] != keys[j]
  }

  /** Drops the oldest entries until there is room for one more. */
  function Evicted<Doc>(entries: seq<Entry<Doc>>, maxSize: nat): seq<Entry<Doc>> {
    if |entries| >= maxSize && entries != [] then Evicted(entries[1..], maxSize) else entries
  }

  /** A hit moves its entry to the end. */
  function Touched<Doc>(entries: seq<Entry<Doc>>, key: string): seq<Entry<Doc>> {
    match Find(entries, key)
    case Some(doc) => With(Without(entries, key), key, doc)
    case None => entries
  }

  /** A resolved document goes in after making room. */
  function Stored<Doc>(entries: seq<Entry<Doc>>, maxSize: nat, key: string, doc: Doc): seq<Entry<Doc>> {
    With(Evicted(entries, maxSize), key, doc)
  }

  function DidOf(signer: Signer): string {
    Split(signer.id, '#')[0]
  }

  /** The DID of a key id is what precedes its first hash sign, and all of it without one. */
  lemma DidOfExactly(signer: Signer)
    ensures '#' !in DidOf(signer)
    ensures DidOf(signer) == signer.id || exists fragment :: signer.id == DidOf(signer) + "#" + fragment
  {
    var i := IndexOf(signer.id, '#');
    if i < |signer.id| {
      CutAt(signer.id, i);
      assert signer.id == DidOf(signer) + "#" + signer.id[i + 1..];
    }
  }

  // ----- The same on keys alone

  function Drop(keys: seq<string>, key: string): seq<string> {
    if keys == [] then []
    else if keys[0] == key then keys[1..]
    else [keys[0]] + Drop(keys[1..], key)
  }

  lemma {:induction false} FindIsMember<Doc>(entries: seq<Entry<Doc>>, key: string)
    ensures Find(entries, key).Some? <==> key in Keys(entries)
  {
    if entries != [] {
      FindIsMember(entries[1..], key);
      assert Keys(entries) == [entries[0].key] + Keys(entries[1..]);
    }
  }

  lemma {:induction false} WithoutDrops<Doc>(entries: seq<Entry<Doc>>, key: string)
    ensures Keys(Without(entries, key)) == Drop(Keys(entries), key)
  {
    if entries != [] {
      WithoutDrops(entries[1..], key);
      assert Keys(entries)[1..] == Keys(entries[1..]);
      if entries[0].key != key {
        assert ([entries[0]] + Without(entries[1..], key))[1..] == Without(entries[1..], key);
      }
    }
  }

  lemma {:induction false} WithAppends<Doc>(entries: seq<Entry<Doc>>, key: string, doc: Doc)
    ensures Keys(With(entries, key, doc)) == if key in Keys(entries) then Keys(entries) else Keys(entries) + [key]
  {
    if entries != [] {
      var first, rest := entries[0], entries[1..];
      WithAppends(rest, key, doc);
      assert Keys(entries) == [first.key] + Keys(rest);
      if first.key == key {
        assert ([Entry(key, doc)] + rest)[1..] == rest;
      } else {
        assert ([first] + With(rest, key, doc))[1..] == With(rest, key, doc);
      }
    }
  }

  lemma {:induction false} DropGone(keys: seq<string>, key: string)
    requires Distinct(keys)
    ensures key !in Drop(keys, key) && Distinct(Drop(keys, key))
    ensures forall k :: k in Drop(keys, key) ==> k in keys
  {
    if keys != [] {
      DropGone(keys[1..], key);
      if keys[0] != key {
        HeadIsNew(keys[0], Drop(keys[1..], key), keys[1..]);
      }
    }
  }

  lemma HeadIsNew(head: string, some: seq<string>, all: seq<string>)
    requires Distinct([head] + all) && Distinct(some) && forall k :: k in some ==> k in all
    ensures Distinct([head] + some)
  {
    forall i | 0 <= i < |some| ensures some[i] != head {
      assert ([head] + all)[0] == head && some[i] in some;
      var j :| 0 <= j < |all| && all[j] == some[i];
      assert ([head] + all)[j + 1] == some[i];
    }
  }

  /** A hit's key moves to the end of the keys. */
  lemma TouchedKeys<Doc>(entries: seq<Entry<Doc>>, key: string)
    requires Distinct(Keys(entries)) && key in Keys(entries)
    ensures Keys(Touched(entries, key)) == Drop(Keys(entries), key) + [key]
  {
    FindIsMember(entries, key);
    WithoutDrops(entries, key);
    DropGone(Keys(entries), key);
    WithAppends(Without(entries, key), key, Find(entries, key).value);
  }

  // ----- Recency

  /** The last occurrences in `used`, in order: its distinct members by when they were last used. */
  function LastSeen(used: seq<string>): seq<string> {
    if used == [] then []
    else if used[0] in used[1..] then LastSeen(used[1..])
    else [used[0]] + LastSeen(used[1..])
  }

  function Newest(keys: seq<string>, n: nat): seq<string> {
    if |keys| <= n then keys else keys[|keys| - n..]
  }

  lemma {:induction false} LastSeenMembers(used: seq<string>)
    ensures forall k :: k in LastSeen(used) <==> k in used
    ensures Distinct(LastSeen(used))
  {
    if used != [] {
      LastSeenMembers(used[1..]);
      assert used == [used[0]] + used[1..];
    }
  }

  lemma {:induction false} DropAbsent(keys: seq<string>, key: string)
    requires key !in keys
    ensures Drop(keys, key) == keys
  {
    if keys != [] {
      DropAbsent(keys[1..], key);
    }
  }

  lemma DropHead(head: string, rest: seq<string>, key: string)
    ensures Drop([head] + rest, key) == if head == key then rest else [head] + Drop(rest, key)
  {
    assert ([head] + rest)[1..] == rest;
  }

  lemma LastSeenCons(head: string, rest: seq<string>)
    ensures LastSeen([head] + rest) == if head in rest then LastSeen(rest) else [head] + LastSeen(rest)
  {
    assert ([head] + rest)[1..] == rest;
  }

  lemma {:induction false} LastSeenAppend(used: seq<string>, key: string)
    ensures LastSeen(used + [key]) == Drop(LastSeen(used), key) + [key]
  {
    if used == [] {
      assert used + [key] == [key];
    } else {
      var head, rest := used[0], used[1..];
      LastSeenAppend(rest, key);
      LastSeenMembers(rest);
      assert used + [key] == [head] + (rest + [key]);
      LastSeenCons(head, rest + [key]);
      DropHead(head, LastSeen(rest), key);
      if head == key && head !in rest {
        DropAbsent(LastSeen(rest), key);
      }
    }
  }

  lemma ConsConcat(head: string, rest: seq<string>, newer: seq<string>)
    ensures [head] + rest + newer == [head] + (rest + newer)
  {
  }

  /** Dropping works on the first of two lists that has the key. */
  function DropFirst(elder: seq<string>, newer: seq<string>, key: string): seq<string> {
    if key in elder then Drop(elder, key) + newer else elder + Drop(newer, key)
  }

  lemma DropFirstCons(head: string, rest: seq<string>, newer: seq<string>, key: string)
    ensures DropFirst([head] + rest, newer, key)
         == if head == key then rest + newer else [head] + DropFirst(rest, newer, key)
  {
    DropHead(head, rest, key);
    if head != key {
      ConsConcat(head, Drop(rest, key), newer);
      ConsConcat(head, rest, Drop(newer, key));
    }
  }

  lemma {:induction false} DropConcat(elder: seq<string>, newer: seq<string>, key: string)
    ensures Drop(elder + newer, key) == DropFirst(elder, newer, key)
  {
    if elder == [] {
      assert elder + newer == newer && elder + Drop(newer, key) == Drop(newer, key);
    } else {
      var head, rest := elder[0], elder[1..];
      DropConcat(rest, newer, key);
      assert elder == [head] + rest;
      ConsConcat(head, rest, newer);
      DropHead(head, rest + newer, key);
      DropFirstCons(head, rest, newer, key);
    }
  }

  lemma {:induction false} DropShortens(keys: seq<string>, key: string)
    requires key in keys
    ensures |Drop(keys, key)| == |keys| - 1
  {
    if keys[0] != key {
      DropShortens(keys[1..], key);
    }
  }

  lemma NewestOfBoth(elder: seq<string>, recent: seq<string>, n: nat)
    requires elder == [] || n <= |recent|
    ensures Newest(elder + recent, n) == Newest(recent, n)
  {
    if elder == [] {
      assert elder + recent == recent;
    }
  }

  lemma NewestAppend(keys: seq<string>, key: string, n: nat)
    requires n >= 1
    ensures Newest(keys + [key], n) == Newest(keys, n - 1) + [key]
  {
  }

  /** Dropping a key from older and kept keys, seen from the newest. */
  lemma NewestOfDropped(elder: seq<string>, kept: seq<string>, key: string, n: nat)
    requires n >= 1 && |kept| <= n && (elder == [] || |kept| == n) && (key in kept ==> key !in elder)
    ensures Newest(DropFirst(elder, kept, key), n - 1) == if key in kept then Drop(kept, key) else Newest(kept, n - 1)
  {
    if key in kept {
      DropShortens(kept, key);
      NewestOfBoth(elder, Drop(kept, key), n - 1);
    } else {
      DropAbsent(kept, key);
      NewestOfBoth(if key in elder then Drop(elder, key) else elder, kept, n - 1);
    }
  }

  lemma OlderAndKept(all: seq<string>, n: nat) returns (elder: seq<string>)
    requires Distinct(all)
    ensures all == elder + Newest(all, n) && (elder == [] || |Newest(all, n)| == n)
    ensures forall key :: key in Newest(all, n) ==> key !in elder
  {
    elder := all[..|all| - |Newest(all, n)|];
  }

  /** What using `key` does to the newest `n` keys of `all`. */
  lemma NewestStep(all: seq<string>, key: string, n: nat)
    requires Distinct(all) && n >= 1
    ensures var kept := Newest(all, n);
      Newest(Drop(all, key) + [key], n) == (if key in kept then Drop(kept, key) else Newest(kept, n - 1)) + [key]
  {
    var elder := OlderAndKept(all, n);
    NewestAppend(Drop(all, key), key, n);
    DropConcat(elder, Newest(all, n), key);
    NewestOfDropped(elder, Newest(all, n), key, n);
  }

  // ----- The cache

  lemma {:induction false} EvictedKeys<Doc>(entries: seq<Entry<Doc>>, maxSize: nat)
    requires maxSize >= 1
    ensures Keys(Evicted(entries, maxSize)) == Newest(Keys(entries), maxSize - 1)
  {
    if |entries| >= maxSize {
      EvictedKeys(entries[1..], maxSize);
      assert Keys(entries)[1..] == Keys(entries[1..]);
    }
  }

  predicate Fits<Doc>(entries: seq<Entry<Doc>>, maxSize: nat) {
    maxSize >= 1 && |entries| <= maxSize && Distinct(Keys(entries))
  }

  lemma DistinctAppend(keys: seq<string>, key: string)
    requires Distinct(keys) && key !in keys
    ensures Distinct(keys + [key])
  {
  }

  lemma TouchedFits<Doc>(entries: seq<Entry<Doc>>, maxSize: nat, key: string)
    requires Fits(entries, maxSize)
    ensures Fits(Touched(entries, key), maxSize)
  {
    FindIsMember(entries, key);
    if key in Keys(entries) {
      TouchedKeys(entries, key);
      DropGone(Keys(entries), key);
      DropShortens(Keys(entries), key);
      DistinctAppend(Drop(Keys(entries), key), key);
    }
  }

  lemma StoredFits<Doc>(entries: seq<Entry<Doc>>, maxSize: nat, key: string, doc: Doc)
    requires Fits(entries, maxSize)
    ensures Fits(Stored(entries, maxSize, key, doc), maxSize)
  {
    var kept := Evicted(entries, maxSize);
    EvictedKeys(entries, maxSize);
    WithAppends(kept, key, doc);
    if key !in Keys(kept) {
      DistinctAppend(Keys(kept), key);
    }
  }

  class Cache<Doc(==)> {
    const maxSize: nat
    var entries: seq<Entry<Doc>>

    ghost predicate Valid()
      reads this
    {
      Fits(entries, maxSize)
    }

    constructor (maxSize: nat)
      requires maxSize >= 1
      ensures Valid() && this.maxSize == maxSize && entries == []
    {
      this.maxSize := maxSize;
      entries := [];
    }

    /** The part of a call before its `await`: on a hit, delete and set again. */
    method Lookup(key: string) returns (hit: Option<Doc>)
      requires Valid()
      modifies this`entries
      ensures Valid() && hit == Find(old(entries), key) && entries == Touched(old(entries), key)
    {
      TouchedFits(entries, maxSize, key);
      hit := Find(entries, key);
      if hit.Some? {
        entries := Without(entries, key);
        entries := With(entries, key, hit.value);
      }
    }

    /** The part after it: make room, then set. */
    method Store(key: string, doc: Doc)
      requires Valid()
      modifies this`entries
      ensures Valid() && entries == Stored(old(entries), maxSize, key, doc)
    {
      StoredFits(entries, maxSize, key, doc);
      while |entries| >= maxSize
        invariant Evicted(entries, maxSize) == Evicted(old(entries), maxSize)
        decreases |entries|
      {
        entries := entries[1..];
      }
      entries := With(entries, key, doc);
    }

    /** A call that nothing interrupts; None when the document cannot be resolved. */
    method Get(signer: Signer, resolve: string -> Option<Doc>) returns (doc: Option<Doc>)
      requires Valid()
      modifies this`entries
      ensures Valid()
      ensures doc == Answer(old(entries), signer, resolve) && entries == After(old(entries), maxSize, signer, resolve)
    {
      doc := Lookup(signer.fingerprint);
      if doc == None {
        doc := resolve(DidOf(signer));
        if doc.Some? {
          Store(signer.fingerprint, doc.value);
        }
      }
    }
  }

  function Answer<Doc>(entries: seq<Entry<Doc>>, signer: Signer, resolve: string -> Option<Doc>): Option<Doc> {
    match Find(entries, signer.fingerprint)
    case Some(doc) => Some(doc)
    case None => resolve(DidOf(signer))
  }

  function After<Doc>(entries: seq<Entry<Doc>>, maxSize: nat, signer: Signer, resolve: string -> Option<Doc>): seq<Entry<Doc>> {
    if Find(entries, signer.fingerprint).Some? then Touched(entries, signer.fingerprint)
    else
      match resolve(DidOf(signer))
      case Some(doc) => Stored(entries, maxSize, signer.fingerprint, doc)
      case None => entries
  }

  // ----- Right values

  /** Every entry holds what resolving would give now. */
  ghost predicate Right<Doc(!new)>(entries: seq<Entry<Doc>>, didFor: string -> string, resolve: string -> Option<Doc>) {
    forall i :: 0 <= i < |entries| ==> resolve(didFor(entries[i].key)) == Some(entries[i].doc)
  }

  lemma {:induction false} FindRight<Doc(!new)>(entries: seq<Entry<Doc>>, key: string, didFor: string -> string,
                                                resolve: string -> Option<Doc>)
    requires Right(entries, didFor, resolve)
    ensures Find(entries, key).Some? ==> Find(entries, key) == resolve(didFor(key))
  {
    if entries != [] && entries[0].key != key {
      FindRight(entries[1..], key, didFor, resolve);
    }
  }

  lemma {:induction false} WithoutRight<Doc(!new)>(entries: seq<Entry<Doc>>, key: string, didFor: string -> string,
                                                   resolve: string -> Option<Doc>)
    requires Right(entries, didFor, resolve)
    ensures Right(Without(entries, key), didFor, resolve)
  {
    if entries != [] && entries[0].key != key {
      WithoutRight(entries[1..], key, didFor, resolve);
    }
  }

  lemma {:induction false} WithRight<Doc(!new)>(entries: seq<Entry<Doc>>, key: string, doc: Doc, didFor: string -> string,
                                                resolve: string -> Option<Doc>)
    requires Right(entries, didFor, resolve) && resolve(didFor(key)) == Some(doc)
    ensures Right(With(entries, key, doc), didFor, resolve)
  {
    if entries != [] && entries[0].key != key {
      WithRight(entries[1..], key, doc, didFor, resolve);
    }
  }

  lemma {:induction false} EvictedRight<Doc(!new)>(entries: seq<Entry<Doc>>, maxSize: nat, didFor: string -> string,
                                                   resolve: string -> Option<Doc>)
    requires Right(entries, didFor, resolve)
    ensures Right(Evicted(entries, maxSize), didFor, resolve)
    decreases |entries|
  {
    if |entries| >= maxSize && entries != [] {
      EvictedRight(entries[1..], maxSize, didFor, resolve);
    }
  }

  lemma TouchedRight<Doc(!new)>(entries: seq<Entry<Doc>>, key: string, didFor: string -> string, resolve: string -> Option<Doc>)
    requires Right(entries, didFor, resolve)
    ensures Right(Touched(entries, key), didFor, resolve)
  {
    FindRight(entries, key, didFor, resolve);
    WithoutRight(entries, key, didFor, resolve);
    if Find(entries, key).Some? {
      WithRight(Without(entries, key), key, Find(entries, key).value, didFor, resolve);
    }
  }

  lemma StoredRight<Doc(!new)>(entries: seq<Entry<Doc>>, maxSize: nat, key: string, doc: Doc, didFor: string -> string,
                               resolve: string -> Option<Doc>)
    requires Right(entries, didFor, resolve) && resolve(didFor(key)) == Some(doc)
    ensures Right(Stored(entries, maxSize, key, doc), didFor, resolve)
  {
    EvictedRight(entries, maxSize, didFor, resolve);
    WithRight(Evicted(entries, maxSize), key, doc, didFor, resolve);
  }

  // ----- Sequential runs

  /** The state after uninterrupted calls for `signers`. */
  function RunOf<Doc>(signers: seq<Signer>, maxSize: nat, resolve: string -> Option<Doc>): seq<Entry<Doc>> {
    if signers == [] then []
    else After(RunOf(signers[..|signers| - 1], maxSize, resolve), maxSize, signers[|signers| - 1], resolve)
  }

  /** The fingerprints of the signers whose documents resolve. */
  function Served<Doc>(signers: seq<Signer>, resolve: string -> Option<Doc>): seq<string> {
    if signers == [] then []
    else
      var front, last := signers[..|signers| - 1], signers[|signers| - 1];
      if resolve(DidOf(last)).Some? then Served(front, resolve) + [last.fingerprint] else Served(front, resolve)
  }

  /** A fingerprint determines the DID. */
  ghost predicate Consistent(signers: seq<Signer>, didFor: string -> string) {
    forall i :: 0 <= i < |signers| ==> DidOf(signers[i]) == didFor(signers[i].fingerprint)
  }

  lemma StoredKeys<Doc>(entries: seq<Entry<Doc>>, maxSize: nat, key: string, doc: Doc)
    requires Fits(entries, maxSize) && key !in Keys(entries)
    ensures Keys(Stored(entries, maxSize, key, doc)) == Newest(Keys(entries), maxSize - 1) + [key]
  {
    EvictedKeys(entries, maxSize);
    WithAppends(Evicted(entries, maxSize), key, doc);
  }

  /** A served call keeps the keys the newest of those used. */
  lemma ServedStep<Doc>(entries: seq<Entry<Doc>>, maxSize: nat, signer: Signer, resolve: string -> Option<Doc>, used: seq<string>)
    requires Fits(entries, maxSize) && Keys(entries) == Newest(LastSeen(used), maxSize)
    requires resolve(DidOf(signer)).Some?
    ensures Keys(After(entries, maxSize, signer, resolve)) == Newest(LastSeen(used + [signer.fingerprint]), maxSize)
  {
    var key := signer.fingerprint;
    LastSeenAppend(used, key);
    LastSeenMembers(used);
    NewestStep(LastSeen(used), key, maxSize);
    FindIsMember(entries, key);
    if key in Keys(entries) {
      TouchedKeys(entries, key);
    } else {
      StoredKeys(entries, maxSize, key, resolve(DidOf(signer)).value);
    }
  }

  lemma AfterFits<Doc>(entries: seq<Entry<Doc>>, maxSize: nat, signer: Signer, resolve: string -> Option<Doc>)
    requires Fits(entries, maxSize)
    ensures Fits(After(entries, maxSize, signer, resolve), maxSize)
  {
    TouchedFits(entries, maxSize, signer.fingerprint);
    if resolve(DidOf(signer)).Some? {
      StoredFits(entries, maxSize, signer.fingerprint, resolve(DidOf(signer)).value);
    }
  }

  lemma AfterRight<Doc(!new)>(entries: seq<Entry<Doc>>, maxSize: nat, signer: Signer, didFor: string -> string,
                              resolve: string -> Option<Doc>)
    requires Right(entries, didFor, resolve) && DidOf(signer) == didFor(signer.fingerprint)
    ensures Right(After(entries, maxSize, signer, resolve), didFor, resolve)
    ensures Answer(entries, signer, resolve) == resolve(DidOf(signer))
  {
    FindRight(entries, signer.fingerprint, didFor, resolve);
    TouchedRight(entries, signer.fingerprint, didFor, resolve);
    if resolve(DidOf(signer)).Some? {
      StoredRight(entries, maxSize, signer.fingerprint, resolve(DidOf(signer)).value, didFor, resolve);
    }
  }

  /**
   After any sequential calls the Map's order is exactly the last `maxSize` distinct fingerprints served, by recency;
   calls that cannot be resolved leave no trace, and the next call is answered as if there were no cache.
   */
  lemma {:induction false} SequentialOrder<Doc(!new)>(signers: seq<Signer>, maxSize: nat, didFor: string -> string,
                                                      resolve: string -> Option<Doc>)
    requires maxSize >= 1 && Consistent(signers, didFor)
    ensures var entries := RunOf(signers, maxSize, resolve);
      && Fits(entries, maxSize) && Right(entries, didFor, resolve)
      && Keys(entries) == Newest(LastSeen(Served(signers, resolve)), maxSize)
  {
    if signers != [] {
      var front, last := signers[..|signers| - 1], signers[|signers| - 1];
      SequentialOrder(front, maxSize, didFor, resolve);
      var entries := RunOf(front, maxSize, resolve);
      AfterFits(entries, maxSize, last, resolve);
      AfterRight(entries, maxSize, last, didFor, resolve);
      if resolve(DidOf(last)).Some? {
        ServedStep(entries, maxSize, last, resolve, Served(front, resolve));
      }
    }
  }

  lemma AnsweredAsUncached<Doc(!new)>(signers: seq<Signer>, signer: Signer, maxSize: nat, didFor: string -> string,
                                      resolve: string -> Option<Doc>)
    requires maxSize >= 1 && Consistent(signers, didFor) && DidOf(signer) == didFor(signer.fingerprint)
    ensures Answer(RunOf(signers, maxSize, resolve), signer, resolve) == resolve(DidOf(signer))
  {
    SequentialOrder(signers, maxSize, didFor, resolve);
    AfterRight(RunOf(signers, maxSize, resolve), maxSize, signer, didFor, resolve);
  }

  // ----- Interleaved calls

  /** The cache and the calls that are waiting for a document. */
  datatype State<Doc> = State(entries: seq<Entry<Doc>>, waiting: multiset<Signer>)

  /** A call begins, or one that waited goes on. */
  datatype Event = Begin(signer: Signer) | Resume(signer: Signer)

  predicate Enabled<Doc>(s: State<Doc>, e: Event) {
    e.Resume? ==> e.signer in s.waiting
  }

  function Next<Doc>(s: State<Doc>, e: Event, maxSize: nat, resolve: string -> Option<Doc>): State<Doc> {
    match e
    case Begin(signer) =>
      if Find(s.entries, signer.fingerprint).Some? then s.(entries := Touched(s.entries, signer.fingerprint))
      else s.(waiting := s.waiting + multiset{signer})
    case Resume(signer) =>
      var left := s.waiting - multiset{signer};
      match resolve(DidOf(signer))
      case Some(doc) => State(Stored(s.entries, maxSize, signer.fingerprint, doc), left)
      case None => State(s.entries, left)
  }

  /** What the event returns to its caller: nothing yet, or the answer of the call. */
  function Returned<Doc>(s: State<Doc>, e: Event, resolve: string -> Option<Doc>): Option<Option<Doc>> {
    match e
    case Begin(signer) =>
      (match Find(s.entries, signer.fingerprint)
       case Some(doc) => Some(Some(doc))
       case None => None)
    case Resume(signer) => Some(resolve(DidOf(signer)))
  }

  ghost predicate Reachable<Doc(!new)>(events: seq<Event>, s: State<Doc>, maxSize: nat, resolve: string -> Option<Doc>) {
    if events == [] then s == State([], multiset{})
    else
      var front, last := events[..|events| - 1], events[|events| - 1];
      exists before: State<Doc> ::
        Reachable(front, before, maxSize, resolve) && Enabled(before, last) && s == Next(before, last, maxSize, resolve)
  }

  ghost predicate ConsistentEvents(events: seq<Event>, didFor: string -> string) {
    forall i :: 0 <= i < |events| ==> DidOf(events[i].signer) == didFor(events[i].signer.fingerprint)
  }

  lemma NextKeeps<Doc(!new)>(s: State<Doc>, e: Event, maxSize: nat, didFor: string -> string, resolve: string -> Option<Doc>)
    requires Fits(s.entries, maxSize) && Right(s.entries, didFor, resolve)
    requires DidOf(e.signer) == didFor(e.signer.fingerprint)
    ensures var after := Next(s, e, maxSize, resolve).entries; Fits(after, maxSize) && Right(after, didFor, resolve)
    ensures Returned(s, e, resolve).Some? ==> Returned(s, e, resolve).value == resolve(DidOf(e.signer))
  {
    var key := e.signer.fingerprint;
    FindRight(s.entries, key, didFor, resolve);
    TouchedFits(s.entries, maxSize, key);
    TouchedRight(s.entries, key, didFor, resolve);
    if resolve(DidOf(e.signer)).Some? {
      StoredFits(s.entries, maxSize, key, resolve(DidOf(e.signer)).value);
      StoredRight(s.entries, maxSize, key, resolve(DidOf(e.signer)).value, didFor, resolve);
    }
  }

  /** However calls interleave, the cap holds, values are right, and every answer is that of an uncached resolve. */
  lemma {:induction false} AnyInterleaving<Doc(!new)>(events: seq<Event>, s: State<Doc>, maxSize: nat, didFor: string -> string,
                                                      resolve: string -> Option<Doc>)
    requires maxSize >= 1 && Reachable(events, s, maxSize, resolve) && ConsistentEvents(events, didFor)
    ensures Fits(s.entries, maxSize) && Right(s.entries, didFor, resolve)
  {
    if events != [] {
      var front, last := events[..|events| - 1], events[|events| - 1];
      var before :| Reachable(front, before, maxSize, resolve) && Enabled(before, last) && s == Next(before, last, maxSize, resolve);
      AnyInterleaving(front, before, maxSize, didFor, resolve);
      NextKeeps(before, last, maxSize, didFor, resolve);
    }
  }

  lemma AnyAnswer<Doc(!new)>(events: seq<Event>, s: State<Doc>, e: Event, maxSize: nat, didFor: string -> string,
                             resolve: string -> Option<Doc>)
    requires maxSize >= 1 && Reachable(events, s, maxSize, resolve) && ConsistentEvents(events, didFor)
    requires Enabled(s, e) && DidOf(e.signer) == didFor(e.signer.fingerprint)
    ensures Returned(s, e, resolve) in {None, Some(resolve(DidOf(e.signer)))}
    ensures e.Begin? && Find(s.entries, e.signer.fingerprint) == None ==> Returned(s, e, resolve) == None
  {
    AnyInterleaving(events, s, maxSize, didFor, resolve);
    NextKeeps(s, e, maxSize, didFor, resolve);
  }

  // ----- Why recency needs calls one at a time

  /** The keys by recency once `key` is used: what a call that nothing interrupts comes to. */
  function Recent(keys: seq<string>, maxSize: nat, key: string): seq<string>
    requires maxSize >= 1
  {
    (if key in keys then Drop(keys, key) else Newest(keys, maxSize - 1)) + [key]
  }

  lemma DropLast(keys: seq<string>, key: string)
    requires Distinct(keys) && key in keys
    ensures Drop(keys, key) + [key] == keys <==> keys[|keys| - 1] == key
  {
    var front := keys[..|keys| - 1];
    assert keys == front + [keys[|keys| - 1]];
    if keys[|keys| - 1] == key {
      assert key !in front;
      DropConcat(front, [key], key);
      assert front + [] == front;
    }
  }

  lemma OldestIsDropped(keys: seq<string>, maxSize: nat, key: string)
    requires maxSize >= 1 && |keys| <= maxSize && Distinct(keys)
    requires key in keys && key !in Newest(keys, maxSize - 1)
    ensures Drop(keys, key) == Newest(keys, maxSize - 1)
  {
    assert keys == [keys[0]] + keys[1..];
  }

  /**
   A call that stores after an interruption leaves the keys by recency exactly when its key is not among those that
   are kept after making room, or is the last of them and there was room: setting a key that is there does not move it.
   */
  lemma StoresMostRecentExactly<Doc>(entries: seq<Entry<Doc>>, maxSize: nat, key: string, doc: Doc)
    requires Fits(entries, maxSize)
    ensures var keys := Keys(entries);
      Keys(Stored(entries, maxSize, key, doc)) == Recent(keys, maxSize, key) <==>
        key !in Newest(keys, maxSize - 1) || (|keys| < maxSize && keys[|keys| - 1] == key)
  {
    var keys := Keys(entries);
    EvictedKeys(entries, maxSize);
    WithAppends(Evicted(entries, maxSize), key, doc);
    if key in Newest(keys, maxSize - 1) {
      DropShortens(keys, key);
      DropLast(keys, key);
    } else if key in keys {
      OldestIsDropped(keys, maxSize, key);
    }
  }
}
