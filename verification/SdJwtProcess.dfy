/**
 Disclosure processing as a whole (packages/verification/src/sd-jwt-vc.ts): which disclosures a payload uses, what
 is rejected, and what comes out.
 */
module SdJwtProcess {
  import opened Wrappers
  import opened Json
  import opened SdJwt

  // ----- The disclosures a value uses

  /** Everything listed in `needs` for the digests `asked`. */
  function Union(asked: set<string>, needs: map<string, set<string>>): set<string>
    requires asked <= needs.Keys
  {
    set d, e | d in asked && e in needs[d] :: e
  }

  /** `d`, the disclosures its value asks for, the ones those ask for, and so on. */
  ghost function Needs(d: string, book: Book, rank: string -> nat): (s: set<string>)
    requires d in book && Acyclic(book, rank)
    ensures s <= book.Keys
    decreases rank(d)
  {
    var asked := Asks(book[d].value, book);
    {d} + Union(asked, map e | e in asked :: Needs(e, book, rank))
  }

  ghost function NeedsOf(book: Book, rank: string -> nat): (needs: map<string, set<string>>)
    requires Acyclic(book, rank)
    ensures needs.Keys == book.Keys
  {
    map d | d in book :: Needs(d, book, rank)
  }

  ghost predicate NeedsAt(d: string, needs: map<string, set<string>>, book: Book)
    requires d in book && needs.Keys == book.Keys
  {
    needs[d] == {d} + Union(Asks(book[d].value, book), needs)
  }

  /** `needs` lists for each disclosure itself and what the disclosures it asks for need. */
  ghost predicate Closes(needs: map<string, set<string>>, book: Book) {
    && needs.Keys == book.Keys
    && (forall d {:trigger NeedsAt(d, needs, book)} :: d in book ==> NeedsAt(d, needs, book))
    && forall d :: d in book ==> needs[d] <= book.Keys
  }

  lemma UnionSame(asked: set<string>, a: map<string, set<string>>, b: map<string, set<string>>)
    requires asked <= a.Keys && asked <= b.Keys && forall d :: d in asked ==> a[d] == b[d]
    ensures Union(asked, a) == Union(asked, b)
  {
  }

  lemma UnionBoth(s: set<string>, t: set<string>, needs: map<string, set<string>>)
    requires s <= needs.Keys && t <= needs.Keys
    ensures Union(s + t, needs) == Union(s, needs) + Union(t, needs)
  {
  }

  lemma UnionOne(d: string, needs: map<string, set<string>>)
    requires d in needs
    ensures Union({d}, needs) == needs[d]
  {
  }

  lemma UnionHas(d: string, asked: set<string>, needs: map<string, set<string>>)
    requires asked <= needs.Keys && d in asked
    ensures needs[d] <= Union(asked, needs)
  {
  }

  lemma NeedsOfCloses(book: Book, rank: string -> nat)
    requires Acyclic(book, rank)
    ensures Closes(NeedsOf(book, rank), book)
  {
    forall d | d in book ensures NeedsAt(d, NeedsOf(book, rank), book) {
      var asked := Asks(book[d].value, book);
      UnionSame(asked, map e | e in asked :: Needs(e, book, rank), NeedsOf(book, rank));
    }
  }

  lemma UnionWithin(asked: set<string>, needs: map<string, set<string>>, book: Book)
    requires Closes(needs, book) && asked <= book.Keys
    ensures Union(asked, needs) <= book.Keys
  {
  }

  lemma NeedsItself(d: string, needs: map<string, set<string>>, book: Book)
    requires Closes(needs, book) && d in book
    ensures d in needs[d]
  {
    assert NeedsAt(d, needs, book);
  }

  /** A chain of disclosures, the first asked for from `start` and each asking for the next. */
  predicate Chain(path: seq<string>, start: set<string>, book: Book) {
    && path != []
    && path[0] in start && path[0] in book
    && (|path| > 1 ==> Chain(path[1..], Asks(book[path[0]].value, book), book))
  }

  ghost predicate Reached(d: string, start: set<string>, book: Book) {
    exists path :: Chain(path, start, book) && path[|path| - 1] == d
  }

  lemma {:induction false} ChainIsUsed(path: seq<string>, start: set<string>, book: Book, needs: map<string, set<string>>)
    requires Closes(needs, book) && start <= book.Keys && Chain(path, start, book)
    ensures path[|path| - 1] in Union(start, needs)
  {
    var d, rest := path[0], path[1..];
    if rest != [] {
      ChainIsUsed(rest, Asks(book[d].value, book), book, needs);
    }
    assert NeedsAt(d, needs, book);
    UnionHas(d, start, needs);
  }

  lemma ChainStarts(path: seq<string>, start: set<string>, more: set<string>, book: Book)
    requires Chain(path, start, book) && start <= more
    ensures Chain(path, more, book)
  {
  }

  lemma ChainGrows(d: string, rest: seq<string>, book: Book)
    requires d in book && Chain(rest, Asks(book[d].value, book), book)
    ensures Chain([d] + rest, {d}, book)
  {
    assert ([d] + rest)[1..] == rest;
  }

  lemma {:induction false} NeededIsChained(d: string, e: string, book: Book, needs: map<string, set<string>>,
                                           rank: string -> nat) returns (path: seq<string>)
    requires Closes(needs, book) && Acyclic(book, rank) && d in book && e in needs[d]
    ensures Chain(path, {d}, book) && path[|path| - 1] == e
    decreases rank(d)
  {
    if d == e {
      path := [d];
    } else {
      var asked := Asks(book[d].value, book);
      assert NeedsAt(d, needs, book);
      var f :| f in asked && e in needs[f];
      var rest := NeededIsChained(f, e, book, needs, rank);
      ChainStarts(rest, {f}, asked, book);
      ChainGrows(d, rest, book);
      path := [d] + rest;
    }
  }

  /** The disclosures used are exactly those that a chain of matching places leads to. */
  lemma UsedExactlyReached(start: set<string>, book: Book, needs: map<string, set<string>>, rank: string -> nat, d: string)
    requires Closes(needs, book) && Acyclic(book, rank) && start <= book.Keys
    ensures d in Union(start, needs) <==> Reached(d, start, book)
  {
    if d in Union(start, needs) {
      var e :| e in start && d in needs[e];
      var path := NeededIsChained(e, d, book, needs, rank);
      ChainStarts(path, {e}, start, book);
    }
    if Reached(d, start, book) {
      var path :| Chain(path, start, book) && path[|path| - 1] == d;
      ChainIsUsed(path, start, book, needs);
    }
  }

  ghost function ReachedFrom(start: set<string>, book: Book): set<string> {
    set d | d in book && Reached(d, start, book)
  }

  lemma UsedIsReached(start: set<string>, book: Book, needs: map<string, set<string>>, rank: string -> nat)
    requires Closes(needs, book) && Acyclic(book, rank) && start <= book.Keys
    ensures Union(start, needs) == ReachedFrom(start, book)
  {
    var used, reached := Union(start, needs), ReachedFrom(start, book);
    UnionWithin(start, needs, book);
    forall d | d in book ensures d in used <==> d in reached {
      UsedExactlyReached(start, book, needs, rank, d);
    }
  }

  // ----- The outcome for a book

  datatype Problem = BadAlgorithm | BadDisclosure | BadSdMember | Unreferenced(count: nat)

  predicate AllSound(digests: set<string>, book: Book) {
    forall d :: d in digests && d in book ==> !Broken(book[d].value)
  }

  lemma FewerThan(s: set<string>, t: set<string>)
    requires s <= t
    ensures |s| <= |t| && (|s| == |t| <==> s == t)
  {
    assert t == s + (t - s);
    assert |t - s| == 0 <==> t - s == {};
  }

  /** What is decided once the walk is over: whether it came through, and how many disclosures it used. */
  function Verdict(through: bool, used: nat, supplied: nat, filled: Json): Result<Json, Problem> {
    if !through then Failure(BadSdMember)
    else if used < supplied then Failure(Unreferenced(supplied - used))
    else Success(filled)
  }

  function OutcomeFrom(payload: Json, book: Book, needs: map<string, set<string>>, settled: Book): Result<Json, Problem>
    requires needs.Keys == book.Keys
  {
    var used := Union(Asks(payload, book), needs);
    Verdict(!Broken(payload) && AllSound(used, book), |used|, |book.Keys|, Fill(payload, settled))
  }

  ghost function Outcome(payload: Json, book: Book, rank: string -> nat): Result<Json, Problem>
    requires Acyclic(book, rank)
  {
    OutcomeFrom(payload, book, NeedsOf(book, rank), Settled(book, rank))
  }

  /** Any tables that satisfy the equations give the outcome. */
  lemma OutcomeThrough(payload: Json, book: Book, rank: string -> nat)
    returns (needs: map<string, set<string>>, settled: Book)
    requires Acyclic(book, rank)
    ensures Closes(needs, book) && Solves(settled, book)
    ensures Outcome(payload, book, rank) == OutcomeFrom(payload, book, needs, settled)
  {
    needs, settled := NeedsOf(book, rank), Settled(book, rank);
    NeedsOfCloses(book, rank);
    SettledSolves(book, rank);
  }

  lemma AcceptedExactlyWhenAllUsed(payload: Json, book: Book, needs: map<string, set<string>>, settled: Book)
    requires Closes(needs, book)
    ensures OutcomeFrom(payload, book, needs, settled).Success? <==>
      !Broken(payload) && Union(Asks(payload, book), needs) == book.Keys && AllSound(book.Keys, book)
  {
    UnionWithin(Asks(payload, book), needs, book);
    FewerThan(Union(Asks(payload, book), needs), book.Keys);
  }

  /** Processing succeeds exactly when every disclosure is reached at places of its kind, and all can be walked. */
  lemma AcceptedExactlyWhenAllReached(payload: Json, book: Book, rank: string -> nat)
    requires Acyclic(book, rank)
    ensures Outcome(payload, book, rank).Success? <==>
      !Broken(payload) && ReachedFrom(Asks(payload, book), book) == book.Keys && AllSound(book.Keys, book)
  {
    var needs, settled := OutcomeThrough(payload, book, rank);
    AcceptedExactlyWhenAllUsed(payload, book, needs, settled);
    UsedIsReached(Asks(payload, book), book, needs, rank);
  }

  /** The outcome is the filling from the one book that answers itself. */
  lemma OutcomeIsTheSolution(payload: Json, book: Book, rank: string -> nat, settled: Book)
    requires Acyclic(book, rank) && Solves(settled, book) && Outcome(payload, book, rank).Success?
    ensures Outcome(payload, book, rank).value == Fill(payload, settled)
  {
    OneSolution(settled, book, rank);
  }

  // ----- Nothing reserved is left

  /** No `_sd` or `_sd_alg` key at any level. */
  predicate Clean(v: Json)
    decreases v
  {
    match v
    case Arr(elems) => forall i :: 0 <= i < |elems| ==> Clean(elems[i])
    case Obj(members) => forall k :: k in members ==> !IsReserved(k) && Clean(members[k])
    case _ => true
  }

  predicate CleanEntry(d: Disclosure) {
    Clean(d.value) && (d.Claim? ==> !IsReserved(d.name))
  }

  predicate CleanAnswers(asked: set<string>, book: Book)
    requires asked <= book.Keys
  {
    forall d :: d in asked ==> CleanEntry(book[d])
  }

  predicate CleanMap(members: map<string, Json>) {
    forall k :: k in members ==> !IsReserved(k) && Clean(members[k])
  }

  lemma {:induction false} RevealClean(kept: map<string, Json>, digests: seq<string>, book: Book)
    requires CleanMap(kept) && CleanAnswers(ListAsks(digests, book), book)
    ensures CleanMap(Reveal(kept, digests, book))
  {
    if digests != [] {
      var front, d := digests[..|digests| - 1], digests[|digests| - 1];
      assert ListAsks(front, book) <= ListAsks(digests, book);
      RevealClean(kept, front, book);
      assert AnswersClaim(d, book) ==> d in ListAsks(digests, book);
    }
  }

  lemma {:induction false} FillClean(v: Json, book: Book)
    requires CleanAnswers(Asks(v, book), book)
    ensures Clean(Fill(v, book))
    decreases v, 1
  {
    match v
    case Arr(elems) =>
      ItemsClean(v, |elems|, book);
    case Obj(members) =>
      forall k | k in members.Keys && !IsReserved(k) ensures Clean(Fill(members[k], book)) {
        MemberAsksWithin(v, members.Keys, k, book);
        FillClean(members[k], book);
      }
      RevealClean(FillMembers(v, members.Keys, book), SdList(members), book);
    case _ =>
  }

  lemma {:induction false} ItemClean(item: Json, book: Book)
    requires CleanAnswers(ItemAsks(item, book), book)
    ensures forall j :: j in FillItem(item, book) ==> Clean(j)
    decreases item, 2
  {
    if IsMarker(item) {
      assert AnswersItem(MarkerDigest(item), book) ==> MarkerDigest(item) in ItemAsks(item, book);
    } else {
      FillClean(item, book);
    }
  }

  lemma {:induction false} ItemsClean(v: Json, n: nat, book: Book)
    requires v.Arr? && n <= |v.elems| && CleanAnswers(ItemsAsk(v, n, book), book)
    ensures forall j :: j in FillItems(v, n, book) ==> Clean(j)
    decreases v, 0, n
  {
    if n > 0 {
      ItemsClean(v, n - 1, book);
      ItemClean(v.elems[n - 1], book);
    }
  }

  predicate NamesClean(book: Book) {
    forall d :: d in book && book[d].Claim? ==> !IsReserved(book[d].name)
  }

  lemma {:induction false} SettledClean(d: string, book: Book, settled: Book, rank: string -> nat)
    requires Acyclic(book, rank) && Solves(settled, book) && NamesClean(book) && d in book
    ensures CleanEntry(settled[d])
    decreases rank(d)
  {
    forall e | e in Asks(book[d].value, book) ensures CleanEntry(settled[e]) {
      SettledClean(e, book, settled, rank);
    }
    SolvesShape(settled, book);
    AsksShape(book[d].value, settled, book);
    FillClean(book[d].value, settled);
    assert SolvesAt(d, settled, book);
  }

  /** No reserved key is left anywhere, in the payload or in what was disclosed, unless a claim is so named. */
  lemma NothingReservedLeft(payload: Json, book: Book, rank: string -> nat)
    requires Acyclic(book, rank) && Outcome(payload, book, rank).Success? && NamesClean(book)
    ensures Clean(Outcome(payload, book, rank).value)
  {
    var needs, settled := OutcomeThrough(payload, book, rank);
    forall d | d in book ensures CleanEntry(settled[d]) {
      SettledClean(d, book, settled, rank);
    }
    FillClean(payload, settled);
  }

  // ----- The book of a list of disclosures

  /** What the source calls into: hashing, base64url with JSON parsing, and string conversion. */
  datatype Env = Env(
    known: string -> bool,
    hash: (string, string) -> string,
    parse: string -> Option<Json>,
    textOf: Json -> string)

  function DecodeDisclosure(disclosure: string, env: Env): Option<Disclosure> {
    match env.parse(disclosure)
    case Some(Arr(elems)) =>
      if |elems| == 3 then Some(Claim(env.textOf(elems[0]), env.textOf(elems[1]), elems[2]))
      else if |elems| == 2 then Some(Element(env.textOf(elems[0]), elems[1]))
      else None
    case _ => None
  }

  /** The algorithm that the payload names; anything but a string or nothing is refused by the hash. */
  function Algorithm(payload: map<string, Json>): Option<string> {
    if SD_ALG !in payload || payload[SD_ALG] == Null then Some("sha-256")
    else if payload[SD_ALG].Str? then Some(payload[SD_ALG].s)
    else None
  }

  predicate AlgorithmWorks(payload: map<string, Json>, env: Env) {
    Algorithm(payload).Some? && env.known(Algorithm(payload).value)
  }

  /** Later disclosures of a digest replace earlier ones. */
  function BookOf(disclosures: seq<string>, alg: string, env: Env): Option<Book> {
    if disclosures == [] then Some(map[])
    else
      var front, last := disclosures[..|disclosures| - 1], disclosures[|disclosures| - 1];
      match (BookOf(front, alg, env), DecodeDisclosure(last, env))
      case (Some(book), Some(d)) => Some(book[env.hash(alg, last) := d])
      case _ => None
  }

  ghost predicate AcyclicBook(payload: map<string, Json>, disclosures: seq<string>, env: Env, rank: string -> nat) {
    Algorithm(payload).Some? ==>
      match BookOf(disclosures, Algorithm(payload).value, env)
      case Some(book) => Acyclic(book, rank)
      case None => true
  }

  ghost function Processed(payload: map<string, Json>, disclosures: seq<string>, env: Env, rank: string -> nat)
    : Result<Json, Problem>
    requires AcyclicBook(payload, disclosures, env, rank)
  {
    if disclosures == [] then Outcome(Obj(payload), map[], rank)
    else if !AlgorithmWorks(payload, env) then Failure(BadAlgorithm)
    else
      match BookOf(disclosures, Algorithm(payload).value, env)
      case None => Failure(BadDisclosure)
      case Some(book) => Outcome(Obj(payload), book, rank)
  }

  ghost predicate DistinctDigests(disclosures: seq<string>, alg: string, env: Env) {
    forall a, b :: a in disclosures && b in disclosures && env.hash(alg, a) == env.hash(alg, b) ==> a == b
  }

  /** The book holds exactly the disclosures given. */
  ghost predicate Holds(book: Book, disclosures: seq<string>, alg: string, env: Env) {
    && (forall d :: d in disclosures ==>
          env.hash(alg, d) in book && DecodeDisclosure(d, env) == Some(book[env.hash(alg, d)]))
    && (forall h :: h in book ==> exists d :: d in disclosures && env.hash(alg, d) == h)
  }

  predicate AllDecode(disclosures: seq<string>, env: Env) {
    forall d :: d in disclosures ==> DecodeDisclosure(d, env).Some?
  }

  lemma HoldsOneMore(book: Book, front: seq<string>, last: string, alg: string, env: Env)
    requires Holds(book, front, alg, env) && DistinctDigests(front + [last], alg, env)
    requires DecodeDisclosure(last, env).Some?
    ensures Holds(book[env.hash(alg, last) := DecodeDisclosure(last, env).value], front + [last], alg, env)
  {
    var grown := book[env.hash(alg, last) := DecodeDisclosure(last, env).value];
    forall h | h in grown ensures exists d :: d in front + [last] && env.hash(alg, d) == h {
      if h == env.hash(alg, last) {
        assert last in front + [last];
      } else {
        var d :| d in front && env.hash(alg, d) == h;
        assert d in front + [last];
      }
    }
  }

  lemma {:induction false} BookHolds(disclosures: seq<string>, alg: string, env: Env)
    requires DistinctDigests(disclosures, alg, env)
    ensures BookOf(disclosures, alg, env).Some? <==> AllDecode(disclosures, env)
    ensures BookOf(disclosures, alg, env).Some? ==> Holds(BookOf(disclosures, alg, env).value, disclosures, alg, env)
  {
    if disclosures != [] {
      var front, last := disclosures[..|disclosures| - 1], disclosures[|disclosures| - 1];
      assert disclosures == front + [last];
      BookHolds(front, alg, env);
      if BookOf(disclosures, alg, env).Some? {
        HoldsOneMore(BookOf(front, alg, env).value, front, last, alg, env);
      }
    }
  }

  lemma HoldersAgree(a: Book, b: Book, ds: seq<string>, es: seq<string>, alg: string, env: Env)
    requires Holds(a, ds, alg, env) && Holds(b, es, alg, env)
    requires forall d :: d in ds <==> d in es
    ensures a == b
  {
    forall h | h in a ensures h in b && a[h] == b[h] {
      var d :| d in ds && env.hash(alg, d) == h;
      assert d in es;
    }
    forall h | h in b ensures h in a {
      var d :| d in es && env.hash(alg, d) == h;
      assert d in ds;
    }
  }

  /** Order and repetition of the disclosures do not matter, for the result nor for the error. */
  lemma OrderDoesNotMatter(payload: map<string, Json>, ds: seq<string>, es: seq<string>, env: Env, rank: string -> nat)
    requires AcyclicBook(payload, ds, env, rank) && AcyclicBook(payload, es, env, rank)
    requires forall d :: d in ds <==> d in es
    requires Algorithm(payload).Some? ==> DistinctDigests(ds, Algorithm(payload).value, env)
    ensures Processed(payload, ds, env, rank) == Processed(payload, es, env, rank)
  {
    assert ds == [] || ds[0] in es;
    assert es == [] || es[0] in ds;
    if ds != [] && AlgorithmWorks(payload, env) {
      var alg := Algorithm(payload).value;
      BookHolds(ds, alg, env);
      BookHolds(es, alg, env);
      if AllDecode(ds, env) {
        HoldersAgree(BookOf(ds, alg, env).value, BookOf(es, alg, env).value, ds, es, alg, env);
      }
    }
  }
}
