/**
 The law between issuer and verifier of SD-JWT credentials: of the disclosures presented, exactly the issued ones are
 accepted, and they add exactly their claims to the plain ones. Neither the order of presentation nor the order of
 the digests matters: the sort may be any permutation.
 */
module SdJwtRoundTrip {
  import opened Wrappers
  import opened Json
  import opened SdJwt
  import opened SdJwtProcess
  import opened SdJwtIssue

  const SHA := "sha-256"

  /** The contents of the `i`-th disclosure. */
  function PartsAt(hidden: seq<Entry>, i: nat, signer: Signer): Json
    requires i < |hidden|
  {
    Arr([Str(signer.salt(i)), Str(hidden[i].0), hidden[i].1])
  }

  /** The verifier reads every disclosure of the hidden claims as the issuer wrote it. */
  ghost predicate ReadsBack(hidden: seq<Entry>, signer: Signer, env: Env) {
    forall i: nat :: i < |hidden| ==> env.parse(DisclosuresOf(hidden, signer)[i]) == Some(PartsAt(hidden, i, signer))
  }

  /** The verifier's hash and parser fit the issuer's, and the sort keeps the elements. */
  ghost predicate Matched(signer: Signer, env: Env, hidden: seq<Entry>) {
    && env.known(SHA)
    && (forall t :: signer.hash(t) == env.hash(SHA, t))
    && ReadsBack(hidden, signer, env)
    && (forall s :: env.textOf(Str(s)) == s)
    && (forall ds: seq<string> :: multiset(signer.sort(ds)) == multiset(ds))
  }

  predicate UnmarkedMap(members: map<string, Json>) {
    forall k :: k in members ==> !IsReserved(k) && Unmarked(members[k])
  }

  predicate UnmarkedAll(claims: seq<Entry>) {
    forall i :: 0 <= i < |claims| ==> Unmarked(claims[i].1)
  }

  predicate DistinctNames(claims: seq<Entry>) {
    forall i, j :: 0 <= i < j < |claims| ==> claims[i].0 != claims[j].0
  }

  // ----- The book of the presented disclosures

  function ClaimAt(hidden: seq<Entry>, i: nat, signer: Signer): Disclosure
    requires i < |hidden|
  {
    Claim(signer.salt(i), hidden[i].0, hidden[i].1)
  }

  lemma DecodedClaim(hidden: seq<Entry>, i: nat, signer: Signer, env: Env)
    requires Matched(signer, env, hidden) && i < |hidden|
    ensures DecodeDisclosure(DisclosuresOf(hidden, signer)[i], env) == Some(ClaimAt(hidden, i, signer))
  {
    assert env.parse(DisclosuresOf(hidden, signer)[i]) == Some(PartsAt(hidden, i, signer));
    assert env.textOf(Str(signer.salt(i))) == signer.salt(i);
    assert env.textOf(Str(hidden[i].0)) == hidden[i].0;
  }

  /** Entry `h` of the book is the `i`-th issued claim, and its disclosure was presented. */
  ghost predicate IsIssued(h: string, i: nat, book: Book, hidden: seq<Entry>, presented: seq<string>, signer: Signer)
    requires h in book
  {
    && i < |hidden|
    && h == signer.hash(DisclosuresOf(hidden, signer)[i])
    && DisclosuresOf(hidden, signer)[i] in presented
    && book[h] == ClaimAt(hidden, i, signer)
  }

  lemma EntryIsIssued(h: string, book: Book, hidden: seq<Entry>, presented: seq<string>, signer: Signer, env: Env)
    returns (i: nat)
    requires Matched(signer, env, hidden) && Holds(book, presented, SHA, env) && h in book
    requires forall d :: d in presented && env.hash(SHA, d) == h ==> d in DisclosuresOf(hidden, signer)
    ensures IsIssued(h, i, book, hidden, presented, signer)
  {
    var d :| d in presented && env.hash(SHA, d) == h;
    i :| 0 <= i < |hidden| && DisclosuresOf(hidden, signer)[i] == d;
    DecodedClaim(hidden, i, signer, env);
  }

  /** Every entry comes from an issued disclosure. */
  ghost predicate AllIssued(book: Book, hidden: seq<Entry>, presented: seq<string>, signer: Signer) {
    forall h :: h in book ==> exists i :: IsIssued(h, i, book, hidden, presented, signer)
  }

  lemma EntriesAreIssued(book: Book, hidden: seq<Entry>, presented: seq<string>, signer: Signer, env: Env)
    requires Matched(signer, env, hidden) && Holds(book, presented, SHA, env)
    requires forall d :: d in presented ==> d in DisclosuresOf(hidden, signer)
    ensures AllIssued(book, hidden, presented, signer)
  {
    forall h | h in book ensures exists i :: IsIssued(h, i, book, hidden, presented, signer) {
      var i := EntryIsIssued(h, book, hidden, presented, signer, env);
    }
  }

  /** The values of the book ask for nothing. */
  ghost predicate Quiet(book: Book) {
    forall h :: h in book ==> Unmarked(book[h].value)
  }

  lemma IssuedIsQuiet(book: Book, hidden: seq<Entry>, presented: seq<string>, signer: Signer)
    requires AllIssued(book, hidden, presented, signer) && UnmarkedAll(hidden)
    ensures Quiet(book)
  {
    forall h | h in book ensures Unmarked(book[h].value) {
      var i :| IsIssued(h, i, book, hidden, presented, signer);
    }
  }

  lemma QuietIsSettled(book: Book, rank: string -> nat)
    requires Quiet(book)
    ensures Acyclic(book, rank) && Solves(book, book) && AllSound(book.Keys, book)
  {
    forall h | h in book ensures Asks(book[h].value, book) == {} && SolvesAt(h, book, book) && !Broken(book[h].value) {
      UnmarkedStays(book[h].value, book);
    }
  }

  // ----- The sealed payload

  lemma {:induction false} StringsOfStrs(texts: seq<string>)
    ensures StringsOf(StrList(texts).elems) == texts
  {
    if texts != [] {
      StringsOfStrs(texts[1..]);
      assert StrList(texts).elems[1..] == StrList(texts[1..]).elems;
      assert texts == [texts[0]] + texts[1..];
    }
  }

  lemma SealedList(plain: map<string, Json>, digests: seq<string>, signer: Signer)
    requires UnmarkedMap(plain) && multiset(signer.sort(digests)) == multiset(digests)
    ensures var list := SdList(Sealed(plain, digests, signer)); forall d :: d in list <==> d in digests
  {
    StringsOfStrs(signer.sort(digests));
    assert forall d :: d in signer.sort(digests) <==> d in multiset(signer.sort(digests));
  }

  /** Apart from the list, the payload is plain. */
  lemma SealedMembers(plain: map<string, Json>, digests: seq<string>, signer: Signer, book: Book)
    requires UnmarkedMap(plain)
    ensures var v := Obj(Sealed(plain, digests, signer));
      && FillMembers(v, v.members.Keys, book) == plain
      && MembersAsk(v, v.members.Keys, book) == {}
      && !Broken(v)
  {
    var v := Obj(Sealed(plain, digests, signer));
    forall k | k in v.members && !IsReserved(k)
      ensures k in plain && v.members[k] == plain[k]
      ensures Fill(v.members[k], book) == plain[k] && Asks(v.members[k], book) == {} && !Broken(v.members[k])
    {
      UnmarkedStays(plain[k], book);
    }
    assert FillMembers(v, v.members.Keys, book) == plain;
    assert MembersAsk(v, v.members.Keys, book) == {};
  }

  // ----- What is revealed

  lemma {:induction false} RevealOnTop(kept: map<string, Json>, digests: seq<string>, book: Book)
    ensures Reveal(kept, digests, book) == kept + Reveal(map[], digests, book)
  {
    if digests != [] {
      RevealOnTop(kept, digests[..|digests| - 1], book);
    }
  }

  predicate DistinctClaims(book: Book) {
    forall d, e :: d in book && e in book && book[d].Claim? && book[e].Claim? && book[d].name == book[e].name ==> d == e
  }

  /** `d` is one of `digests` and answers with a claim called `name`. */
  predicate Gives(d: string, name: string, digests: seq<string>, book: Book) {
    d in digests && AnswersClaim(d, book) && book[d].name == name
  }

  ghost predicate RevealsExactly(r: map<string, Json>, digests: seq<string>, book: Book) {
    && (forall d :: d in digests && AnswersClaim(d, book) ==> book[d].name in r && r[book[d].name] == book[d].value)
    && (forall name :: name in r ==> exists d :: Gives(d, name, digests, book))
  }

  lemma RevealsOneMore(r: map<string, Json>, front: seq<string>, last: string, book: Book)
    requires DistinctClaims(book) && RevealsExactly(r, front, book)
    ensures RevealsExactly(if AnswersClaim(last, book) then r[book[last].name := book[last].value] else r, front + [last], book)
  {
    forall name | name in r ensures exists d :: Gives(d, name, front + [last], book) {
      var d :| Gives(d, name, front, book);
      assert Gives(d, name, front + [last], book);
    }
    assert AnswersClaim(last, book) ==> Gives(last, book[last].name, front + [last], book);
  }

  lemma {:induction false} RevealHas(digests: seq<string>, book: Book)
    requires DistinctClaims(book)
    ensures RevealsExactly(Reveal(map[], digests, book), digests, book)
  {
    if digests != [] {
      var front, last := digests[..|digests| - 1], digests[|digests| - 1];
      assert digests == front + [last];
      RevealHas(front, book);
      RevealsOneMore(Reveal(map[], front, book), front, last, book);
    }
  }

  /** The claims whose disclosures are presented. */
  function ShownOf(hidden: seq<Entry>, disclosures: seq<string>, presented: seq<string>): map<string, Json>
    requires |disclosures| == |hidden|
  {
    if hidden == [] then map[]
    else
      var n := |hidden| - 1;
      var shown := ShownOf(hidden[..n], disclosures[..n], presented);
      if disclosures[n] in presented then shown[hidden[n].0 := hidden[n].1] else shown
  }

  ghost predicate ShowsExactly(shown: map<string, Json>, hidden: seq<Entry>, disclosures: seq<string>, presented: seq<string>)
    requires |disclosures| == |hidden|
  {
    && (forall i :: 0 <= i < |hidden| && disclosures[i] in presented ==>
          hidden[i].0 in shown && shown[hidden[i].0] == hidden[i].1)
    && (forall name :: name in shown ==>
          exists i :: 0 <= i < |hidden| && disclosures[i] in presented && hidden[i].0 == name)
  }

  lemma {:induction false} ShownHas(hidden: seq<Entry>, disclosures: seq<string>, presented: seq<string>)
    requires |disclosures| == |hidden| && DistinctNames(hidden)
    ensures ShowsExactly(ShownOf(hidden, disclosures, presented), hidden, disclosures, presented)
  {
    if hidden != [] {
      var n := |hidden| - 1;
      ShownHas(hidden[..n], disclosures[..n], presented);
    }
  }

  lemma IssuedNamesDiffer(book: Book, hidden: seq<Entry>, presented: seq<string>, signer: Signer)
    requires AllIssued(book, hidden, presented, signer) && DistinctNames(hidden)
    ensures DistinctClaims(book)
  {
    forall d, e | d in book && e in book && book[d].Claim? && book[e].Claim? && book[d].name == book[e].name ensures d == e {
      var i :| IsIssued(d, i, book, hidden, presented, signer);
      var j :| IsIssued(e, j, book, hidden, presented, signer);
    }
  }

  /** A presented issued disclosure is in the book, as its claim. */
  lemma PresentedIsInBook(i: nat, book: Book, hidden: seq<Entry>, presented: seq<string>, signer: Signer, env: Env)
    requires Matched(signer, env, hidden) && Holds(book, presented, SHA, env)
    requires i < |hidden| && DisclosuresOf(hidden, signer)[i] in presented
    ensures var h := signer.hash(DisclosuresOf(hidden, signer)[i]); h in book && book[h] == ClaimAt(hidden, i, signer)
  {
    DecodedClaim(hidden, i, signer, env);
  }

  lemma RevealedIsShown(d: string, shown: map<string, Json>, book: Book, hidden: seq<Entry>, presented: seq<string>, signer: Signer)
    requires AllIssued(book, hidden, presented, signer) && d in book
    requires ShowsExactly(shown, hidden, DisclosuresOf(hidden, signer), presented)
    ensures book[d].Claim? && book[d].name in shown && shown[book[d].name] == book[d].value
  {
    var i :| IsIssued(d, i, book, hidden, presented, signer);
  }

  lemma ShownIsRevealed(i: nat, r: map<string, Json>, list: seq<string>, book: Book, hidden: seq<Entry>,
                        presented: seq<string>, signer: Signer, env: Env)
    requires Matched(signer, env, hidden) && Holds(book, presented, SHA, env) && RevealsExactly(r, list, book)
    requires i < |hidden| && DisclosuresOf(hidden, signer)[i] in presented
    requires forall d :: d in list <==> d in DigestsOfAll(DisclosuresOf(hidden, signer), signer)
    ensures hidden[i].0 in r
  {
    var h := signer.hash(DisclosuresOf(hidden, signer)[i]);
    PresentedIsInBook(i, book, hidden, presented, signer, env);
    assert DigestsOfAll(DisclosuresOf(hidden, signer), signer)[i] == h;
    assert h in list && AnswersClaim(h, book);
  }

  lemma RevealWithinShown(r: map<string, Json>, shown: map<string, Json>, list: seq<string>, book: Book,
                          hidden: seq<Entry>, presented: seq<string>, signer: Signer)
    requires AllIssued(book, hidden, presented, signer) && RevealsExactly(r, list, book)
    requires ShowsExactly(shown, hidden, DisclosuresOf(hidden, signer), presented)
    ensures forall name :: name in r ==> name in shown && shown[name] == r[name]
  {
    forall name | name in r ensures name in shown && shown[name] == r[name] {
      var d :| Gives(d, name, list, book);
      RevealedIsShown(d, shown, book, hidden, presented, signer);
    }
  }

  lemma ShownWithinReveal(r: map<string, Json>, shown: map<string, Json>, list: seq<string>, book: Book,
                          hidden: seq<Entry>, presented: seq<string>, signer: Signer, env: Env)
    requires Matched(signer, env, hidden) && Holds(book, presented, SHA, env) && RevealsExactly(r, list, book)
    requires forall d :: d in list <==> d in DigestsOfAll(DisclosuresOf(hidden, signer), signer)
    requires ShowsExactly(shown, hidden, DisclosuresOf(hidden, signer), presented)
    ensures shown.Keys <= r.Keys
  {
    forall name | name in shown ensures name in r {
      var i :| 0 <= i < |hidden| && DisclosuresOf(hidden, signer)[i] in presented && hidden[i].0 == name;
      ShownIsRevealed(i, r, list, book, hidden, presented, signer, env);
    }
  }

  lemma RevealIsShown(list: seq<string>, book: Book, hidden: seq<Entry>, presented: seq<string>, signer: Signer, env: Env)
    requires Matched(signer, env, hidden) && Holds(book, presented, SHA, env)
    requires AllIssued(book, hidden, presented, signer) && DistinctNames(hidden)
    requires forall d :: d in list <==> d in DigestsOfAll(DisclosuresOf(hidden, signer), signer)
    ensures Reveal(map[], list, book) == ShownOf(hidden, DisclosuresOf(hidden, signer), presented)
  {
    var r, shown := Reveal(map[], list, book), ShownOf(hidden, DisclosuresOf(hidden, signer), presented);
    IssuedNamesDiffer(book, hidden, presented, signer);
    RevealHas(list, book);
    ShownHas(hidden, DisclosuresOf(hidden, signer), presented);
    RevealWithinShown(r, shown, list, book, hidden, presented, signer);
    ShownWithinReveal(r, shown, list, book, hidden, presented, signer, env);
  }

  // ----- Accepting a presentation

  /** The digests that the sealed payload asks for. */
  lemma SealedAsks(plain: map<string, Json>, digests: seq<string>, signer: Signer, book: Book)
    requires UnmarkedMap(plain) && multiset(signer.sort(digests)) == multiset(digests)
    ensures forall h :: h in Asks(Obj(Sealed(plain, digests, signer)), book) <==> h in digests && AnswersClaim(h, book)
  {
    SealedList(plain, digests, signer);
    SealedMembers(plain, digests, signer, book);
  }

  lemma SealedFill(plain: map<string, Json>, digests: seq<string>, signer: Signer, book: Book)
    requires UnmarkedMap(plain)
    ensures var payload := Sealed(plain, digests, signer);
      Fill(Obj(payload), book) == Obj(plain + Reveal(map[], SdList(payload), book))
  {
    SealedMembers(plain, digests, signer, book);
    RevealOnTop(plain, SdList(Sealed(plain, digests, signer)), book);
  }

  lemma EntryHasDigest(h: string, hidden: seq<Entry>, signer: Signer, book: Book, presented: seq<string>)
    requires AllIssued(book, hidden, presented, signer) && h in book
    ensures h in DigestsOfAll(DisclosuresOf(hidden, signer), signer) && book[h].Claim?
  {
    var i: nat :| IsIssued(h, i, book, hidden, presented, signer);
    assert DigestsOfAll(DisclosuresOf(hidden, signer), signer)[i] == h;
  }

  lemma IssuedAreAsked(plain: map<string, Json>, hidden: seq<Entry>, signer: Signer, book: Book, presented: seq<string>)
    requires UnmarkedMap(plain) && AllIssued(book, hidden, presented, signer)
    requires forall ds: seq<string> :: multiset(signer.sort(ds)) == multiset(ds)
    ensures Asks(Obj(Sealed(plain, DigestsOfAll(DisclosuresOf(hidden, signer), signer), signer)), book) == book.Keys
  {
    var digests := DigestsOfAll(DisclosuresOf(hidden, signer), signer);
    SealedAsks(plain, digests, signer, book);
    forall h | h in book ensures h in digests && AnswersClaim(h, book) {
      EntryHasDigest(h, hidden, signer, book, presented);
    }
  }

  lemma AskedIsUsed(asked: set<string>, book: Book, needs: map<string, set<string>>)
    requires Closes(needs, book) && asked == book.Keys
    ensures Union(asked, needs) == book.Keys
  {
    UnionWithin(asked, needs, book);
    forall d | d in asked ensures d in Union(asked, needs) {
      NeedsItself(d, needs, book);
      UnionHas(d, asked, needs);
    }
  }

  /** A payload that asks for all of a quiet book is filled from it. */
  lemma QuietOutcome(payload: Json, book: Book, rank: string -> nat)
    requires Quiet(book) && Acyclic(book, rank) && !Broken(payload) && Asks(payload, book) == book.Keys
    ensures Outcome(payload, book, rank) == Success(Fill(payload, book))
  {
    QuietIsSettled(book, rank);
    var needs, settled := OutcomeThrough(payload, book, rank);
    AskedIsUsed(Asks(payload, book), book, needs);
    AcceptedExactlyWhenAllUsed(payload, book, needs, settled);
    OutcomeIsTheSolution(payload, book, rank, book);
  }

  /** A book of issued disclosures is accepted and adds its claims. */
  lemma IssuedBookAccepted(plain: map<string, Json>, hidden: seq<Entry>, signer: Signer, env: Env,
                           presented: seq<string>, book: Book, rank: string -> nat)
    requires Matched(signer, env, hidden) && UnmarkedMap(plain) && UnmarkedAll(hidden) && DistinctNames(hidden)
    requires Holds(book, presented, SHA, env) && AllIssued(book, hidden, presented, signer) && Acyclic(book, rank)
    ensures var ds := DisclosuresOf(hidden, signer);
      Outcome(Obj(Sealed(plain, DigestsOfAll(ds, signer), signer)), book, rank)
        == Success(Obj(plain + ShownOf(hidden, ds, presented)))
  {
    var digests := DigestsOfAll(DisclosuresOf(hidden, signer), signer);
    var payload := Obj(Sealed(plain, digests, signer));
    IssuedIsQuiet(book, hidden, presented, signer);
    IssuedAreAsked(plain, hidden, signer, book, presented);
    SealedMembers(plain, digests, signer, book);
    QuietOutcome(payload, book, rank);
    SealedFill(plain, digests, signer, book);
    SealedList(plain, digests, signer);
    RevealIsShown(SdList(payload.members), book, hidden, presented, signer, env);
  }

  /** The sealed payload of plain and hidden claims. */
  function PayloadOf(plain: map<string, Json>, hidden: seq<Entry>, signer: Signer): map<string, Json> {
    Sealed(plain, DigestsOfAll(DisclosuresOf(hidden, signer), signer), signer)
  }

  lemma SealedAlgorithm(plain: map<string, Json>, digests: seq<string>, signer: Signer)
    requires UnmarkedMap(plain)
    ensures Algorithm(Sealed(plain, digests, signer)) == Some(SHA)
  {
  }

  /** Presenting some of the issued disclosures, in any order, adds exactly their claims to the plain ones. */
  lemma PresentingIssued(plain: map<string, Json>, hidden: seq<Entry>, signer: Signer, env: Env,
                         presented: seq<string>, rank: string -> nat)
    requires Matched(signer, env, hidden) && UnmarkedMap(plain) && UnmarkedAll(hidden) && DistinctNames(hidden)
    requires DistinctDigests(DisclosuresOf(hidden, signer), SHA, env)
    requires forall d :: d in presented ==> d in DisclosuresOf(hidden, signer)
    ensures AcyclicBook(PayloadOf(plain, hidden, signer), presented, env, rank)
    ensures Processed(PayloadOf(plain, hidden, signer), presented, env, rank)
         == Success(Obj(plain + ShownOf(hidden, DisclosuresOf(hidden, signer), presented)))
  {
    SealedAlgorithm(plain, DigestsOfAll(DisclosuresOf(hidden, signer), signer), signer);
    forall d | d in presented ensures DecodeDisclosure(d, env).Some? {
      var i :| 0 <= i < |hidden| && DisclosuresOf(hidden, signer)[i] == d;
      DecodedClaim(hidden, i, signer, env);
    }
    BookHolds(presented, SHA, env);
    var book := BookOf(presented, SHA, env).value;
    EntriesAreIssued(book, hidden, presented, signer, env);
    IssuedIsQuiet(book, hidden, presented, signer);
    QuietIsSettled(book, rank);
    IssuedBookAccepted(plain, hidden, signer, env, presented, book, rank);
  }

  // ----- Rejecting anything else

  /** The payload only asks for issued digests, and an entry that answers one is the issued claim. */
  lemma AskedIsIssued(h: string, plain: map<string, Json>, hidden: seq<Entry>, signer: Signer, env: Env,
                      presented: seq<string>, book: Book) returns (i: nat)
    requires Matched(signer, env, hidden) && UnmarkedMap(plain) && Holds(book, presented, SHA, env)
    requires DistinctDigests(DisclosuresOf(hidden, signer) + presented, SHA, env)
    requires h in Asks(Obj(PayloadOf(plain, hidden, signer)), book)
    ensures IsIssued(h, i, book, hidden, presented, signer)
  {
    var ds := DisclosuresOf(hidden, signer);
    var digests := DigestsOfAll(ds, signer);
    SealedAsks(plain, digests, signer, book);
    i :| 0 <= i < |digests| && digests[i] == h;
    var d :| d in presented && env.hash(SHA, d) == h;
    assert ds[i] in ds + presented && d in ds + presented;
    DecodedClaim(hidden, i, signer, env);
  }

  /** When what is asked for asks for nothing, a chain has only one link. */
  lemma ReachedFromQuiet(h: string, asked: set<string>, book: Book)
    requires forall d :: d in asked && d in book ==> Unmarked(book[d].value)
    requires Reached(h, asked, book)
    ensures h in asked
  {
    var path :| Chain(path, asked, book) && path[|path| - 1] == h;
    UnmarkedStays(book[path[0]].value, book);
    if |path| > 1 {
      NoChainFromNothing(path[1..], book);
    }
  }

  lemma NoChainFromNothing(path: seq<string>, book: Book)
    ensures !Chain(path, {}, book)
  {
  }

  lemma QuietReach(asked: set<string>, book: Book)
    requires forall d :: d in asked && d in book ==> Unmarked(book[d].value)
    requires ReachedFrom(asked, book) == book.Keys
    ensures book.Keys <= asked
  {
    forall h | h in book ensures h in asked {
      assert h in ReachedFrom(asked, book);
      ReachedFromQuiet(h, asked, book);
    }
  }

  lemma ReachedAreIssued(plain: map<string, Json>, hidden: seq<Entry>, signer: Signer, env: Env,
                         presented: seq<string>, book: Book)
    requires Matched(signer, env, hidden) && UnmarkedMap(plain) && UnmarkedAll(hidden) && Holds(book, presented, SHA, env)
    requires DistinctDigests(DisclosuresOf(hidden, signer) + presented, SHA, env)
    requires ReachedFrom(Asks(Obj(PayloadOf(plain, hidden, signer)), book), book) == book.Keys
    ensures AllIssued(book, hidden, presented, signer)
  {
    var asked := Asks(Obj(PayloadOf(plain, hidden, signer)), book);
    forall h | h in asked ensures (exists i :: IsIssued(h, i, book, hidden, presented, signer)) && Unmarked(book[h].value) {
      var i := AskedIsIssued(h, plain, hidden, signer, env, presented, book);
    }
    QuietReach(asked, book);
  }

  lemma PresentedIsIssued(d: string, hidden: seq<Entry>, signer: Signer, env: Env, presented: seq<string>, book: Book)
    requires Matched(signer, env, hidden) && Holds(book, presented, SHA, env) && AllIssued(book, hidden, presented, signer)
    requires DistinctDigests(DisclosuresOf(hidden, signer) + presented, SHA, env)
    requires d in presented
    ensures d in DisclosuresOf(hidden, signer)
  {
    var ds, h := DisclosuresOf(hidden, signer), env.hash(SHA, d);
    var i: nat :| IsIssued(h, i, book, hidden, presented, signer);
    assert ds[i] in ds + presented && d in ds + presented;
  }

  lemma OnlyIssuedAccepted(plain: map<string, Json>, hidden: seq<Entry>, signer: Signer, env: Env,
                           presented: seq<string>, rank: string -> nat)
    requires Matched(signer, env, hidden) && UnmarkedMap(plain) && UnmarkedAll(hidden)
    requires DistinctDigests(DisclosuresOf(hidden, signer) + presented, SHA, env)
    requires AcyclicBook(PayloadOf(plain, hidden, signer), presented, env, rank)
    requires Processed(PayloadOf(plain, hidden, signer), presented, env, rank).Success?
    ensures forall d :: d in presented ==> d in DisclosuresOf(hidden, signer)
  {
    var payload := PayloadOf(plain, hidden, signer);
    SealedAlgorithm(plain, DigestsOfAll(DisclosuresOf(hidden, signer), signer), signer);
    if presented != [] {
      assert DistinctDigests(presented, SHA, env) by {
        assert forall d :: d in presented ==> d in DisclosuresOf(hidden, signer) + presented;
      }
      BookHolds(presented, SHA, env);
      var book := BookOf(presented, SHA, env).value;
      AcceptedExactlyWhenAllReached(Obj(payload), book, rank);
      ReachedAreIssued(plain, hidden, signer, env, presented, book);
      forall d | d in presented ensures d in DisclosuresOf(hidden, signer) {
        PresentedIsIssued(d, hidden, signer, env, presented, book);
      }
    }
  }

  // ----- The law, for a credential

  /** Subject keys are distinct, plain ones are not reserved, and no value holds reserved keys or markers. */
  predicate Fair(vc: Credential, options: Options) {
    && DistinctNames(vc.subject) && UnmarkedAll(vc.subject)
    && (forall i :: 0 <= i < |vc.subject| && vc.subject[i].0 !in options.selective ==> !IsReserved(vc.subject[i].0))
    && (options.holderKey.Some? ==> Unmarked(options.holderKey.value))
  }

  lemma {:induction false} WithSubUnmarked(base: map<string, Json>, subject: seq<Entry>)
    requires UnmarkedMap(base) && UnmarkedAll(subject)
    ensures UnmarkedMap(WithSub(base, subject))
  {
    if subject != [] && subject[0].0 != "id" {
      WithSubUnmarked(base, subject[1..]);
    }
  }

  lemma BaseUnmarked(vc: Credential, options: Options)
    requires Fair(vc, options)
    ensures UnmarkedMap(Base(vc, options))
  {
    var p := map["iss" := Str(vc.issuer), "vct" := Str(options.vct), "iat" := Num(options.issuedAt as real)];
    var q := if vc.validFrom.Some? then p["nbf" := Num(vc.validFrom.value as real)] else p;
    var r := if vc.validUntil.Some? then q["exp" := Num(vc.validUntil.value as real)] else q;
    assert UnmarkedMap(r);
    WithSubUnmarked(r, vc.subject);
  }

  /** The claims are a sublist of the subject's entries. */
  lemma {:induction false} ClaimsCarry(subject: seq<Entry>)
    requires DistinctNames(subject)
    ensures forall c :: c in ClaimsOf(subject) ==> c in subject
    ensures DistinctNames(ClaimsOf(subject))
  {
    if subject != [] {
      var front, last := subject[..|subject| - 1], subject[|subject| - 1];
      ClaimsCarry(front);
      LastIsNew(subject, ClaimsOf(front));
    }
  }

  lemma LastIsNew(all: seq<Entry>, some: seq<Entry>)
    requires all != [] && DistinctNames(all) && DistinctNames(some)
    requires forall c :: c in some ==> c in all[..|all| - 1]
    ensures DistinctNames(some + [all[|all| - 1]])
  {
    var last := all[|all| - 1];
    forall i | 0 <= i < |some| ensures some[i].0 != last.0 {
      assert some[i] in some;
    }
  }

  lemma {:induction false} HiddenCarry(claims: seq<Entry>, selective: set<string>)
    requires DistinctNames(claims)
    ensures forall c :: c in HiddenOf(claims, selective) ==> c in claims
    ensures DistinctNames(HiddenOf(claims, selective))
  {
    if claims != [] {
      var front, last := claims[..|claims| - 1], claims[|claims| - 1];
      HiddenCarry(front, selective);
      LastIsNew(claims, HiddenOf(front, selective));
    }
  }

  predicate PlainFair(claims: seq<Entry>, selective: set<string>) {
    && UnmarkedAll(claims)
    && forall i :: 0 <= i < |claims| && claims[i].0 !in selective ==> !IsReserved(claims[i].0)
  }

  lemma {:induction false} PlainUnmarked(base: map<string, Json>, claims: seq<Entry>, selective: set<string>)
    requires UnmarkedMap(base) && PlainFair(claims, selective)
    ensures UnmarkedMap(PlainOf(base, claims, selective))
  {
    if claims != [] {
      PlainUnmarked(base, claims[..|claims| - 1], selective);
    }
  }

  /** A fair credential splits into an unmarked plain part and distinct unmarked hidden claims. */
  lemma FairSplits(vc: Credential, options: Options)
    requires Fair(vc, options)
    ensures var claims := ClaimsOf(vc.subject);
      && UnmarkedMap(PlainOf(Base(vc, options), claims, options.selective))
      && UnmarkedAll(HiddenOf(claims, options.selective))
      && DistinctNames(HiddenOf(claims, options.selective))
  {
    var claims := ClaimsOf(vc.subject);
    ClaimsCarry(vc.subject);
    HiddenCarry(claims, options.selective);
    BaseUnmarked(vc, options);
    assert forall c :: c in vc.subject ==> Unmarked(c.1) && (c.0 !in options.selective ==> !IsReserved(c.0));
    assert forall i :: 0 <= i < |claims| ==> claims[i] in claims;
    PlainUnmarked(Base(vc, options), claims, options.selective);
    assert forall i :: 0 <= i < |HiddenOf(claims, options.selective)| ==> HiddenOf(claims, options.selective)[i] in claims;
  }

  /**
   Of a fairly issued credential, a presentation is accepted exactly when all its disclosures were issued, and then
   it shows the plain claims and the claims presented, whatever the order of either list.
   */
  lemma IssueThenPresent(vc: Credential, options: Options, signer: Signer, env: Env, presented: seq<string>, rank: string -> nat)
    requires Matched(signer, env, HiddenOf(ClaimsOf(vc.subject), options.selective)) && Fair(vc, options)
    requires DistinctDigests(IssuedOf(vc, options, signer).disclosures + presented, SHA, env)
    requires AcyclicBook(IssuedOf(vc, options, signer).payload, presented, env, rank)
    ensures var issued := IssuedOf(vc, options, signer);
      var claims := ClaimsOf(vc.subject);
      var r := Processed(issued.payload, presented, env, rank);
      && (r.Success? <==> forall d :: d in presented ==> d in issued.disclosures)
      && (r.Success? ==> r.value == Obj(PlainOf(Base(vc, options), claims, options.selective)
                                        + ShownOf(HiddenOf(claims, options.selective), issued.disclosures, presented)))
  {
    var issued := IssuedOf(vc, options, signer);
    var claims := ClaimsOf(vc.subject);
    var plain, hidden := PlainOf(Base(vc, options), claims, options.selective), HiddenOf(claims, options.selective);
    FairSplits(vc, options);
    assert DistinctDigests(issued.disclosures, SHA, env) by {
      assert forall d :: d in issued.disclosures ==> d in issued.disclosures + presented;
    }
    if Processed(issued.payload, presented, env, rank).Success? {
      OnlyIssuedAccepted(plain, hidden, signer, env, presented, rank);
    }
    if forall d :: d in presented ==> d in issued.disclosures {
      PresentingIssued(plain, hidden, signer, env, presented, rank);
    }
  }

  // ----- The law is about something

  /** The first hidden claim of a name. */
  function Lookup(hidden: seq<Entry>, name: string): Option<Entry> {
    if hidden == [] then None
    else if hidden[0].0 == name then Some(hidden[0])
    else Lookup(hidden[1..], name)
  }

  lemma {:induction false} LookupFinds(hidden: seq<Entry>, i: nat)
    requires i < |hidden| && DistinctNames(hidden)
    ensures Lookup(hidden, hidden[i].0) == Some(hidden[i])
  {
    if i > 0 {
      LookupFinds(hidden[1..], i - 1);
    }
  }

  /** An encoding that writes a disclosure as the name of its claim. */
  function NameOf(v: Json): string {
    if v.Arr? && |v.elems| == 3 && v.elems[1].Str? then v.elems[1].s else ""
  }

  function ToySigner(): Signer {
    Signer(NameOf, (text: string) => text, (i: nat) => "", (ds: seq<string>) => ds)
  }

  /** A verifier that knows the hidden claims by their names. */
  function ToyEnv(hidden: seq<Entry>): Env {
    Env(
      (alg: string) => alg == SHA,
      (alg: string, text: string) => text,
      (text: string) =>
        match Lookup(hidden, text)
        case Some(claim) => Some(Arr([Str(""), Str(claim.0), claim.1]))
        case None => None,
      (v: Json) => if v.Str? then v.s else "")
  }

  lemma ToysMatch(hidden: seq<Entry>)
    requires DistinctNames(hidden)
    ensures Matched(ToySigner(), ToyEnv(hidden), hidden)
  {
    var signer := ToySigner();
    forall i: nat | i < |hidden|
      ensures ToyEnv(hidden).parse(DisclosuresOf(hidden, signer)[i]) == Some(PartsAt(hidden, i, signer))
    {
      LookupFinds(hidden, i);
      var parts := PartsAt(hidden, i, signer);
      assert parts.elems[1] == Str(hidden[i].0);
      assert DisclosuresOf(hidden, signer)[i] == NameOf(parts);
    }
  }

  lemma {:induction false} LookupIsHidden(hidden: seq<Entry>, name: string)
    ensures Lookup(hidden, name).Some? ==> Lookup(hidden, name).value in hidden
  {
    if hidden != [] {
      LookupIsHidden(hidden[1..], name);
    }
  }

  /** What the verifier reads is never marked, also from texts that nobody issued. */
  lemma {:induction false} ToyBookIsQuiet(hidden: seq<Entry>, presented: seq<string>)
    requires UnmarkedAll(hidden)
    ensures var book := BookOf(presented, SHA, ToyEnv(hidden)); book.Some? ==> Quiet(book.value)
  {
    if presented != [] {
      ToyBookIsQuiet(hidden, presented[..|presented| - 1]);
      LookupIsHidden(hidden, presented[|presented| - 1]);
    }
  }

  lemma ToysAreAcyclic(payload: map<string, Json>, hidden: seq<Entry>, presented: seq<string>, rank: string -> nat)
    requires UnmarkedAll(hidden) && Algorithm(payload) == Some(SHA)
    ensures AcyclicBook(payload, presented, ToyEnv(hidden), rank)
  {
    var book := BookOf(presented, SHA, ToyEnv(hidden));
    ToyBookIsQuiet(hidden, presented);
    if book.Some? {
      QuietIsSettled(book.value, rank);
    }
  }

  /** Every fair credential has an issuer and a verifier to which the law applies, for all presentations. */
  lemma LawApplies(vc: Credential, options: Options, presented: seq<string>, rank: string -> nat)
    returns (signer: Signer, env: Env)
    requires Fair(vc, options)
    ensures signer == ToySigner() && env == ToyEnv(HiddenOf(ClaimsOf(vc.subject), options.selective))
    ensures Matched(signer, env, HiddenOf(ClaimsOf(vc.subject), options.selective))
    ensures DistinctDigests(IssuedOf(vc, options, signer).disclosures + presented, SHA, env)
    ensures AcyclicBook(IssuedOf(vc, options, signer).payload, presented, env, rank)
  {
    var claims := ClaimsOf(vc.subject);
    var hidden := HiddenOf(claims, options.selective);
    signer, env := ToySigner(), ToyEnv(hidden);
    FairSplits(vc, options);
    ToysMatch(hidden);
    SealedAlgorithm(PlainOf(Base(vc, options), claims, options.selective),
                    DigestsOfAll(DisclosuresOf(hidden, signer), signer), signer);
    ToysAreAcyclic(IssuedOf(vc, options, signer).payload, hidden, presented, rank);
  }
}
