/**
 What SD-JWT disclosure processing means (packages/verification/src/sd-jwt-vc.ts).

 A payload asks for disclosures in two kinds of places: the `_sd` list of an object asks for claims, and a
 `{"...": digest}` item of an array asks for an element. `Fill` answers every place of a value from a book of
 disclosures, without looking inside the answers. The book itself asks for disclosures too, so the walk of the
 source amounts to filling from the settled book: the one book whose values are their own fillings.
 Digests come from a hash, so no disclosure asks for itself; a `rank` that falls from a disclosure to the ones it
 asks for is the witness that the walk ends.
 */
module SdJwt {
  import opened Wrappers
  import opened Json

  /** A decoded disclosure: `[salt, name, value]` for object claims, `[salt, value]` for array elements. */
  datatype Disclosure =
    | Claim(salt: string, name: string, value: Json)
    | Element(salt: string, value: Json)

  /** Disclosures by digest. */
  type Book = map<string, Disclosure>

  const SD := "_sd"
  const SD_ALG := "_sd_alg"
  const DOTS := "..."

  predicate IsReserved(key: string) {
    key == SD || key == SD_ALG
  }

  // ----- Places

  /** An array item that stands for a disclosable element. */
  predicate IsMarker(item: Json) {
    item.Obj? && item.members.Keys == {DOTS} && item.members[DOTS].Str?
  }

  function MarkerDigest(item: Json): string
    requires IsMarker(item)
  {
    item.members[DOTS].s
  }

  predicate AnswersItem(digest: string, book: Book) {
    digest in book && book[digest].Element?
  }

  predicate AnswersClaim(digest: string, book: Book) {
    digest in book && book[digest].Claim?
  }

  /** The strings among `elems`: nothing else can equal a digest. */
  function StringsOf(elems: seq<Json>): seq<string> {
    if elems == [] then []
    else (if elems[0].Str? then [elems[0].s] else []) + StringsOf(elems[1..])
  }

  /** What iterating over an `_sd` member yields; a string yields its characters and null counts as absent. */
  function DigestsOf(sd: Json): seq<string> {
    match sd
    case Arr(elems) => StringsOf(elems)
    case Str(s) => seq(|s|, i requires 0 <= i < |s| => [s[i]])
    case _ => []
  }

  /** Numbers, booleans and objects cannot be iterated over. */
  predicate NotIterable(sd: Json) {
    sd.Num? || sd.Bool? || sd.Obj?
  }

  function SdList(members: map<string, Json>): seq<string> {
    if SD in members then DigestsOf(members[SD]) else []
  }

  // ----- Filling the places of one value

  /** `v` with each place answered from `book`; unanswered places vanish. */
  function Fill(v: Json, book: Book): Json
    decreases v, 2
  {
    match v
    case Arr(elems) => Arr(FillItems(v, |elems|, book))
    case Obj(members) => Obj(Reveal(FillMembers(v, members.Keys, book), SdList(members), book))
    case _ => v
  }

  function FillItem(item: Json, book: Book): seq<Json>
    decreases item, 3
  {
    if IsMarker(item) then
      var d := MarkerDigest(item);
      if AnswersItem(d, book) then [book[d].value] else []
    else
      [Fill(item, book)]
  }

  function FillItems(v: Json, n: nat, book: Book): seq<Json>
    requires v.Arr? && n <= |v.elems|
    decreases v, 1, n
  {
    if n == 0 then [] else FillItems(v, n - 1, book) + FillItem(v.elems[n - 1], book)
  }

  function FillMembers(v: Json, keys: set<string>, book: Book): map<string, Json>
    requires v.Obj? && keys <= v.members.Keys
    decreases v, 1
  {
    map k | k in keys && !IsReserved(k) :: Fill(v.members[k], book)
  }

  /** The claims that `digests` ask for, each set in turn, so that the last of a name wins. */
  function Reveal(kept: map<string, Json>, digests: seq<string>, book: Book): map<string, Json> {
    if digests == [] then kept
    else
      var front, d := digests[..|digests| - 1], digests[|digests| - 1];
      var shown := Reveal(kept, front, book);
      if AnswersClaim(d, book) then shown[book[d].name := book[d].value] else shown
  }

  // ----- The disclosures one value asks for

  /** The digests of `book` that `v` asks for in a place of the matching kind. */
  function Asks(v: Json, book: Book): (s: set<string>)
    ensures s <= book.Keys
    decreases v, 2
  {
    match v
    case Arr(elems) => ItemsAsk(v, |elems|, book)
    case Obj(members) => MembersAsk(v, members.Keys, book) + ListAsks(SdList(members), book)
    case _ => {}
  }

  function ItemAsks(item: Json, book: Book): (s: set<string>)
    ensures s <= book.Keys
    decreases item, 3
  {
    if IsMarker(item) then
      if AnswersItem(MarkerDigest(item), book) then {MarkerDigest(item)} else {}
    else
      Asks(item, book)
  }

  function ItemsAsk(v: Json, n: nat, book: Book): (s: set<string>)
    requires v.Arr? && n <= |v.elems|
    ensures s <= book.Keys
    decreases v, 1, n
  {
    if n == 0 then {} else ItemsAsk(v, n - 1, book) + ItemAsks(v.elems[n - 1], book)
  }

  function MembersAsk(v: Json, keys: set<string>, book: Book): (s: set<string>)
    requires v.Obj? && keys <= v.members.Keys
    ensures s <= book.Keys
    decreases v, 1
  {
    set k, d | k in keys && !IsReserved(k) && d in Asks(v.members[k], book) :: d
  }

  function ListAsks(digests: seq<string>, book: Book): (s: set<string>)
    ensures s <= book.Keys
  {
    set d | d in digests && AnswersClaim(d, book)
  }

  /** Some object of `v` has an `_sd` member that cannot be iterated over. */
  predicate Broken(v: Json)
    decreases v, 2
  {
    match v
    case Arr(elems) => ItemsBroken(v, |elems|)
    case Obj(members) => MembersBroken(v, members.Keys) || (SD in members && NotIterable(members[SD]))
    case _ => false
  }

  predicate ItemsBroken(v: Json, n: nat)
    requires v.Arr? && n <= |v.elems|
    decreases v, 1, n
  {
    n > 0 && (ItemsBroken(v, n - 1) || (!IsMarker(v.elems[n - 1]) && Broken(v.elems[n - 1])))
  }

  predicate MembersBroken(v: Json, keys: set<string>)
    requires v.Obj? && keys <= v.members.Keys
    decreases v, 1
  {
    exists k :: k in keys && !IsReserved(k) && Broken(v.members[k])
  }

  // ----- The settled book

  /** A disclosure only asks for disclosures of lower rank. */
  ghost predicate Acyclic(book: Book, rank: string -> nat) {
    forall d, e :: d in book && e in Asks(book[d].value, book) ==> rank(e) < rank(d)
  }

  /** The disclosure with every place in its value answered, and every place in those answers, and so on. */
  ghost function Settle(d: string, book: Book, rank: string -> nat): (r: Disclosure)
    requires d in book && Acyclic(book, rank)
    decreases rank(d)
  {
    var asked := Asks(book[d].value, book);
    var answers := map e | e in asked :: Settle(e, book, rank);
    book[d].(value := Fill(book[d].value, answers))
  }

  ghost function Settled(book: Book, rank: string -> nat): (r: Book)
    requires Acyclic(book, rank)
    ensures r.Keys == book.Keys
  {
    map d | d in book :: Settle(d, book, rank)
  }

  /** Same digests, and for each the same kind and name. */
  ghost predicate SameShape(a: Book, b: Book) {
    && a.Keys == b.Keys
    && forall d :: d in a ==> (a[d].Claim? <==> b[d].Claim?) && (a[d].Claim? ==> a[d].name == b[d].name)
  }

  ghost predicate SolvesAt(d: string, settled: Book, book: Book)
    requires d in book && d in settled
  {
    settled[d] == book[d].(value := Fill(book[d].value, settled))
  }

  /** `settled` answers like `book`, with every value filled from `settled` itself. */
  ghost predicate Solves(settled: Book, book: Book) {
    && settled.Keys == book.Keys
    && forall d {:trigger SolvesAt(d, settled, book)} :: d in book ==> SolvesAt(d, settled, book)
  }

  // ----- The settled book is the one solution

  ghost predicate Within(small: Book, big: Book) {
    forall d :: d in small ==> d in big && small[d] == big[d]
  }

  lemma RevealAgrees(kept: map<string, Json>, digests: seq<string>, small: Book, big: Book)
    requires Within(small, big) && ListAsks(digests, big) <= small.Keys
    ensures Reveal(kept, digests, small) == Reveal(kept, digests, big)
  {
    if digests != [] {
      var front, d := digests[..|digests| - 1], digests[|digests| - 1];
      assert ListAsks(front, big) <= ListAsks(digests, big);
      RevealAgrees(kept, front, small, big);
      assert AnswersClaim(d, big) ==> d in ListAsks(digests, big);
    }
  }

  /** A member's digests are among those of the object. */
  lemma MemberAsksWithin(v: Json, keys: set<string>, k: string, book: Book)
    requires v.Obj? && keys <= v.members.Keys && k in keys && !IsReserved(k)
    ensures Asks(v.members[k], book) <= MembersAsk(v, keys, book)
  {
  }

  /** Filling looks at no more of the book than the digests asked for. */
  lemma {:induction false} FillAgrees(v: Json, small: Book, big: Book)
    requires Within(small, big) && Asks(v, big) <= small.Keys
    ensures Fill(v, small) == Fill(v, big)
    decreases v, 1
  {
    match v
    case Arr(elems) =>
      FillItemsAgree(v, |elems|, small, big);
    case Obj(members) =>
      forall k | k in members.Keys && !IsReserved(k) ensures Fill(members[k], small) == Fill(members[k], big) {
        MemberAsksWithin(v, members.Keys, k, big);
        FillAgrees(members[k], small, big);
      }
      assert FillMembers(v, members.Keys, small) == FillMembers(v, members.Keys, big);
      RevealAgrees(FillMembers(v, members.Keys, big), SdList(members), small, big);
    case _ =>
  }

  lemma {:induction false} FillItemsAgree(v: Json, n: nat, small: Book, big: Book)
    requires v.Arr? && n <= |v.elems|
    requires Within(small, big) && ItemsAsk(v, n, big) <= small.Keys
    ensures FillItems(v, n, small) == FillItems(v, n, big)
    decreases v, 0, n
  {
    if n > 0 {
      FillItemsAgree(v, n - 1, small, big);
      if !IsMarker(v.elems[n - 1]) {
        FillAgrees(v.elems[n - 1], small, big);
      }
    }
  }

  lemma ListAsksShape(digests: seq<string>, a: Book, b: Book)
    requires SameShape(a, b)
    ensures ListAsks(digests, a) == ListAsks(digests, b)
  {
  }

  /** What a value asks for does not depend on the answers. */
  lemma {:induction false} AsksShape(v: Json, a: Book, b: Book)
    requires SameShape(a, b)
    ensures Asks(v, a) == Asks(v, b)
    decreases v, 1
  {
    match v
    case Arr(elems) =>
      ItemsAskShape(v, |elems|, a, b);
    case Obj(members) =>
      forall k | k in members.Keys && !IsReserved(k) ensures Asks(members[k], a) == Asks(members[k], b) {
        AsksShape(members[k], a, b);
      }
      assert MembersAsk(v, members.Keys, a) == MembersAsk(v, members.Keys, b);
      ListAsksShape(SdList(members), a, b);
    case _ =>
  }

  lemma {:induction false} ItemsAskShape(v: Json, n: nat, a: Book, b: Book)
    requires v.Arr? && n <= |v.elems| && SameShape(a, b)
    ensures ItemsAsk(v, n, a) == ItemsAsk(v, n, b)
    decreases v, 0, n
  {
    if n > 0 {
      ItemsAskShape(v, n - 1, a, b);
      if !IsMarker(v.elems[n - 1]) {
        AsksShape(v.elems[n - 1], a, b);
      }
    }
  }

  lemma SettledShape(book: Book, rank: string -> nat)
    requires Acyclic(book, rank)
    ensures SameShape(Settled(book, rank), book)
  {
  }

  lemma SettleIsFill(d: string, book: Book, rank: string -> nat)
    requires d in book && Acyclic(book, rank)
    ensures Settle(d, book, rank) == book[d].(value := Fill(book[d].value, Settled(book, rank)))
  {
    var settled := Settled(book, rank);
    var asked := Asks(book[d].value, book);
    var answers := map e | e in asked :: Settle(e, book, rank);
    SettledShape(book, rank);
    AsksShape(book[d].value, settled, book);
    FillAgrees(book[d].value, answers, settled);
  }

  /** The settled book answers every place with a value whose own places are answered. */
  lemma SettledSolves(book: Book, rank: string -> nat)
    requires Acyclic(book, rank)
    ensures Solves(Settled(book, rank), book)
  {
    forall d | d in book ensures SolvesAt(d, Settled(book, rank), book) {
      SettleIsFill(d, book, rank);
    }
  }

  lemma SolvesShape(settled: Book, book: Book)
    requires Solves(settled, book)
    ensures SameShape(settled, book)
  {
    forall d | d in book
      ensures (settled[d].Claim? <==> book[d].Claim?) && (book[d].Claim? ==> settled[d].name == book[d].name)
    {
      assert SolvesAt(d, settled, book);
    }
  }

  lemma {:induction false} SolutionAt(d: string, settled: Book, book: Book, rank: string -> nat)
    requires Solves(settled, book) && Acyclic(book, rank) && d in book
    ensures settled[d] == Settle(d, book, rank)
    decreases rank(d)
  {
    var v := book[d].value;
    var asked := Asks(v, book);
    var answers := map e | e in asked :: Settle(e, book, rank);
    forall e | e in asked ensures settled[e] == Settle(e, book, rank) {
      SolutionAt(e, settled, book, rank);
    }
    assert SolvesAt(d, settled, book);
    SolvesShape(settled, book);
    AsksShape(v, settled, book);
    FillAgrees(v, answers, settled);
  }

  /** There is no other solution, so the rank is only a witness: it cannot influence the outcome. */
  lemma OneSolution(settled: Book, book: Book, rank: string -> nat)
    requires Acyclic(book, rank)
    ensures Solves(settled, book) <==> settled == Settled(book, rank)
  {
    SettledSolves(book, rank);
    if Solves(settled, book) {
      forall d | d in book ensures settled[d] == Settled(book, rank)[d] {
        SolutionAt(d, settled, book, rank);
      }
    }
  }
}
