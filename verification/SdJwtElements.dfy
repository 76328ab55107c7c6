/**
 Arrays with selectively disclosed elements.

 A payload carries arrays in which some items stand open and others are markers of disclosures `[salt, value]`.
 Presenting any of those disclosures shows each array with its open items and the values presented, in array order.
 */
module SdJwtElements {
  import opened Wrappers
  import opened Json
  import opened SdJwt
  import opened SdJwtProcess
  import opened SdJwtIssue
  import opened SdJwtRoundTrip

  /** An item of such an array: its value, and the disclosure that holds it if it is not open. */
  datatype Slot = Open(v: Json) | Sealed(disclosure: string, salt: Json, v: Json)

  /** Arrays by member name. */
  type Lists = map<string, seq<Slot>>

  function Marker(digest: string): Json {
    Obj(map["..." := Str(digest)])
  }

  function ItemOf(slot: Slot, alg: string, env: Env): Json {
    if slot.Open? then slot.v else Marker(env.hash(alg, slot.disclosure))
  }

  function ItemsOf(slots: seq<Slot>, alg: string, env: Env): (items: seq<Json>)
    ensures |items| == |slots|
  {
    seq(|slots|, i requires 0 <= i < |slots| => ItemOf(slots[i], alg, env))
  }

  /** The payload, which may name its algorithm. */
  function PayloadWith(plain: map<string, Json>, lists: Lists, alg: string, named: bool, env: Env): map<string, Json> {
    var members := plain + map k | k in lists :: Arr(ItemsOf(lists[k], alg, env));
    if named then members["_sd_alg" := Str(alg)] else members
  }

  predicate Appears(slot: Slot, presented: seq<string>) {
    slot.Open? || slot.disclosure in presented
  }

  /** The values of the items that are open or presented, in order. */
  function ShownItems(slots: seq<Slot>, presented: seq<string>): seq<Json> {
    if slots == [] then []
    else
      var front, last := slots[..|slots| - 1], slots[|slots| - 1];
      ShownItems(front, presented) + if Appears(last, presented) then [last.v] else []
  }

  function ShownLists(lists: Lists, presented: seq<string>): map<string, Json> {
    map k | k in lists :: Arr(ShownItems(lists[k], presented))
  }

  /** The value is unmarked, and the verifier reads the disclosure as salt and value. */
  ghost predicate FairSlot(slot: Slot, env: Env) {
    && Unmarked(slot.v)
    && (slot.Open? ==> !IsMarker(slot.v))
    && (slot.Sealed? ==> env.parse(slot.disclosure) == Some(Arr([slot.salt, slot.v])))
  }

  ghost predicate FairLists(lists: Lists, env: Env) {
    forall k :: k in lists ==> !IsReserved(k) && forall i :: 0 <= i < |lists[k]| ==> FairSlot(lists[k][i], env)
  }

  /** `disclosure` belongs to item `i` of the array `k`. */
  predicate SealedAt(disclosure: string, k: string, i: nat, lists: Lists) {
    k in lists && i < |lists[k]| && lists[k][i].Sealed? && lists[k][i].disclosure == disclosure
  }

  ghost predicate IsSealed(disclosure: string, lists: Lists) {
    exists k, i: nat :: SealedAt(disclosure, k, i, lists)
  }

  ghost predicate DistinctSealed(lists: Lists, alg: string, env: Env) {
    forall a, b :: IsSealed(a, lists) && IsSealed(b, lists) && env.hash(alg, a) == env.hash(alg, b) ==> a == b
  }

  /** The hypotheses of the law. */
  ghost predicate Offered(plain: map<string, Json>, lists: Lists, alg: string, named: bool, env: Env, presented: seq<string>) {
    && UnmarkedMap(plain) && plain.Keys !! lists.Keys && FairLists(lists, env)
    && env.known(alg) && (named || alg == "sha-256")
    && DistinctSealed(lists, alg, env)
    && forall d :: d in presented ==> IsSealed(d, lists)
  }

  // ----- The book

  lemma MarkerIs(digest: string)
    ensures IsMarker(Marker(digest)) && MarkerDigest(Marker(digest)) == digest
  {
  }

  lemma DecodedElement(slot: Slot, env: Env)
    requires slot.Sealed? && FairSlot(slot, env)
    ensures var d := DecodeDisclosure(slot.disclosure, env); d.Some? && d.value.Element? && d.value.value == slot.v
  {
  }

  ghost predicate HoldsElements(book: Book, lists: Lists, alg: string, env: Env, presented: seq<string>) {
    && (forall k, i: nat :: k in lists && i < |lists[k]| && lists[k][i].Sealed? ==>
          AnswersRight(lists[k][i], book, alg, env, presented))
    && (forall h :: h in book ==> exists k, i: nat :: AnswersAt(h, k, i, lists, book, alg, env))
  }

  /** A presented disclosure answers with its value; one that is not presented has no answer. */
  predicate AnswersRight(slot: Slot, book: Book, alg: string, env: Env, presented: seq<string>)
    requires slot.Sealed?
  {
    var h := env.hash(alg, slot.disclosure);
    if slot.disclosure in presented then h in book && book[h].Element? && book[h].value == slot.v else h !in book
  }

  predicate AnswersAt(h: string, k: string, i: nat, lists: Lists, book: Book, alg: string, env: Env)
    requires h in book
  {
    && k in lists && i < |lists[k]| && lists[k][i].Sealed? && h == env.hash(alg, lists[k][i].disclosure)
    && book[h].Element? && book[h].value == lists[k][i].v
  }

  lemma OneSlotAnswers(k: string, i: nat, lists: Lists, book: Book, alg: string, env: Env, presented: seq<string>)
    requires FairLists(lists, env) && DistinctSealed(lists, alg, env) && Holds(book, presented, alg, env)
    requires forall d :: d in presented ==> IsSealed(d, lists)
    requires k in lists && i < |lists[k]| && lists[k][i].Sealed?
    ensures AnswersRight(lists[k][i], book, alg, env, presented)
  {
    var slot := lists[k][i];
    var h := env.hash(alg, slot.disclosure);
    assert SealedAt(slot.disclosure, k, i, lists);
    DecodedElement(slot, env);
    if h in book {
      var d :| d in presented && env.hash(alg, d) == h;
    }
  }

  lemma OneEntryAnswers(h: string, lists: Lists, book: Book, alg: string, env: Env, presented: seq<string>)
    requires FairLists(lists, env) && Holds(book, presented, alg, env) && h in book
    requires forall d :: d in presented ==> IsSealed(d, lists)
    ensures exists k, i: nat :: AnswersAt(h, k, i, lists, book, alg, env)
  {
    var d :| d in presented && env.hash(alg, d) == h;
    var k, i: nat :| SealedAt(d, k, i, lists);
    DecodedElement(lists[k][i], env);
    assert AnswersAt(h, k, i, lists, book, alg, env);
  }

  lemma BookHoldsElements(lists: Lists, book: Book, alg: string, env: Env, presented: seq<string>)
    requires FairLists(lists, env) && DistinctSealed(lists, alg, env) && Holds(book, presented, alg, env)
    requires forall d :: d in presented ==> IsSealed(d, lists)
    ensures HoldsElements(book, lists, alg, env, presented) && Quiet(book)
  {
    forall k, i: nat | k in lists && i < |lists[k]| && lists[k][i].Sealed?
      ensures AnswersRight(lists[k][i], book, alg, env, presented)
    {
      OneSlotAnswers(k, i, lists, book, alg, env, presented);
    }
    forall h | h in book ensures (exists k, i: nat :: AnswersAt(h, k, i, lists, book, alg, env)) && Unmarked(book[h].value) {
      OneEntryAnswers(h, lists, book, alg, env, presented);
      var k, i: nat :| AnswersAt(h, k, i, lists, book, alg, env);
      assert FairSlot(lists[k][i], env);
    }
  }

  // ----- One array

  ghost predicate FairSlots(slots: seq<Slot>, book: Book, alg: string, env: Env, presented: seq<string>) {
    forall i :: 0 <= i < |slots| ==>
      FairSlot(slots[i], env) && (slots[i].Sealed? ==> AnswersRight(slots[i], book, alg, env, presented))
  }

  lemma FillSlot(slot: Slot, book: Book, alg: string, env: Env, presented: seq<string>)
    requires FairSlot(slot, env) && (slot.Sealed? ==> AnswersRight(slot, book, alg, env, presented))
    ensures FillItem(ItemOf(slot, alg, env), book) == if Appears(slot, presented) then [slot.v] else []
    ensures slot.Sealed? && slot.disclosure in presented ==>
              env.hash(alg, slot.disclosure) in ItemAsks(ItemOf(slot, alg, env), book)
    ensures IsMarker(ItemOf(slot, alg, env)) || !Broken(ItemOf(slot, alg, env))
  {
    if slot.Open? {
      UnmarkedStays(slot.v, book);
    } else {
      MarkerIs(env.hash(alg, slot.disclosure));
    }
  }

  lemma {:induction false} FillSlots(slots: seq<Slot>, v: Json, n: nat, book: Book, alg: string, env: Env, presented: seq<string>)
    requires n <= |slots| && v == Arr(ItemsOf(slots, alg, env)) && FairSlots(slots, book, alg, env, presented)
    ensures FillItems(v, n, book) == ShownItems(slots[..n], presented)
    ensures forall i :: 0 <= i < n && slots[i].Sealed? && slots[i].disclosure in presented ==>
              env.hash(alg, slots[i].disclosure) in ItemsAsk(v, n, book)
    ensures !ItemsBroken(v, n)
  {
    if n > 0 {
      FillSlots(slots, v, n - 1, book, alg, env, presented);
      FillSlot(slots[n - 1], book, alg, env, presented);
      assert slots[..n][..n - 1] == slots[..n - 1];
    }
  }

  lemma FillArray(slots: seq<Slot>, book: Book, alg: string, env: Env, presented: seq<string>)
    requires FairSlots(slots, book, alg, env, presented)
    ensures var v := Arr(ItemsOf(slots, alg, env));
      && Fill(v, book) == Arr(ShownItems(slots, presented)) && !Broken(v)
      && forall i :: 0 <= i < |slots| && slots[i].Sealed? && slots[i].disclosure in presented ==>
           env.hash(alg, slots[i].disclosure) in Asks(v, book)
  {
    FillSlots(slots, Arr(ItemsOf(slots, alg, env)), |slots|, book, alg, env, presented);
    assert slots[..|slots|] == slots;
  }

  // ----- The payload

  lemma ListsAreFair(lists: Lists, k: string, book: Book, alg: string, env: Env, presented: seq<string>)
    requires FairLists(lists, env) && HoldsElements(book, lists, alg, env, presented) && k in lists
    ensures FairSlots(lists[k], book, alg, env, presented)
  {
  }

  /** Which members the payload has. */
  lemma PayloadMembers(plain: map<string, Json>, lists: Lists, alg: string, named: bool, env: Env)
    requires UnmarkedMap(plain) && plain.Keys !! lists.Keys && forall k :: k in lists ==> !IsReserved(k)
    ensures var members := PayloadWith(plain, lists, alg, named, env);
      && SD !in members
      && (forall k :: k in members && !IsReserved(k) <==> k in plain || k in lists)
      && (forall k :: k in plain ==> members[k] == plain[k])
      && (forall k :: k in lists ==> members[k] == Arr(ItemsOf(lists[k], alg, env)))
  {
  }

  lemma FillMember(k: string, v: Json, plain: map<string, Json>, lists: Lists, alg: string, env: Env,
                   presented: seq<string>, book: Book)
    requires UnmarkedMap(plain) && plain.Keys !! lists.Keys && FairLists(lists, env)
    requires HoldsElements(book, lists, alg, env, presented)
    requires k in plain || k in lists
    requires v == if k in lists then Arr(ItemsOf(lists[k], alg, env)) else plain[k]
    ensures Fill(v, book) == (plain + ShownLists(lists, presented))[k] && !Broken(v)
  {
    if k in lists {
      ListsAreFair(lists, k, book, alg, env, presented);
      FillArray(lists[k], book, alg, env, presented);
    } else {
      UnmarkedStays(plain[k], book);
    }
  }

  /** An object without a digest list is filled member by member. */
  lemma FillWithoutList(v: Json, expected: map<string, Json>, book: Book)
    requires v.Obj? && SD !in v.members
    requires forall k :: k in v.members && !IsReserved(k) <==> k in expected
    requires forall k :: k in expected ==> Fill(v.members[k], book) == expected[k] && !Broken(v.members[k])
    ensures Fill(v, book) == Obj(expected) && !Broken(v)
  {
    assert FillMembers(v, v.members.Keys, book) == expected;
  }

  lemma FillPayload(plain: map<string, Json>, lists: Lists, alg: string, named: bool, env: Env, presented: seq<string>, book: Book)
    requires UnmarkedMap(plain) && plain.Keys !! lists.Keys && FairLists(lists, env)
    requires HoldsElements(book, lists, alg, env, presented)
    ensures var v := Obj(PayloadWith(plain, lists, alg, named, env));
      Fill(v, book) == Obj(plain + ShownLists(lists, presented)) && !Broken(v)
  {
    var v, expected := Obj(PayloadWith(plain, lists, alg, named, env)), plain + ShownLists(lists, presented);
    PayloadMembers(plain, lists, alg, named, env);
    forall k | k in expected ensures Fill(v.members[k], book) == expected[k] && !Broken(v.members[k]) {
      FillMember(k, v.members[k], plain, lists, alg, env, presented, book);
    }
    FillWithoutList(v, expected, book);
  }

  lemma SlotIsAsked(h: string, k: string, i: nat, lists: Lists, book: Book, alg: string, env: Env, presented: seq<string>)
    requires FairLists(lists, env) && HoldsElements(book, lists, alg, env, presented)
    requires h in book && AnswersAt(h, k, i, lists, book, alg, env)
    ensures h in Asks(Arr(ItemsOf(lists[k], alg, env)), book)
  {
    ListsAreFair(lists, k, book, alg, env, presented);
    FillArray(lists[k], book, alg, env, presented);
    assert AnswersRight(lists[k][i], book, alg, env, presented);
  }

  lemma MemberIsAsked(h: string, v: Json, k: string, member: Json, book: Book)
    requires v.Obj? && k in v.members && !IsReserved(k) && v.members[k] == member && h in Asks(member, book)
    ensures h in Asks(v, book)
  {
    MemberAsksWithin(v, v.members.Keys, k, book);
  }

  lemma EntryIsAsked(h: string, plain: map<string, Json>, lists: Lists, alg: string, named: bool, env: Env,
                     presented: seq<string>, book: Book)
    requires UnmarkedMap(plain) && plain.Keys !! lists.Keys && FairLists(lists, env)
    requires HoldsElements(book, lists, alg, env, presented) && h in book
    ensures h in Asks(Obj(PayloadWith(plain, lists, alg, named, env)), book)
  {
    var k, i: nat :| AnswersAt(h, k, i, lists, book, alg, env);
    SlotIsAsked(h, k, i, lists, book, alg, env, presented);
    PayloadMembers(plain, lists, alg, named, env);
    MemberIsAsked(h, Obj(PayloadWith(plain, lists, alg, named, env)), k, Arr(ItemsOf(lists[k], alg, env)), book);
  }

  lemma ElementsAccepted(plain: map<string, Json>, lists: Lists, alg: string, named: bool, env: Env,
                         presented: seq<string>, book: Book, rank: string -> nat)
    requires UnmarkedMap(plain) && plain.Keys !! lists.Keys && FairLists(lists, env)
    requires HoldsElements(book, lists, alg, env, presented) && Quiet(book) && Acyclic(book, rank)
    ensures Outcome(Obj(PayloadWith(plain, lists, alg, named, env)), book, rank)
         == Success(Obj(plain + ShownLists(lists, presented)))
  {
    var payload := Obj(PayloadWith(plain, lists, alg, named, env));
    FillPayload(plain, lists, alg, named, env, presented, book);
    forall h | h in book ensures h in Asks(payload, book) {
      EntryIsAsked(h, plain, lists, alg, named, env, presented, book);
    }
    QuietOutcome(payload, book, rank);
  }

  lemma AlgorithmOf(plain: map<string, Json>, lists: Lists, alg: string, named: bool, env: Env, presented: seq<string>)
    requires Offered(plain, lists, alg, named, env, presented)
    ensures Algorithm(PayloadWith(plain, lists, alg, named, env)) == Some(alg)
  {
  }

  /**
   The element law: whatever part of the disclosures is presented, in any order, processing succeeds, and every array shows its
   open items and the values presented, in array order.
   */
  lemma PresentingElements(plain: map<string, Json>, lists: Lists, alg: string, named: bool, env: Env,
                           presented: seq<string>, rank: string -> nat)
    requires Offered(plain, lists, alg, named, env, presented)
    ensures AcyclicBook(PayloadWith(plain, lists, alg, named, env), presented, env, rank)
    ensures Processed(PayloadWith(plain, lists, alg, named, env), presented, env, rank)
         == Success(Obj(plain + ShownLists(lists, presented)))
  {
    AlgorithmOf(plain, lists, alg, named, env, presented);
    forall d | d in presented ensures DecodeDisclosure(d, env).Some? {
      var k, i: nat :| SealedAt(d, k, i, lists);
      DecodedElement(lists[k][i], env);
    }
    BookHolds(presented, alg, env);
    var book := BookOf(presented, alg, env).value;
    BookHoldsElements(lists, book, alg, env, presented);
    QuietIsSettled(book, rank);
    ElementsAccepted(plain, lists, alg, named, env, presented, book, rank);
  }
}
