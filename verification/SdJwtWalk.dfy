/**
 The walk of packages/verification/src/sd-jwt-vc.ts as it runs: nested loops that build the output and add to a set
 of used digests, and the loop that builds the digest map. It computes what module SdJwtProcess defines.
 */
module SdJwtWalk {
  import opened Wrappers
  import opened Json
  import opened SdJwt
  import opened SdJwtProcess

  /** The tables that the walk works out: what each disclosure needs, and what it finally says. */
  datatype Tables = Tables(needs: map<string, set<string>>, settled: Book)

  ghost predicate Fits(t: Tables, book: Book) {
    Closes(t.needs, book) && Solves(t.settled, book)
  }

  /** Every digest asked for ranks below `below`. */
  ghost predicate Rising(asked: set<string>, rank: string -> nat, below: nat) {
    forall d :: d in asked ==> rank(d) < below
  }

  ghost predicate WalksThrough(broken: bool, asked: set<string>, book: Book, needs: map<string, set<string>>)
    requires asked <= needs.Keys
  {
    !broken && AllSound(Union(asked, needs), book)
  }

  /** A walk over a part that asks for `asked` finishes when it can, and then has added exactly what it uses. */
  ghost predicate Accounted(done: bool, broken: bool, asked: set<string>, before: set<string>, after: set<string>,
                            book: Book, needs: map<string, set<string>>)
    requires asked <= needs.Keys
  {
    && (done <==> WalksThrough(broken, asked, book, needs))
    && (done ==> after == before + Union(asked, needs))
  }

  lemma NothingAsked(before: set<string>, book: Book, needs: map<string, set<string>>)
    ensures Accounted(true, false, {}, before, before, book, needs)
  {
    assert Union({}, needs) == {};
  }

  lemma OneAfterTheOther(done: bool, b1: bool, a1: set<string>, b2: bool, a2: set<string>,
                         u0: set<string>, u1: set<string>, u2: set<string>, book: Book, needs: map<string, set<string>>)
    requires a1 <= needs.Keys && a2 <= needs.Keys
    requires Accounted(true, b1, a1, u0, u1, book, needs) && Accounted(done, b2, a2, u1, u2, book, needs)
    ensures Accounted(done, b1 || b2, a1 + a2, u0, u2, book, needs)
  {
    UnionBoth(a1, a2, needs);
  }

  /** What stops a part of a walk stops the whole. */
  lemma StopsTheWhole(b1: bool, a1: set<string>, b2: bool, a2: set<string>, book: Book, needs: map<string, set<string>>)
    requires a1 <= a2 <= needs.Keys && (b1 ==> b2)
    requires !WalksThrough(b1, a1, book, needs)
    ensures !WalksThrough(b2, a2, book, needs)
  {
    UnionBoth(a1, a2, needs);
    assert a1 + a2 == a2;
  }

  lemma {:induction false} FewerItems(v: Json, n: nat, m: nat, book: Book)
    requires v.Arr? && n <= m <= |v.elems|
    ensures ItemsAsk(v, n, book) <= ItemsAsk(v, m, book)
    ensures ItemsBroken(v, n) ==> ItemsBroken(v, m)
    decreases m
  {
    if n < m {
      FewerItems(v, n, m - 1, book);
    }
  }

  lemma ItemWithin(v: Json, i: nat, book: Book)
    requires v.Arr? && i < |v.elems|
    ensures ItemAsks(v.elems[i], book) <= Asks(v, book)
  {
    FewerItems(v, i + 1, |v.elems|, book);
  }

  lemma AllSoundWith(d: string, s: set<string>, book: Book)
    requires d in book
    ensures AllSound({d} + s, book) <==> !Broken(book[d].value) && AllSound(s, book)
  {
  }

  lemma AnsweredAccount(d: string, done: bool, before: set<string>, after: set<string>, book: Book,
                        needs: map<string, set<string>>)
    requires Closes(needs, book) && d in book
    requires Accounted(done, Broken(book[d].value), Asks(book[d].value, book), before + {d}, after, book, needs)
    ensures Accounted(done, false, {d}, before, after, book, needs)
  {
    var more := Union(Asks(book[d].value, book), needs);
    UnionOne(d, needs);
    assert NeedsAt(d, needs, book);
    AllSoundWith(d, more, book);
    assert before + {d} + more == before + ({d} + more);
  }

  lemma MembersSplit(v: Json, done: set<string>, k: string, book: Book)
    requires v.Obj? && done <= v.members.Keys && k in v.members
    ensures MembersAsk(v, done + {k}, book)
         == MembersAsk(v, done, book) + (if IsReserved(k) then {} else Asks(v.members[k], book))
    ensures MembersBroken(v, done + {k})
       <==> MembersBroken(v, done) || (!IsReserved(k) && Broken(v.members[k]))
    ensures FillMembers(v, done + {k}, book)
         == if IsReserved(k) then FillMembers(v, done, book)
            else FillMembers(v, done, book)[k := Fill(v.members[k], book)]
  {
  }

  lemma MembersWithin(v: Json, keys: set<string>, book: Book)
    requires v.Obj? && keys <= v.members.Keys
    ensures MembersAsk(v, keys, book) <= MembersAsk(v, v.members.Keys, book)
    ensures MembersBroken(v, keys) ==> MembersBroken(v, v.members.Keys)
  {
  }

  lemma PrefixGrows<T>(s: seq<T>, i: nat)
    requires i < |s|
    ensures s[..i + 1] == s[..i] + [s[i]]
    ensures s[..i + 1][..i] == s[..i]
  {
  }

  lemma ListAsksNext(digests: seq<string>, i: nat, book: Book)
    requires i < |digests|
    ensures ListAsks(digests[..i + 1], book)
         == ListAsks(digests[..i], book) + (if AnswersClaim(digests[i], book) then {digests[i]} else {})
  {
    PrefixGrows(digests, i);
  }

  /** A digest that asks for nothing changes nothing. */
  lemma ListSkips(kept: map<string, Json>, digests: seq<string>, i: nat, book: Book, settled: Book)
    requires Solves(settled, book) && i < |digests| && !AnswersClaim(digests[i], book)
    ensures ListAsks(digests[..i + 1], book) == ListAsks(digests[..i], book)
    ensures Reveal(kept, digests[..i + 1], settled) == Reveal(kept, digests[..i], settled)
  {
    ListAsksNext(digests, i, book);
    PrefixGrows(digests, i);
    SettledAnswers(digests[i], book, settled);
  }

  /** A digest that asks for a claim sets it. */
  lemma ListTakes(kept: map<string, Json>, digests: seq<string>, i: nat, book: Book, settled: Book)
    requires Solves(settled, book) && i < |digests| && AnswersClaim(digests[i], book)
    ensures ListAsks(digests[..i + 1], book) == ListAsks(digests[..i], book) + {digests[i]}
    ensures Reveal(kept, digests[..i + 1], settled)
         == Reveal(kept, digests[..i], settled)[book[digests[i]].name := settled[digests[i]].value]
  {
    ListAsksNext(digests, i, book);
    PrefixGrows(digests, i);
    SettledAnswers(digests[i], book, settled);
  }

  lemma ListWithin(digests: seq<string>, i: nat, book: Book)
    requires i <= |digests|
    ensures ListAsks(digests[..i], book) <= ListAsks(digests, book)
  {
  }

  lemma SettledAnswers(d: string, book: Book, settled: Book)
    requires Solves(settled, book)
    ensures AnswersClaim(d, settled) <==> AnswersClaim(d, book)
    ensures AnswersItem(d, settled) <==> AnswersItem(d, book)
    ensures AnswersClaim(d, book) ==> settled[d].name == book[d].name
    ensures d in book ==> settled[d].value == Fill(book[d].value, settled)
  {
    SolvesShape(settled, book);
    assert d in book ==> SolvesAt(d, settled, book);
  }

  class Walker {
    const book: Book
    ghost const tables: Tables
    ghost const rank: string -> nat
    var used: set<string>

    ghost predicate Valid() {
      Fits(tables, book) && Acyclic(book, rank)
    }

    constructor (book: Book, ghost tables: Tables, ghost rank: string -> nat)
      requires Fits(tables, book) && Acyclic(book, rank)
      ensures this.book == book && this.tables == tables && this.rank == rank && Valid()
      ensures used == {}
    {
      this.book := book;
      this.tables := tables;
      this.rank := rank;
      used := {};
    }

    /** The recursive walk: `None` stands for the exception of iterating over something that is not iterable. */
    method Walk(v: Json, ghost below: nat) returns (r: Option<Json>)
      requires Valid() && Rising(Asks(v, book), rank, below)
      modifies this`used
      ensures Accounted(r.Some?, Broken(v), Asks(v, book), old(used), used, book, tables.needs)
      ensures r.Some? ==> r.value == Fill(v, tables.settled)
      decreases below, v, 4
    {
      match v
      case Arr(elems) =>
        var items := WalkItems(v, below);
        return match items case Some(next) => Some(Arr(next)) case None => None;
      case Obj(members) =>
        var out := WalkMembers(v, below);
        if out == None {
          StopsTheWhole(MembersBroken(v, members.Keys), MembersAsk(v, members.Keys, book), Broken(v), Asks(v, book), book, tables.needs);
          return None;
        }
        ghost var between := used;
        var shown := WalkList(v, out.value, below);
        OneAfterTheOther(shown.Some?, MembersBroken(v, members.Keys), MembersAsk(v, members.Keys, book),
                         SD in members && NotIterable(members[SD]), ListAsks(SdList(members), book),
                         old(used), between, used, book, tables.needs);
        return match shown case Some(all) => Some(Obj(all)) case None => None;
      case _ =>
        NothingAsked(used, book, tables.needs);
        return Some(v);
    }

    /** Marks a disclosure as used and walks its value. */
    method Answer(d: string, ghost below: nat) returns (r: Option<Json>)
      requires Valid() && d in book && rank(d) < below
      modifies this`used
      ensures Accounted(r.Some?, false, {d}, old(used), used, book, tables.needs)
      ensures r.Some? ==> r.value == tables.settled[d].value
      decreases rank(d), book[d].value, 6
    {
      used := used + {d};
      r := Walk(book[d].value, rank(d));
      AnsweredAccount(d, r.Some?, old(used), used, book, tables.needs);
      SettledAnswers(d, book, tables.settled);
    }

    method WalkItem(item: Json, ghost below: nat) returns (r: Option<seq<Json>>)
      requires Valid() && Rising(ItemAsks(item, book), rank, below)
      modifies this`used
      ensures Accounted(r.Some?, !IsMarker(item) && Broken(item), ItemAsks(item, book), old(used), used, book, tables.needs)
      ensures r.Some? ==> r.value == FillItem(item, tables.settled)
      decreases below, item, 5
    {
      var walked: Option<Json>;
      if IsMarker(item) {
        var d := MarkerDigest(item);
        SettledAnswers(d, book, tables.settled);
        if !(d in book && book[d].Element?) {
          NothingAsked(used, book, tables.needs);
          return Some([]);
        }
        walked := Answer(d, below);
      } else {
        walked := Walk(item, below);
      }
      return match walked case Some(w) => Some([w]) case None => None;
    }

    method WalkItems(v: Json, ghost below: nat) returns (r: Option<seq<Json>>)
      requires v.Arr? && Valid() && Rising(Asks(v, book), rank, below)
      modifies this`used
      ensures Accounted(r.Some?, Broken(v), Asks(v, book), old(used), used, book, tables.needs)
      ensures r.Some? ==> r.value == FillItems(v, |v.elems|, tables.settled)
      decreases below, v, 3
    {
      var next := [];
      var i := 0;
      NothingAsked(used, book, tables.needs);
      while i < |v.elems|
        invariant 0 <= i <= |v.elems|
        invariant next == FillItems(v, i, tables.settled)
        invariant Accounted(true, ItemsBroken(v, i), ItemsAsk(v, i, book), old(used), used, book, tables.needs)
      {
        ItemWithin(v, i, book);
        ghost var between := used;
        var item := WalkItem(v.elems[i], below);
        OneAfterTheOther(item.Some?, ItemsBroken(v, i), ItemsAsk(v, i, book),
                         !IsMarker(v.elems[i]) && Broken(v.elems[i]), ItemAsks(v.elems[i], book),
                         old(used), between, used, book, tables.needs);
        if item == None {
          FewerItems(v, i + 1, |v.elems|, book);
          StopsTheWhole(ItemsBroken(v, i + 1), ItemsAsk(v, i + 1, book), Broken(v), Asks(v, book), book, tables.needs);
          return None;
        }
        next := next + item.value;
        i := i + 1;
      }
      return Some(next);
    }

    /** The members in whatever order they come, without the reserved ones. */
    method WalkMembers(v: Json, ghost below: nat) returns (r: Option<map<string, Json>>)
      requires v.Obj? && Valid() && Rising(Asks(v, book), rank, below)
      modifies this`used
      ensures Accounted(r.Some?, MembersBroken(v, v.members.Keys), MembersAsk(v, v.members.Keys, book), old(used), used, book, tables.needs)
      ensures r.Some? ==> r.value == FillMembers(v, v.members.Keys, tables.settled)
      decreases below, v, 3
    {
      var out := map[];
      var rest := v.members.Keys;
      ghost var done := {};
      NothingAsked(used, book, tables.needs);
      while rest != {}
        invariant rest + done == v.members.Keys && rest !! done
        invariant out == FillMembers(v, done, tables.settled)
        invariant Accounted(true, MembersBroken(v, done), MembersAsk(v, done, book), old(used), used, book, tables.needs)
        decreases rest
      {
        var k :| k in rest;
        rest := rest - {k};
        MembersSplit(v, done, k, book);
        MembersSplit(v, done, k, tables.settled);
        if !IsReserved(k) {
          MemberAsksWithin(v, v.members.Keys, k, book);
          ghost var between := used;
          var member := Walk(v.members[k], below);
          OneAfterTheOther(member.Some?, MembersBroken(v, done), MembersAsk(v, done, book),
                           Broken(v.members[k]), Asks(v.members[k], book), old(used), between, used, book, tables.needs);
          if member == None {
            MembersWithin(v, done + {k}, book);
            StopsTheWhole(MembersBroken(v, done + {k}), MembersAsk(v, done + {k}, book),
                          MembersBroken(v, v.members.Keys), MembersAsk(v, v.members.Keys, book), book, tables.needs);
            return None;
          }
          out := out[k := member.value];
        }
        done := done + {k};
      }
      assert done == v.members.Keys;
      return Some(out);
    }

    /** The claims of the `_sd` list, in its order. */
    method WalkList(v: Json, kept: map<string, Json>, ghost below: nat)
      returns (r: Option<map<string, Json>>)
      requires v.Obj? && Valid() && Rising(ListAsks(SdList(v.members), book), rank, below)
      modifies this`used
      ensures Accounted(r.Some?, SD in v.members && NotIterable(v.members[SD]), ListAsks(SdList(v.members), book),
                        old(used), used, book, tables.needs)
      ensures r.Some? ==> r.value == Reveal(kept, SdList(v.members), tables.settled)
      decreases below, v, 3
    {
      if SD in v.members && NotIterable(v.members[SD]) {
        return None;
      }
      var digests := SdList(v.members);
      var out := kept;
      var i := 0;
      NothingAsked(used, book, tables.needs);
      while i < |digests|
        invariant 0 <= i <= |digests|
        invariant out == Reveal(kept, digests[..i], tables.settled)
        invariant Accounted(true, false, ListAsks(digests[..i], book), old(used), used, book, tables.needs)
      {
        var d := digests[i];
        if !(d in book && book[d].Claim?) {
          ListSkips(kept, digests, i, book, tables.settled);
        } else {
          ghost var between := used;
          var value := Answer(d, below);
          ListTakes(kept, digests, i, book, tables.settled);
          OneAfterTheOther(value.Some?, false, ListAsks(digests[..i], book), false, {d}, old(used), between, used, book, tables.needs);
          if value == None {
            ListWithin(digests, i + 1, book);
            StopsTheWhole(false, ListAsks(digests[..i + 1], book), false, ListAsks(digests, book), book, tables.needs);
            return None;
          }
          out := out[book[d].name := value.value];
        }
        i := i + 1;
      }
      assert digests[..|digests|] == digests;
      return Some(out);
    }
  }

  /** Builds the digest map, later entries replacing earlier ones; `None` when a disclosure does not decode. */
  method BuildBook(disclosures: seq<string>, alg: string, env: Env) returns (r: Option<Book>)
    ensures r == BookOf(disclosures, alg, env)
  {
    var book: Book := map[];
    var i := 0;
    while i < |disclosures|
      invariant 0 <= i <= |disclosures|
      invariant BookOf(disclosures[..i], alg, env) == Some(book)
    {
      var d := DecodeDisclosure(disclosures[i], env);
      assert disclosures[..i + 1][..i] == disclosures[..i];
      if d == None {
        StaysUndecoded(disclosures, i + 1, alg, env);
        return None;
      }
      book := book[env.hash(alg, disclosures[i]) := d.value];
      i := i + 1;
    }
    assert disclosures[..|disclosures|] == disclosures;
    return Some(book);
  }

  lemma {:induction false} StaysUndecoded(disclosures: seq<string>, n: nat, alg: string, env: Env)
    requires n <= |disclosures| && BookOf(disclosures[..n], alg, env) == None
    ensures BookOf(disclosures, alg, env) == None
    decreases |disclosures|
  {
    if n == |disclosures| {
      assert disclosures[..n] == disclosures;
    } else {
      var front := disclosures[..|disclosures| - 1];
      assert front[..n] == disclosures[..n];
      StaysUndecoded(front, n, alg, env);
    }
  }

  method ProcessDisclosures(payload: map<string, Json>, disclosures: seq<string>, env: Env, ghost rank: string -> nat)
    returns (r: Result<Json, Problem>)
    requires AcyclicBook(payload, disclosures, env, rank)
    ensures r == Processed(payload, disclosures, env, rank)
  {
    var book: Book := map[];
    if disclosures != [] {
      var alg := Algorithm(payload);
      if alg == None || !env.known(alg.value) {
        return Failure(BadAlgorithm);
      }
      var built := BuildBook(disclosures, alg.value, env);
      if built == None {
        return Failure(BadDisclosure);
      }
      book := built.value;
    }
    r := ProcessBook(Obj(payload), book, rank);
  }

  /** The account of a whole walk, for the answer `filled` and the count `used`, is the outcome. */
  lemma AccountGivesOutcome(payload: Json, book: Book, t: Tables, done: bool, used: set<string>, filled: Json)
    requires Fits(t, book) && Accounted(done, Broken(payload), Asks(payload, book), {}, used, book, t.needs)
    requires done ==> filled == Fill(payload, t.settled)
    ensures Verdict(done, |used|, |book.Keys|, filled) == OutcomeFrom(payload, book, t.needs, t.settled)
  {
    var uses := Union(Asks(payload, book), t.needs);
    assert {} + uses == uses;
  }

  /** Walks the payload and compares how many disclosures were used with how many there are. */
  method ProcessBook(payload: Json, book: Book, ghost rank: string -> nat) returns (r: Result<Json, Problem>)
    requires Acyclic(book, rank)
    ensures r == Outcome(payload, book, rank)
  {
    ghost var needs, settled := OutcomeThrough(payload, book, rank);
    ghost var tables := Tables(needs, settled);
    var walker := new Walker(book, tables, rank);
    var result := walker.Walk(payload, Above(Asks(payload, book), rank));
    var filled := match result case Some(all) => all case None => Null;
    AccountGivesOutcome(payload, book, tables, result.Some?, walker.used, filled);
    return Verdict(result.Some?, |walker.used|, |book.Keys|, filled);
  }

  /** A rank above those of all the digests in `asked`. */
  ghost function Above(asked: set<string>, rank: string -> nat): (below: nat)
    ensures Rising(asked, rank, below)
  {
    if asked == {} then 0
    else
      var d :| d in asked;
      var rest := Above(asked - {d}, rank);
      if rank(d) < rest then rest else rank(d) + 1
  }
}
