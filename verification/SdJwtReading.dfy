/**
 What disclosure processing shows, said with the disclosures' contents alone.

 `Reads` relates a value to what it is shown as, at any depth: every marker of a presented element becomes its value, every
 other marker vanishes, the listed claims are set in list order, and reserved keys go. It speaks of what the parser
 returns for the disclosures presented, and of nothing that processing keeps. Successful processing is
 such a reading.
 */
module SdJwtReading {
  import opened Wrappers
  import opened Json
  import opened SdJwt
  import opened SdJwtProcess

  /** What is presented, and how it is hashed and read. */
  datatype Presentation = Presentation(disclosures: seq<string>, alg: string, env: Env)

  // ----- Contents of the disclosures

  ghost predicate ElementOf(h: string, w: Json, p: Presentation) {
    exists d, salt :: d in p.disclosures && p.env.hash(p.alg, d) == h && p.env.parse(d) == Some(Arr([salt, w]))
  }

  ghost predicate ClaimOf(h: string, name: string, w: Json, p: Presentation) {
    exists d, salt, called ::
      && d in p.disclosures && p.env.hash(p.alg, d) == h
      && p.env.parse(d) == Some(Arr([salt, called, w])) && p.env.textOf(called) == name
  }

  ghost predicate IsElement(h: string, p: Presentation) {
    exists w :: ElementOf(h, w, p)
  }

  ghost predicate NamesClaim(h: string, name: string, p: Presentation) {
    exists w :: ClaimOf(h, name, w, p)
  }

  // ----- The reading

  function Concat(pieces: seq<seq<Json>>): seq<Json> {
    if pieces == [] then [] else Concat(pieces[..|pieces| - 1]) + pieces[|pieces| - 1]
  }

  /** What stands for an array item, when `shown` has the values of the disclosures as they are shown. */
  ghost predicate IsPiece(piece: seq<Json>, item: Json, shown: map<string, Json>, p: Presentation)
    decreases item, 1
  {
    if item.Obj? && item.members.Keys == {"..."} && item.members["..."].Str? then
      var h := item.members["..."].s;
      if IsElement(h, p) then h in shown && piece == [shown[h]] else piece == []
    else
      |piece| == 1 && Reads(item, piece[0], shown, p)
  }

  ghost predicate Claimed(name: string, digests: seq<string>, p: Presentation) {
    exists k :: 0 <= k < |digests| && NamesClaim(digests[k], name, p)
  }

  ghost predicate ClaimedLast(k: nat, name: string, digests: seq<string>, p: Presentation) {
    k < |digests| && NamesClaim(digests[k], name, p) && forall j :: k < j < |digests| ==> !NamesClaim(digests[j], name, p)
  }

  /** The claims listed, the last of a name having the say. */
  ghost predicate ShowsClaims(r: map<string, Json>, digests: seq<string>, shown: map<string, Json>, p: Presentation) {
    forall k: nat, name :: ClaimedLast(k, name, digests, p) ==>
      digests[k] in shown && name in r && r[name] == shown[digests[k]]
  }

  predicate Stays(name: string, members: map<string, Json>) {
    name in members && name != "_sd" && name != "_sd_alg"
  }

  /** `r` is what `v` is shown as. */
  ghost predicate Reads(v: Json, r: Json, shown: map<string, Json>, p: Presentation)
    decreases v, 0
  {
    match v
    case Arr(elems) =>
      r.Arr? && exists pieces ::
        && |pieces| == |elems| && r.elems == Concat(pieces)
        && forall i :: 0 <= i < |elems| ==> IsPiece(pieces[i], elems[i], shown, p)
    case Obj(members) =>
      r.Obj? &&
      var digests := if "_sd" in members then DigestsOf(members["_sd"]) else [];
      && (forall name :: name in r.members <==> Claimed(name, digests, p) || Stays(name, members))
      && ShowsClaims(r.members, digests, shown, p)
      && (forall name :: Stays(name, members) && !Claimed(name, digests, p) ==> Reads(members[name], r.members[name], shown, p))
    case _ => r == v
  }

  /** `shown` has every disclosure presented, as its value is shown. */
  ghost predicate ShowsDisclosures(shown: map<string, Json>, p: Presentation) {
    && (forall h, w :: ElementOf(h, w, p) ==> h in shown && Reads(w, shown[h], shown, p))
    && (forall h, name, w :: ClaimOf(h, name, w, p) ==> h in shown && Reads(w, shown[h], shown, p))
  }

  // ----- The book knows the contents

  /** The book knows kind and name of every disclosure. */
  ghost predicate Knows(book: Book, p: Presentation) {
    && (forall h :: AnswersItem(h, book) <==> IsElement(h, p))
    && (forall h, name :: AnswersClaim(h, book) && book[h].name == name <==> NamesClaim(h, name, p))
  }

  lemma DecodedAre(d: string, env: Env)
    ensures forall salt, w :: env.parse(d) == Some(Arr([salt, w])) ==>
              DecodeDisclosure(d, env) == Some(Element(env.textOf(salt), w))
    ensures forall salt, called, w :: env.parse(d) == Some(Arr([salt, called, w])) ==>
              DecodeDisclosure(d, env) == Some(Claim(env.textOf(salt), env.textOf(called), w))
    ensures match DecodeDisclosure(d, env)
            case None => true
            case Some(Element(_, w)) => exists salt :: env.parse(d) == Some(Arr([salt, w]))
            case Some(Claim(_, name, w)) =>
              exists salt, called :: env.parse(d) == Some(Arr([salt, called, w])) && env.textOf(called) == name
  {
    if env.parse(d).Some? && env.parse(d).value.Arr? {
      var elems := env.parse(d).value.elems;
      if |elems| == 2 {
        assert elems == [elems[0], elems[1]];
      } else if |elems| == 3 {
        assert elems == [elems[0], elems[1], elems[2]];
      }
    }
  }

  lemma ElementIsHeld(h: string, w: Json, book: Book, p: Presentation)
    requires Holds(book, p.disclosures, p.alg, p.env)
    ensures ElementOf(h, w, p) <==> AnswersItem(h, book) && book[h].value == w
  {
    if ElementOf(h, w, p) {
      var d, salt :| d in p.disclosures && p.env.hash(p.alg, d) == h && p.env.parse(d) == Some(Arr([salt, w]));
      DecodedAre(d, p.env);
    }
    if AnswersItem(h, book) && book[h].value == w {
      var d :| d in p.disclosures && p.env.hash(p.alg, d) == h;
      DecodedAre(d, p.env);
    }
  }

  lemma ClaimIsHeld(h: string, name: string, w: Json, book: Book, p: Presentation)
    requires Holds(book, p.disclosures, p.alg, p.env)
    ensures ClaimOf(h, name, w, p) <==> AnswersClaim(h, book) && book[h].name == name && book[h].value == w
  {
    if ClaimOf(h, name, w, p) {
      var d, salt, called :| d in p.disclosures && p.env.hash(p.alg, d) == h
        && p.env.parse(d) == Some(Arr([salt, called, w])) && p.env.textOf(called) == name;
      DecodedAre(d, p.env);
    }
    if AnswersClaim(h, book) && book[h].name == name && book[h].value == w {
      var d :| d in p.disclosures && p.env.hash(p.alg, d) == h;
      DecodedAre(d, p.env);
    }
  }

  lemma HolderKnows(book: Book, p: Presentation)
    requires Holds(book, p.disclosures, p.alg, p.env)
    ensures Knows(book, p)
  {
    forall h ensures AnswersItem(h, book) <==> IsElement(h, p) {
      if AnswersItem(h, book) {
        ElementIsHeld(h, book[h].value, book, p);
      }
      if IsElement(h, p) {
        var w :| ElementOf(h, w, p);
        ElementIsHeld(h, w, book, p);
      }
    }
    forall h, name ensures AnswersClaim(h, book) && book[h].name == name <==> NamesClaim(h, name, p) {
      if AnswersClaim(h, book) && book[h].name == name {
        ClaimIsHeld(h, name, book[h].value, book, p);
      }
      if NamesClaim(h, name, p) {
        var w :| ClaimOf(h, name, w, p);
        ClaimIsHeld(h, name, w, book, p);
      }
    }
  }

  lemma SameShapeKnows(a: Book, b: Book, p: Presentation)
    requires SameShape(a, b) && Knows(b, p)
    ensures Knows(a, p)
  {
    forall h ensures AnswersItem(h, a) <==> IsElement(h, p) {
      assert AnswersItem(h, a) <==> AnswersItem(h, b);
    }
    forall h, name ensures AnswersClaim(h, a) && a[h].name == name <==> NamesClaim(h, name, p) {
      assert AnswersClaim(h, a) && a[h].name == name <==> AnswersClaim(h, b) && b[h].name == name;
    }
  }

  // ----- Filling is reading

  ghost function ValuesOf(book: Book): map<string, Json> {
    map h | h in book :: book[h].value
  }

  /** `kept` with the claims of `digests` set in it. */
  ghost predicate RevealsOver(r: map<string, Json>, kept: map<string, Json>, digests: seq<string>, book: Book, p: Presentation) {
    && (forall name :: name in r <==> Claimed(name, digests, p) || name in kept)
    && ShowsClaims(r, digests, ValuesOf(book), p)
    && (forall name :: name in kept && !Claimed(name, digests, p) ==> r[name] == kept[name])
  }

  lemma ClaimedMore(name: string, front: seq<string>, last: string, p: Presentation)
    ensures Claimed(name, front + [last], p) <==> Claimed(name, front, p) || NamesClaim(last, name, p)
  {
    var all := front + [last];
    assert all[|front|] == last && forall k :: 0 <= k < |front| ==> all[k] == front[k];
  }

  lemma ClaimedLastMore(k: nat, name: string, front: seq<string>, last: string, p: Presentation)
    ensures ClaimedLast(k, name, front + [last], p) <==>
      (k == |front| && NamesClaim(last, name, p)) || (ClaimedLast(k, name, front, p) && !NamesClaim(last, name, p))
  {
    var all := front + [last];
    assert all[|front|] == last && forall j :: 0 <= j < |front| ==> all[j] == front[j];
  }

  lemma RevealsMore(r: map<string, Json>, kept: map<string, Json>, front: seq<string>, last: string, book: Book, p: Presentation)
    requires Knows(book, p) && RevealsOver(r, kept, front, book, p)
    ensures RevealsOver(if AnswersClaim(last, book) then r[book[last].name := book[last].value] else r,
                        kept, front + [last], book, p)
  {
    var r' := if AnswersClaim(last, book) then r[book[last].name := book[last].value] else r;
    forall name ensures Claimed(name, front + [last], p) <==> Claimed(name, front, p) || NamesClaim(last, name, p) {
      ClaimedMore(name, front, last, p);
    }
    forall k: nat, name | ClaimedLast(k, name, front + [last], p)
      ensures (front + [last])[k] in ValuesOf(book) && name in r' && r'[name] == ValuesOf(book)[(front + [last])[k]]
    {
      ClaimedLastMore(k, name, front, last, p);
    }
  }

  lemma {:induction false} RevealReads(kept: map<string, Json>, digests: seq<string>, book: Book, p: Presentation)
    requires Knows(book, p)
    ensures RevealsOver(Reveal(kept, digests, book), kept, digests, book, p)
  {
    if digests != [] {
      var front, last := digests[..|digests| - 1], digests[|digests| - 1];
      assert digests == front + [last];
      RevealReads(kept, front, book, p);
      RevealsMore(Reveal(kept, front, book), kept, front, last, book, p);
    }
  }

  lemma {:induction false} ItemReads(item: Json, book: Book, p: Presentation)
    requires Knows(book, p)
    ensures IsPiece(FillItem(item, book), item, ValuesOf(book), p)
    decreases item, 2
  {
    if IsMarker(item) {
      assert AnswersItem(MarkerDigest(item), book) <==> IsElement(MarkerDigest(item), p);
    } else {
      FillReads(item, book, p);
    }
  }

  lemma {:induction false} ItemsRead(v: Json, n: nat, book: Book, p: Presentation) returns (pieces: seq<seq<Json>>)
    requires Knows(book, p) && v.Arr? && n <= |v.elems|
    ensures |pieces| == n && FillItems(v, n, book) == Concat(pieces)
    ensures forall i :: 0 <= i < n ==> IsPiece(pieces[i], v.elems[i], ValuesOf(book), p)
    decreases v, 0, n
  {
    if n == 0 {
      pieces := [];
    } else {
      var front := ItemsRead(v, n - 1, book, p);
      ItemReads(v.elems[n - 1], book, p);
      pieces := front + [FillItem(v.elems[n - 1], book)];
      assert pieces[..n - 1] == front;
    }
  }

  lemma ObjectReads(v: Json, book: Book, p: Presentation)
    requires Knows(book, p) && v.Obj?
    requires forall k :: Stays(k, v.members) ==> Reads(v.members[k], Fill(v.members[k], book), ValuesOf(book), p)
    ensures Reads(v, Fill(v, book), ValuesOf(book), p)
  {
    var kept, digests := FillMembers(v, v.members.Keys, book), SdList(v.members);
    RevealReads(kept, digests, book, p);
    var r := Reveal(kept, digests, book);
    assert forall name :: name in kept <==> Stays(name, v.members);
    forall name | Stays(name, v.members) && !Claimed(name, digests, p)
      ensures Reads(v.members[name], r[name], ValuesOf(book), p)
    {
      assert kept[name] == Fill(v.members[name], book);
    }
  }

  lemma {:induction false} FillReads(v: Json, book: Book, p: Presentation)
    requires Knows(book, p)
    ensures Reads(v, Fill(v, book), ValuesOf(book), p)
    decreases v, 1
  {
    match v
    case Arr(elems) =>
      var pieces := ItemsRead(v, |elems|, book, p);
    case Obj(members) =>
      forall k | Stays(k, members) ensures Reads(members[k], Fill(members[k], book), ValuesOf(book), p) {
        FillReads(members[k], book, p);
      }
      ObjectReads(v, book, p);
    case _ =>
  }

  // ----- Processing is reading

  lemma SettledShows(settled: Book, book: Book, p: Presentation)
    requires Solves(settled, book) && Holds(book, p.disclosures, p.alg, p.env) && Knows(settled, p)
    ensures ShowsDisclosures(ValuesOf(settled), p)
  {
    var shown := ValuesOf(settled);
    forall h, w | ElementOf(h, w, p) ensures h in shown && Reads(w, shown[h], shown, p) {
      ElementIsHeld(h, w, book, p);
      assert SolvesAt(h, settled, book);
      FillReads(w, settled, p);
    }
    forall h, name, w | ClaimOf(h, name, w, p) ensures h in shown && Reads(w, shown[h], shown, p) {
      ClaimIsHeld(h, name, w, book, p);
      assert SolvesAt(h, settled, book);
      FillReads(w, settled, p);
    }
  }

  lemma OutcomeReads(payload: Json, book: Book, rank: string -> nat, p: Presentation) returns (shown: map<string, Json>)
    requires Acyclic(book, rank) && Outcome(payload, book, rank).Success? && Holds(book, p.disclosures, p.alg, p.env)
    ensures ShowsDisclosures(shown, p) && Reads(payload, Outcome(payload, book, rank).value, shown, p)
  {
    var settled := Settled(book, rank);
    SettledSolves(book, rank);
    OutcomeIsTheSolution(payload, book, rank, settled);
    HolderKnows(book, p);
    SettledShape(book, rank);
    SameShapeKnows(settled, book, p);
    SettledShows(settled, book, p);
    FillReads(payload, settled, p);
    shown := ValuesOf(settled);
  }

  /** Whatever processing shows is a reading of the payload, and of every disclosure in turn. */
  lemma ProcessedReads(payload: map<string, Json>, disclosures: seq<string>, alg: string, env: Env, rank: string -> nat)
    returns (shown: map<string, Json>)
    requires AcyclicBook(payload, disclosures, env, rank) && Processed(payload, disclosures, env, rank).Success?
    requires disclosures != [] ==> Algorithm(payload) == Some(alg)
    requires DistinctDigests(disclosures, alg, env)
    ensures var p := Presentation(disclosures, alg, env);
      ShowsDisclosures(shown, p) && Reads(Obj(payload), Processed(payload, disclosures, env, rank).value, shown, p)
  {
    BookHolds(disclosures, alg, env);
    shown := OutcomeReads(Obj(payload), BookOf(disclosures, alg, env).value, rank, Presentation(disclosures, alg, env));
  }

  // ----- Digest lists

  /** `at` lists the positions of the strings among `elems`, in order, and `digests` the strings there. */
  ghost predicate StringsAt(digests: seq<string>, at: seq<nat>, elems: seq<Json>) {
    && |digests| == |at| && (forall i, j :: 0 <= i < j < |at| ==> at[i] < at[j])
    && (forall i :: 0 <= i < |at| ==> at[i] < |elems| && elems[at[i]] == Str(digests[i]))
    && (forall k: nat :: k < |elems| && elems[k].Str? ==> k in at)
  }

  lemma StringsOfSnoc(elems: seq<Json>, last: Json)
    ensures StringsOf(elems + [last]) == StringsOf(elems) + if last.Str? then [last.s] else []
    decreases |elems|
  {
    if elems == [] {
      assert elems + [last] == [last] && [last][1..] == [];
    } else {
      StringsOfSnoc(elems[1..], last);
      assert (elems + [last])[1..] == elems[1..] + [last];
    }
  }

  lemma StringsOneMore(digests: seq<string>, at: seq<nat>, front: seq<Json>, last: Json)
    requires StringsAt(digests, at, front)
    ensures if last.Str? then StringsAt(digests + [last.s], at + [|front|], front + [last])
            else StringsAt(digests, at, front + [last])
  {
    var all := front + [last];
    assert all[|front|] == last && forall k :: 0 <= k < |front| ==> all[k] == front[k];
    assert forall i :: 0 <= i < |at| ==> at[i] in at;
  }

  lemma {:induction false} StringsAre(elems: seq<Json>) returns (at: seq<nat>)
    ensures StringsAt(StringsOf(elems), at, elems)
    decreases |elems|
  {
    if elems == [] {
      at := [];
    } else {
      var front, last := elems[..|elems| - 1], elems[|elems| - 1];
      var before := StringsAre(front);
      StringsOneMore(StringsOf(front), before, front, last);
      StringsOfSnoc(front, last);
      assert elems == front + [last];
      at := if last.Str? then before + [|front|] else before;
    }
  }

  /** The digests of an `_sd` member: the strings of an array, the characters of a string, none of null. */
  lemma DigestsExactly(sd: Json) returns (at: seq<nat>)
    ensures match sd
      case Arr(elems) => StringsAt(DigestsOf(sd), at, elems)
      case Str(s) => |DigestsOf(sd)| == |s| && forall i :: 0 <= i < |s| ==> DigestsOf(sd)[i] == [s[i]]
      case _ => DigestsOf(sd) == []
  {
    at := [];
    if sd.Arr? {
      at := StringsAre(sd.elems);
    }
  }

  /** Some object that is walked has a number, a boolean or an object for its `_sd` member. */
  ghost predicate HasBadList(v: Json) {
    match v
    case Arr(elems) =>
      exists i :: 0 <= i < |elems| && HasBadList(elems[i])
                  && !(elems[i].Obj? && elems[i].members.Keys == {"..."} && elems[i].members["..."].Str?)
    case Obj(members) =>
      || ("_sd" in members && (members["_sd"].Num? || members["_sd"].Bool? || members["_sd"].Obj?))
      || exists k :: Stays(k, members) && HasBadList(members[k])
    case _ => false
  }

  lemma {:induction false} ItemsBrokenAre(v: Json, n: nat)
    requires v.Arr? && n <= |v.elems|
    ensures ItemsBroken(v, n) <==> exists i :: 0 <= i < n && !IsMarker(v.elems[i]) && Broken(v.elems[i])
  {
    if n > 0 {
      ItemsBrokenAre(v, n - 1);
    }
  }

  /** The walk throws exactly for such a value. */
  lemma {:induction false} BrokenExactly(v: Json)
    ensures Broken(v) <==> HasBadList(v)
  {
    match v
    case Arr(elems) =>
      ItemsBrokenAre(v, |elems|);
      forall i | 0 <= i < |elems| ensures Broken(elems[i]) <==> HasBadList(elems[i]) {
        BrokenExactly(elems[i]);
      }
    case Obj(members) =>
      forall k | k in members ensures Broken(members[k]) <==> HasBadList(members[k]) {
        BrokenExactly(members[k]);
      }
      assert forall k :: k in members.Keys && !IsReserved(k) <==> Stays(k, members);
    case _ =>
  }

  // ----- Refusals

  /** The parser reads two or three parts. */
  predicate Readable(d: string, env: Env) {
    match env.parse(d)
    case Some(Arr(elems)) => |elems| == 2 || |elems| == 3
    case _ => false
  }

  /** The hash knows the algorithm that the payload names; no name, or null, means SHA-256. */
  predicate KnowsAlgorithm(payload: map<string, Json>, env: Env) {
    if "_sd_alg" in payload && payload["_sd_alg"] != Null then
      payload["_sd_alg"].Str? && env.known(payload["_sd_alg"].s)
    else
      env.known("sha-256")
  }

  lemma {:induction false} BookNeedsAll(disclosures: seq<string>, alg: string, env: Env)
    ensures BookOf(disclosures, alg, env).Some? <==> forall d :: d in disclosures ==> Readable(d, env)
  {
    if disclosures != [] {
      var front, last := disclosures[..|disclosures| - 1], disclosures[|disclosures| - 1];
      assert disclosures == front + [last];
      BookNeedsAll(front, alg, env);
      assert DecodeDisclosure(last, env).Some? <==> Readable(last, env);
      assert forall d :: d in disclosures <==> d in front || d == last;
    }
  }

  /** Disclosures are refused for the hash, or for one that cannot be read, before anything is walked. */
  lemma RefusedExactly(payload: map<string, Json>, disclosures: seq<string>, env: Env, rank: string -> nat)
    requires AcyclicBook(payload, disclosures, env, rank)
    ensures var r := Processed(payload, disclosures, env, rank);
      && (r == Failure(BadAlgorithm) <==> disclosures != [] && !KnowsAlgorithm(payload, env))
      && (r == Failure(BadDisclosure) <==>
            disclosures != [] && KnowsAlgorithm(payload, env) && exists d :: d in disclosures && !Readable(d, env))
  {
    if AlgorithmWorks(payload, env) {
      BookNeedsAll(disclosures, Algorithm(payload).value, env);
    }
  }

  lemma Others(s: set<string>, t: set<string>)
    requires s <= t
    ensures |t - s| == |t| - |s|
  {
    assert t == s + (t - s);
  }

  /** The error counts the disclosures that no place leads to. */
  lemma UnreferencedExactly(payload: Json, book: Book, rank: string -> nat, n: nat)
    requires Acyclic(book, rank)
    ensures var reached := ReachedFrom(Asks(payload, book), book);
      Outcome(payload, book, rank) == Failure(Unreferenced(n)) <==>
      !Broken(payload) && AllSound(reached, book) && n == |book.Keys - reached| > 0
  {
    var reached := ReachedFrom(Asks(payload, book), book);
    var needs, settled := OutcomeThrough(payload, book, rank);
    UsedIsReached(Asks(payload, book), book, needs, rank);
    Others(reached, book.Keys);
    VerdictCounts(!Broken(payload) && AllSound(reached, book), |reached|, |book.Keys|, Fill(payload, settled), n);
  }

  lemma VerdictCounts(through: bool, used: nat, supplied: nat, filled: Json, n: nat)
    ensures Verdict(through, used, supplied, filled) == Failure(Unreferenced(n)) <==> through && n == supplied - used > 0
  {
  }
}
