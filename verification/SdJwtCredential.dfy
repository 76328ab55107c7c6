/**
 What a presented SD-JWT credential shows, claim by claim and member by member.

 The theorems speak of the credential, of the names of its registered claims, and of what the verifier's parser
 returns; how the issuer splits and seals the claims does not occur in them.
 */
module SdJwtCredential {
  import opened Wrappers
  import opened Json
  import opened SdJwt
  import opened SdJwtProcess
  import opened SdJwtIssue
  import opened SdJwtRoundTrip

  // ----- What may be in the result

  /** The registered claims, by name. */
  ghost predicate Registered(name: string, v: Json, vc: Credential, options: Options) {
    || (name == "iss" && v == Str(vc.issuer))
    || (name == "vct" && v == Str(options.vct))
    || (name == "iat" && v == Num(options.issuedAt as real))
    || (name == "nbf" && vc.validFrom.Some? && v == Num(vc.validFrom.value as real))
    || (name == "exp" && vc.validUntil.Some? && v == Num(vc.validUntil.value as real))
    || (name == "sub" && ("id", v) in vc.subject && v != Null && v != Bool(false) && v != Num(0.0) && v != Str(""))
    || (name == "cnf" && options.holderKey.Some? && v == Obj(map["jwk" := options.holderKey.value]))
  }

  /** The verifier reads `disclosure` as the claim under some salt. */
  ghost predicate Discloses(disclosure: string, claim: Entry, env: Env) {
    exists salt :: env.parse(disclosure) == Some(Arr([salt, Str(claim.0), claim.1]))
  }

  ghost predicate DisclosedBy(presented: seq<string>, claim: Entry, env: Env) {
    exists d :: d in presented && Discloses(d, claim, env)
  }

  /** Claims of the subject that everybody sees: those not selective, and those presented. */
  ghost predicate IsShown(claim: Entry, vc: Credential, options: Options, presented: seq<string>, env: Env) {
    && claim in vc.subject && claim.0 != "id"
    && (claim.0 !in options.selective || DisclosedBy(presented, claim, env))
  }

  /** Shown claims have their own values, registered claims theirs where no shown claim has the name, and there is nothing else. */
  ghost predicate ShowsCredential(r: map<string, Json>, vc: Credential, options: Options, presented: seq<string>, env: Env) {
    && (forall c :: IsShown(c, vc, options, presented, env) ==> c.0 in r && r[c.0] == c.1)
    && (forall name, v :: Registered(name, v, vc, options) && (forall w :: !IsShown((name, w), vc, options, presented, env))
          ==> name in r && r[name] == v)
    && (forall name :: name in r ==>
          IsShown((name, r[name]), vc, options, presented, env) || Registered(name, r[name], vc, options))
  }

  // ----- The registered claims

  lemma {:induction false} WithSubIs(base: map<string, Json>, subject: seq<Entry>, name: string, v: Json)
    requires DistinctNames(subject)
    ensures Has(WithSub(base, subject), name, v) <==>
      (name == "sub" && ("id", v) in subject && Truthy(v))
      || (Has(base, name, v) && !(name == "sub" && exists w :: ("id", w) in subject && Truthy(w)))
  {
    if subject != [] {
      var first, rest := subject[0], subject[1..];
      assert subject == [first] + rest;
      if first.0 == "id" {
        assert ("id", first.1) in subject;
        forall w ensures ("id", w) !in rest {
          assert forall k :: 0 <= k < |rest| ==> subject[k + 1] == rest[k];
        }
      } else {
        WithSubIs(base, rest, name, v);
        assert forall w :: ("id", w) in subject <==> ("id", w) in rest;
      }
    }
  }

  /** `m` has the member. */
  predicate Has(m: map<string, Json>, name: string, v: Json) {
    name in m && m[name] == v
  }

  lemma BaseIs(vc: Credential, options: Options, name: string, v: Json)
    requires DistinctNames(vc.subject)
    ensures Has(Base(vc, options), name, v) <==> Registered(name, v, vc, options)
  {
    var p := map["iss" := Str(vc.issuer), "vct" := Str(options.vct), "iat" := Num(options.issuedAt as real)];
    var q := if vc.validFrom.Some? then p["nbf" := Num(vc.validFrom.value as real)] else p;
    var r := if vc.validUntil.Some? then q["exp" := Num(vc.validUntil.value as real)] else q;
    WithSubIs(r, vc.subject, name, v);
    TruthyIs(v);
    assert "cnf" !in r && "sub" !in r;
  }

  lemma TruthyIs(v: Json)
    ensures Truthy(v) <==> v != Null && v != Bool(false) && v != Num(0.0) && v != Str("")
  {
  }

  // ----- The subject's claims

  lemma {:induction false} ClaimsAre(subject: seq<Entry>, c: Entry)
    ensures c in ClaimsOf(subject) <==> c in subject && c.0 != "id"
  {
    if subject != [] {
      var front, last := subject[..|subject| - 1], subject[|subject| - 1];
      assert subject == front + [last];
      ClaimsAre(front, c);
    }
  }

  lemma {:induction false} HiddenAre(claims: seq<Entry>, selective: set<string>, c: Entry)
    ensures c in HiddenOf(claims, selective) <==> c in claims && c.0 in selective
  {
    if claims != [] {
      var front, last := claims[..|claims| - 1], claims[|claims| - 1];
      assert claims == front + [last];
      HiddenAre(front, selective, c);
    }
  }

  /** The claims that are not selective are set over the base. */
  ghost predicate SetsPlain(r: map<string, Json>, base: map<string, Json>, claims: seq<Entry>, selective: set<string>) {
    && (forall c :: c in claims && c.0 !in selective ==> Has(r, c.0, c.1))
    && (forall name, v :: Has(base, name, v) && (forall w :: (name, w) in claims ==> name in selective) ==> Has(r, name, v))
    && (forall name :: name in r ==> ((name, r[name]) in claims && name !in selective) || Has(base, name, r[name]))
  }

  lemma SetsOneMore(r: map<string, Json>, base: map<string, Json>, front: seq<Entry>, last: Entry, selective: set<string>)
    requires SetsPlain(r, base, front, selective) && forall c :: c in front ==> c.0 != last.0
    ensures SetsPlain(if last.0 in selective then r else r[last.0 := last.1], base, front + [last], selective)
  {
    var r' := if last.0 in selective then r else r[last.0 := last.1];
    forall name, v | Has(base, name, v) && (forall w :: (name, w) in front + [last] ==> name in selective)
      ensures Has(r', name, v)
    {
      assert (last.0, last.1) in front + [last];
      assert forall w :: (name, w) in front ==> (name, w) in front + [last];
    }
    forall name | name in r' ensures ((name, r'[name]) in front + [last] && name !in selective) || Has(base, name, r'[name]) {
      if name == last.0 && last.0 !in selective {
        assert (name, r'[name]) == last;
      }
    }
  }

  lemma {:induction false} PlainSets(base: map<string, Json>, claims: seq<Entry>, selective: set<string>)
    requires DistinctNames(claims)
    ensures SetsPlain(PlainOf(base, claims, selective), base, claims, selective)
  {
    if claims != [] {
      var front, last := claims[..|claims| - 1], claims[|claims| - 1];
      assert claims == front + [last];
      PlainSets(base, front, selective);
      forall c | c in front ensures c.0 != last.0 {
        var k :| 0 <= k < |front| && front[k] == c;
        assert claims[k] == c;
      }
      SetsOneMore(PlainOf(base, front, selective), base, front, last, selective);
    }
  }

  // ----- What is issued

  ghost predicate Ascending(at: seq<nat>) {
    forall i, j :: 0 <= i < j < |at| ==> at[i] < at[j]
  }

  predicate IsSelective(subject: seq<Entry>, k: nat, selective: set<string>) {
    k < |subject| && subject[k].0 != "id" && subject[k].0 in selective
  }

  /** `at` lists the positions of the selective claims in ascending order, and `hidden` the claims there. */
  ghost predicate LiesAt(hidden: seq<Entry>, at: seq<nat>, subject: seq<Entry>, selective: set<string>) {
    && |at| == |hidden| && Ascending(at)
    && (forall i :: 0 <= i < |at| ==> at[i] < |subject| && hidden[i] == subject[at[i]])
    && (forall k: nat :: k in at <==> IsSelective(subject, k, selective))
  }

  lemma LiesOneMore(hidden: seq<Entry>, at: seq<nat>, front: seq<Entry>, last: Entry, selective: set<string>)
    requires LiesAt(hidden, at, front, selective)
    ensures if last.0 != "id" && last.0 in selective
            then LiesAt(hidden + [last], at + [|front|], front + [last], selective)
            else LiesAt(hidden, at, front + [last], selective)
  {
    var all := front + [last];
    forall k: nat ensures IsSelective(all, k, selective) <==>
        IsSelective(front, k, selective) || (k == |front| && last.0 != "id" && last.0 in selective)
    {
    }
    assert forall i :: 0 <= i < |at| ==> at[i] in at;
  }

  lemma HiddenOneMore(front: seq<Entry>, last: Entry, selective: set<string>)
    ensures HiddenOf(ClaimsOf(front + [last]), selective)
         == HiddenOf(ClaimsOf(front), selective) + if last.0 != "id" && last.0 in selective then [last] else []
  {
    var claims := ClaimsOf(front);
    assert (front + [last])[..|front|] == front && (claims + [last])[..|claims|] == claims;
  }

  lemma HiddenLiesMore(front: seq<Entry>, last: Entry, before: seq<nat>, selective: set<string>) returns (at: seq<nat>)
    requires LiesAt(HiddenOf(ClaimsOf(front), selective), before, front, selective)
    ensures LiesAt(HiddenOf(ClaimsOf(front + [last]), selective), at, front + [last], selective)
  {
    LiesOneMore(HiddenOf(ClaimsOf(front), selective), before, front, last, selective);
    HiddenOneMore(front, last, selective);
    at := if last.0 != "id" && last.0 in selective then before + [|front|] else before;
  }

  lemma SplitLast(s: seq<Entry>)
    requires s != []
    ensures s == s[..|s| - 1] + [s[|s| - 1]]
  {
  }

  lemma {:induction false} HiddenLies(subject: seq<Entry>, selective: set<string>) returns (at: seq<nat>)
    ensures LiesAt(HiddenOf(ClaimsOf(subject), selective), at, subject, selective)
  {
    if subject == [] {
      at := [];
    } else {
      SplitLast(subject);
      var before := HiddenLies(subject[..|subject| - 1], selective);
      at := HiddenLiesMore(subject[..|subject| - 1], subject[|subject| - 1], before, selective);
    }
  }

  /** One disclosure for each selective claim, in the order of the subject: the encoded salt, name and value. */
  lemma IssuedDisclosures(vc: Credential, options: Options, signer: Signer) returns (at: seq<nat>)
    ensures Ascending(at) && forall k: nat :: k in at <==> IsSelective(vc.subject, k, options.selective)
    ensures var ds := IssuedOf(vc, options, signer).disclosures;
      && |ds| == |at|
      && forall i :: 0 <= i < |at| ==>
           at[i] < |vc.subject| && var c := vc.subject[at[i]]; ds[i] == signer.encode(Arr([Str(signer.salt(i)), Str(c.0), c.1]))
  {
    at := HiddenLies(vc.subject, options.selective);
  }

  ghost predicate AreDigests(digests: seq<string>, disclosures: seq<string>, signer: Signer) {
    |digests| == |disclosures| && forall i :: 0 <= i < |digests| ==> digests[i] == signer.hash(disclosures[i])
  }

  /** The payload lists the digests of the disclosures, sorted, and names the hash, if there are any. */
  lemma IssuedDigests(vc: Credential, options: Options, signer: Signer) returns (digests: seq<string>)
    requires Fair(vc, options)
    ensures var issued := IssuedOf(vc, options, signer);
      && AreDigests(digests, issued.disclosures, signer)
      && if digests == [] then "_sd" !in issued.payload && "_sd_alg" !in issued.payload
         else Has(issued.payload, "_sd", StrList(signer.sort(digests))) && Has(issued.payload, "_sd_alg", Str("sha-256"))
  {
    FairSplits(vc, options);
    digests := DigestsOfAll(IssuedOf(vc, options, signer).disclosures, signer);
  }

  // ----- Presented claims

  /** A hidden claim is disclosed exactly when its own disclosure is presented. */
  lemma DisclosedExactly(i: nat, hidden: seq<Entry>, signer: Signer, env: Env, presented: seq<string>)
    requires Matched(signer, env, hidden) && DistinctNames(hidden) && i < |hidden|
    requires forall d :: d in presented ==> d in DisclosuresOf(hidden, signer)
    ensures DisclosedBy(presented, hidden[i], env) <==> DisclosuresOf(hidden, signer)[i] in presented
  {
    var ds := DisclosuresOf(hidden, signer);
    assert env.parse(ds[i]) == Some(PartsAt(hidden, i, signer));
    assert Discloses(ds[i], hidden[i], env);
    if DisclosedBy(presented, hidden[i], env) {
      var d :| d in presented && Discloses(d, hidden[i], env);
      var j: nat :| j < |ds| && ds[j] == d;
      assert env.parse(ds[j]) == Some(PartsAt(hidden, j, signer));
      SameParts(d, hidden[i], hidden, j, signer, env);
    }
  }

  lemma SameParts(d: string, claim: Entry, hidden: seq<Entry>, j: nat, signer: Signer, env: Env)
    requires j < |hidden| && env.parse(d) == Some(PartsAt(hidden, j, signer)) && Discloses(d, claim, env)
    ensures hidden[j].0 == claim.0
  {
    var salt :| env.parse(d) == Some(Arr([salt, Str(claim.0), claim.1]));
    assert [salt, Str(claim.0), claim.1][1] == PartsAt(hidden, j, signer).elems[1];
  }

  /** The shown hidden claims, said with the disclosures' contents. */
  lemma ShownAre(c: Entry, hidden: seq<Entry>, signer: Signer, env: Env, presented: seq<string>)
    requires Matched(signer, env, hidden) && DistinctNames(hidden)
    requires forall d :: d in presented ==> d in DisclosuresOf(hidden, signer)
    ensures Has(ShownOf(hidden, DisclosuresOf(hidden, signer), presented), c.0, c.1) <==>
      c in hidden && DisclosedBy(presented, c, env)
  {
    var ds := DisclosuresOf(hidden, signer);
    var shown := ShownOf(hidden, ds, presented);
    ShownHas(hidden, ds, presented);
    if c in hidden && DisclosedBy(presented, c, env) {
      var i :| 0 <= i < |hidden| && hidden[i] == c;
      DisclosedExactly(i, hidden, signer, env, presented);
    }
    if Has(shown, c.0, c.1) {
      var i :| 0 <= i < |hidden| && ds[i] in presented && hidden[i].0 == c.0;
      DisclosedExactly(i, hidden, signer, env, presented);
      assert hidden[i] == c;
    }
  }

  // ----- The law

  /** The two parts of the result, for one name and value. */
  ghost predicate PartsAre(plain: map<string, Json>, shown: map<string, Json>, vc: Credential, options: Options,
                           presented: seq<string>, env: Env) {
    && SetsPlain(plain, Base(vc, options), ClaimsOf(vc.subject), options.selective)
    && (forall name, v :: Has(shown, name, v) <==>
          (name, v) in vc.subject && name != "id" && name in options.selective && DisclosedBy(presented, (name, v), env))
  }

  lemma ShownIsThere(c: Entry, plain: map<string, Json>, shown: map<string, Json>, vc: Credential, options: Options,
                     presented: seq<string>, env: Env)
    requires DistinctNames(vc.subject) && PartsAre(plain, shown, vc, options, presented, env)
    requires IsShown(c, vc, options, presented, env)
    ensures Has(plain + shown, c.0, c.1)
  {
    ClaimsAre(vc.subject, c);
    if c.0 in options.selective {
      assert Has(shown, c.0, c.1);
    } else if c.0 in shown {
      assert Has(shown, c.0, shown[c.0]);
    }
  }

  lemma RegisteredIsThere(name: string, v: Json, plain: map<string, Json>, shown: map<string, Json>, vc: Credential,
                          options: Options, presented: seq<string>, env: Env)
    requires DistinctNames(vc.subject) && PartsAre(plain, shown, vc, options, presented, env)
    requires Registered(name, v, vc, options) && forall w :: !IsShown((name, w), vc, options, presented, env)
    ensures Has(plain + shown, name, v)
  {
    BaseIs(vc, options, name, v);
    forall w | (name, w) in ClaimsOf(vc.subject) ensures name in options.selective {
      ClaimsAre(vc.subject, (name, w));
      assert !IsShown((name, w), vc, options, presented, env);
    }
    if name in shown {
      assert Has(shown, name, shown[name]);
      assert IsShown((name, shown[name]), vc, options, presented, env);
    }
  }

  lemma NothingElseIsThere(name: string, plain: map<string, Json>, shown: map<string, Json>, vc: Credential,
                           options: Options, presented: seq<string>, env: Env)
    requires DistinctNames(vc.subject) && PartsAre(plain, shown, vc, options, presented, env)
    requires name in plain + shown
    ensures var v := (plain + shown)[name];
            IsShown((name, v), vc, options, presented, env) || Registered(name, v, vc, options)
  {
    var v := (plain + shown)[name];
    if name in shown {
      assert Has(shown, name, v);
    } else {
      ClaimsAre(vc.subject, (name, v));
      BaseIs(vc, options, name, v);
    }
  }

  lemma PartsShow(plain: map<string, Json>, shown: map<string, Json>, vc: Credential, options: Options,
                  presented: seq<string>, env: Env)
    requires DistinctNames(vc.subject) && PartsAre(plain, shown, vc, options, presented, env)
    ensures ShowsCredential(plain + shown, vc, options, presented, env)
  {
    var r := plain + shown;
    forall c | IsShown(c, vc, options, presented, env) ensures c.0 in r && r[c.0] == c.1 {
      ShownIsThere(c, plain, shown, vc, options, presented, env);
    }
    forall name, v | Registered(name, v, vc, options) && (forall w :: !IsShown((name, w), vc, options, presented, env))
      ensures name in r && r[name] == v
    {
      RegisteredIsThere(name, v, plain, shown, vc, options, presented, env);
    }
    forall name | name in r
      ensures IsShown((name, r[name]), vc, options, presented, env) || Registered(name, r[name], vc, options)
    {
      NothingElseIsThere(name, plain, shown, vc, options, presented, env);
    }
  }

  /** The parts that the issuer and the presentation make. */
  lemma PartsOfIssued(vc: Credential, options: Options, signer: Signer, env: Env, presented: seq<string>)
    requires Matched(signer, env, HiddenOf(ClaimsOf(vc.subject), options.selective)) && Fair(vc, options)
    requires forall d :: d in presented ==> d in IssuedOf(vc, options, signer).disclosures
    ensures var claims := ClaimsOf(vc.subject);
      PartsAre(PlainOf(Base(vc, options), claims, options.selective),
               ShownOf(HiddenOf(claims, options.selective), IssuedOf(vc, options, signer).disclosures, presented),
               vc, options, presented, env)
  {
    var claims := ClaimsOf(vc.subject);
    var hidden := HiddenOf(claims, options.selective);
    var shown := ShownOf(hidden, IssuedOf(vc, options, signer).disclosures, presented);
    ClaimsCarry(vc.subject);
    HiddenCarry(claims, options.selective);
    PlainSets(Base(vc, options), claims, options.selective);
    forall name, v
      ensures Has(shown, name, v) <==>
        (name, v) in vc.subject && name != "id" && name in options.selective && DisclosedBy(presented, (name, v), env)
    {
      var c := (name, v);
      ShownAre(c, hidden, signer, env, presented);
      HiddenAre(claims, options.selective, c);
      ClaimsAre(vc.subject, c);
    }
  }

  /**
   The law: of a fairly issued credential, a presentation is accepted exactly when it presents issued disclosures, and
   then it shows the claims that are not selective, the claims presented, the registered ones, and nothing else.
   */
  lemma PresentedCredential(vc: Credential, options: Options, signer: Signer, env: Env, presented: seq<string>, rank: string -> nat)
    requires Matched(signer, env, HiddenOf(ClaimsOf(vc.subject), options.selective)) && Fair(vc, options)
    requires DistinctDigests(IssuedOf(vc, options, signer).disclosures + presented, SHA, env)
    requires AcyclicBook(IssuedOf(vc, options, signer).payload, presented, env, rank)
    ensures var issued, r := IssuedOf(vc, options, signer), Processed(IssuedOf(vc, options, signer).payload, presented, env, rank);
      && (r.Success? <==> forall d :: d in presented ==> d in issued.disclosures)
      && (r.Success? ==> r.value.Obj? && ShowsCredential(r.value.members, vc, options, presented, env))
  {
    IssueThenPresent(vc, options, signer, env, presented, rank);
    if Processed(IssuedOf(vc, options, signer).payload, presented, env, rank).Success? {
      var claims := ClaimsOf(vc.subject);
      PartsOfIssued(vc, options, signer, env, presented);
      PartsShow(PlainOf(Base(vc, options), claims, options.selective),
                ShownOf(HiddenOf(claims, options.selective), IssuedOf(vc, options, signer).disclosures, presented),
                vc, options, presented, env);
    }
  }

  /** Presenting everything that was issued discloses every selective claim. */
  lemma AllDisclosed(vc: Credential, options: Options, signer: Signer, env: Env, c: Entry)
    requires Matched(signer, env, HiddenOf(ClaimsOf(vc.subject), options.selective))
    requires c in vc.subject && c.0 != "id" && c.0 in options.selective
    ensures DisclosedBy(IssuedOf(vc, options, signer).disclosures, c, env)
  {
    var claims := ClaimsOf(vc.subject);
    var hidden := HiddenOf(claims, options.selective);
    ClaimsAre(vc.subject, c);
    HiddenAre(claims, options.selective, c);
    var i: nat :| i < |hidden| && hidden[i] == c;
    assert env.parse(DisclosuresOf(hidden, signer)[i]) == Some(PartsAt(hidden, i, signer));
    assert Discloses(DisclosuresOf(hidden, signer)[i], c, env);
  }

  // ----- An example

  const SUBJECT: seq<Entry> := [("id", Str("did:example:ada")), ("name", Str("Ada")), ("country", Str("NO"))]
  const EXAMPLE_VC := Credential("did:example:issuer", None, Some(10), SUBJECT)
  const EXAMPLE_OPTIONS := Options("Person", 0, None, {"name"})

  /** What everybody sees of it. */
  const SEEN: map<string, Json> := map[
    "iss" := Str("did:example:issuer"), "vct" := Str("Person"), "iat" := Num(0.0), "exp" := Num(10.0),
    "sub" := Str("did:example:ada"), "country" := Str("NO")]

  lemma ExampleClaims(name: string, v: Json, presented: seq<string>, env: Env)
    ensures IsShown((name, v), EXAMPLE_VC, EXAMPLE_OPTIONS, presented, env) <==>
      (name == "country" && v == Str("NO"))
      || (name == "name" && v == Str("Ada") && DisclosedBy(presented, ("name", Str("Ada")), env))
  {
    assert (name, v) in SUBJECT ==> name == "id" || (name, v) == SUBJECT[1] || (name, v) == SUBJECT[2];
    assert SUBJECT[1] in SUBJECT && SUBJECT[2] in SUBJECT;
  }

  lemma ExampleRegistered(name: string, v: Json)
    requires Registered(name, v, EXAMPLE_VC, EXAMPLE_OPTIONS)
    ensures Has(SEEN, name, v)
  {
    assert ("id", v) in SUBJECT ==> ("id", v) == SUBJECT[0];
  }

  lemma ExampleHolds(r: map<string, Json>, presented: seq<string>, env: Env, name: string)
    requires ShowsCredential(r, EXAMPLE_VC, EXAMPLE_OPTIONS, presented, env) && name in r
    ensures Has(SEEN, name, r[name]) || (name == "name" && r[name] == Str("Ada") && DisclosedBy(presented, (name, r[name]), env))
  {
    if IsShown((name, r[name]), EXAMPLE_VC, EXAMPLE_OPTIONS, presented, env) {
      ExampleClaims(name, r[name], presented, env);
    } else {
      ExampleRegistered(name, r[name]);
    }
  }

  lemma ExampleShows(r: map<string, Json>, presented: seq<string>, env: Env, disclosed: bool)
    requires ShowsCredential(r, EXAMPLE_VC, EXAMPLE_OPTIONS, presented, env)
    requires disclosed == DisclosedBy(presented, ("name", Str("Ada")), env)
    ensures r == if disclosed then SEEN["name" := Str("Ada")] else SEEN
  {
    var expected := if disclosed then SEEN["name" := Str("Ada")] else SEEN;
    forall name | name in r ensures name in expected && r[name] == expected[name] {
      ExampleHolds(r, presented, env, name);
    }
    forall name | name in expected ensures name in r {
      ExampleHas(r, presented, env, name);
    }
  }

  lemma ExampleHas(r: map<string, Json>, presented: seq<string>, env: Env, name: string)
    requires ShowsCredential(r, EXAMPLE_VC, EXAMPLE_OPTIONS, presented, env)
    requires name in SEEN || (name == "name" && DisclosedBy(presented, ("name", Str("Ada")), env))
    ensures name in r
  {
    assert SUBJECT[0] in SUBJECT && SUBJECT[1] in SUBJECT && SUBJECT[2] in SUBJECT;
    if name == "name" {
      assert IsShown(SUBJECT[1], EXAMPLE_VC, EXAMPLE_OPTIONS, presented, env);
    } else if name == "country" {
      assert IsShown(SUBJECT[2], EXAMPLE_VC, EXAMPLE_OPTIONS, presented, env);
    } else {
      assert Registered(name, SEEN[name], EXAMPLE_VC, EXAMPLE_OPTIONS);
    }
  }

  lemma ExampleIsFair()
    ensures Fair(EXAMPLE_VC, EXAMPLE_OPTIONS)
  {
  }

  /** A plain, a selective and the registered claims, presented without and with the disclosure. */
  lemma LawExample(rank: string -> nat) returns (signer: Signer, env: Env)
    ensures var issued := IssuedOf(EXAMPLE_VC, EXAMPLE_OPTIONS, signer);
      && AcyclicBook(issued.payload, [], env, rank) && AcyclicBook(issued.payload, issued.disclosures, env, rank)
      && Processed(issued.payload, [], env, rank) == Success(Obj(SEEN))
      && Processed(issued.payload, issued.disclosures, env, rank) == Success(Obj(SEEN["name" := Str("Ada")]))
  {
    ExampleIsFair();
    signer, env := LawApplies(EXAMPLE_VC, EXAMPLE_OPTIONS, [], rank);
    var issued := IssuedOf(EXAMPLE_VC, EXAMPLE_OPTIONS, signer);
    PresentedCredential(EXAMPLE_VC, EXAMPLE_OPTIONS, signer, env, [], rank);
    ExampleShows(Processed(issued.payload, [], env, rank).value.members, [], env, false);
    var s, e := LawApplies(EXAMPLE_VC, EXAMPLE_OPTIONS, issued.disclosures, rank);
    PresentedCredential(EXAMPLE_VC, EXAMPLE_OPTIONS, signer, env, issued.disclosures, rank);
    assert SUBJECT[1] in SUBJECT;
    AllDisclosed(EXAMPLE_VC, EXAMPLE_OPTIONS, signer, env, SUBJECT[1]);
    ExampleShows(Processed(issued.payload, issued.disclosures, env, rank).value.members, issued.disclosures, env, true);
  }
}
