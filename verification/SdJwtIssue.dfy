/**
 Issuing SD-JWT credentials (packages/crypto/src/sd-jwt-vc-signing.ts): claims are split into plain ones and
 disclosures, and the payload is sealed with the digests. Also the values that disclosure processing leaves alone.
 */
module SdJwtIssue {
  import opened Wrappers
  import opened Json
  import opened SdJwt
  import opened SdJwtProcess

  /** An own property of the credential subject; keys are distinct and in insertion order. */
  type Entry = (string, Json)

  /** The parts of an unsigned credential that the issuer reads, dates as seconds. */
  datatype Credential = Credential(
    issuer: string,
    validFrom: Option<int>,
    validUntil: Option<int>,
    subject: seq<Entry>)

  datatype Options = Options(
    vct: string,
    issuedAt: int,
    holderKey: Option<Json>,
    selective: set<string>)

  /** What the issuer calls into: JSON in base64url, SHA-256, the salts drawn, and Array.prototype.sort. */
  datatype Signer = Signer(
    encode: Json -> string,
    hash: string -> string,
    salt: nat -> string,
    sort: seq<string> -> seq<string>)

  datatype Issued = Issued(payload: map<string, Json>, disclosures: seq<string>)

  // ----- The issuer

  function WithSub(base: map<string, Json>, subject: seq<Entry>): map<string, Json> {
    if subject == [] then base
    else if subject[0].0 == "id" then (if Truthy(subject[0].1) then base["sub" := subject[0].1] else base)
    else WithSub(base, subject[1..])
  }

  /** The registered claims. */
  function Base(vc: Credential, options: Options): map<string, Json> {
    var p := map["iss" := Str(vc.issuer), "vct" := Str(options.vct), "iat" := Num(options.issuedAt as real)];
    var q := if vc.validFrom.Some? then p["nbf" := Num(vc.validFrom.value as real)] else p;
    var r := if vc.validUntil.Some? then q["exp" := Num(vc.validUntil.value as real)] else q;
    var s := WithSub(r, vc.subject);
    if options.holderKey.Some? then s["cnf" := Obj(map["jwk" := options.holderKey.value])] else s
  }

  /** The subject's claims: everything but its id. */
  function ClaimsOf(subject: seq<Entry>): seq<Entry> {
    if subject == [] then []
    else
      var front, last := subject[..|subject| - 1], subject[|subject| - 1];
      if last.0 == "id" then ClaimsOf(front) else ClaimsOf(front) + [last]
  }

  /** The claims to be disclosed selectively, in order. */
  function HiddenOf(claims: seq<Entry>, selective: set<string>): seq<Entry> {
    if claims == [] then []
    else
      var front, last := claims[..|claims| - 1], claims[|claims| - 1];
      if last.0 in selective then HiddenOf(front, selective) + [last] else HiddenOf(front, selective)
  }

  /** `base` with the other claims set in it. */
  function PlainOf(base: map<string, Json>, claims: seq<Entry>, selective: set<string>): map<string, Json> {
    if claims == [] then base
    else
      var front, last := claims[..|claims| - 1], claims[|claims| - 1];
      var plain := PlainOf(base, front, selective);
      if last.0 in selective then plain else plain[last.0 := last.1]
  }

  function MakeDisclosure(salt: string, claim: Entry, signer: Signer): string {
    signer.encode(Arr([Str(salt), Str(claim.0), claim.1]))
  }

  function DisclosuresOf(hidden: seq<Entry>, signer: Signer): (ds: seq<string>)
    ensures |ds| == |hidden|
  {
    seq(|hidden|, i requires 0 <= i < |hidden| => MakeDisclosure(signer.salt(i), hidden[i], signer))
  }

  function DigestsOfAll(disclosures: seq<string>, signer: Signer): (digests: seq<string>)
    ensures |digests| == |disclosures|
  {
    seq(|disclosures|, i requires 0 <= i < |disclosures| => signer.hash(disclosures[i]))
  }

  /** The payload asks for its disclosures only when there are any. */
  function Sealed(plain: map<string, Json>, digests: seq<string>, signer: Signer): map<string, Json> {
    if digests == [] then plain
    else plain[SD := StrList(signer.sort(digests))][SD_ALG := Str("sha-256")]
  }

  /** The credential subject split into plain and hidden claims. */
  function IssuedOf(vc: Credential, options: Options, signer: Signer): Issued {
    var claims := ClaimsOf(vc.subject);
    var disclosures := DisclosuresOf(HiddenOf(claims, options.selective), signer);
    Issued(
      Sealed(PlainOf(Base(vc, options), claims, options.selective), DigestsOfAll(disclosures, signer), signer),
      disclosures)
  }

  lemma PrefixPlusOne<T>(s: seq<T>, i: nat)
    requires i < |s|
    ensures s[..i + 1][..i] == s[..i]
  {
  }

  method SubjectClaims(subject: seq<Entry>) returns (claims: seq<Entry>)
    ensures claims == ClaimsOf(subject)
  {
    claims := [];
    var i := 0;
    while i < |subject|
      invariant 0 <= i <= |subject|
      invariant claims == ClaimsOf(subject[..i])
    {
      PrefixPlusOne(subject, i);
      if subject[i].0 != "id" {
        claims := claims + [subject[i]];
      }
      i := i + 1;
    }
    assert subject[..|subject|] == subject;
  }

  method BuildPayload(vc: Credential, options: Options, signer: Signer) returns (issued: Issued)
    ensures issued == IssuedOf(vc, options, signer)
  {
    var claims := SubjectClaims(vc.subject);
    var payload := Base(vc, options);
    var disclosures, digests := [], [];
    ghost var hidden := [];
    var i := 0;
    while i < |claims|
      invariant 0 <= i <= |claims|
      invariant payload == PlainOf(Base(vc, options), claims[..i], options.selective)
      invariant hidden == HiddenOf(claims[..i], options.selective)
      invariant disclosures == DisclosuresOf(hidden, signer)
      invariant digests == DigestsOfAll(disclosures, signer)
    {
      PrefixPlusOne(claims, i);
      if claims[i].0 in options.selective {
        var disclosure := MakeDisclosure(signer.salt(|disclosures|), claims[i], signer);
        disclosures := disclosures + [disclosure];
        digests := digests + [signer.hash(disclosure)];
        hidden := hidden + [claims[i]];
      } else {
        payload := payload[claims[i].0 := claims[i].1];
      }
      i := i + 1;
    }
    assert claims[..|claims|] == claims;
    if |digests| > 0 {
      payload := payload[SD := StrList(signer.sort(digests))];
      payload := payload[SD_ALG := Str("sha-256")];
    }
    issued := Issued(payload, disclosures);
  }

  // ----- Values that processing leaves alone

  /** No reserved key and no array marker at any level. */
  predicate Unmarked(v: Json) {
    match v
    case Arr(elems) => forall i :: 0 <= i < |elems| ==> !IsMarker(elems[i]) && Unmarked(elems[i])
    case Obj(members) => forall k :: k in members ==> !IsReserved(k) && Unmarked(members[k])
    case _ => true
  }

  lemma {:induction false} UnmarkedItems(v: Json, n: nat, book: Book)
    requires v.Arr? && n <= |v.elems| && Unmarked(v)
    ensures FillItems(v, n, book) == v.elems[..n] && ItemsAsk(v, n, book) == {} && !ItemsBroken(v, n)
    decreases v, 0, n
  {
    if n > 0 {
      UnmarkedItems(v, n - 1, book);
      UnmarkedStays(v.elems[n - 1], book);
    }
  }

  /** An unmarked value asks for nothing and comes out as it went in. */
  lemma {:induction false} UnmarkedStays(v: Json, book: Book)
    requires Unmarked(v)
    ensures Fill(v, book) == v && Asks(v, book) == {} && !Broken(v)
    decreases v, 1
  {
    match v
    case Arr(elems) =>
      UnmarkedItems(v, |elems|, book);
      assert elems[..|elems|] == elems;
    case Obj(members) =>
      forall k | k in members ensures Fill(members[k], book) == members[k] && Asks(members[k], book) == {} && !Broken(members[k]) {
        UnmarkedStays(members[k], book);
      }
      assert FillMembers(v, members.Keys, book) == members;
      assert MembersAsk(v, members.Keys, book) == {};
    case _ =>
  }
}
