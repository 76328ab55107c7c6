/**
 The did:web key set (packages/did/src/did-web.ts): a document is generated from keys and imported back into keys.

 Keys of a document are JSON, so the documents of this model are too: whatever an operator hands in can be imported.
 A revoked key stays among the verification methods and is left out of every relationship, which is also how import
 recognises it.
 */
module DidWeb {
  import opened Wrappers
  import opened Json
  import Decimal

  type Jwk = map<string, Json>

  datatype KeyInput = KeyInput(id: string, jwk: Jwk, revoked: bool)

  datatype ImportedKey = ImportedKey(id: string, jwk: Jwk, index: Option<nat>, revoked: bool)

  datatype Imported = Imported(did: string, keys: seq<ImportedKey>, maxKeyIndex: int, usedIndices: seq<nat>)

  datatype DidError = NoKeys | NoActiveKey | NotAnObject | NotDidWeb

  // ----- Verification-method ids

  const MAX_SAFE: nat := 0x1F_FFFF_FFFF_FFFF

  const KEY_PREFIX := "key-"
  const DID_WEB := "did:web:"

  function MethodId(did: string, index: nat): string {
    did + "#" + KEY_PREFIX + Decimal.Print(index)
  }

  /** What follows the first `#`, if there is one. */
  function AfterHash(id: string): Option<string> {
    if id == "" then None
    else if id[0] == '#' then Some(id[1..])
    else AfterHash(id[1..])
  }

  function FragmentOf(id: string): string {
    match AfterHash(id) case Some(fragment) => fragment case None => id
  }

  /** The index of a `key-<n>` fragment, when it is a safe integer. */
  function KeyIndex(id: string): Option<nat> {
    var fragment := FragmentOf(id);
    if KEY_PREFIX <= fragment && |fragment| > 4 && Decimal.AllDigits(fragment[4..]) then
      var index := Decimal.Read(fragment[4..]);
      if index <= MAX_SAFE then Some(index) else None
    else
      None
  }

  // ----- Generating

  const PRIVATE_MEMBERS := {"d", "p", "q", "dp", "dq", "qi", "oth", "k"}

  function PublicJwk(jwk: Jwk): Jwk {
    jwk - PRIVATE_MEMBERS
  }

  function MethodJson(did: string, key: KeyInput): Json {
    Obj(map[
      "id" := Str(key.id), "type" := Str("JsonWebKey"), "controller" := Str(did),
      "publicKeyJwk" := Obj(PublicJwk(key.jwk))])
  }

  function MethodsJson(did: string, keys: seq<KeyInput>): (methods: seq<Json>)
    ensures |methods| == |keys|
  {
    if keys == [] then [] else [MethodJson(did, keys[0])] + MethodsJson(did, keys[1..])
  }

  function ActiveIds(keys: seq<KeyInput>): seq<string> {
    if keys == [] then []
    else (if keys[0].revoked then [] else [keys[0].id]) + ActiveIds(keys[1..])
  }

  const CONTEXT := ["https://www.w3.org/ns/did/v1", "https://w3id.org/security/suites/jws-2020/v1"]

  function Document(did: string, keys: seq<KeyInput>): Json {
    var active := StrList(ActiveIds(keys));
    Obj(map[
      "@context" := StrList(CONTEXT), "id" := Str(did), "verificationMethod" := Arr(MethodsJson(did, keys)),
      "authentication" := active, "assertionMethod" := active,
      "capabilityInvocation" := active, "capabilityDelegation" := active])
  }

  function Generate(did: string, keys: seq<KeyInput>): Result<Json, DidError> {
    if keys == [] then Failure(NoKeys)
    else if ActiveIds(keys) == [] then Failure(NoActiveKey)
    else Success(Document(did, keys))
  }

  // ----- Importing

  /** An entry is an id, or an embedded method with one; the empty id counts for nothing. */
  function EntryId(entry: Json): Option<string> {
    match entry
    case Str(s) => if s != "" then Some(s) else None
    case Obj(members) =>
      if "id" in members && members["id"].Str? && members["id"].s != "" then Some(members["id"].s) else None
    case _ => None
  }

  function EntryIds(entries: seq<Json>): set<string> {
    set i | 0 <= i < |entries| && EntryId(entries[i]).Some? :: EntryId(entries[i]).value
  }

  const RELATIONSHIPS := ["assertionMethod", "authentication", "capabilityInvocation", "capabilityDelegation", "keyAgreement"]

  function IdsIn(doc: map<string, Json>, relationship: string): set<string> {
    if relationship in doc && doc[relationship].Arr? then EntryIds(doc[relationship].elems) else {}
  }

  /** Every id that some of the first `n` relationships mentions. */
  function IdsUpTo(doc: map<string, Json>, n: nat): set<string>
    requires n <= |RELATIONSHIPS|
  {
    if n == 0 then {} else IdsUpTo(doc, n - 1) + IdsIn(doc, RELATIONSHIPS[n - 1])
  }

  function RelationshipIds(doc: map<string, Json>): set<string> {
    IdsUpTo(doc, |RELATIONSHIPS|)
  }

  /** A key is mentioned by its id, or by its bare fragment. */
  predicate Mentioned(id: string, ids: set<string>) {
    id in ids || (AfterHash(id).Some? && "#" + AfterHash(id).value in ids)
  }

  /** Spreading an array gives its elements the names of their positions. */
  function Members(v: Json): Jwk
    requires v.Obj? || v.Arr?
  {
    match v
    case Obj(members) => members
    case Arr(elems) => ArrayMembers(elems)
  }

  function ArrayMembers(elems: seq<Json>): Jwk {
    if elems == [] then map[]
    else ArrayMembers(elems[..|elems| - 1])[Decimal.Print(|elems| - 1) := elems[|elems| - 1]]
  }

  /** The key of a verification method; methods without an id or a JWK are passed over. */
  function KeyOf(method': Json, ids: set<string>): Option<ImportedKey> {
    if method'.Obj? && "id" in method'.members && "publicKeyJwk" in method'.members then
      var id, jwk := method'.members["id"], method'.members["publicKeyJwk"];
      if id.Str? && (jwk.Obj? || jwk.Arr?) then
        Some(ImportedKey(id.s, PublicJwk(Members(jwk)), KeyIndex(id.s), !Mentioned(id.s, ids)))
      else
        None
    else
      None
  }

  /** The keys of the first `n` methods. */
  function KeysOf(methods: seq<Json>, n: nat, ids: set<string>): seq<ImportedKey>
    requires n <= |methods|
  {
    if n == 0 then []
    else KeysOf(methods, n - 1, ids) + (match KeyOf(methods[n - 1], ids) case Some(key) => [key] case None => [])
  }

  function Insert(n: nat, sorted: seq<nat>): seq<nat> {
    if sorted == [] || n <= sorted[0] then [n] + sorted else [sorted[0]] + Insert(n, sorted[1..])
  }

  /** The indices of the keys, ascending. */
  function IndicesOf(keys: seq<ImportedKey>): seq<nat> {
    if keys == [] then []
    else match keys[0].index
      case Some(index) => Insert(index, IndicesOf(keys[1..]))
      case None => IndicesOf(keys[1..])
  }

  function MethodsOf(doc: map<string, Json>): seq<Json> {
    if "verificationMethod" in doc && doc["verificationMethod"].Arr? then doc["verificationMethod"].elems else []
  }

  function ImportedFrom(did: string, keys: seq<ImportedKey>): Imported {
    var used := IndicesOf(keys);
    Imported(did, keys, if |used| > 0 then used[|used| - 1] else -1, used)
  }

  function ImportOf(document: Json): Result<Imported, DidError> {
    match document
    case Obj(doc) =>
      if "id" in doc && doc["id"].Str? && DID_WEB <= doc["id"].s then
        var methods := MethodsOf(doc);
        Success(ImportedFrom(doc["id"].s, KeysOf(methods, |methods|, RelationshipIds(doc))))
      else
        Failure(NotDidWeb)
    case Arr(_) => Failure(NotDidWeb)
    case _ => Failure(NotAnObject)
  }

  method CollectRelationshipIds(doc: map<string, Json>) returns (ids: set<string>)
    ensures ids == RelationshipIds(doc)
  {
    ids := {};
    var i := 0;
    while i < |RELATIONSHIPS|
      invariant 0 <= i <= |RELATIONSHIPS|
      invariant ids == IdsUpTo(doc, i)
    {
      var relationship := RELATIONSHIPS[i];
      var found := {};
      if relationship in doc && doc[relationship].Arr? {
        found := CollectEntryIds(doc[relationship].elems);
      }
      ids := ids + found;
      i := i + 1;
    }
  }

  method CollectEntryIds(entries: seq<Json>) returns (ids: set<string>)
    ensures ids == EntryIds(entries)
  {
    ids := {};
    var i := 0;
    while i < |entries|
      invariant 0 <= i <= |entries|
      invariant ids == set k | 0 <= k < i && EntryId(entries[k]).Some? :: EntryId(entries[k]).value
    {
      var id := EntryId(entries[i]);
      if id.Some? {
        ids := ids + {id.value};
      }
      i := i + 1;
    }
  }

  method ImportDocument(document: Json) returns (r: Result<Imported, DidError>)
    ensures r == ImportOf(document)
  {
    if !document.Obj? && !document.Arr? {
      return Failure(NotAnObject);
    }
    if !(document.Obj? && "id" in document.members && document.members["id"].Str? && DID_WEB <= document.members["id"].s) {
      return Failure(NotDidWeb);
    }
    var doc := document.members;
    var ids := CollectRelationshipIds(doc);
    var methods := MethodsOf(doc);
    var keys := [];
    var i := 0;
    while i < |methods|
      invariant 0 <= i <= |methods|
      invariant keys == KeysOf(methods, i, ids)
    {
      var key := KeyOf(methods[i], ids);
      if key.Some? {
        keys := keys + [key.value];
      }
      i := i + 1;
    }
    return Success(ImportedFrom(doc["id"].s, keys));
  }

  // ----- Importing what was generated

  /** What import reads of the relationships of a generated document, taken together, is the active ids. */
  lemma GeneratedIds(did: string, keys: seq<KeyInput>)
    ensures RelationshipIds(Document(did, keys).members) == EntryIds(StrList(ActiveIds(keys)).elems)
  {
    var doc, active := Document(did, keys).members, EntryIds(StrList(ActiveIds(keys)).elems);
    assert IdsIn(doc, RELATIONSHIPS[0]) == active;
    assert IdsIn(doc, RELATIONSHIPS[1]) == active;
    assert IdsIn(doc, RELATIONSHIPS[2]) == active;
    assert IdsIn(doc, RELATIONSHIPS[3]) == active;
    assert IdsIn(doc, RELATIONSHIPS[4]) == {};
    FiveRelationships(doc);
  }

  lemma FiveRelationships(doc: map<string, Json>)
    ensures RelationshipIds(doc)
         == IdsIn(doc, RELATIONSHIPS[0]) + IdsIn(doc, RELATIONSHIPS[1]) + IdsIn(doc, RELATIONSHIPS[2])
            + IdsIn(doc, RELATIONSHIPS[3]) + IdsIn(doc, RELATIONSHIPS[4])
  {
    assert IdsUpTo(doc, 1) == IdsIn(doc, RELATIONSHIPS[0]);
    assert IdsUpTo(doc, 2) == IdsUpTo(doc, 1) + IdsIn(doc, RELATIONSHIPS[1]);
    assert IdsUpTo(doc, 3) == IdsUpTo(doc, 2) + IdsIn(doc, RELATIONSHIPS[2]);
    assert IdsUpTo(doc, 4) == IdsUpTo(doc, 3) + IdsIn(doc, RELATIONSHIPS[3]);
  }

  lemma IdsOfStrList(texts: seq<string>, id: string)
    ensures id in EntryIds(StrList(texts).elems) <==> id in texts && id != ""
  {
    var elems := StrList(texts).elems;
    if id in texts && id != "" {
      var i :| 0 <= i < |texts| && texts[i] == id;
      assert EntryId(elems[i]) == Some(id);
    }
  }

  lemma {:induction false} ActiveIsListed(keys: seq<KeyInput>, id: string)
    ensures id in ActiveIds(keys) <==> exists i :: 0 <= i < |keys| && !keys[i].revoked && keys[i].id == id
  {
    if keys != [] {
      ActiveIsListed(keys[1..], id);
      assert keys == [keys[0]] + keys[1..];
      if exists i :: 0 <= i < |keys[1..]| && !keys[1..][i].revoked && keys[1..][i].id == id {
        var i :| 0 <= i < |keys[1..]| && !keys[1..][i].revoked && keys[1..][i].id == id;
        assert keys[i + 1] == keys[1..][i];
      }
    }
  }

  /** What import makes of a key, given whether its id is mentioned. */
  function Reimported(key: KeyInput, ids: set<string>): ImportedKey {
    ImportedKey(key.id, PublicJwk(key.jwk), KeyIndex(key.id), !Mentioned(key.id, ids))
  }

  lemma KeyOfMethod(did: string, key: KeyInput, ids: set<string>)
    ensures KeyOf(MethodJson(did, key), ids) == Some(Reimported(key, ids))
  {
    assert PublicJwk(PublicJwk(key.jwk)) == PublicJwk(key.jwk);
  }

  lemma {:induction false} MethodAt(did: string, keys: seq<KeyInput>, i: nat)
    requires i < |keys|
    ensures MethodsJson(did, keys)[i] == MethodJson(did, keys[i])
  {
    if i > 0 {
      MethodAt(did, keys[1..], i - 1);
    }
  }

  lemma MethodKey(did: string, keys: seq<KeyInput>, i: nat, ids: set<string>)
    requires i < |keys|
    ensures KeyOf(MethodsJson(did, keys)[i], ids) == Some(Reimported(keys[i], ids))
  {
    MethodAt(did, keys, i);
    KeyOfMethod(did, keys[i], ids);
  }

  lemma KeysOfNext(methods: seq<Json>, n: nat, ids: set<string>, key: ImportedKey)
    requires 0 < n <= |methods| && KeyOf(methods[n - 1], ids) == Some(key)
    ensures KeysOf(methods, n, ids) == KeysOf(methods, n - 1, ids) + [key]
  {
  }

  lemma TakeOneMore<T>(s: seq<T>, n: nat)
    requires 0 < n <= |s|
    ensures s[..n] == s[..n - 1] + [s[n - 1]]
  {
  }

  lemma {:induction false} KeysOfAll(methods: seq<Json>, n: nat, ids: set<string>, keys: seq<ImportedKey>)
    requires n <= |methods| && n <= |keys| && forall i :: 0 <= i < n ==> KeyOf(methods[i], ids) == Some(keys[i])
    ensures KeysOf(methods, n, ids) == keys[..n]
  {
    if n > 0 {
      KeysOfAll(methods, n - 1, ids, keys);
      KeysOfNext(methods, n, ids, keys[n - 1]);
      TakeOneMore(keys, n);
    }
  }

  function ReimportedAll(keys: seq<KeyInput>, ids: set<string>): (r: seq<ImportedKey>)
    ensures |r| == |keys|
  {
    seq(|keys|, i requires 0 <= i < |keys| => Reimported(keys[i], ids))
  }

  lemma KeysOfGenerated(did: string, keys: seq<KeyInput>, ids: set<string>)
    ensures KeysOf(MethodsJson(did, keys), |keys|, ids) == ReimportedAll(keys, ids)
  {
    var methods, all := MethodsJson(did, keys), ReimportedAll(keys, ids);
    forall i | 0 <= i < |keys| ensures KeyOf(methods[i], ids) == Some(all[i]) {
      MethodKey(did, keys, i, ids);
    }
    KeysOfAll(methods, |keys|, ids, all);
    assert all[..|keys|] == all;
  }

  /** A document can tell which of its keys are revoked: no revoked id looks like an active one. */
  ghost predicate Tellable(keys: seq<KeyInput>) {
    && (forall i :: 0 <= i < |keys| && !keys[i].revoked ==> keys[i].id != "")
    && (forall i, j :: 0 <= i < |keys| && 0 <= j < |keys| && keys[i].revoked && !keys[j].revoked && keys[j].id != "" ==>
          keys[j].id != keys[i].id && Some(keys[j].id) != BareFragment(keys[i].id))
  }

  function BareFragment(id: string): Option<string> {
    match AfterHash(id) case Some(fragment) => Some("#" + fragment) case None => None
  }

  predicate IsActiveId(id: string, keys: seq<KeyInput>) {
    id != "" && exists i :: 0 <= i < |keys| && !keys[i].revoked && keys[i].id == id
  }

  lemma MentionedIs(did: string, keys: seq<KeyInput>, id: string)
    ensures Mentioned(id, RelationshipIds(Document(did, keys).members)) <==>
      IsActiveId(id, keys) || (BareFragment(id).Some? && IsActiveId(BareFragment(id).value, keys))
  {
    GeneratedIds(did, keys);
    IdsOfStrList(ActiveIds(keys), id);
    ActiveIsListed(keys, id);
    if BareFragment(id).Some? {
      IdsOfStrList(ActiveIds(keys), BareFragment(id).value);
      ActiveIsListed(keys, BareFragment(id).value);
    }
  }

  /** The empty id has no fragment, so no relationship mentions it. */
  lemma RevokedReadsBack(did: string, keys: seq<KeyInput>)
    ensures Tellable(keys) <==>
      forall i :: 0 <= i < |keys| ==>
        (keys[i].revoked <==> !Mentioned(keys[i].id, RelationshipIds(Document(did, keys).members)))
  {
    forall i | 0 <= i < |keys|
      ensures Mentioned(keys[i].id, RelationshipIds(Document(did, keys).members)) <==>
        IsActiveId(keys[i].id, keys) || (BareFragment(keys[i].id).Some? && IsActiveId(BareFragment(keys[i].id).value, keys))
    {
      MentionedIs(did, keys, keys[i].id);
    }
  }

  /** Ids, order, public members and indices are those of the keys. */
  predicate CarriedOver(got: seq<ImportedKey>, keys: seq<KeyInput>) {
    && |got| == |keys|
    && forall i :: 0 <= i < |keys| ==>
         got[i].id == keys[i].id && got[i].jwk == PublicJwk(keys[i].jwk) && got[i].index == KeyIndex(keys[i].id)
  }

  predicate SameFlags(got: seq<ImportedKey>, keys: seq<KeyInput>)
    requires |got| == |keys|
  {
    forall i :: 0 <= i < |keys| ==> got[i].revoked == keys[i].revoked
  }

  function KeysFrom(did: string, keys: seq<KeyInput>): seq<ImportedKey> {
    KeysOf(MethodsJson(did, keys), |keys|, RelationshipIds(Document(did, keys).members))
  }

  lemma ImportOfDocument(did: string, keys: seq<KeyInput>)
    requires DID_WEB <= did
    ensures ImportOf(Document(did, keys)) == Success(ImportedFrom(did, KeysFrom(did, keys)))
  {
  }

  lemma KeysFromDocument(did: string, keys: seq<KeyInput>)
    ensures CarriedOver(KeysFrom(did, keys), keys)
    ensures SameFlags(KeysFrom(did, keys), keys) <==> Tellable(keys)
  {
    KeysOfGenerated(did, keys, RelationshipIds(Document(did, keys).members));
    RevokedReadsBack(did, keys);
  }

  /**
   Import inverts generate: ids, order, public members and indices always, and the revoked flags exactly when the
   document can tell them.
   */
  lemma ImportInvertsGenerate(did: string, keys: seq<KeyInput>)
    requires DID_WEB <= did && Generate(did, keys).Success?
    ensures var r := ImportOf(Generate(did, keys).value);
      && r.Success? && r.value.did == did && CarriedOver(r.value.keys, keys)
      && (SameFlags(r.value.keys, keys) <==> Tellable(keys))
  {
    ImportOfDocument(did, keys);
    KeysFromDocument(did, keys);
  }

  /** No private member is published or imported, and every other member is kept. */
  lemma NothingPrivate(did: string, keys: seq<KeyInput>, i: nat, methods: seq<Json>, ids: set<string>, n: nat)
    requires i < |keys| && n <= |methods|
    ensures var published := MethodsJson(did, keys)[i];
      && published.Obj? && "publicKeyJwk" in published.members && published.members["publicKeyJwk"].Obj?
      && var jwk := published.members["publicKeyJwk"].members;
         forall m :: (m in jwk <==> m in keys[i].jwk && m !in PRIVATE_MEMBERS) && (m in jwk ==> jwk[m] == keys[i].jwk[m])
    ensures forall k :: k in KeysOf(methods, n, ids) ==> k.jwk.Keys !! PRIVATE_MEMBERS
  {
    MethodAt(did, keys, i);
    ImportedIsPublic(methods, n, ids);
  }

  lemma {:induction false} ImportedIsPublic(methods: seq<Json>, n: nat, ids: set<string>)
    requires n <= |methods|
    ensures forall k :: k in KeysOf(methods, n, ids) ==> k.jwk.Keys !! PRIVATE_MEMBERS
  {
    if n > 0 {
      ImportedIsPublic(methods, n - 1, ids);
    }
  }
}
