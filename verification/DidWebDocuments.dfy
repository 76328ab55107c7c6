/**
 did:web documents member by member: what a generated document says of each key in each relationship, what import reads of any
 document, and what both amount to over a run.
 */
module DidWebDocuments {
  import opened Wrappers
  import opened Json
  import opened DidWeb
  import opened DidWebRuns
  import Decimal

  // ----- A document described by its members

  ghost predicate IsPublicPart(published: Json, jwk: Jwk) {
    && published.Obj?
    && (forall name :: name in published.members <==>
          name in jwk && name !in ["d", "p", "q", "dp", "dq", "qi", "oth", "k"])
    && (forall name :: name in published.members ==> published.members[name] == jwk[name])
  }

  ghost predicate IsMethod(method': Json, did: string, key: KeyInput) {
    && method'.Obj? && method'.members.Keys == {"id", "type", "controller", "publicKeyJwk"}
    && method'.members["id"] == Str(key.id)
    && method'.members["type"] == Str("JsonWebKey")
    && method'.members["controller"] == Str(did)
    && IsPublicPart(method'.members["publicKeyJwk"], key.jwk)
  }

  ghost predicate Rising(at: seq<nat>) {
    forall i, j :: 0 <= i < j < |at| ==> at[i] < at[j]
  }

  /** `at` lists the positions, from `from` on, of the keys that are not revoked, in order, and `listed` the ids there. */
  ghost predicate ListsAt(listed: seq<string>, at: seq<nat>, keys: seq<KeyInput>, from: nat) {
    && |listed| == |at| && Rising(at)
    && (forall i :: 0 <= i < |at| ==> from <= at[i] < |keys| && !keys[at[i]].revoked && listed[i] == keys[at[i]].id)
    && (forall k: nat :: from <= k < |keys| && !keys[k].revoked ==> k in at)
  }

  /** The member lists the ids of the keys that are not revoked, in the order of the keys. */
  ghost predicate Authorizes(members: map<string, Json>, relationship: string, keys: seq<KeyInput>) {
    && relationship in members && members[relationship].Arr?
    && exists listed, at :: ListsAt(listed, at, keys, 0) && |members[relationship].elems| == |listed|
         && forall i :: 0 <= i < |listed| ==> members[relationship].elems[i] == Str(listed[i])
  }

  ghost predicate Describes(document: Json, did: string, keys: seq<KeyInput>) {
    && document.Obj?
    && document.members.Keys == {"@context", "id", "verificationMethod", "authentication", "assertionMethod",
                                 "capabilityInvocation", "capabilityDelegation"}
    && document.members["@context"]
         == Arr([Str("https://www.w3.org/ns/did/v1"), Str("https://w3id.org/security/suites/jws-2020/v1")])
    && document.members["id"] == Str(did)
    && AreMethods(document.members["verificationMethod"], did, keys)
    && AuthorizesInAll(document.members, keys)
  }

  ghost predicate AreMethods(methods: Json, did: string, keys: seq<KeyInput>) {
    && methods.Arr? && |methods.elems| == |keys|
    && forall i :: 0 <= i < |keys| ==> IsMethod(methods.elems[i], did, keys[i])
  }

  ghost predicate AuthorizesInAll(members: map<string, Json>, keys: seq<KeyInput>) {
    && Authorizes(members, "authentication", keys)
    && Authorizes(members, "assertionMethod", keys)
    && Authorizes(members, "capabilityInvocation", keys)
    && Authorizes(members, "capabilityDelegation", keys)
  }

  // ----- What is generated

  lemma MethodIsMethod(did: string, key: KeyInput)
    ensures IsMethod(MethodJson(did, key), did, key)
  {
  }

  lemma ListsOneMore(listed: seq<string>, at: seq<nat>, keys: seq<KeyInput>, from: nat)
    requires from < |keys| && ListsAt(listed, at, keys, from + 1)
    ensures if keys[from].revoked then ListsAt(listed, at, keys, from)
            else ListsAt([keys[from].id] + listed, [from] + at, keys, from)
  {
  }

  lemma {:induction false} ActiveIdsListed(keys: seq<KeyInput>, rest: seq<KeyInput>, from: nat) returns (at: seq<nat>)
    requires from <= |keys| && rest == keys[from..]
    ensures ListsAt(ActiveIds(rest), at, keys, from)
    decreases |rest|
  {
    if rest == [] {
      at := [];
    } else {
      var later := ActiveIdsListed(keys, rest[1..], from + 1);
      ListsOneMore(ActiveIds(rest[1..]), later, keys, from);
      at := if rest[0].revoked then later else [from] + later;
    }
  }

  lemma RelationshipAuthorizes(members: map<string, Json>, relationship: string, keys: seq<KeyInput>)
    requires relationship in members && members[relationship] == StrList(ActiveIds(keys))
    ensures Authorizes(members, relationship, keys)
  {
    assert keys[0..] == keys;
    var at := ActiveIdsListed(keys, keys, 0);
  }

  lemma ContextIs()
    ensures StrList(CONTEXT)
         == Arr([Str("https://www.w3.org/ns/did/v1"), Str("https://w3id.org/security/suites/jws-2020/v1")])
  {
  }

  lemma MethodsAreMethods(did: string, keys: seq<KeyInput>)
    ensures AreMethods(Arr(MethodsJson(did, keys)), did, keys)
  {
    forall i | 0 <= i < |keys| ensures IsMethod(MethodsJson(did, keys)[i], did, keys[i]) {
      MethodAt(did, keys, i);
      MethodIsMethod(did, keys[i]);
    }
  }

  lemma DocumentAuthorizes(did: string, keys: seq<KeyInput>)
    ensures AuthorizesInAll(Document(did, keys).members, keys)
  {
    var members := Document(did, keys).members;
    RelationshipAuthorizes(members, "authentication", keys);
    RelationshipAuthorizes(members, "assertionMethod", keys);
    RelationshipAuthorizes(members, "capabilityInvocation", keys);
    RelationshipAuthorizes(members, "capabilityDelegation", keys);
  }

  lemma DocumentDescribes(did: string, keys: seq<KeyInput>)
    ensures Describes(Document(did, keys), did, keys)
  {
    ContextIs();
    MethodsAreMethods(did, keys);
    DocumentAuthorizes(did, keys);
  }

  ghost predicate AllRevoked(keys: seq<KeyInput>) {
    forall i :: 0 <= i < |keys| ==> keys[i].revoked
  }

  /** A document is generated exactly when some key is not revoked, and then each of the four relationships lists those keys. */
  lemma GeneratedExactly(did: string, keys: seq<KeyInput>)
    ensures match Generate(did, keys)
      case Failure(NoKeys) => keys == []
      case Failure(NoActiveKey) => keys != [] && AllRevoked(keys)
      case Failure(_) => false
      case Success(document) => !AllRevoked(keys) && Describes(document, did, keys)
  {
    DocumentDescribes(did, keys);
    forall i | 0 <= i < |keys| ensures !keys[i].revoked ==> ActiveIds(keys) != [] {
      ActiveIsListed(keys, keys[i].id);
    }
    if ActiveIds(keys) != [] {
      ActiveIsListed(keys, ActiveIds(keys)[0]);
    }
  }

  // ----- What import reads of any document

  /** The entry is the id, or an embedded method with it. */
  predicate IsEntry(entry: Json, id: string) {
    entry == Str(id) || (entry.Obj? && "id" in entry.members && entry.members["id"] == Str(id))
  }

  ghost predicate ListedIn(doc: map<string, Json>, relationship: string, id: string) {
    && relationship in doc && doc[relationship].Arr?
    && exists i :: 0 <= i < |doc[relationship].elems| && IsEntry(doc[relationship].elems[i], id)
  }

  /** Some relationship lists the id; an empty id is never listed. */
  ghost predicate Listed(doc: map<string, Json>, id: string) {
    && id != ""
    && (|| ListedIn(doc, "assertionMethod", id) || ListedIn(doc, "authentication", id)
        || ListedIn(doc, "capabilityInvocation", id) || ListedIn(doc, "capabilityDelegation", id)
        || ListedIn(doc, "keyAgreement", id))
  }

  /** `fragment` is what follows the first hash sign. */
  ghost predicate HasFragment(id: string, fragment: string) {
    exists did: string :: '#' !in did && id == did + "#" + fragment
  }

  lemma EntryIdIs(entry: Json, id: string)
    ensures EntryId(entry) == Some(id) <==> id != "" && IsEntry(entry, id)
  {
  }

  lemma IdsInAre(doc: map<string, Json>, relationship: string, id: string)
    ensures id in IdsIn(doc, relationship) <==> id != "" && ListedIn(doc, relationship, id)
  {
    if relationship in doc && doc[relationship].Arr? {
      var entries := doc[relationship].elems;
      forall i | 0 <= i < |entries| ensures EntryId(entries[i]) == Some(id) <==> id != "" && IsEntry(entries[i], id) {
        EntryIdIs(entries[i], id);
      }
      if id in IdsIn(doc, relationship) {
        var i :| 0 <= i < |entries| && EntryId(entries[i]) == Some(id);
      }
      if id != "" && ListedIn(doc, relationship, id) {
        var i :| 0 <= i < |entries| && IsEntry(entries[i], id);
        assert EntryId(entries[i]) == Some(id);
      }
    }
  }

  lemma RelationshipIdsAre(doc: map<string, Json>, id: string)
    ensures id in RelationshipIds(doc) <==> Listed(doc, id)
  {
    FiveRelationships(doc);
    IdsInAre(doc, "assertionMethod", id);
    IdsInAre(doc, "authentication", id);
    IdsInAre(doc, "capabilityInvocation", id);
    IdsInAre(doc, "capabilityDelegation", id);
    IdsInAre(doc, "keyAgreement", id);
  }

  lemma {:induction false} FragmentIs(id: string, fragment: string)
    ensures AfterHash(id) == Some(fragment) <==> HasFragment(id, fragment)
  {
    if id != "" && id[0] != '#' {
      FragmentIs(id[1..], fragment);
      assert id == [id[0]] + id[1..];
      if HasFragment(id[1..], fragment) {
        var did: string :| '#' !in did && id[1..] == did + "#" + fragment;
        assert id == ([id[0]] + did) + "#" + fragment;
      }
      if HasFragment(id, fragment) {
        var did: string :| '#' !in did && id == did + "#" + fragment;
        assert did != "" && id[1..] == did[1..] + "#" + fragment;
      }
    } else if id != "" {
      if HasFragment(id, fragment) {
        var did: string :| '#' !in did && id == did + "#" + fragment;
        assert did == "" && id[1..] == fragment;
      }
      if AfterHash(id) == Some(fragment) {
        assert id == "" + "#" + fragment;
      }
    }
  }

  /** The id of a key, and which ids have an index: those whose fragment is `key-` and digits of a safe integer. */
  lemma KeyIndexExactly(did: string, id: string, n: nat)
    ensures MethodId(did, n) == did + "#key-" + Decimal.Print(n)
    ensures KeyIndex(id) == Some(n) <==>
      && n <= 0x1F_FFFF_FFFF_FFFF
      && exists digits :: digits != "" && Decimal.AllDigits(digits) && Decimal.Read(digits) == n
           && (HasFragment(id, "key-" + digits) || ('#' !in id && id == "key-" + digits))
  {
    assert did + "#" + "key-" + Decimal.Print(n) == did + "#key-" + Decimal.Print(n);
    FragmentOfIs(id, FragmentOf(id));
    if KeyIndex(id) == Some(n) {
      var digits := FragmentOf(id)[4..];
      assert FragmentOf(id) == "key-" + digits;
    }
    if digits :| digits != "" && Decimal.AllDigits(digits) && Decimal.Read(digits) == n
                 && (HasFragment(id, "key-" + digits) || ('#' !in id && id == "key-" + digits)) {
      FragmentOfIs(id, "key-" + digits);
      assert ("key-" + digits)[4..] == digits;
    }
  }

  lemma {:induction false} NoFragment(id: string)
    ensures AfterHash(id).None? <==> '#' !in id
  {
    if id != "" {
      assert id == [id[0]] + id[1..];
      NoFragment(id[1..]);
    }
  }

  lemma FragmentOfIs(id: string, fragment: string)
    ensures FragmentOf(id) == fragment <==> HasFragment(id, fragment) || ('#' !in id && id == fragment)
  {
    NoFragment(id);
    FragmentIs(id, fragment);
    if AfterHash(id).Some? {
      FragmentIs(id, AfterHash(id).value);
    }
  }

  /** A relationship lists the id, or its bare fragment. */
  ghost predicate InRelationship(doc: map<string, Json>, id: string) {
    Listed(doc, id) || exists fragment :: HasFragment(id, fragment) && Listed(doc, "#" + fragment)
  }

  lemma MentionedListed(doc: map<string, Json>, id: string)
    ensures Mentioned(id, RelationshipIds(doc)) <==> InRelationship(doc, id)
  {
    RelationshipIdsAre(doc, id);
    if AfterHash(id).Some? {
      FragmentIs(id, AfterHash(id).value);
      RelationshipIdsAre(doc, "#" + AfterHash(id).value);
    }
    if fragment :| HasFragment(id, fragment) && Listed(doc, "#" + fragment) {
      FragmentIs(id, fragment);
    }
  }

  /** A method counts when it has an id and an object or array for a key. */
  predicate Importable(method': Json) {
    && method'.Obj? && "id" in method'.members && method'.members["id"].Str?
    && "publicKeyJwk" in method'.members
    && (method'.members["publicKeyJwk"].Obj? || method'.members["publicKeyJwk"].Arr?)
  }

  /** The key has the method's id and public members, and is revoked when no relationship lists it. */
  ghost predicate ReadFrom(key: ImportedKey, method': Json, doc: map<string, Json>) {
    && Importable(method') && method'.members["id"] == Str(key.id)
    && (method'.members["publicKeyJwk"].Obj? ==>
          IsPublicPart(Obj(key.jwk), method'.members["publicKeyJwk"].members))
    && key.index == KeyIndex(key.id)
    && (key.revoked <==> !InRelationship(doc, key.id))
  }

  /** `at` lists the positions of the methods that count, in order, and `keys` the keys read there. */
  ghost predicate KeysReadAt(keys: seq<ImportedKey>, at: seq<nat>, methods: seq<Json>, doc: map<string, Json>) {
    && |keys| == |at| && Rising(at)
    && (forall i :: 0 <= i < |at| ==> at[i] < |methods| && ReadFrom(keys[i], methods[at[i]], doc))
    && (forall k: nat :: k < |methods| && Importable(methods[k]) ==> k in at)
  }

  /** The method is passed over, or its key is read from it. */
  ghost predicate IsReadAs(key: Option<ImportedKey>, method': Json, doc: map<string, Json>) {
    match key
    case None => !Importable(method')
    case Some(k) => ReadFrom(k, method', doc)
  }

  lemma KeyIsRead(method': Json, doc: map<string, Json>)
    ensures IsReadAs(KeyOf(method', RelationshipIds(doc)), method', doc)
  {
    if KeyOf(method', RelationshipIds(doc)).Some? {
      MentionedListed(doc, method'.members["id"].s);
    }
  }

  lemma ReadOneMore(keys: seq<ImportedKey>, at: seq<nat>, methods: seq<Json>, n: nat, doc: map<string, Json>, key: Option<ImportedKey>)
    requires n < |methods| && KeysReadAt(keys, at, methods[..n], doc) && IsReadAs(key, methods[n], doc)
    ensures key.None? ==> KeysReadAt(keys, at, methods[..n + 1], doc)
    ensures key.Some? ==> KeysReadAt(keys + [key.value], at + [n], methods[..n + 1], doc)
  {
    assert forall i :: 0 <= i < |at| ==> at[i] in at;
    assert methods[..n + 1][n] == methods[n];
  }

  lemma KeysOfOneMore(methods: seq<Json>, n: nat, ids: set<string>, key: Option<ImportedKey>)
    requires n < |methods| && key == KeyOf(methods[n], ids)
    ensures KeysOf(methods, n + 1, ids) == KeysOf(methods, n, ids) + if key.Some? then [key.value] else []
  {
  }

  lemma {:induction false} KeysAreRead(methods: seq<Json>, n: nat, doc: map<string, Json>, ids: set<string>) returns (at: seq<nat>)
    requires n <= |methods| && forall i :: 0 <= i < n ==> IsReadAs(KeyOf(methods[i], ids), methods[i], doc)
    ensures KeysReadAt(KeysOf(methods, n, ids), at, methods[..n], doc)
  {
    if n == 0 {
      at := [];
    } else {
      var before := KeysAreRead(methods, n - 1, doc, ids);
      at := NextIsRead(methods, n - 1, doc, ids, before, KeyOf(methods[n - 1], ids));
    }
  }

  lemma NextIsRead(methods: seq<Json>, n: nat, doc: map<string, Json>, ids: set<string>, before: seq<nat>, key: Option<ImportedKey>)
    returns (at: seq<nat>)
    requires n < |methods| && key == KeyOf(methods[n], ids) && IsReadAs(key, methods[n], doc)
    requires KeysReadAt(KeysOf(methods, n, ids), before, methods[..n], doc)
    ensures KeysReadAt(KeysOf(methods, n + 1, ids), at, methods[..n + 1], doc)
  {
    KeysOfOneMore(methods, n, ids, key);
    ReadOneMore(KeysOf(methods, n, ids), before, methods, n, doc, key);
    if key.None? {
      assert KeysOf(methods, n, ids) + [] == KeysOf(methods, n, ids);
    }
    at := if key.Some? then before + [n] else before;
  }

  predicate IsDidWebDocument(document: Json) {
    && document.Obj? && "id" in document.members && document.members["id"].Str?
    && "did:web:" <= document.members["id"].s
  }

  /** Import of any JSON: what is refused, and which keys are read, in which order and with which flags. */
  lemma ImportReads(document: Json) returns (at: seq<nat>)
    ensures match ImportOf(document)
      case Failure(NotAnObject) => !document.Obj? && !document.Arr?
      case Failure(NotDidWeb) => (document.Obj? || document.Arr?) && !IsDidWebDocument(document)
      case Failure(_) => false
      case Success(r) =>
        && IsDidWebDocument(document) && document.members["id"] == Str(r.did)
        && var doc := document.members;
           var methods := if "verificationMethod" in doc && doc["verificationMethod"].Arr?
                          then doc["verificationMethod"].elems else [];
           KeysReadAt(r.keys, at, methods, doc)
  {
    at := [];
    if document.Obj? {
      var methods := MethodsOf(document.members);
      forall i | 0 <= i < |methods|
        ensures IsReadAs(KeyOf(methods[i], RelationshipIds(document.members)), methods[i], document.members)
      {
        KeyIsRead(methods[i], document.members);
      }
      at := KeysAreRead(methods, |methods|, document.members, RelationshipIds(document.members));
      assert methods[..|methods|] == methods;
    }
  }

  /** Rotating and revoking are only for a document of the same DID. */
  lemma OnlyOwnDocument(did: string, document: Json, index: nat, jwk: Jwk)
    ensures Rotate(did, document, index, jwk).Success? ==> IsDidWebDocument(document) && document.members["id"] == Str(did)
    ensures Rotate(did, document, index, jwk) == Failure(DidMismatch) <==>
      IsDidWebDocument(document) && document.members["id"] != Str(did)
  {
  }

  // ----- Runs

  /** What one operation does to the keys, key by key. */
  lemma StepExactly(did: string, keys: seq<Key>, op: Op)
    ensures var later := StepKeys(did, keys, op);
      match op
      case Rotation(index, jwk) =>
        if index < 0x20_0000_0000_0000 && exists i :: 0 <= i < |keys| && keys[i].index == index then
          later == keys
        else
          && |later| == |keys| + 1 && later[..|keys|] == keys
          && later[|keys|].index == index && !later[|keys|].revoked && IsPublicPart(Obj(later[|keys|].jwk), jwk)
      case Revocation(id) =>
        if exists i :: 0 <= i < |keys| && !keys[i].revoked && MethodId(did, keys[i].index) != id then
          && |later| == |keys|
          && forall i :: 0 <= i < |keys| ==>
               && later[i].index == keys[i].index && later[i].jwk == keys[i].jwk
               && (later[i].revoked <==> keys[i].revoked || MethodId(did, keys[i].index) == id)
        else
          later == keys
  {
    if op.Revocation? {
      var marked := Marked(did, keys, op.id);
      forall i | 0 <= i < |keys|
        ensures !marked[i].revoked <==> !keys[i].revoked && MethodId(did, keys[i].index) != op.id
      {
      }
    }
  }

  predicate Contains(members: map<string, Json>, relationship: string, id: string) {
    relationship in members && members[relationship].Arr? && Str(id) in members[relationship].elems
  }

  /** The key may be used for everything that the document can authorize. */
  predicate InEveryRelationship(members: map<string, Json>, id: string) {
    && Contains(members, "authentication", id) && Contains(members, "assertionMethod", id)
    && Contains(members, "capabilityInvocation", id) && Contains(members, "capabilityDelegation", id)
  }

  lemma ActiveIsContained(members: map<string, Json>, relationship: string, keys: seq<KeyInput>, i: nat)
    requires Authorizes(members, relationship, keys) && i < |keys| && !keys[i].revoked
    ensures Contains(members, relationship, keys[i].id)
  {
    var elems := members[relationship].elems;
    var listed, at :| ListsAt(listed, at, keys, 0) && |elems| == |listed|
      && forall j :: 0 <= j < |listed| ==> elems[j] == Str(listed[j]);
    var j :| 0 <= j < |at| && at[j] == i;
    assert elems[j] == Str(keys[i].id);
  }

  lemma ActiveInEvery(did: string, keys: seq<KeyInput>, i: nat)
    requires i < |keys| && !keys[i].revoked
    ensures InEveryRelationship(Document(did, keys).members, keys[i].id)
  {
    var members := Document(did, keys).members;
    DocumentAuthorizes(did, keys);
    ActiveIsContained(members, "authentication", keys, i);
    ActiveIsContained(members, "assertionMethod", keys, i);
    ActiveIsContained(members, "capabilityInvocation", keys, i);
    ActiveIsContained(members, "capabilityDelegation", keys, i);
  }

  /** An active key is in all four relationships, a revoked one in none, not even by its fragment. */
  lemma AuthorizedExactly(did: string, keys: seq<Key>, i: nat)
    requires IsDid(did) && DistinctIndices(keys) && i < |keys|
    ensures var members, id := DocumentOf(did, keys).members, MethodId(did, keys[i].index);
      if keys[i].revoked then !InRelationship(members, id) else InEveryRelationship(members, id)
  {
    if keys[i].revoked {
      RevokedExactlyUnmentioned(did, keys, i);
      MentionedListed(DocumentOf(did, keys).members, MethodId(did, keys[i].index));
    } else {
      ActiveInEvery(did, InputsOf(did, keys), i);
    }
  }

  /**
   Over any run in which no unsafe index is used twice: the document describes the keys of the run, an active key is in all four
   relationships and a revoked one in none, and whatever is revoked after a part `a` of the run stays so.
   */
  lemma AuthorizedThroughout(did: string, keys: seq<Key>, a: seq<Op>, b: seq<Op>, i: nat)
    requires IsDid(did) && Managed(keys) && NeverRepeats(keys, a + b)
    requires i < |RunKeys(did, keys, a + b)|
    ensures var before, after := RunKeys(did, keys, a), RunKeys(did, keys, a + b);
      var document, id := RunDocument(did, DocumentOf(did, keys), a + b), MethodId(did, after[i].index);
      && Describes(document, did, InputsOf(did, after))
      && (if after[i].revoked then !InRelationship(document.members, id) else InEveryRelationship(document.members, id))
      && (i < |before| && before[i].revoked ==> after[i].revoked)
  {
    RevokedStaysOut(did, keys, a, b, i);
    var after := RunKeys(did, keys, a + b);
    DocumentDescribes(did, InputsOf(did, after));
    AuthorizedExactly(did, after, i);
  }
}
