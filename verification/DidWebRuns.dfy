/**
 The life of a did:web key set (packages/did/src/did-web.ts and its use in apps/server/src/routes/keys.ts): every
 rotation and revocation starts from nothing but the current document.
 */
module DidWebRuns {
  import opened Wrappers
  import opened Json
  import opened DidWeb
  import Decimal

  datatype KeysError = DocumentError(error: DidError) | DidMismatch | IndexTaken

  // ----- Rotating and revoking a document

  function CarryForward(keys: seq<ImportedKey>): (inputs: seq<KeyInput>)
    ensures |inputs| == |keys|
  {
    seq(|keys|, i requires 0 <= i < |keys| => KeyInput(keys[i].id, keys[i].jwk, keys[i].revoked))
  }

  /** Adds a key at an index that the operator chooses and no key has taken. */
  function Rotate(did: string, document: Json, newIndex: nat, jwk: Jwk): Result<Json, KeysError> {
    match ImportOf(document)
    case Failure(e) => Failure(DocumentError(e))
    case Success(current) =>
      if current.did != did then Failure(DidMismatch)
      else if newIndex in current.usedIndices then Failure(IndexTaken)
      else
        match Generate(did, CarryForward(current.keys) + [KeyInput(MethodId(did, newIndex), jwk, false)])
        case Failure(e) => Failure(DocumentError(e))
        case Success(next) => Success(next)
  }

  function MarkRevoked(keys: seq<KeyInput>, id: string): (marked: seq<KeyInput>)
    ensures |marked| == |keys|
  {
    seq(|keys|, i requires 0 <= i < |keys| => keys[i].(revoked := keys[i].revoked || keys[i].id == id))
  }

  /** Marks a key; None when that would leave no active key, and the document stays. */
  function Revoke(did: string, document: Json, id: string): Result<Option<Json>, KeysError> {
    match ImportOf(document)
    case Failure(e) => Failure(DocumentError(e))
    case Success(current) =>
      var keys := MarkRevoked(CarryForward(current.keys), id);
      if ActiveIds(keys) == [] then Success(None)
      else
        match Generate(did, keys)
        case Failure(e) => Failure(DocumentError(e))
        case Success(next) => Success(Some(next))
  }

  // ----- Canonical ids

  lemma {:induction false} AfterHashIs(did: string, rest: string)
    requires '#' !in did
    ensures AfterHash(did + "#" + rest) == Some(rest)
  {
    if did == "" {
      assert did + "#" + rest == "#" + rest;
    } else {
      AfterHashIs(did[1..], rest);
      assert (did + "#" + rest)[1..] == did[1..] + "#" + rest;
    }
  }

  lemma MethodIdFragment(did: string, index: nat)
    requires '#' !in did
    ensures AfterHash(MethodId(did, index)) == Some(KEY_PREFIX + Decimal.Print(index))
  {
    assert MethodId(did, index) == did + "#" + (KEY_PREFIX + Decimal.Print(index));
    AfterHashIs(did, KEY_PREFIX + Decimal.Print(index));
  }

  /** The index of an id is read back exactly when it is a safe integer. */
  lemma IndexReadsBack(did: string, index: nat)
    requires '#' !in did
    ensures KeyIndex(MethodId(did, index)) == if index <= MAX_SAFE then Some(index) else None
  {
    MethodIdFragment(did, index);
    Decimal.ReadOfPrint(index);
    var fragment := KEY_PREFIX + Decimal.Print(index);
    assert fragment[4..] == Decimal.Print(index);
  }

  lemma MethodIdsDiffer(did: string, a: nat, b: nat)
    requires '#' !in did && MethodId(did, a) == MethodId(did, b)
    ensures a == b
  {
    MethodIdFragment(did, a);
    MethodIdFragment(did, b);
    assert (KEY_PREFIX + Decimal.Print(a))[4..] == (KEY_PREFIX + Decimal.Print(b))[4..];
    Decimal.ReadOfPrint(a);
    Decimal.ReadOfPrint(b);
  }

  // ----- Key sets

  /** A key under a canonical id. */
  datatype Key = Key(index: nat, jwk: Jwk, revoked: bool)

  function InputOf(did: string, key: Key): KeyInput {
    KeyInput(MethodId(did, key.index), key.jwk, key.revoked)
  }

  function InputsOf(did: string, keys: seq<Key>): (inputs: seq<KeyInput>)
    ensures |inputs| == |keys|
  {
    seq(|keys|, i requires 0 <= i < |keys| => InputOf(did, keys[i]))
  }

  function DocumentOf(did: string, keys: seq<Key>): Json {
    Document(did, InputsOf(did, keys))
  }

  predicate DistinctIndices(keys: seq<Key>) {
    forall i, j :: 0 <= i < j < |keys| ==> keys[i].index != keys[j].index
  }

  predicate SomeActive(keys: seq<Key>) {
    exists i :: 0 <= i < |keys| && !keys[i].revoked
  }

  predicate Taken(index: nat, keys: seq<Key>) {
    exists i :: 0 <= i < |keys| && keys[i].index == index
  }

  predicate ActiveAt(index: nat, keys: seq<Key>) {
    exists i :: 0 <= i < |keys| && keys[i].index == index && !keys[i].revoked
  }

  /** Distinct indices, public members only, and one key that is not revoked. */
  predicate Managed(keys: seq<Key>) {
    && DistinctIndices(keys) && SomeActive(keys)
    && forall i :: 0 <= i < |keys| ==> PublicJwk(keys[i].jwk) == keys[i].jwk
  }

  predicate IsDid(did: string) {
    DID_WEB <= did && '#' !in did
  }

  /** A relationship mentions an id exactly when an active key has it. */
  lemma MentionedExactly(did: string, keys: seq<Key>, index: nat)
    requires IsDid(did)
    ensures Mentioned(MethodId(did, index), RelationshipIds(DocumentOf(did, keys).members)) <==> ActiveAt(index, keys)
  {
    var inputs, id := InputsOf(did, keys), MethodId(did, index);
    MentionedIs(did, inputs, id);
    forall i | 0 <= i < |keys|
      ensures inputs[i].id == id <==> keys[i].index == index
      ensures Some(inputs[i].id) != BareFragment(id)
    {
      if inputs[i].id == id {
        MethodIdsDiffer(did, keys[i].index, index);
      }
      assert inputs[i].id[0] == did[0] == DID_WEB[0];
    }
    assert id[0] == did[0];
    if ActiveAt(index, keys) {
      var i :| 0 <= i < |keys| && keys[i].index == index && !keys[i].revoked;
      assert !inputs[i].revoked && inputs[i].id == id;
    }
  }

  lemma ManagedIsTellable(did: string, keys: seq<Key>)
    requires IsDid(did) && DistinctIndices(keys)
    ensures Tellable(InputsOf(did, keys))
  {
    var inputs := InputsOf(did, keys);
    forall i, j | 0 <= i < |keys| && 0 <= j < |keys| && keys[i].revoked && !keys[j].revoked
      ensures inputs[j].id != inputs[i].id && Some(inputs[j].id) != BareFragment(inputs[i].id)
    {
      if inputs[j].id == inputs[i].id {
        MethodIdsDiffer(did, keys[i].index, keys[j].index);
      }
      assert inputs[j].id[0] == did[0] == DID_WEB[0];
    }
  }

  lemma ActiveExactly(did: string, keys: seq<Key>)
    ensures ActiveIds(InputsOf(did, keys)) != [] <==> SomeActive(keys)
  {
    var inputs := InputsOf(did, keys);
    if ActiveIds(inputs) != [] {
      ActiveIsListed(inputs, ActiveIds(inputs)[0]);
    }
    if SomeActive(keys) {
      var i :| 0 <= i < |keys| && !keys[i].revoked;
      ActiveIsListed(inputs, inputs[i].id);
    }
  }

  /** What import reads of an index. */
  function ReadIndex(index: nat): Option<nat> {
    if index <= MAX_SAFE then Some(index) else None
  }

  /** Importing the document of a key set carries the very same keys forward. */
  lemma CarriesEverything(did: string, keys: seq<Key>)
    requires IsDid(did) && Managed(keys)
    ensures var r := ImportOf(DocumentOf(did, keys));
      && r.Success? && r.value.did == did && CarryForward(r.value.keys) == InputsOf(did, keys)
      && |r.value.keys| == |keys| && forall i :: 0 <= i < |keys| ==> r.value.keys[i].index == ReadIndex(keys[i].index)
  {
    var inputs := InputsOf(did, keys);
    ActiveExactly(did, keys);
    ManagedIsTellable(did, keys);
    ImportInvertsGenerate(did, inputs);
    forall i | 0 <= i < |keys| ensures KeyIndex(inputs[i].id) == ReadIndex(keys[i].index) {
      IndexReadsBack(did, keys[i].index);
    }
  }

  // ----- Used indices

  predicate Ascending(s: seq<nat>) {
    forall i, j :: 0 <= i < j < |s| ==> s[i] <= s[j]
  }

  lemma {:induction false} InsertKeeps(n: nat, s: seq<nat>)
    requires Ascending(s)
    ensures Ascending(Insert(n, s)) && forall k :: k in Insert(n, s) <==> k == n || k in s
  {
    if s != [] && n > s[0] {
      InsertKeeps(n, s[1..]);
      AscendingCons(s[0], Insert(n, s[1..]));
    }
  }

  lemma AscendingCons(head: nat, rest: seq<nat>)
    requires Ascending(rest) && forall k :: k in rest ==> head <= k
    ensures Ascending([head] + rest)
  {
    assert forall i :: 0 <= i < |rest| ==> rest[i] in rest;
  }

  lemma {:induction false} IndicesAre(keys: seq<ImportedKey>, n: nat)
    ensures Ascending(IndicesOf(keys))
    ensures n in IndicesOf(keys) <==> exists i :: 0 <= i < |keys| && keys[i].index == Some(n)
  {
    if keys != [] {
      var rest := keys[1..];
      IndicesAre(rest, n);
      assert forall i :: 0 <= i < |rest| ==> keys[i + 1] == rest[i];
      if keys[0].index.Some? {
        InsertKeeps(keys[0].index.value, IndicesOf(rest));
      }
      if exists i :: 0 <= i < |rest| && rest[i].index == Some(n) {
        var i :| 0 <= i < |rest| && rest[i].index == Some(n);
        assert keys[i + 1].index == Some(n);
      }
    }
  }

  lemma SameIndicesTaken(imported: seq<ImportedKey>, keys: seq<Key>, index: nat)
    requires |imported| == |keys| && forall i :: 0 <= i < |keys| ==> imported[i].index == ReadIndex(keys[i].index)
    ensures index in IndicesOf(imported) <==> Taken(index, keys) && index <= MAX_SAFE
  {
    IndicesAre(imported, index);
  }

  lemma HighestIsLast(did: string, imported: seq<ImportedKey>, index: nat)
    ensures var r := ImportedFrom(did, imported);
      && r.maxKeyIndex + 1 !in r.usedIndices
      && (index in r.usedIndices ==> index <= r.maxKeyIndex && r.maxKeyIndex in r.usedIndices)
      && (r.usedIndices == [] ==> r.maxKeyIndex == -1)
  {
    IndicesAre(imported, 0);
  }

  /** An index is reported as used exactly when a key has it and it is a safe integer. */
  lemma UsedExactlyTaken(did: string, keys: seq<Key>, index: nat)
    requires IsDid(did) && Managed(keys)
    ensures var r := ImportOf(DocumentOf(did, keys));
      r.Success? && (index in r.value.usedIndices <==> Taken(index, keys) && index <= MAX_SAFE)
  {
    CarriesEverything(did, keys);
    SameIndicesTaken(ImportOf(DocumentOf(did, keys)).value.keys, keys, index);
  }

  /** The next index is offered as free; it is free, unless the highest safe integer is taken. */
  lemma NextIndexIsFree(did: string, keys: seq<Key>)
    requires IsDid(did) && Managed(keys)
    ensures var next := ImportOf(DocumentOf(did, keys)).value.maxKeyIndex + 1;
      && (Taken(MAX_SAFE, keys) <==> next > MAX_SAFE)
      && 0 <= next <= MAX_SAFE + 1
      && (next <= MAX_SAFE ==> !Taken(next, keys))
  {
    CarriesEverything(did, keys);
    var current := ImportOf(DocumentOf(did, keys)).value;
    HighestIsLast(did, current.keys, MAX_SAFE);
    UsedExactlyTaken(did, keys, MAX_SAFE);
    if current.maxKeyIndex >= 0 {
      UsedExactlyTaken(did, keys, current.maxKeyIndex);
    }
    UsedExactlyTaken(did, keys, current.maxKeyIndex + 1);
  }

  // ----- One operation

  datatype Op = Rotation(index: nat, jwk: Jwk) | Revocation(id: string)

  function Appended(keys: seq<Key>, index: nat, jwk: Jwk): seq<Key> {
    keys + [Key(index, PublicJwk(jwk), false)]
  }

  /** A rotation is only refused at an index that is taken and safe. */
  function StepKeys(did: string, keys: seq<Key>, op: Op): seq<Key> {
    match op
    case Rotation(index, jwk) => if Taken(index, keys) && index <= MAX_SAFE then keys else Appended(keys, index, jwk)
    case Revocation(id) => if SomeActive(Marked(did, keys, id)) then Marked(did, keys, id) else keys
  }

  function Marked(did: string, keys: seq<Key>, id: string): (marked: seq<Key>)
    ensures |marked| == |keys|
  {
    seq(|keys|, i requires 0 <= i < |keys| =>
      keys[i].(revoked := keys[i].revoked || MethodId(did, keys[i].index) == id))
  }

  /** The document after the operation; a refused one leaves it as it was. */
  function StepDocument(did: string, document: Json, op: Op): Json {
    match op
    case Rotation(index, jwk) =>
      (match Rotate(did, document, index, jwk)
       case Success(next) => next
       case Failure(_) => document)
    case Revocation(id) =>
      (match Revoke(did, document, id)
       case Success(Some(next)) => next
       case _ => document)
  }

  lemma {:induction false} SameMethods(did: string, a: seq<KeyInput>, b: seq<KeyInput>)
    requires |a| == |b|
    requires forall i :: 0 <= i < |a| ==>
      a[i].id == b[i].id && a[i].revoked == b[i].revoked && PublicJwk(a[i].jwk) == PublicJwk(b[i].jwk)
    ensures MethodsJson(did, a) == MethodsJson(did, b) && ActiveIds(a) == ActiveIds(b)
  {
    if a != [] {
      SameMethods(did, a[1..], b[1..]);
    }
  }

  lemma AppendedDocument(did: string, keys: seq<Key>, index: nat, jwk: Jwk)
    ensures Generate(did, InputsOf(did, keys) + [KeyInput(MethodId(did, index), jwk, false)])
         == Success(DocumentOf(did, Appended(keys, index, jwk)))
  {
    var more := Appended(keys, index, jwk);
    assert !more[|keys|].revoked;
    ActiveExactly(did, more);
    assert PublicJwk(PublicJwk(jwk)) == PublicJwk(jwk);
    SameMethods(did, InputsOf(did, keys) + [KeyInput(MethodId(did, index), jwk, false)], InputsOf(did, more));
  }

  /** A rotation carries every key forward and appends the new one, unless its index is reported as used. */
  lemma RotationAppends(did: string, keys: seq<Key>, index: nat, jwk: Jwk)
    requires IsDid(did) && Managed(keys)
    ensures Rotate(did, DocumentOf(did, keys), index, jwk)
         == if Taken(index, keys) && index <= MAX_SAFE then Failure(IndexTaken)
            else Success(DocumentOf(did, Appended(keys, index, jwk)))
  {
    CarriesEverything(did, keys);
    UsedExactlyTaken(did, keys, index);
    AppendedDocument(did, keys, index, jwk);
  }

  lemma AppendedIsManaged(keys: seq<Key>, index: nat, jwk: Jwk)
    requires Managed(keys)
    ensures Managed(Appended(keys, index, jwk)) <==> !Taken(index, keys)
  {
    var more := Appended(keys, index, jwk);
    assert !more[|keys|].revoked && more[|keys|].index == index;
    assert PublicJwk(PublicJwk(jwk)) == PublicJwk(jwk);
    if Taken(index, keys) {
      var i :| 0 <= i < |keys| && keys[i].index == index;
      assert more[i].index == more[|keys|].index;
    }
  }

  lemma RevocationMarks(did: string, keys: seq<Key>, id: string)
    requires IsDid(did) && Managed(keys)
    ensures var marked := Marked(did, keys, id);
      Revoke(did, DocumentOf(did, keys), id)
        == if SomeActive(marked) then Success(Some(DocumentOf(did, marked))) else Success(None)
  {
    var marked := Marked(did, keys, id);
    CarriesEverything(did, keys);
    assert MarkRevoked(InputsOf(did, keys), id) == InputsOf(did, marked);
    ActiveExactly(did, marked);
  }

  lemma MarkedIsManaged(did: string, keys: seq<Key>, id: string)
    requires Managed(keys) && SomeActive(Marked(did, keys, id))
    ensures Managed(Marked(did, keys, id))
  {
  }

  /** A rotation at an index above the safe integers that a key has already: the document cannot tell. */
  predicate Repeats(keys: seq<Key>, op: Op) {
    op.Rotation? && op.index > MAX_SAFE && Taken(op.index, keys)
  }

  /** An operation on the document is the operation on the keys, and keeps them manageable unless it repeats an index. */
  lemma StepRefines(did: string, keys: seq<Key>, op: Op)
    requires IsDid(did) && Managed(keys)
    ensures StepDocument(did, DocumentOf(did, keys), op) == DocumentOf(did, StepKeys(did, keys, op))
    ensures Managed(StepKeys(did, keys, op)) <==> !Repeats(keys, op)
  {
    match op
    case Rotation(index, jwk) =>
      RotationAppends(did, keys, index, jwk);
      AppendedIsManaged(keys, index, jwk);
    case Revocation(id) =>
      RevocationMarks(did, keys, id);
      if SomeActive(Marked(did, keys, id)) {
        MarkedIsManaged(did, keys, id);
      }
  }

  /** `later` has every key of `keys`, in its place, unchanged but for new revocations. */
  predicate Keeps(keys: seq<Key>, later: seq<Key>) {
    && |keys| <= |later|
    && forall i :: 0 <= i < |keys| ==>
         later[i].index == keys[i].index && later[i].jwk == keys[i].jwk && (keys[i].revoked ==> later[i].revoked)
  }

  lemma StepKeeps(did: string, keys: seq<Key>, op: Op)
    ensures Keeps(keys, StepKeys(did, keys, op))
  {
  }

  lemma ManagedRevoked(keys: seq<Key>, i: nat)
    requires DistinctIndices(keys) && i < |keys|
    ensures ActiveAt(keys[i].index, keys) <==> !keys[i].revoked
  {
  }

  lemma AppendedActive(keys: seq<Key>, index: nat, jwk: Jwk, at: nat)
    ensures ActiveAt(at, Appended(keys, index, jwk)) <==> ActiveAt(at, keys) || at == index
  {
    var more := Appended(keys, index, jwk);
    assert more[|keys|].index == index && !more[|keys|].revoked;
    if ActiveAt(at, keys) {
      var i :| 0 <= i < |keys| && keys[i].index == at && !keys[i].revoked;
      assert more[i] == keys[i];
    }
  }

  /** One operation brings a revoked key back into a relationship exactly when it repeats the key's index. */
  lemma ReentersExactly(did: string, keys: seq<Key>, op: Op, i: nat)
    requires IsDid(did) && Managed(keys) && i < |keys| && keys[i].revoked
    ensures var after := StepDocument(did, DocumentOf(did, keys), op);
      && after.Obj?
      && (Mentioned(MethodId(did, keys[i].index), RelationshipIds(after.members)) <==>
            Repeats(keys, op) && op.index == keys[i].index)
  {
    var later := StepKeys(did, keys, op);
    StepRefines(did, keys, op);
    MentionedExactly(did, later, keys[i].index);
    ManagedRevoked(keys, i);
    if op.Rotation? {
      AppendedActive(keys, op.index, op.jwk, keys[i].index);
    } else {
      StepKeeps(did, keys, op);
      ManagedRevoked(later, i);
    }
  }

  // ----- Whole runs

  function RunKeys(did: string, keys: seq<Key>, ops: seq<Op>): seq<Key> {
    if ops == [] then keys else StepKeys(did, RunKeys(did, keys, ops[..|ops| - 1]), ops[|ops| - 1])
  }

  function RunDocument(did: string, document: Json, ops: seq<Op>): Json {
    if ops == [] then document else StepDocument(did, RunDocument(did, document, ops[..|ops| - 1]), ops[|ops| - 1])
  }

  lemma FrontOfBoth(a: seq<Op>, b: seq<Op>)
    requires b != []
    ensures (a + b)[..|a + b| - 1] == a + b[..|b| - 1] && (a + b)[|a + b| - 1] == b[|b| - 1]
  {
  }

  /** A run may be stopped and taken up again from the document alone. */
  lemma {:induction false} RunsContinue(did: string, keys: seq<Key>, document: Json, a: seq<Op>, b: seq<Op>)
    ensures RunDocument(did, document, a + b) == RunDocument(did, RunDocument(did, document, a), b)
    ensures RunKeys(did, keys, a + b) == RunKeys(did, RunKeys(did, keys, a), b)
    decreases |b|
  {
    if b == [] {
      assert a + b == a;
    } else {
      FrontOfBoth(a, b);
      RunsContinue(did, keys, document, a, b[..|b| - 1]);
    }
  }

  predicate RotatesAt(ops: seq<Op>, index: nat) {
    exists j :: 0 <= j < |ops| && ops[j].Rotation? && ops[j].index == index
  }

  /** Operation `k` rotates at an index above the safe integers that an earlier one, or a key at the start, has. */
  predicate RepeatsAt(keys: seq<Key>, ops: seq<Op>, k: nat)
    requires k < |ops|
  {
    ops[k].Rotation? && ops[k].index > MAX_SAFE && (Taken(ops[k].index, keys) || RotatesAt(ops[..k], ops[k].index))
  }

  predicate NeverRepeats(keys: seq<Key>, ops: seq<Op>) {
    forall k :: 0 <= k < |ops| ==> !RepeatsAt(keys, ops, k)
  }

  lemma RotatesAppend(front: seq<Op>, last: Op, index: nat)
    ensures RotatesAt(front + [last], index) <==> RotatesAt(front, index) || (last.Rotation? && last.index == index)
  {
    var ops := front + [last];
    if RotatesAt(front, index) {
      var j :| 0 <= j < |front| && front[j].Rotation? && front[j].index == index;
      assert ops[j] == front[j];
    }
    assert ops[|front|] == last;
  }

  lemma TakenAppended(keys: seq<Key>, index: nat, jwk: Jwk, at: nat)
    ensures Taken(at, Appended(keys, index, jwk)) <==> Taken(at, keys) || at == index
  {
    var more := Appended(keys, index, jwk);
    assert more[|keys|].index == index;
    if Taken(at, keys) {
      var i :| 0 <= i < |keys| && keys[i].index == at;
      assert more[i] == keys[i];
    }
  }

  lemma TakenMarked(did: string, keys: seq<Key>, id: string, at: nat)
    ensures Taken(at, Marked(did, keys, id)) <==> Taken(at, keys)
  {
    var marked := Marked(did, keys, id);
    assert forall i :: 0 <= i < |keys| ==> marked[i].index == keys[i].index;
  }

  lemma TakenStep(did: string, keys: seq<Key>, op: Op, at: nat)
    ensures Taken(at, StepKeys(did, keys, op)) <==> Taken(at, keys) || (op.Rotation? && op.index == at)
  {
    match op
    case Rotation(index, jwk) => TakenAppended(keys, index, jwk, at);
    case Revocation(id) => TakenMarked(did, keys, id, at);
  }

  /** The indices taken after a run are those at its start and those it rotated at. */
  lemma {:induction false} TakenAfter(did: string, keys: seq<Key>, ops: seq<Op>, at: nat)
    ensures Taken(at, RunKeys(did, keys, ops)) <==> Taken(at, keys) || RotatesAt(ops, at)
  {
    if ops != [] {
      var front, last := ops[..|ops| - 1], ops[|ops| - 1];
      TakenAfter(did, keys, front, at);
      TakenStep(did, RunKeys(did, keys, front), last, at);
      assert ops == front + [last];
      RotatesAppend(front, last, at);
    }
  }

  lemma RepeatsIs(did: string, keys: seq<Key>, ops: seq<Op>)
    requires ops != []
    ensures Repeats(RunKeys(did, keys, ops[..|ops| - 1]), ops[|ops| - 1]) <==> RepeatsAt(keys, ops, |ops| - 1)
  {
    if ops[|ops| - 1].Rotation? {
      TakenAfter(did, keys, ops[..|ops| - 1], ops[|ops| - 1].index);
    }
  }

  lemma NeverRepeatsFront(keys: seq<Key>, ops: seq<Op>)
    requires ops != []
    ensures NeverRepeats(keys, ops) <==> NeverRepeats(keys, ops[..|ops| - 1]) && !RepeatsAt(keys, ops, |ops| - 1)
  {
    var front := ops[..|ops| - 1];
    forall k: nat | k < |front| ensures RepeatsAt(keys, ops, k) <==> RepeatsAt(keys, front, k) {
      assert ops[..k] == front[..k];
    }
  }

  /** Nothing is kept but the document, and yet it is the document of the key set throughout a run without repeats. */
  lemma {:induction false} RunRefines(did: string, keys: seq<Key>, ops: seq<Op>)
    requires IsDid(did) && Managed(keys) && NeverRepeats(keys, ops)
    ensures RunDocument(did, DocumentOf(did, keys), ops) == DocumentOf(did, RunKeys(did, keys, ops))
    ensures Managed(RunKeys(did, keys, ops))
  {
    if ops != [] {
      NeverRepeatsFront(keys, ops);
      RepeatsIs(did, keys, ops);
      RunRefines(did, keys, ops[..|ops| - 1]);
      StepRefines(did, RunKeys(did, keys, ops[..|ops| - 1]), ops[|ops| - 1]);
    }
  }

  // ----- Distinct ids, exactly

  /** A document that can be imported, without two methods of one id. */
  ghost predicate DistinctMethods(document: Json) {
    && ImportOf(document).Success?
    && var keys := ImportOf(document).value.keys;
       forall i, j :: 0 <= i < j < |keys| ==> keys[i].id != keys[j].id
  }

  lemma MethodsDistinctExactly(did: string, keys: seq<Key>)
    requires IsDid(did) && SomeActive(keys)
    ensures DistinctMethods(DocumentOf(did, keys)) <==> DistinctIndices(keys)
  {
    var inputs := InputsOf(did, keys);
    ActiveExactly(did, keys);
    ImportInvertsGenerate(did, inputs);
    var got := ImportOf(DocumentOf(did, keys)).value.keys;
    forall i, j | 0 <= i < j < |keys| ensures got[i].id == got[j].id <==> keys[i].index == keys[j].index {
      if got[i].id == got[j].id {
        MethodIdsDiffer(did, keys[i].index, keys[j].index);
      }
    }
  }

  /** The ids are distinct after the run and after every part of it from its start. */
  ghost predicate AlwaysDistinct(did: string, document: Json, ops: seq<Op>) {
    && (ops != [] ==> AlwaysDistinct(did, document, ops[..|ops| - 1]))
    && DistinctMethods(RunDocument(did, document, ops))
  }

  lemma StepDistinctExactly(did: string, keys: seq<Key>, op: Op)
    requires IsDid(did) && Managed(keys)
    ensures DistinctMethods(StepDocument(did, DocumentOf(did, keys), op)) <==> !Repeats(keys, op)
  {
    var later := StepKeys(did, keys, op);
    StepRefines(did, keys, op);
    if op.Rotation? && later != keys {
      assert !later[|keys|].revoked;
    }
    MethodsDistinctExactly(did, later);
  }

  /** The ids of the document stay distinct throughout a run exactly when no unsafe index is used twice. */
  lemma {:induction false} DistinctExactlyWithoutRepeats(did: string, keys: seq<Key>, ops: seq<Op>)
    requires IsDid(did) && Managed(keys)
    ensures AlwaysDistinct(did, DocumentOf(did, keys), ops) <==> NeverRepeats(keys, ops)
  {
    if ops == [] {
      MethodsDistinctExactly(did, keys);
    } else {
      var front, last := ops[..|ops| - 1], ops[|ops| - 1];
      DistinctExactlyWithoutRepeats(did, keys, front);
      NeverRepeatsFront(keys, ops);
      RepeatsIs(did, keys, ops);
      if NeverRepeats(keys, front) {
        RunRefines(did, keys, front);
        StepDistinctExactly(did, RunKeys(did, keys, front), last);
      }
    }
  }

  // ----- Nothing is lost, and revoked keys stay out

  lemma KeepsTransitive(a: seq<Key>, b: seq<Key>, c: seq<Key>)
    requires Keeps(a, b) && Keeps(b, c)
    ensures Keeps(a, c)
  {
  }

  lemma {:induction false} RunKeeps(did: string, keys: seq<Key>, ops: seq<Op>)
    ensures Keeps(keys, RunKeys(did, keys, ops))
  {
    if ops != [] {
      var before := RunKeys(did, keys, ops[..|ops| - 1]);
      RunKeeps(did, keys, ops[..|ops| - 1]);
      StepKeeps(did, before, ops[|ops| - 1]);
      KeepsTransitive(keys, before, StepKeys(did, before, ops[|ops| - 1]));
    }
  }

  /** A key is revoked exactly when the document mentions it in no relationship. */
  lemma RevokedExactlyUnmentioned(did: string, keys: seq<Key>, i: nat)
    requires IsDid(did) && DistinctIndices(keys) && i < |keys|
    ensures Mentioned(MethodId(did, keys[i].index), RelationshipIds(DocumentOf(did, keys).members)) <==> !keys[i].revoked
  {
    MentionedExactly(did, keys, keys[i].index);
    ManagedRevoked(keys, i);
  }

  /**
   Over any run in which no unsafe index is used twice, no key is lost or moved and indices stay distinct, and a key
   that is revoked after any part `a` of the run is in no relationship after the rest `b` of it.
   */
  lemma RevokedStaysOut(did: string, keys: seq<Key>, a: seq<Op>, b: seq<Op>, i: nat)
    requires IsDid(did) && Managed(keys) && NeverRepeats(keys, a + b)
    ensures var before, after := RunKeys(did, keys, a), RunKeys(did, keys, a + b);
      var document := RunDocument(did, DocumentOf(did, keys), a + b);
      && document == DocumentOf(did, after) && Managed(after) && Keeps(keys, before) && Keeps(before, after)
      && (i < |before| && before[i].revoked ==>
            !Mentioned(MethodId(did, before[i].index), RelationshipIds(document.members)))
  {
    RunRefines(did, keys, a + b);
    RunsContinue(did, keys, DocumentOf(did, keys), a, b);
    RunKeeps(did, keys, a);
    RunKeeps(did, RunKeys(did, keys, a), b);
    if i < |RunKeys(did, keys, a)| {
      RevokedExactlyUnmentioned(did, RunKeys(did, keys, a + b), i);
    }
  }

  // ----- Unsafe indices

  /** Rotating at an index, revoking the new key and rotating there again brings the revoked id back. */
  ghost predicate ComesBack(did: string, document: Json, index: nat, jwk: Jwk, other: Jwk) {
    var revoked := StepDocument(did, StepDocument(did, document, Rotation(index, jwk)), Revocation(MethodId(did, index)));
    var again := StepDocument(did, revoked, Rotation(index, other));
    && revoked.Obj? && again.Obj?
    && !Mentioned(MethodId(did, index), RelationshipIds(revoked.members))
    && Mentioned(MethodId(did, index), RelationshipIds(again.members))
  }

  lemma MarkedActive(did: string, keys: seq<Key>, index: nat)
    requires IsDid(did)
    ensures !ActiveAt(index, Marked(did, keys, MethodId(did, index)))
    ensures forall at :: at != index ==> (ActiveAt(at, Marked(did, keys, MethodId(did, index))) <==> ActiveAt(at, keys))
  {
    var marked := Marked(did, keys, MethodId(did, index));
    forall i | 0 <= i < |keys|
      ensures marked[i].index == keys[i].index && marked[i].revoked == (keys[i].revoked || keys[i].index == index)
    {
      if MethodId(did, keys[i].index) == MethodId(did, index) {
        MethodIdsDiffer(did, keys[i].index, index);
      }
    }
    forall at | at != index ensures ActiveAt(at, marked) <==> ActiveAt(at, keys) {
      if ActiveAt(at, keys) {
        var i :| 0 <= i < |keys| && keys[i].index == at && !keys[i].revoked;
        assert !marked[i].revoked;
      }
    }
  }

  /** The new key is revoked: whoever was active before keeps the revocation from being refused. */
  lemma NewKeyRevoked(did: string, keys: seq<Key>, index: nat, jwk: Jwk)
    requires IsDid(did) && Managed(keys) && !Taken(index, keys)
    ensures var revoked := StepKeys(did, Appended(keys, index, jwk), Revocation(MethodId(did, index)));
      !ActiveAt(index, revoked) && Taken(index, revoked)
  {
    var more := Appended(keys, index, jwk);
    var i :| 0 <= i < |keys| && !keys[i].revoked;
    assert more[i] == keys[i] && more[|keys|].index == index;
    assert ActiveAt(keys[i].index, more);
    MarkedActive(did, more, index);
    TakenMarked(did, more, MethodId(did, index), index);
    assert ActiveAt(keys[i].index, Marked(did, more, MethodId(did, index)));
  }

  lemma SafeStaysOut(did: string, keys: seq<Key>, index: nat, jwk: Jwk, other: Jwk)
    requires IsDid(did) && Managed(keys) && index <= MAX_SAFE
    ensures !ComesBack(did, DocumentOf(did, keys), index, jwk, other)
  {
    var added := StepKeys(did, keys, Rotation(index, jwk));
    var revoked := StepKeys(did, added, Revocation(MethodId(did, index)));
    StepRefines(did, keys, Rotation(index, jwk));
    StepRefines(did, added, Revocation(MethodId(did, index)));
    StepRefines(did, revoked, Rotation(index, other));
    TakenStep(did, keys, Rotation(index, jwk), index);
    TakenStep(did, added, Revocation(MethodId(did, index)), index);
  }

  lemma UnsafeComesBack(did: string, keys: seq<Key>, index: nat, jwk: Jwk, other: Jwk)
    requires IsDid(did) && Managed(keys) && index > MAX_SAFE && !Taken(index, keys)
    ensures ComesBack(did, DocumentOf(did, keys), index, jwk, other)
  {
    var added := Appended(keys, index, jwk);
    var revoked := StepKeys(did, added, Revocation(MethodId(did, index)));
    NewKeyRevoked(did, keys, index, jwk);
    StepRefines(did, keys, Rotation(index, jwk));
    StepRefines(did, added, Revocation(MethodId(did, index)));
    StepRefines(did, revoked, Rotation(index, other));
    MentionedExactly(did, revoked, index);
    MentionedExactly(did, Appended(revoked, index, other), index);
    AppendedActive(revoked, index, other, index);
  }

  /** A rotation index is a safe integer exactly when rotate, revoke, rotate at it does not bring the revoked id back. */
  lemma SafeExactlyWhenItStaysOut(did: string, keys: seq<Key>, index: nat, jwk: Jwk, other: Jwk)
    requires IsDid(did) && Managed(keys) && (index <= MAX_SAFE || !Taken(index, keys))
    ensures index <= MAX_SAFE <==> !ComesBack(did, DocumentOf(did, keys), index, jwk, other)
  {
    if index <= MAX_SAFE {
      SafeStaysOut(did, keys, index, jwk, other);
    } else {
      UnsafeComesBack(did, keys, index, jwk, other);
    }
  }

  /** An input: key 2^53 is revoked, a rotation at 2^53 is accepted, and the revoked id is back, twice in the document. */
  lemma RevokedReturns(did: string, a: Jwk, b: Jwk, c: Jwk)
    requires IsDid(did)
    ensures var document := DocumentOf(did, [Key(0, PublicJwk(a), false), Key(MAX_SAFE + 1, PublicJwk(b), true)]);
      var id := MethodId(did, MAX_SAFE + 1);
      && document.Obj? && !Mentioned(id, RelationshipIds(document.members)) && DistinctMethods(document)
      && Rotate(did, document, MAX_SAFE + 1, c).Success?
      && var after := StepDocument(did, document, Rotation(MAX_SAFE + 1, c));
         after.Obj? && Mentioned(id, RelationshipIds(after.members)) && !DistinctMethods(after)
  {
    var keys := [Key(0, PublicJwk(a), false), Key(MAX_SAFE + 1, PublicJwk(b), true)];
    var op := Rotation(MAX_SAFE + 1, c);
    assert !keys[0].revoked && keys[1].index == MAX_SAFE + 1;
    assert PublicJwk(PublicJwk(a)) == PublicJwk(a) && PublicJwk(PublicJwk(b)) == PublicJwk(b);
    MethodsDistinctExactly(did, keys);
    RevokedExactlyUnmentioned(did, keys, 1);
    RotationAppends(did, keys, MAX_SAFE + 1, c);
    ReentersExactly(did, keys, op, 1);
    StepDistinctExactly(did, keys, op);
  }
}
