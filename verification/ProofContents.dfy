/**
 Proofs member by member: under which name each option is found in a config and in a proof, which bytes are signed,
 and exactly which credentials verify.
 */
module ProofContents {
  import opened Wrappers
  import opened Positional
  import opened Base58
  import opened Multibase
  import opened Json
  import opened DataIntegrity

  /** The member has the value. */
  predicate Has(members: Members, name: string, v: Json) {
    name in members && members[name] == v
  }

  /** The member is there exactly when the text is, and is not empty. */
  predicate HasText(members: Members, name: string, text: Option<string>) {
    if text.Some? && text.value != "" then Has(members, name, Str(text.value)) else name !in members
  }

  predicate SameMember(a: Members, b: Members, name: string) {
    if name in b then Has(a, name, b[name]) else name !in a
  }

  // ----- The config and the proof

  /** What config and proof have in common. */
  predicate HasOptions(members: Members, options: ProofOptions, suite: string, created: string) {
    && Has(members, "type", Str("DataIntegrityProof"))
    && Has(members, "cryptosuite", Str(suite))
    && Has(members, "created", Str(created))
    && Has(members, "verificationMethod", Str(options.verificationMethod))
    && Has(members, "proofPurpose", Str(options.proofPurpose))
    && HasText(members, "domain", options.domain)
    && HasText(members, "challenge", options.challenge)
  }

  predicate IsConfig(config: Members, document: Members, options: ProofOptions, suite: string, created: string) {
    && HasOptions(config, options, suite, created)
    && SameMember(config, document, "@context")
    && config.Keys <= {"@context", "type", "cryptosuite", "created", "verificationMethod", "proofPurpose", "domain", "challenge"}
  }

  /** The proof has no context of its own, and the proof value. */
  predicate IsProof(proof: Members, options: ProofOptions, suite: string, created: string, signature: seq<Byte>) {
    && HasOptions(proof, options, suite, created)
    && Has(proof, "proofValue", Str("z" + Encode(signature)))
    && proof.Keys <= {"type", "cryptosuite", "created", "verificationMethod", "proofPurpose", "domain", "challenge", "proofValue"}
  }

  lemma ConfigExactly(document: Members, options: ProofOptions, suite: string, created: string)
    ensures IsConfig(BuildProofConfig(document, options, suite, created), document, options, suite, created)
  {
  }

  lemma ProofExactly(config: Members, document: Members, options: ProofOptions, suite: string, created: string, signature: seq<Byte>)
    requires IsConfig(config, document, options, suite, created)
    ensures IsProof(ProofOf(config, "z" + Encode(signature)), options, suite, created, signature)
  {
  }

  function NameFor(algorithm: Algorithm): string {
    if algorithm == Ed25519 then "eddsa-rdfc-2022" else "ecdsa-rdfc-2019"
  }

  /** The bytes to sign: the hash of the canonical config, then that of the canonical document. */
  ghost predicate AreSigned<Key>(data: seq<Byte>, config: Members, document: Members, hash: HashName, crypto: Crypto<Key>) {
    && crypto.canonicalize(config).Some? && crypto.canonicalize(document).Some?
    && data == crypto.hash(hash, crypto.canonicalize(config).value) + crypto.hash(hash, crypto.canonicalize(document).value)
  }

  /** Preparing, for each algorithm: P-384 is hashed with SHA-384 and every other one with SHA-256. */
  lemma PreparedExactly<Key>(vc: Members, options: ProofOptions, algorithm: Algorithm, created: string, crypto: Crypto<Key>)
    ensures match Prepare(vc, options, algorithm, created, crypto)
      case Failure(NoVerificationMethod) => options.verificationMethod == ""
      case Failure(NoProofPurpose) => options.verificationMethod != "" && options.proofPurpose == ""
      case Failure(CannotCanonicalize) =>
        exists config ::
          && IsConfig(config, vc, options, NameFor(algorithm), created)
          && (crypto.canonicalize(config).None? || crypto.canonicalize(vc).None?)
      case Failure(_) => false
      case Success(prepared) =>
        && options.verificationMethod != "" && options.proofPurpose != ""
        && IsConfig(prepared.proofConfig, vc, options, NameFor(algorithm), created)
        && AreSigned(prepared.dataToSign, prepared.proofConfig, vc, if algorithm == P384 then Sha384 else Sha256, crypto)
  {
    var suite := SuiteName(SuiteFor(algorithm));
    ConfigExactly(vc, options, suite, created);
    assert suite == NameFor(algorithm);
    var config := BuildProofConfig(vc, options, suite, created);
    assert IsConfig(config, vc, options, NameFor(algorithm), created);
  }

  /** What is kept for a batch: the config of the template, its hash, and the hash to use; RSA has no suite. */
  lemma PrecomputedExactly<Key>(template: Members, options: ProofOptions, algorithm: Algorithm, created: string, crypto: Crypto<Key>)
    ensures match PrecomputeProofConfig(template, options, algorithm, created, crypto)
      case Failure(NoVerificationMethod) => options.verificationMethod == ""
      case Failure(NoProofPurpose) => options.verificationMethod != "" && options.proofPurpose == ""
      case Failure(UnsupportedAlgorithm) => options.verificationMethod != "" && options.proofPurpose != "" && algorithm == Rsa
      case Failure(CannotCanonicalize) =>
        algorithm != Rsa && exists config ::
          IsConfig(config, template, options, NameFor(algorithm), created) && crypto.canonicalize(config).None?
      case Failure(_) => false
      case Success(pre) =>
        && options.verificationMethod != "" && options.proofPurpose != "" && algorithm != Rsa
        && IsConfig(pre.proofConfig, template, options, NameFor(algorithm), created)
        && pre.hash == (if algorithm == P384 then Sha384 else Sha256)
        && crypto.canonicalize(pre.proofConfig).Some?
        && pre.proofConfigHash == crypto.hash(pre.hash, crypto.canonicalize(pre.proofConfig).value)
  {
    var suite := if algorithm == Ed25519 then EdDsa else Ecdsa;
    ConfigExactly(template, options, SuiteName(suite), created);
    assert SuiteName(suite) == NameFor(algorithm);
    var config := BuildProofConfig(template, options, SuiteName(suite), created);
    assert IsConfig(config, template, options, NameFor(algorithm), created);
  }

  /** ECDSA takes signatures of 64 or 96 bytes, EdDSA of 64. */
  predicate HasLength(suite: Suite, n: nat) {
    match suite case Ecdsa => n == 64 || n == 96 case EdDsa => n == 64
  }

  /** Completing a prepared credential adds the proof and changes nothing else, or refuses the length. */
  lemma CompletedExactly(suite: Suite, vc: Members, config: Members, options: ProofOptions, name: string, created: string,
                         signature: seq<Byte>)
    requires IsConfig(config, vc, options, name, created)
    ensures match CompleteOf(suite, vc, config, signature)
      case Failure(e) => e == WrongSignatureLength && !HasLength(suite, |signature|)
      case Success(completed) =>
        && HasLength(suite, |signature|)
        && completed - {"proof"} == vc - {"proof"} && "proof" in completed && completed["proof"].Obj?
        && IsProof(completed["proof"].members, options, name, created, signature)
  {
    ProofExactly(config, vc, options, name, created, signature);
  }

  // ----- Verification of any credential

  predicate SameIfTruthy(a: Members, b: Members, name: string) {
    if name in b && Truthy(b[name]) then Has(a, name, b[name]) else name !in a
  }

  /** The config that a proof claims: its own members, under the context of the credential. */
  predicate IsClaimed(config: Members, credential: Members, proof: Members) {
    && SameMember(config, credential, "@context")
    && SameMember(config, proof, "type") && SameMember(config, proof, "cryptosuite")
    && SameMember(config, proof, "created") && SameMember(config, proof, "verificationMethod")
    && SameMember(config, proof, "proofPurpose")
    && SameIfTruthy(config, proof, "domain") && SameIfTruthy(config, proof, "challenge")
    && config.Keys <= {"@context", "type", "cryptosuite", "created", "verificationMethod", "proofPurpose", "domain", "challenge"}
  }

  predicate IsHeader(config: Members, credential: Members, proof: Members) {
    && SameMember(config, credential, "@context")
    && SameMember(config, proof, "type") && SameMember(config, proof, "cryptosuite")
    && SameMember(config, proof, "created") && SameMember(config, proof, "verificationMethod")
    && SameMember(config, proof, "proofPurpose")
    && config.Keys <= {"@context", "type", "cryptosuite", "created", "verificationMethod", "proofPurpose"}
  }

  lemma CopiesMember(target: Members, source: Members, key: string)
    requires key !in target
    ensures SameMember(Copied(target, source, key), source, key)
    ensures forall name :: name != key ==>
              (name in Copied(target, source, key) <==> name in target)
              && (name in target ==> Copied(target, source, key)[name] == target[name])
    ensures Copied(target, source, key).Keys <= target.Keys + {key}
  {
  }

  lemma HeaderIsCopied(credential: Members, proof: Members)
    ensures IsHeader(
      Copied(Copied(Copied(Copied(Copied(Copied(
        map[], credential, "@context"), proof, "type"), proof, "cryptosuite"), proof, "created"),
        proof, "verificationMethod"), proof, "proofPurpose"),
      credential, proof)
  {
    var a := Copied(map[], credential, "@context");
    CopiesMember(map[], credential, "@context");
    var b := Copied(a, proof, "type");
    CopiesMember(a, proof, "type");
    var c := Copied(b, proof, "cryptosuite");
    CopiesMember(b, proof, "cryptosuite");
    var d := Copied(c, proof, "created");
    CopiesMember(c, proof, "created");
    var e := Copied(d, proof, "verificationMethod");
    CopiesMember(d, proof, "verificationMethod");
    CopiesMember(e, proof, "proofPurpose");
  }

  lemma TextsAreCopied(header: Members, credential: Members, proof: Members)
    requires IsHeader(header, credential, proof)
    ensures IsClaimed(CopiedIfTruthy(CopiedIfTruthy(header, proof, "domain"), proof, "challenge"), credential, proof)
  {
    assert "domain" !in header && "challenge" !in header;
  }

  lemma RebuiltIsClaimed(credential: Members, proof: Members)
    ensures IsClaimed(RebuiltConfig(credential, proof), credential, proof)
  {
    HeaderIsCopied(credential, proof);
    TextsAreCopied(
      Copied(Copied(Copied(Copied(Copied(Copied(
        map[], credential, "@context"), proof, "type"), proof, "cryptosuite"), proof, "created"),
        proof, "verificationMethod"), proof, "proofPurpose"),
      credential, proof);
  }

  lemma ClaimedOnce(a: Members, b: Members, credential: Members, proof: Members)
    requires IsClaimed(a, credential, proof) && IsClaimed(b, credential, proof)
    ensures a == b
  {
    forall name | name in a ensures name in b && b[name] == a[name] {
      ClaimedMember(a, b, credential, proof, name);
    }
    forall name | name in b ensures name in a {
      ClaimedMember(b, a, credential, proof, name);
    }
  }

  lemma ClaimedMember(a: Members, b: Members, credential: Members, proof: Members, name: string)
    requires IsClaimed(a, credential, proof) && IsClaimed(b, credential, proof) && name in a
    ensures Has(b, name, a[name])
  {
    assert name in {"@context", "type", "cryptosuite", "created", "verificationMethod", "proofPurpose", "domain", "challenge"};
  }

  /** The proof is of the suite, and its value reads as the signature. */
  predicate Presents(suite: Suite, credential: Members, proof: Members, signature: seq<Byte>) {
    && Has(credential, "proof", Obj(proof))
    && Has(proof, "type", Str("DataIntegrityProof"))
    && Has(proof, "cryptosuite", Str(match suite case Ecdsa => "ecdsa-rdfc-2019" case EdDsa => "eddsa-rdfc-2022"))
    && "proofValue" in proof && proof["proofValue"].Str? && MultibaseDecodeOf(proof["proofValue"].s) == Success(signature)
    && HasLength(suite, |signature|)
  }

  /** The key accepts the signature for the claimed config and the credential without its proof. */
  ghost predicate AcceptsClaimed<Key>(credential: Members, proof: Members, signature: seq<Byte>, key: Key, crypto: Crypto<Key>) {
    var hash := if |signature| == 96 then Sha384 else Sha256;
    exists config, data ::
      && IsClaimed(config, credential, proof)
      && AreSigned(data, config, credential - {"proof"}, hash, crypto)
      && crypto.accepts(key, hash, data, signature)
  }

  /** The text of a proof of the suite is that of its value, which is not empty. */
  lemma TextExactly(suite: Suite, credential: Members, text: string)
    ensures ProofText(suite, credential) == Success(text) <==>
      && "proof" in credential && credential["proof"].Obj?
      && var proof := credential["proof"].members;
         && Has(proof, "type", Str("DataIntegrityProof"))
         && Has(proof, "cryptosuite", Str(match suite case Ecdsa => "ecdsa-rdfc-2019" case EdDsa => "eddsa-rdfc-2022"))
         && Has(proof, "proofValue", Str(text)) && text != ""
  {
  }

  lemma TextPresents(suite: Suite, credential: Members, signature: seq<Byte>)
    ensures (ProofText(suite, credential).Success? && MultibaseDecodeOf(ProofText(suite, credential).value) == Success(signature)
             && HasLength(suite, |signature|))
      <==> "proof" in credential && credential["proof"].Obj? && Presents(suite, credential, credential["proof"].members, signature)
  {
    if ProofText(suite, credential).Success? {
      TextExactly(suite, credential, ProofText(suite, credential).value);
    }
    if "proof" in credential && credential["proof"].Obj? && Presents(suite, credential, credential["proof"].members, signature) {
      TextExactly(suite, credential, credential["proof"].members["proofValue"].s);
    }
  }

  lemma ChecksClaimed<Key>(suite: Suite, credential: Members, proof: Members, signature: seq<Byte>, key: Key, crypto: Crypto<Key>)
    requires HasLength(suite, |signature|)
    ensures CheckSignature(suite, credential, proof, signature, Some(key), crypto) == Verified <==>
      AcceptsClaimed(credential, proof, signature, key, crypto)
  {
    var hash := if |signature| == 96 then Sha384 else Sha256;
    var config := RebuiltConfig(credential, proof);
    var input := SigningInput(credential - {"proof"}, config, hash, crypto);
    RebuiltIsClaimed(credential, proof);
    if input.Some? {
      assert AreSigned(input.value, config, credential - {"proof"}, hash, crypto);
    }
    if AcceptsClaimed(credential, proof, signature, key, crypto) {
      var c, data :|
        && IsClaimed(c, credential, proof)
        && AreSigned(data, c, credential - {"proof"}, hash, crypto)
        && crypto.accepts(key, hash, data, signature);
      ClaimedOnce(c, config, credential, proof);
    }
  }

  lemma VerifiedPresents<Key>(suite: Suite, credential: Members, key: Option<Key>, crypto: Crypto<Key>) returns (signature: seq<Byte>)
    requires VerifyOf(suite, credential, key, crypto) == Verified
    ensures key.Some? && "proof" in credential && credential["proof"].Obj?
    ensures var proof := credential["proof"].members;
      Presents(suite, credential, proof, signature) && AcceptsClaimed(credential, proof, signature, key.value, crypto)
  {
    var text := ProofText(suite, credential).value;
    TextExactly(suite, credential, text);
    signature := MultibaseDecodeOf(text).value;
    ChecksClaimed(suite, credential, ProofMembers(credential["proof"]), signature, key.value, crypto);
  }

  lemma PresentedVerifies<Key>(suite: Suite, credential: Members, signature: seq<Byte>, key: Key, crypto: Crypto<Key>)
    requires "proof" in credential && credential["proof"].Obj?
    requires var proof := credential["proof"].members;
      Presents(suite, credential, proof, signature) && AcceptsClaimed(credential, proof, signature, key, crypto)
    ensures VerifyOf(suite, credential, Some(key), crypto) == Verified
  {
    TextPresents(suite, credential, signature);
    ChecksClaimed(suite, credential, credential["proof"].members, signature, key, crypto);
  }

  /** Exactly which credentials verify, whoever made them: suite, readable value, length and key, for the claimed config. */
  lemma VerifiedExactly<Key>(suite: Suite, credential: Members, key: Option<Key>, crypto: Crypto<Key>)
    ensures VerifyOf(suite, credential, key, crypto) == Verified <==>
      && key.Some? && "proof" in credential && credential["proof"].Obj?
      && var proof := credential["proof"].members;
         exists signature ::
           Presents(suite, credential, proof, signature) && AcceptsClaimed(credential, proof, signature, key.value, crypto)
  {
    if VerifyOf(suite, credential, key, crypto) == Verified {
      var signature := VerifiedPresents(suite, credential, key, crypto);
    }
    if key.Some? && "proof" in credential && credential["proof"].Obj? {
      forall signature | Presents(suite, credential, credential["proof"].members, signature)
                         && AcceptsClaimed(credential, credential["proof"].members, signature, key.value, crypto)
        ensures VerifyOf(suite, credential, key, crypto) == Verified
      {
        PresentedVerifies(suite, credential, signature, key.value, crypto);
      }
    }
  }
}
