/**
 Data Integrity proofs in two phases (packages/crypto/src/data-integrity.ts and eddsa-data-integrity.ts).

 A proof is prepared, signed elsewhere and completed; verification only sees the completed credential and has to
 rebuild the bytes that were signed. Canonicalization, hashing and the signature scheme are functions that this model
 knows nothing about; documents are JSON objects, and a member whose value is undefined is an absent one.
 */
module DataIntegrity {
  import opened Wrappers
  import opened Positional
  import opened Base58
  import opened Multibase
  import opened Json

  type Members = map<string, Json>

  /** The suites of the two files, each with its own prepare, complete and verify. */
  datatype Suite = Ecdsa | EdDsa

  datatype Algorithm = P256 | P384 | Ed25519 | Rsa

  datatype HashName = Sha256 | Sha384

  /** The domain and challenge are absent or strings; the empty string counts as absent. */
  datatype ProofOptions = ProofOptions(
    verificationMethod: string,
    proofPurpose: string,
    domain: Option<string>,
    challenge: Option<string>)

  datatype Prepared = Prepared(dataToSign: seq<Byte>, proofConfig: Members)

  datatype Precomputed = Precomputed(proofConfig: Members, hash: HashName, proofConfigHash: seq<Byte>)

  datatype ProofError =
    | NoVerificationMethod | NoProofPurpose | CannotCanonicalize | WrongSignatureLength | UnsupportedAlgorithm

  /** Canonicalization can fail; a key accepts a signature of some bytes under a hash. */
  datatype Crypto<!Key> = Crypto(
    canonicalize: Members -> Option<string>,
    hash: (HashName, string) -> seq<Byte>,
    accepts: (Key, HashName, seq<Byte>, seq<Byte>) -> bool)

  const PROOF_TYPE := "DataIntegrityProof"

  function SuiteName(suite: Suite): string {
    match suite case Ecdsa => "ecdsa-rdfc-2019" case EdDsa => "eddsa-rdfc-2022"
  }

  predicate ValidLength(suite: Suite, n: nat) {
    n == 64 || (suite == Ecdsa && n == 96)
  }

  /** The hash that verification infers from the length of the signature. */
  function HashForLength(suite: Suite, n: nat): HashName {
    if suite == Ecdsa && n == 96 then Sha384 else Sha256
  }

  function HashForAlgorithm(algorithm: Algorithm): HashName {
    if algorithm == P384 then Sha384 else Sha256
  }

  // ----- JSON helpers

  /** `target[key] = source[key]`. */
  function Copied(target: Members, source: Members, key: string): Members {
    if key in source then target[key := source[key]] else target
  }

  /** `if (source[key]) target[key] = source[key]`. */
  function CopiedIfTruthy(target: Members, source: Members, key: string): Members {
    if key in source && Truthy(source[key]) then target[key := source[key]] else target
  }

  function WithText(target: Members, key: string, text: Option<string>): Members {
    match text
    case Some(s) => if s != "" then target[key := Str(s)] else target
    case None => target
  }

  // ----- Preparing

  function BuildProofConfig(document: Members, options: ProofOptions, suite: string, created: string): Members {
    var config := Copied(map[], document, "@context")[
      "type" := Str(PROOF_TYPE)]["cryptosuite" := Str(suite)]["created" := Str(created)][
      "verificationMethod" := Str(options.verificationMethod)]["proofPurpose" := Str(options.proofPurpose)];
    WithText(WithText(config, "domain", options.domain), "challenge", options.challenge)
  }

  /** hash(canonicalize(config)) || hash(canonicalize(document)). */
  function SigningInput<Key>(document: Members, config: Members, hash: HashName, crypto: Crypto<Key>): Option<seq<Byte>> {
    match (crypto.canonicalize(config), crypto.canonicalize(document))
    case (Some(c), Some(d)) => Some(crypto.hash(hash, c) + crypto.hash(hash, d))
    case _ => None
  }

  function CheckOptions(options: ProofOptions): Option<ProofError> {
    if options.verificationMethod == "" then Some(NoVerificationMethod)
    else if options.proofPurpose == "" then Some(NoProofPurpose)
    else None
  }

  function PrepareWith<Key>(vc: Members, options: ProofOptions, suite: Suite, hash: HashName, created: string,
                            crypto: Crypto<Key>): Result<Prepared, ProofError>
  {
    if CheckOptions(options).Some? then Failure(CheckOptions(options).value)
    else
      var config := BuildProofConfig(vc, options, SuiteName(suite), created);
      match SigningInput(vc, config, hash, crypto)
      case Some(data) => Success(Prepared(data, config))
      case None => Failure(CannotCanonicalize)
  }

  /** `prepareProof`: any algorithm but P-384 is hashed with SHA-256. */
  function PrepareProof<Key>(vc: Members, options: ProofOptions, algorithm: Algorithm, created: string,
                             crypto: Crypto<Key>): Result<Prepared, ProofError>
  {
    PrepareWith(vc, options, Ecdsa, HashForAlgorithm(algorithm), created, crypto)
  }

  function PrepareEdDsaProof<Key>(vc: Members, options: ProofOptions, created: string, crypto: Crypto<Key>)
    : Result<Prepared, ProofError>
  {
    PrepareWith(vc, options, EdDsa, Sha256, created, crypto)
  }

  // ----- The batch path

  function PrecomputeProofConfig<Key>(template: Members, options: ProofOptions, algorithm: Algorithm, created: string,
                                      crypto: Crypto<Key>): Result<Precomputed, ProofError>
  {
    if CheckOptions(options).Some? then Failure(CheckOptions(options).value)
    else if algorithm == Rsa then Failure(UnsupportedAlgorithm)
    else
      var suite := if algorithm == Ed25519 then EdDsa else Ecdsa;
      var hash := HashForAlgorithm(algorithm);
      var config := BuildProofConfig(template, options, SuiteName(suite), created);
      match crypto.canonicalize(config)
      case Some(c) => Success(Precomputed(config, hash, crypto.hash(hash, c)))
      case None => Failure(CannotCanonicalize)
  }

  function PrepareWithPrecomputed<Key>(vc: Members, pre: Precomputed, crypto: Crypto<Key>): Result<Prepared, ProofError> {
    match crypto.canonicalize(vc)
    case Some(d) => Success(Prepared(pre.proofConfigHash + crypto.hash(pre.hash, d), pre.proofConfig))
    case None => Failure(CannotCanonicalize)
  }

  // ----- Completing

  function ProofOf(config: Members, proofValue: string): Members {
    var proof := Copied(Copied(Copied(Copied(Copied(
      map[], config, "type"), config, "cryptosuite"), config, "created"), config, "verificationMethod"), config, "proofPurpose")[
      "proofValue" := Str(proofValue)];
    CopiedIfTruthy(CopiedIfTruthy(proof, config, "domain"), config, "challenge")
  }

  function CompleteOf(suite: Suite, credential: Members, config: Members, signature: seq<Byte>): Result<Members, ProofError> {
    if !ValidLength(suite, |signature|) then Failure(WrongSignatureLength)
    else Success(credential["proof" := Obj(ProofOf(config, "z" + Encode(signature)))])
  }

  method Complete(suite: Suite, credential: Members, config: Members, signature: seq<Byte>)
    returns (r: Result<Members, ProofError>)
    ensures r == CompleteOf(suite, credential, config, signature)
  {
    if !ValidLength(suite, |signature|) {
      return Failure(WrongSignatureLength);
    }
    var proofValue := MultibaseEncode(signature);
    return Success(credential["proof" := Obj(ProofOf(config, proofValue))]);
  }

  // ----- Verifying

  datatype Rejection =
    | NoProof | UnsupportedType | UnsupportedSuite | NoProofValue | UnreadableProofValue | WrongLength | NoKey
    | NotCanonicalizable | SignatureFails

  /** A proof value that is not a string makes the decoder throw, which is passed on. */
  datatype Verification = Verified | Rejected(why: Rejection) | Thrown

  /** The members of a proof that is an object; other values have none of those that are read. */
  function ProofMembers(proof: Json): Members {
    match proof case Obj(members) => members case _ => map[]
  }

  function RebuiltConfig(credential: Members, proof: Members): Members {
    var config := Copied(Copied(Copied(Copied(Copied(Copied(
      map[], credential, "@context"), proof, "type"), proof, "cryptosuite"), proof, "created"),
      proof, "verificationMethod"), proof, "proofPurpose");
    CopiedIfTruthy(CopiedIfTruthy(config, proof, "domain"), proof, "challenge")
  }

  /** The last part of verification, with the signature at hand. */
  function CheckSignature<Key>(suite: Suite, credential: Members, proof: Members, signature: seq<Byte>, key: Option<Key>,
                               crypto: Crypto<Key>): Verification
  {
    if !ValidLength(suite, |signature|) then Rejected(WrongLength)
    else if key.None? then Rejected(NoKey)
    else
      var hash := HashForLength(suite, |signature|);
      match SigningInput(credential - {"proof"}, RebuiltConfig(credential, proof), hash, crypto)
      case None => Rejected(NotCanonicalizable)
      case Some(data) =>
        if crypto.accepts(key.value, hash, data, signature) then Verified else Rejected(SignatureFails)
  }

  /** The text of the proof value, or the answer when the proof is not of this suite. */
  function ProofText(suite: Suite, credential: Members): Result<string, Verification> {
    if "proof" !in credential || !Truthy(credential["proof"]) then Failure(Rejected(NoProof))
    else
      var proof := ProofMembers(credential["proof"]);
      if "type" !in proof || proof["type"] != Str(PROOF_TYPE) then Failure(Rejected(UnsupportedType))
      else if "cryptosuite" !in proof || proof["cryptosuite"] != Str(SuiteName(suite)) then Failure(Rejected(UnsupportedSuite))
      else if "proofValue" !in proof || !Truthy(proof["proofValue"]) then Failure(Rejected(NoProofValue))
      else if !proof["proofValue"].Str? then Failure(Thrown)
      else Success(proof["proofValue"].s)
  }

  /** Reads the signature from its text and checks it. */
  function CheckText<Key>(suite: Suite, credential: Members, text: string, key: Option<Key>, crypto: Crypto<Key>): Verification
    requires "proof" in credential
  {
    match MultibaseDecodeOf(text)
    case Failure(_) => Rejected(UnreadableProofValue)
    case Success(signature) =>
      CheckSignature(suite, credential, ProofMembers(credential["proof"]), signature, key, crypto)
  }

  function VerifyOf<Key>(suite: Suite, credential: Members, key: Option<Key>, crypto: Crypto<Key>): Verification {
    match ProofText(suite, credential)
    case Failure(answer) => answer
    case Success(text) => CheckText(suite, credential, text, key, crypto)
  }

  // ----- What verification rebuilds

  /** Rebuilding the config from a completed credential gives the config that was prepared. */
  lemma ConfigIsRebuilt(document: Members, options: ProofOptions, suite: string, created: string, proofValue: string, credential: Members)
    requires "@context" in credential <==> "@context" in document
    requires "@context" in document ==> credential["@context"] == document["@context"]
    ensures var config := BuildProofConfig(document, options, suite, created);
      RebuiltConfig(credential, ProofOf(config, proofValue)) == config
  {
  }

  lemma ProofHeader(document: Members, options: ProofOptions, suite: string, created: string, proofValue: string)
    ensures var proof := ProofOf(BuildProofConfig(document, options, suite, created), proofValue);
      && "type" in proof && proof["type"] == Str(PROOF_TYPE)
      && "cryptosuite" in proof && proof["cryptosuite"] == Str(suite)
      && "proofValue" in proof && proof["proofValue"] == Str(proofValue)
  {
  }

  predicate AllZero(bytes: seq<Byte>) {
    forall i :: 0 <= i < |bytes| ==> bytes[i] == 0
  }

  /** A signature of zero bytes only reads back one byte longer; any other reads back as it was. */
  lemma SignatureReadsAs(signature: seq<Byte>)
    ensures MultibaseDecodeOf("z" + Encode(signature))
         == Success(if AllZero(signature) then signature + [0] else signature)
  {
    LeadingShowsNonzero(signature);
    EncodedReadsAs(signature);
    ExtraByteShows(signature, []);
  }

  /** A completed credential has the header that verification asks for. */
  lemma CompletedHasText(suite: Suite, vc: Members, options: ProofOptions, created: string, signature: seq<Byte>)
    requires ValidLength(suite, |signature|)
    ensures var config := BuildProofConfig(vc, options, SuiteName(suite), created);
      ProofText(suite, CompleteOf(suite, vc, config, signature).value) == Success("z" + Encode(signature))
  {
    ProofHeader(vc, options, SuiteName(suite), created, "z" + Encode(signature));
  }

  /** The bytes checked are those of the credential without any proof and of the config that was prepared. */
  lemma BytesAreRebuilt<Key>(suite: Suite, vc: Members, options: ProofOptions, created: string, signature: seq<Byte>, hash: HashName,
                             crypto: Crypto<Key>)
    requires ValidLength(suite, |signature|)
    ensures var config := BuildProofConfig(vc, options, SuiteName(suite), created);
      var credential := CompleteOf(suite, vc, config, signature).value;
      SigningInput(credential - {"proof"}, RebuiltConfig(credential, ProofOf(config, "z" + Encode(signature))), hash, crypto)
        == SigningInput(vc - {"proof"}, config, hash, crypto)
  {
    var config := BuildProofConfig(vc, options, SuiteName(suite), created);
    var credential := CompleteOf(suite, vc, config, signature).value;
    assert credential - {"proof"} == vc - {"proof"};
    ConfigIsRebuilt(vc, options, SuiteName(suite), created, "z" + Encode(signature), credential);
  }

  /** What verification must answer for a signature of `data` under `hash`. */
  function Expected<Key>(data: Option<seq<Byte>>, hash: HashName, signature: seq<Byte>, key: Key, crypto: Crypto<Key>): Verification {
    if AllZero(signature) then Rejected(WrongLength)
    else if data == None then Rejected(NotCanonicalizable)
    else if crypto.accepts(key, hash, data.value, signature) then Verified
    else Rejected(SignatureFails)
  }

  /** Reading and checking a signature, in terms of the bytes that are rebuilt. */
  lemma CheckedOnRebuilt<Key>(suite: Suite, credential: Members, proof: Members, text: string, signature: seq<Byte>,
                              data: Option<seq<Byte>>, key: Key, crypto: Crypto<Key>)
    requires ValidLength(suite, |signature|) && "proof" in credential && credential["proof"] == Obj(proof)
    requires MultibaseDecodeOf(text) == Success(if AllZero(signature) then signature + [0] else signature)
    requires data == SigningInput(credential - {"proof"}, RebuiltConfig(credential, proof), HashForLength(suite, |signature|), crypto)
    ensures CheckText(suite, credential, text, Some(key), crypto)
         == Expected(data, HashForLength(suite, |signature|), signature, key, crypto)
  {
  }

  /** The outcome of verifying any completed credential, whatever was in it before. */
  lemma VerifiesAsExpected<Key>(suite: Suite, vc: Members, options: ProofOptions, created: string, signature: seq<Byte>, key: Key,
                                crypto: Crypto<Key>)
    requires ValidLength(suite, |signature|)
    ensures var config := BuildProofConfig(vc, options, SuiteName(suite), created);
      var hash := HashForLength(suite, |signature|);
      VerifyOf(suite, CompleteOf(suite, vc, config, signature).value, Some(key), crypto)
        == Expected(SigningInput(vc - {"proof"}, config, hash, crypto), hash, signature, key, crypto)
  {
    var config := BuildProofConfig(vc, options, SuiteName(suite), created);
    var text, hash := "z" + Encode(signature), HashForLength(suite, |signature|);
    CompletedHasText(suite, vc, options, created, signature);
    SignatureReadsAs(signature);
    BytesAreRebuilt(suite, vc, options, created, signature, hash, crypto);
    CheckedOnRebuilt(suite, CompleteOf(suite, vc, config, signature).value, ProofOf(config, text), text, signature,
                     SigningInput(vc - {"proof"}, config, hash, crypto), key, crypto);
  }

  /**
   Two phases: a credential that had no proof verifies exactly when the signature is not all zero and the key accepts
   it for the very bytes that were prepared.
   */
  lemma PreparedThenVerified<Key>(suite: Suite, vc: Members, options: ProofOptions, hash: HashName, created: string,
                                  signature: seq<Byte>, key: Key, crypto: Crypto<Key>)
    requires "proof" !in vc && PrepareWith(vc, options, suite, hash, created, crypto).Success?
    requires ValidLength(suite, |signature|) && hash == HashForLength(suite, |signature|)
    ensures var prepared := PrepareWith(vc, options, suite, hash, created, crypto).value;
      var completed := CompleteOf(suite, vc, prepared.proofConfig, signature);
      && completed.Success?
      && (VerifyOf(suite, completed.value, Some(key), crypto) == Verified <==>
            !AllZero(signature) && crypto.accepts(key, hash, prepared.dataToSign, signature))
  {
    assert vc - {"proof"} == vc;
    VerifiesAsExpected(suite, vc, options, created, signature, key, crypto);
  }

  // ----- The algorithms

  function SuiteFor(algorithm: Algorithm): Suite {
    if algorithm == Ed25519 then EdDsa else Ecdsa
  }

  /** The raw signature lengths of the curves. */
  function LengthFor(algorithm: Algorithm): nat {
    if algorithm == P384 then 96 else 64
  }

  /** `prepareProof` for the two curves and `prepareEdDsaProof` for Ed25519. */
  function Prepare<Key>(vc: Members, options: ProofOptions, algorithm: Algorithm, created: string, crypto: Crypto<Key>)
    : Result<Prepared, ProofError>
  {
    if algorithm == Ed25519 then PrepareEdDsaProof(vc, options, created, crypto)
    else PrepareProof(vc, options, algorithm, created, crypto)
  }

  /** A key that accepts the signatures of its own algorithm has every one that is not all zero verified. */
  lemma SignedIsVerified<Key>(algorithm: Algorithm, vc: Members, options: ProofOptions, created: string,
                              sign: seq<Byte> -> seq<Byte>, key: Key, crypto: Crypto<Key>)
    requires algorithm != Rsa && "proof" !in vc && Prepare(vc, options, algorithm, created, crypto).Success?
    requires forall data :: |sign(data)| == LengthFor(algorithm)
    requires forall data :: crypto.accepts(key, HashForAlgorithm(algorithm), data, sign(data))
    ensures var prepared := Prepare(vc, options, algorithm, created, crypto).value;
      var signature := sign(prepared.dataToSign);
      var completed := CompleteOf(SuiteFor(algorithm), vc, prepared.proofConfig, signature);
      && completed.Success?
      && (VerifyOf(SuiteFor(algorithm), completed.value, Some(key), crypto) == Verified <==> !AllZero(signature))
  {
    var prepared := Prepare(vc, options, algorithm, created, crypto).value;
    PreparedThenVerified(SuiteFor(algorithm), vc, options, HashForAlgorithm(algorithm), created,
                         sign(prepared.dataToSign), key, crypto);
  }

  // ----- The batch path agrees

  predicate SameContext(a: Members, b: Members) {
    && ("@context" in a <==> "@context" in b)
    && ("@context" in a ==> a["@context"] == b["@context"])
  }

  lemma ConfigsDifferInContext(a: Members, b: Members, options: ProofOptions, suite: string, created: string)
    ensures BuildProofConfig(a, options, suite, created) == BuildProofConfig(b, options, suite, created) <==> SameContext(a, b)
  {
    var c, d := BuildProofConfig(a, options, suite, created), BuildProofConfig(b, options, suite, created);
    assert "@context" in c <==> "@context" in a;
    assert "@context" in d <==> "@context" in b;
    assert "@context" in a ==> c["@context"] == a["@context"];
    assert "@context" in b ==> d["@context"] == b["@context"];
  }

  /**
   Precomputing for a batch gives each row exactly what preparing it alone would give, bytes and config, for every
   algorithm; a row with another context gets a config that is not its own.
   */
  lemma BatchIsPlain<Key>(template: Members, vc: Members, options: ProofOptions, algorithm: Algorithm, created: string,
                          crypto: Crypto<Key>)
    requires PrecomputeProofConfig(template, options, algorithm, created, crypto).Success?
    ensures var pre := PrecomputeProofConfig(template, options, algorithm, created, crypto).value;
      && (SameContext(template, vc) ==>
            PrepareWithPrecomputed(vc, pre, crypto) == Prepare(vc, options, algorithm, created, crypto))
      && (SameContext(template, vc) <==>
            pre.proofConfig == BuildProofConfig(vc, options, SuiteName(SuiteFor(algorithm)), created))
  {
    ConfigsDifferInContext(template, vc, options, SuiteName(SuiteFor(algorithm)), created);
  }
}
