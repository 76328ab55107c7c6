/**
 did:key identifiers: written through one base58btc implementation (packages/did/src/did-key.ts)
 and read back through both (the resolver, and packages/verification/src/key-utils.ts).
 */
module DidKey {
  import opened Wrappers
  import opened Positional
  import opened Strings
  import opened Base58
  import opened Multibase

  datatype Curve = P256 | P384 | Ed25519

  /** The multicodec prefix of a curve. */
  function Prefix(curve: Curve): seq<Byte> {
    match curve
    case P256 => [0x80, 0x24]
    case P384 => [0x81, 0x24]
    case Ed25519 => [0xed, 0x01]
  }

  /** The length of a public key: SEC1 compressed for the two EC curves, raw for Ed25519. */
  function KeyLength(curve: Curve): nat {
    match curve
    case P256 => 33
    case P384 => 49
    case Ed25519 => 32
  }

  // ----- Deriving identifiers

  function MultibaseKey(curve: Curve, key: seq<Byte>): string {
    "z" + Encode(Prefix(curve) + key)
  }

  function DidOf(curve: Curve, key: seq<Byte>): string {
    "did" + [':'] + ("key" + [':'] + MultibaseKey(curve, key))
  }

  /** `deriveDidKeyIdFromCompressedKey`, and the Ed25519 case of `deriveDidKeyId`. */
  function DeriveDidKeyId(curve: Curve, key: seq<Byte>): Result<string, string> {
    if |key| != KeyLength(curve) then Failure("Invalid compressed public key length")
    else Success(DidOf(curve, key) + "#" + MultibaseKey(curve, key))
  }

  // ----- Resolving identifiers

  datatype ResolutionError =
    | EmptyDid
    | InvalidDidFormat
    | UnsupportedDidMethod
    | NotBase58btc
    | UndecodableKey
    | KeyTooShort
    | UnsupportedKeyType
    | InvalidKeyLength(expected: nat, got: nat)
    | NotACompressedPoint

  datatype VerificationMethod = VerificationMethod(id: string, controller: string, publicKeyMultibase: string)

  datatype DidDocument = DidDocument(
    id: string,
    verificationMethod: seq<VerificationMethod>,
    authentication: seq<string>,
    assertionMethod: seq<string>,
    capabilityInvocation: seq<string>,
    capabilityDelegation: seq<string>)

  /** The curve whose multicodec prefix starts the decoded bytes. */
  function DetectCurve(decoded: seq<Byte>): Option<Curve>
    requires |decoded| >= 2
  {
    if decoded[..2] == Prefix(P256) then Some(P256)
    else if decoded[..2] == Prefix(P384) then Some(P384)
    else if decoded[..2] == Prefix(Ed25519) then Some(Ed25519)
    else None
  }

  function DocumentFor(did: string, multibaseKey: string): DidDocument {
    var id := did + "#" + multibaseKey;
    DidDocument(did, [VerificationMethod(id, did, multibaseKey)], [id], [id], [id], [id])
  }

  /** The checks of the resolver on the decoded bytes. */
  function CheckKey(decoded: seq<Byte>): Result<(), ResolutionError> {
    if |decoded| < 2 then Failure(KeyTooShort)
    else match DetectCurve(decoded)
      case None => Failure(UnsupportedKeyType)
      case Some(curve) =>
        var key := decoded[2..];
        if |key| != KeyLength(curve) then Failure(InvalidKeyLength(KeyLength(curve), |key|))
        else if curve != Ed25519 && key[0] != 2 && key[0] != 3 then Failure(NotACompressedPoint)
        else Success(())
  }

  /** `DIDKeyResolver.resolve`. */
  function Resolve(did: string): Result<DidDocument, ResolutionError> {
    if did == "" then Failure(EmptyDid)
    else
      var parts := Split(did, ':');
      if |parts| != 3 || parts[0] != "did" then Failure(InvalidDidFormat)
      else if parts[1] != "key" then Failure(UnsupportedDidMethod)
      else if parts[2] == "" || parts[2][0] != 'z' then Failure(NotBase58btc)
      else match Decode(parts[2][1..])
        case Failure(_) => Failure(UndecodableKey)
        case Success(decoded) =>
          match CheckKey(decoded)
          case Failure(e) => Failure(e)
          case Success(_) => Success(DocumentFor(did, parts[2]))
  }

  // ----- Reading the key on the verifier's side

  /** The object identifiers in front of an EC public key: ecPublicKey and the curve. */
  function AlgorithmOids(curve: Curve): seq<Byte> {
    [0x06, 0x07, 0x2a, 0x86, 0x48, 0xce, 0x3d, 0x02, 0x01] +
    if curve == P256 then [0x06, 0x08, 0x2a, 0x86, 0x48, 0xce, 0x3d, 0x03, 0x01, 0x07]
    else [0x06, 0x05, 0x2b, 0x81, 0x04, 0x00, 0x22]
  }

  /** The SubjectPublicKeyInfo bytes that are handed to the crypto library. */
  function Spki(curve: Curve, key: seq<Byte>): (spki: seq<Byte>)
    requires |key| == KeyLength(curve)
  {
    if curve == Ed25519 then
      [0x30, 0x2a, 0x30, 0x05, 0x06, 0x03, 0x2b, 0x65, 0x70, 0x03, 0x21, 0x00] + key
    else
      var oids := AlgorithmOids(curve);
      var algSequence := [0x30, |oids|] + oids;
      var bitString := [0x03, |key| + 1, 0x00] + key;
      [0x30, |algSequence| + |bitString|] + algSequence + bitString
  }

  /** `publicKeyFromMultibase`: the SPKI it builds, or None where it returns null. */
  function PublicKeyFromMultibase(multibaseKey: string): Option<seq<Byte>> {
    match MultibaseDecodeOf(multibaseKey)
    case Failure(_) => None
    case Success(decoded) =>
      if |decoded| < 2 then None
      else match DetectCurve(decoded)
        case None => None
        case Some(curve) =>
          if |decoded| - 2 != KeyLength(curve) then None else Some(Spki(curve, decoded[2..]))
  }

  // ----- Properties

  /** A key of the right length that, on an EC curve, starts with a compressed point marker. */
  predicate WellFormed(curve: Curve, key: seq<Byte>) {
    |key| == KeyLength(curve) && (curve != Ed25519 ==> key[0] == 2 || key[0] == 3)
  }

  /** No alphabet character is a separator of the identifier syntax. */
  lemma MultibaseKeyIsPlain(curve: Curve, key: seq<Byte>)
    ensures ':' !in MultibaseKey(curve, key)
  {
    assert AlphabetIndex(':').None?;
    var s := Encode(Prefix(curve) + key);
    ConvertKeeps(256, 58, Prefix(curve) + key);
    assert forall i :: 0 <= i < |s| ==> s[i] != ':';
  }

  lemma SplitDid(curve: Curve, key: seq<Byte>)
    ensures Split(DidOf(curve, key), ':') == ["did", "key", MultibaseKey(curve, key)]
  {
    MultibaseKeyIsPlain(curve, key);
    SplitOfThree("did", "key", MultibaseKey(curve, key), ':');
  }

  /** A prefix never runs into the key: the curve and the key are read back from their bytes. */
  lemma DetectsCurve(curve: Curve, key: seq<Byte>)
    ensures DetectCurve(Prefix(curve) + key) == Some(curve)
    ensures (Prefix(curve) + key)[2..] == key
  {
    assert (Prefix(curve) + key)[..2] == Prefix(curve);
    assert Prefix(P256)[0] == 0x80 && Prefix(P384)[0] == 0x81 && Prefix(Ed25519)[0] == 0xed;
  }

  /** The checks pass exactly on the bytes of a well-formed key. */
  lemma ChecksKey(curve: Curve, key: seq<Byte>)
    requires |key| == KeyLength(curve)
    ensures CheckKey(Prefix(curve) + key).Success? <==> WellFormed(curve, key)
  {
    DetectsCurve(curve, key);
  }

  /** Resolution of an identifier whose three parts and key bytes are known. */
  lemma ResolveParts(did: string, multibaseKey: string, decoded: seq<Byte>)
    requires did != "" && Split(did, ':') == ["did", "key", multibaseKey]
    requires multibaseKey != "" && multibaseKey[0] == 'z' && Decode(multibaseKey[1..]) == Success(decoded)
    ensures Resolve(did) == match CheckKey(decoded)
                            case Failure(e) => Failure(e)
                            case Success(_) => Success(DocumentFor(did, multibaseKey))
  {
  }

  /** A derived identifier resolves exactly when the key is well formed, to the document of that key. */
  lemma DerivedResolves(curve: Curve, key: seq<Byte>)
    requires |key| == KeyLength(curve)
    ensures Resolve(DidOf(curve, key)).Success? <==> WellFormed(curve, key)
    ensures WellFormed(curve, key) ==>
              Resolve(DidOf(curve, key)) == Success(DocumentFor(DidOf(curve, key), MultibaseKey(curve, key)))
    ensures DeriveDidKeyId(curve, key)
            == Success(DocumentFor(DidOf(curve, key), MultibaseKey(curve, key)).verificationMethod[0].id)
  {
    var bytes, did, multibaseKey := Prefix(curve) + key, DidOf(curve, key), MultibaseKey(curve, key);
    SplitDid(curve, key);
    assert Decode(multibaseKey[1..]) == Success(bytes) by {
      DecodeAfterEncode(bytes);
      assert multibaseKey[1..] == Encode(bytes);
    }
    ResolveParts(did, multibaseKey, bytes);
    ChecksKey(curve, key);
  }

  /** The verifier's reader recovers curve and key from every identifier that can be derived. */
  lemma DerivedKeyIsRecovered(curve: Curve, key: seq<Byte>)
    requires |key| == KeyLength(curve)
    ensures PublicKeyFromMultibase(MultibaseKey(curve, key)) == Some(Spki(curve, key))
  {
    var bytes := Prefix(curve) + key;
    assert bytes[0] != 0;
    MultibaseRoundTrip(bytes);
    DetectsCurve(curve, key);
  }

  /** The curve and key bytes in an accepted identifier. */
  lemma AcceptedWasDerived(did: string) returns (curve: Curve, key: seq<Byte>)
    requires Resolve(did).Success?
    ensures WellFormed(curve, key) && did == DidOf(curve, key)
  {
    var parts := Split(did, ':');
    var s := parts[2][1..];
    var decoded := Decode(s).value;
    curve, key := DetectCurve(decoded).value, decoded[2..];
    assert decoded == Prefix(curve) + key;
    EncodeAfterDecode(s);
    assert parts[2] == MultibaseKey(curve, key);
    SplitInThree(did, ':');
  }

  ghost predicate Derivable(did: string) {
    exists curve, key :: WellFormed(curve, key) && did == DidOf(curve, key)
  }

  /** The resolver accepts exactly the identifiers that some well-formed key derives. */
  lemma AcceptedExactlyDerived(did: string)
    ensures Resolve(did).Success? <==> Derivable(did)
  {
    if Resolve(did).Success? {
      var curve, key := AcceptedWasDerived(did);
    }
    if Derivable(did) {
      var curve, key :| WellFormed(curve, key) && did == DidOf(curve, key);
      DerivedResolves(curve, key);
    }
  }

  /** One key, one identifier: two different keys never share a did:key. */
  lemma DidInjective(curve: Curve, key: seq<Byte>, curve': Curve, key': seq<Byte>)
    requires DidOf(curve, key) == DidOf(curve', key')
    ensures curve == curve' && key == key'
  {
    SplitDid(curve, key);
    SplitDid(curve', key');
    var bytes, bytes' := Prefix(curve) + key, Prefix(curve') + key';
    assert MultibaseKey(curve, key)[1..] == Encode(bytes);
    assert MultibaseKey(curve', key')[1..] == Encode(bytes');
    DecodeAfterEncode(bytes);
    DecodeAfterEncode(bytes');
    DetectsCurve(curve, key);
    DetectsCurve(curve', key');
  }

  /**
   Whatever the resolver accepts, both readers agree on: the verifier builds the SPKI of the very
   key that the identifier was derived from.
   */
  lemma ReadersAgreeOnAccepted(did: string)
    requires Resolve(did).Success?
    ensures exists curve, key ::
              WellFormed(curve, key) && did == DidOf(curve, key)
              && PublicKeyFromMultibase(Resolve(did).value.verificationMethod[0].publicKeyMultibase)
                 == Some(Spki(curve, key))
  {
    var curve, key := AcceptedWasDerived(did);
    DerivedResolves(curve, key);
    DerivedKeyIsRecovered(curve, key);
  }

  /** The SPKI is well-formed DER: both lengths are short form and count what follows; the key ends it. */
  lemma SpkiIsDer(curve: Curve, key: seq<Byte>)
    requires |key| == KeyLength(curve)
    ensures var spki := Spki(curve, key);
            var alg := spki[3];
            && |spki| == spki[1] + 2 && spki[1] < 128
            && spki[0] == 0x30 && spki[2] == 0x30
            && 4 + alg + 3 + |key| == |spki|
            && spki[4 + alg..][..3] == [0x03, |key| + 1, 0x00]
            && spki[4 + alg + 3..] == key
  {
    var spki := Spki(curve, key);
    if curve == Ed25519 {
      assert spki[3] == 5;
    } else {
      assert |AlgorithmOids(curve)| == if curve == P256 then 19 else 16;
      assert spki[3] == |AlgorithmOids(curve)|;
    }
  }

  // ----- The bytes and texts, from their definitions

  /** The multicodec codes of the three kinds of public key. */
  function Multicodec(curve: Curve): nat {
    match curve case P256 => 0x1200 case P384 => 0x1201 case Ed25519 => 0xed
  }

  /** Unsigned LEB128: seven bits a byte, low ones first, a high bit on all but the last. */
  function Varint(n: nat): seq<Byte> {
    if n < 0x80 then [n] else [0x80 + n % 0x80] + Varint(n / 0x80)
  }

  lemma PrefixIsVarint(curve: Curve)
    ensures Prefix(curve) == Varint(Multicodec(curve))
  {
    assert Varint(0x24) == [0x24] && Varint(0x01) == [0x01];
  }

  /** An identifier spelled out. The key is 33 or 49 bytes on the EC curves and 32 on Ed25519. */
  lemma DerivedExactly(curve: Curve, key: seq<Byte>)
    ensures var text := "z" + Encode(Varint(Multicodec(curve)) + key);
      && DidOf(curve, key) == "did:key:" + text
      && (DeriveDidKeyId(curve, key).Success? <==>
            |key| == match curve case P256 => 33 case P384 => 49 case Ed25519 => 32)
      && (DeriveDidKeyId(curve, key).Success? ==> DeriveDidKeyId(curve, key).value == "did:key:" + text + "#" + text)
  {
    PrefixIsVarint(curve);
    var text := "z" + Encode(Varint(Multicodec(curve)) + key);
    assert "did" + [':'] + ("key" + [':'] + text) == "did:key:" + text;
  }

  /** The document of an accepted identifier names one method, which has all four relationships. */
  lemma ResolvedDocument(did: string)
    requires Resolve(did).Success?
    ensures var document := Resolve(did).value;
      && document.id == did && "did:key:" <= did
      && var text := did[8..]; var id := did + "#" + text;
      && document.verificationMethod == [VerificationMethod(id, did, text)]
      && document.authentication == [id] && document.assertionMethod == [id]
      && document.capabilityInvocation == [id] && document.capabilityDelegation == [id]
  {
    var curve, key := AcceptedWasDerived(did);
    DerivedResolves(curve, key);
    DerivedExactly(curve, key);
    PrefixIsVarint(curve);
  }

  /** Seven bits a byte, high ones first, a high bit on all but the last. */
  function Base128(n: nat): seq<Byte> {
    Continued(n / 0x80) + [n % 0x80]
  }

  function Continued(n: nat): seq<Byte> {
    if n == 0 then [] else Continued(n / 0x80) + [0x80 + n % 0x80]
  }

  function Arcs(arcs: seq<nat>): seq<Byte> {
    if arcs == [] then [] else Base128(arcs[0]) + Arcs(arcs[1..])
  }

  /** A tag, a short-form length and the contents. */
  function Tlv(tag: Byte, contents: seq<Byte>): seq<Byte>
    requires |contents| < 0x80
  {
    [tag, |contents|] + contents
  }

  /** The contents of an OBJECT IDENTIFIER (section 8.19 of X.690): the first two arcs share a number. */
  function OidBytes(first: nat, second: nat, arcs: seq<nat>): seq<Byte> {
    Base128(40 * first + second) + Arcs(arcs)
  }

  lemma SmallArc(n: nat)
    requires n < 0x80
    ensures Base128(n) == [n]
  {
  }

  lemma TwoByteArc(n: nat)
    requires 0x80 <= n < 0x4000
    ensures Base128(n) == [0x80 + n / 0x80, n % 0x80]
  {
    assert Continued(n / 0x80) == Continued(0) + [0x80 + n / 0x80];
  }

  lemma ArcsCons(first: nat, rest: seq<nat>)
    ensures Arcs([first] + rest) == Base128(first) + Arcs(rest)
  {
    assert ([first] + rest)[1..] == rest;
  }

  lemma ThreeArcs(a: nat, b: nat, c: nat)
    ensures Arcs([a]) == Base128(a) && Arcs([a, b]) == Base128(a) + Base128(b)
    ensures Arcs([a, b, c]) == Base128(a) + Base128(b) + Base128(c)
  {
    ArcsCons(a, []);
    ArcsCons(b, []);
    ArcsCons(c, []);
    ArcsCons(a, [b]);
    ArcsCons(b, [c]);
    ArcsCons(a, [b, c]);
    assert [a] + [] == [a] && [b] + [] == [b] && [c] + [] == [c];
    assert [a] + [b] == [a, b] && [b] + [c] == [b, c] && [a] + [b, c] == [a, b, c];
  }

  /** 1.2.840.10045.2.1, id-ecPublicKey. */
  lemma EcPublicKeyOid()
    ensures OidBytes(1, 2, [840, 10045, 2, 1]) == [0x2a, 0x86, 0x48, 0xce, 0x3d, 0x02, 0x01]
  {
    ArcsCons(840, [10045, 2, 1]);
    assert [840] + [10045, 2, 1] == [840, 10045, 2, 1];
    ThreeArcs(10045, 2, 1);
    TwoByteArc(840);
    TwoByteArc(10045);
    SmallArc(42);
    SmallArc(2);
    SmallArc(1);
  }

  /** 1.2.840.10045.3.1.7, the curve P-256. */
  lemma P256Oid()
    ensures OidBytes(1, 2, [840, 10045, 3, 1, 7]) == [0x2a, 0x86, 0x48, 0xce, 0x3d, 0x03, 0x01, 0x07]
  {
    ArcsCons(840, [10045, 3, 1, 7]);
    ArcsCons(10045, [3, 1, 7]);
    assert [840] + [10045, 3, 1, 7] == [840, 10045, 3, 1, 7] && [10045] + [3, 1, 7] == [10045, 3, 1, 7];
    ThreeArcs(3, 1, 7);
    TwoByteArc(840);
    TwoByteArc(10045);
    SmallArc(42);
    SmallArc(3);
    SmallArc(1);
    SmallArc(7);
  }

  /** 1.3.132.0.34, the curve P-384, and 1.3.101.112, Ed25519. */
  lemma OtherOids()
    ensures OidBytes(1, 3, [132, 0, 34]) == [0x2b, 0x81, 0x04, 0x00, 0x22]
    ensures OidBytes(1, 3, [101, 112]) == [0x2b, 0x65, 0x70]
  {
    ThreeArcs(132, 0, 34);
    ThreeArcs(101, 112, 0);
    TwoByteArc(132);
    SmallArc(43);
    SmallArc(0);
    SmallArc(34);
    SmallArc(101);
    SmallArc(112);
  }

  /** The algorithm identifier of a curve: the key type, and for the EC curves the curve. */
  function AlgorithmDer(curve: Curve): seq<Byte> {
    match curve
    case P256 => [0x06, 7] + OidBytes(1, 2, [840, 10045, 2, 1]) + ([0x06, 8] + OidBytes(1, 2, [840, 10045, 3, 1, 7]))
    case P384 => [0x06, 7] + OidBytes(1, 2, [840, 10045, 2, 1]) + ([0x06, 5] + OidBytes(1, 3, [132, 0, 34]))
    case Ed25519 => [0x06, 3] + OidBytes(1, 3, [101, 112])
  }

  lemma P256Algorithm()
    ensures AlgorithmDer(P256) == AlgorithmOids(P256) && |AlgorithmDer(P256)| == 19
  {
    EcPublicKeyOid();
    P256Oid();
  }

  lemma P384Algorithm()
    ensures AlgorithmDer(P384) == AlgorithmOids(P384) && |AlgorithmDer(P384)| == 16
  {
    EcPublicKeyOid();
    OtherOids();
  }

  lemma Ed25519Algorithm()
    ensures AlgorithmDer(Ed25519) == [0x06, 0x03, 0x2b, 0x65, 0x70]
  {
    OtherOids();
  }

  lemma AlgorithmDerIs(curve: Curve)
    ensures AlgorithmDer(curve) == if curve == Ed25519 then [0x06, 0x03, 0x2b, 0x65, 0x70] else AlgorithmOids(curve)
    ensures |AlgorithmDer(curve)| == match curve case P256 => 19 case P384 => 16 case Ed25519 => 5
  {
    match curve
    case P256 => P256Algorithm();
    case P384 => P384Algorithm();
    case Ed25519 => Ed25519Algorithm();
  }

  /**
   The SPKI names the algorithm and curve by their registered object identifiers: a SEQUENCE of the algorithm
   identifier and a BIT STRING with no unused bits that holds the key.
   */
  lemma SpkiExactly(curve: Curve, key: seq<Byte>)
    requires |key| == KeyLength(curve)
    ensures |AlgorithmDer(curve)| < 0x80 && |Tlv(0x30, AlgorithmDer(curve)) + Tlv(0x03, [0x00] + key)| < 0x80
    ensures Spki(curve, key) == Tlv(0x30, Tlv(0x30, AlgorithmDer(curve)) + Tlv(0x03, [0x00] + key))
  {
    AlgorithmDerIs(curve);
    NestedTlv(AlgorithmDer(curve), key);
    if curve == Ed25519 {
      assert [0x30, 5 + |key| + 5] + ([0x30, 5] + [0x06, 0x03, 0x2b, 0x65, 0x70]) + ([0x03, |key| + 1, 0x00] + key)
          == [0x30, 0x2a, 0x30, 0x05, 0x06, 0x03, 0x2b, 0x65, 0x70, 0x03, 0x21, 0x00] + key;
    }
  }

  lemma NestedTlv(algorithm: seq<Byte>, key: seq<Byte>)
    requires |algorithm| + |key| + 5 < 0x80
    ensures Tlv(0x30, Tlv(0x30, algorithm) + Tlv(0x03, [0x00] + key))
         == [0x30, |algorithm| + |key| + 5] + ([0x30, |algorithm|] + algorithm) + ([0x03, |key| + 1, 0x00] + key)
  {
    assert Tlv(0x03, [0x00] + key) == [0x03, |key| + 1, 0x00] + key;
  }
}
