/**
 The canonical JSON printer behind the schema hash (packages/shared/src/hash.ts).

 `Canon` is the printer. `Denote` says what a value means as JSON: objects are maps, so the order of
 keys is gone, undefined members are dropped, undefined elements are null and -0 is 0. A parser
 inverts the printer up to this meaning, so two values print alike exactly when they mean the same.
 Strings are sequences of UTF-16 code units, as the sort order and the escapes require.
 */
module CanonicalJson {
  import opened Wrappers

  type CodeUnit = u: int | 0 <= u < 0x10000

  type Text = seq<CodeUnit>

  /** A finite number other than -0 is given by the text that Number::toString has for it. */
  datatype Number = NaN | Infinite | NegativeZero | Finite(text: Text)

  datatype Value =
    | Null
    | Undefined
    | Bool(b: bool)
    | Num(n: Number)
    | Str(s: Text)
    | Arr(elems: seq<Value>)
    | Obj(members: seq<Member>)
    | Unsupported

  /** An own property; the members of an object are in insertion order and have distinct keys. */
  datatype Member = Member(key: Text, value: Value)

  datatype CanonError = UnsupportedType | NotRepresentable

  // ----- Code units

  const QUOTE: CodeUnit := 34
  const COMMA: CodeUnit := 44
  const COLON: CodeUnit := 58
  const OPEN_BRACKET: CodeUnit := 91
  const BACKSLASH: CodeUnit := 92
  const CLOSE_BRACKET: CodeUnit := 93
  const OPEN_BRACE: CodeUnit := 123
  const CLOSE_BRACE: CodeUnit := 125
  const NULL: Text := [110, 117, 108, 108]
  const TRUE: Text := [116, 114, 117, 101]
  const FALSE: Text := [102, 97, 108, 115, 101]
  const ZERO: Text := [48]

  predicate IsLead(u: CodeUnit) {
    0xD800 <= u < 0xDC00
  }

  predicate IsTrail(u: CodeUnit) {
    0xDC00 <= u < 0xE000
  }

  // ----- JSON.stringify of strings

  /** A lower-case hexadecimal digit. */
  function HexUnit(d: int): CodeUnit
    requires 0 <= d < 16
  {
    if d < 10 then 48 + d else 87 + d
  }

  function UnicodeEscape(u: CodeUnit): Text {
    [BACKSLASH, 117, HexUnit(u / 4096), HexUnit(u / 256 % 16), HexUnit(u / 16 % 16), HexUnit(u % 16)]
  }

  /** The short escape letter of a code unit, if it has one. */
  function ShortEscape(u: CodeUnit): Option<CodeUnit> {
    if u == 8 then Some(98)
    else if u == 9 then Some(116)
    else if u == 10 then Some(110)
    else if u == 12 then Some(102)
    else if u == 13 then Some(114)
    else if u == QUOTE || u == BACKSLASH then Some(u)
    else None
  }

  /** One code unit that is not part of a surrogate pair. */
  function EscapeOne(u: CodeUnit): Text {
    match ShortEscape(u)
    case Some(letter) => [BACKSLASH, letter]
    case None => if u < 0x20 || IsLead(u) || IsTrail(u) then UnicodeEscape(u) else [u]
  }

  /** Escapes by code points: surrogate pairs stay, lone surrogates are escaped. */
  function Escape(s: Text): Text {
    if s == [] then []
    else if IsLead(s[0]) && |s| > 1 && IsTrail(s[1]) then [s[0], s[1]] + Escape(s[2..])
    else EscapeOne(s[0]) + Escape(s[1..])
  }

  function Quote(s: Text): Text {
    [QUOTE] + Escape(s) + [QUOTE]
  }

  // ----- The order of keys

  /** `a` comes before `b` in the default order of Array.prototype.sort, or is the same. */
  predicate Before(a: Text, b: Text) {
    if a == [] then true
    else if b == [] then false
    else if a[0] == b[0] then Before(a[1..], b[1..])
    else a[0] < b[0]
  }

  lemma {:induction false} BeforeTotal(a: Text, b: Text)
    ensures Before(a, b) || Before(b, a)
    ensures Before(a, b) && Before(b, a) ==> a == b
  {
    if a != [] && b != [] && a[0] == b[0] {
      BeforeTotal(a[1..], b[1..]);
      assert a == [a[0]] + a[1..] && b == [b[0]] + b[1..];
    }
  }

  lemma {:induction false} BeforeTransitive(a: Text, b: Text, c: Text)
    requires Before(a, b) && Before(b, c)
    ensures Before(a, c)
  {
    if a != [] && a[0] == b[0] && b[0] == c[0] {
      BeforeTransitive(a[1..], b[1..], c[1..]);
    }
  }

  // ----- The printer

  /** A member with the canonical text of its value: None for undefined. */
  datatype Part = Part(key: Text, value: Value, text: Result<Option<Text>, CanonError>)

  function Insert(p: Part, sorted: seq<Part>): seq<Part> {
    if sorted == [] || Before(p.key, sorted[0].key) then [p] + sorted
    else [sorted[0]] + Insert(p, sorted[1..])
  }

  /** The parts in the order of their keys. */
  function SortParts(parts: seq<Part>): seq<Part> {
    if parts == [] then [] else Insert(parts[0], SortParts(parts[1..]))
  }

  /** `parts.join(",")`. */
  function Join(texts: seq<Text>): Text {
    if texts == [] then []
    else if |texts| == 1 then texts[0]
    else texts[0] + [COMMA] + Join(texts[1..])
  }

  function MemberText(key: Text, text: Text): Text {
    Quote(key) + [COLON] + text
  }

  /** The member texts in order; undefined ones are dropped, the first error ends everything. */
  function MemberTexts(parts: seq<Part>): Result<seq<Text>, CanonError> {
    if parts == [] then Success([])
    else match parts[0].text
      case Failure(e) => Failure(e)
      case Success(None) => MemberTexts(parts[1..])
      case Success(Some(text)) =>
        match MemberTexts(parts[1..])
        case Failure(e) => Failure(e)
        case Success(rest) => Success([MemberText(parts[0].key, text)] + rest)
  }

  /** `canonicalize`; None is its undefined. */
  function Canon(v: Value): Result<Option<Text>, CanonError> {
    match v
    case Null => Success(Some(NULL))
    case Undefined => Success(None)
    case Unsupported => Failure(UnsupportedType)
    case Bool(b) => Success(Some(if b then TRUE else FALSE))
    case Num(n) =>
      (match n
       case NaN => Failure(NotRepresentable)
       case Infinite => Failure(NotRepresentable)
       case NegativeZero => Success(Some(ZERO))
       case Finite(text) => Success(Some(text)))
    case Str(s) => Success(Some(Quote(s)))
    case Arr(elems) =>
      (match ElementTexts(elems)
       case Failure(e) => Failure(e)
       case Success(texts) => Success(Some([OPEN_BRACKET] + Join(texts) + [CLOSE_BRACKET])))
    case Obj(members) =>
      (match MemberTexts(SortParts(Parts(members)))
       case Failure(e) => Failure(e)
       case Success(texts) => Success(Some([OPEN_BRACE] + Join(texts) + [CLOSE_BRACE])))
  }

  /** The texts of array elements; an undefined element is written as null. */
  function ElementTexts(elems: seq<Value>): Result<seq<Text>, CanonError> {
    if elems == [] then Success([])
    else match Canon(elems[0])
      case Failure(e) => Failure(e)
      case Success(first) =>
        match ElementTexts(elems[1..])
        case Failure(e) => Failure(e)
        case Success(rest) => Success([if first.Some? then first.value else NULL] + rest)
  }

  function Parts(members: seq<Member>): (parts: seq<Part>)
    ensures |parts| == |members|
  {
    if members == [] then []
    else [Part(members[0].key, members[0].value, Canon(members[0].value))] + Parts(members[1..])
  }

  // ----- The loops of the source

  /** Texts pushed already in front of those still to come. */
  function After(pushed: seq<Text>, rest: Result<seq<Text>, CanonError>): Result<seq<Text>, CanonError> {
    match rest
    case Failure(e) => Failure(e)
    case Success(texts) => Success(pushed + texts)
  }

  lemma PushOne(pushed: seq<Text>, parts: seq<Part>)
    requires parts != []
    ensures After(pushed, MemberTexts(parts)) ==
            match parts[0].text
            case Failure(e) => Failure(e)
            case Success(None) => After(pushed, MemberTexts(parts[1..]))
            case Success(Some(text)) => After(pushed + [MemberText(parts[0].key, text)], MemberTexts(parts[1..]))
  {
    if parts[0].text.Success? && parts[0].text.value.Some? && MemberTexts(parts[1..]).Success? {
      var text, texts := MemberText(parts[0].key, parts[0].text.value.value), MemberTexts(parts[1..]).value;
      assert pushed + ([text] + texts) == (pushed + [text]) + texts;
    }
  }

  /** The object case: keys in order, one part pushed for each defined value. */
  method PushParts(sorted: seq<Part>) returns (r: Result<seq<Text>, CanonError>)
    ensures r == MemberTexts(sorted)
  {
    var parts: seq<Text> := [];
    var left := sorted;
    assert MemberTexts(sorted).Success? ==> [] + MemberTexts(sorted).value == MemberTexts(sorted).value;
    while left != []
      invariant MemberTexts(sorted) == After(parts, MemberTexts(left))
      decreases |left|
    {
      PushOne(parts, left);
      var part := left[0];
      if part.text.Failure? {
        return Failure(part.text.error);
      }
      if part.text.value.Some? {
        parts := parts + [MemberText(part.key, part.text.value.value)];
      }
      left := left[1..];
    }
    assert parts + [] == parts;
    r := Success(parts);
  }

  // ----- What a value means

  datatype Meaning =
    | MNull
    | MBool(b: bool)
    | MNum(text: Text)
    | MStr(s: Text)
    | MArr(elems: seq<Meaning>)
    | MObj(members: map<Text, Meaning>)

  predicate IsNumberUnit(u: CodeUnit) {
    48 <= u <= 57 || u == 43 || u == 45 || u == 46 || u == 101
  }

  predicate IsNumberText(t: Text) {
    t != [] && forall i :: 0 <= i < |t| ==> IsNumberUnit(t[i])
  }

  predicate DistinctKeys(members: seq<Member>) {
    forall i, j :: 0 <= i < j < |members| ==> members[i].key != members[j].key
  }

  /** Number texts are number texts and object keys are distinct, at every level. */
  predicate WellFormed(v: Value) {
    match v
    case Num(Finite(text)) => IsNumberText(text)
    case Arr(elems) => forall i :: 0 <= i < |elems| ==> WellFormed(elems[i])
    case Obj(members) => DistinctKeys(members) && forall i :: 0 <= i < |members| ==> WellFormed(members[i].value)
    case _ => true
  }

  /** Nothing in the value makes the printer throw. */
  predicate Printable(v: Value) {
    match v
    case Unsupported => false
    case Num(n) => !n.NaN? && !n.Infinite?
    case Arr(elems) => forall i :: 0 <= i < |elems| ==> Printable(elems[i])
    case Obj(members) => forall i :: 0 <= i < |members| ==> Printable(members[i].value)
    case _ => true
  }

  /** None for undefined. */
  function Denote(v: Value): Option<Meaning>
    requires Printable(v)
  {
    match v
    case Null => Some(MNull)
    case Undefined => None
    case Bool(b) => Some(MBool(b))
    case Num(n) => Some(MNum(if n.NegativeZero? then ZERO else n.text))
    case Str(s) => Some(MStr(s))
    case Arr(elems) => Some(MArr(DenoteElements(elems)))
    case Obj(members) => Some(MObj(DenoteMembers(members)))
  }

  function DenoteElements(elems: seq<Value>): (r: seq<Meaning>)
    requires forall i :: 0 <= i < |elems| ==> Printable(elems[i])
    ensures |r| == |elems|
  {
    if elems == [] then []
    else
      var first := Denote(elems[0]);
      [if first.Some? then first.value else MNull] + DenoteElements(elems[1..])
  }

  function DenoteMembers(members: seq<Member>): map<Text, Meaning>
    requires forall i :: 0 <= i < |members| ==> Printable(members[i].value)
  {
    if members == [] then map[]
    else
      var rest := DenoteMembers(members[1..]);
      match Denote(members[0].value)
      case None => rest
      case Some(m) => rest[members[0].key := m]
  }
}
