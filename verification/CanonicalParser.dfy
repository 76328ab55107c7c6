/** A JSON parser into meanings, and the proof that it inverts the canonical printer. */
module CanonicalParser {
  import opened Wrappers
  import opened CanonicalJson

  // ----- Strings

  function HexValue(u: CodeUnit): Option<int> {
    if 48 <= u <= 57 then Some(u - 48) else if 97 <= u <= 102 then Some(u - 87) else None
  }

  function Unescape(letter: CodeUnit): Option<CodeUnit> {
    if letter == 98 then Some(8)
    else if letter == 116 then Some(9)
    else if letter == 110 then Some(10)
    else if letter == 102 then Some(12)
    else if letter == 114 then Some(13)
    else if letter == QUOTE || letter == BACKSLASH then Some(letter)
    else None
  }

  /** The code unit of four hexadecimal digits. */
  function HexUnits(t: Text): (u: Option<CodeUnit>)
    requires |t| >= 4
  {
    match (HexValue(t[0]), HexValue(t[1]), HexValue(t[2]), HexValue(t[3]))
    case (Some(a), Some(b), Some(c), Some(d)) =>
      if 0 <= a < 16 && 0 <= b < 16 && 0 <= c < 16 && 0 <= d < 16 then Some(4096 * a + 256 * b + 16 * c + d) else None
    case _ => None
  }

  /** What follows an opening quote, up to its closing quote. */
  function ReadString(t: Text, read: Text): (r: Option<(Text, Text)>)
    ensures r.Some? ==> |r.value.1| < |t|
    decreases |t|
  {
    if t == [] then None
    else if t[0] == QUOTE then Some((read, t[1..]))
    else if t[0] != BACKSLASH then ReadString(t[1..], read + [t[0]])
    else if |t| >= 6 && t[1] == 117 then
      match HexUnits(t[2..])
      case None => None
      case Some(u) => ReadString(t[6..], read + [u])
    else if |t| >= 2 then
      match Unescape(t[1])
      case None => None
      case Some(u) => ReadString(t[2..], read + [u])
    else None
  }

  lemma UnescapeShort(u: CodeUnit)
    requires ShortEscape(u).Some?
    ensures Unescape(ShortEscape(u).value) == Some(u) && ShortEscape(u).value != 117
  {
  }

  lemma HexOfUnit(d: int)
    requires 0 <= d < 16
    ensures HexValue(HexUnit(d)) == Some(d)
  {
  }

  lemma DigitsOfUnit(u: CodeUnit)
    ensures 0 <= u / 4096 < 16
    ensures u == 4096 * (u / 4096) + 256 * (u / 256 % 16) + 16 * (u / 16 % 16) + u % 16
  {
    assert u / 256 == 16 * (u / 4096) + u / 256 % 16;
    assert u / 16 == 16 * (u / 256) + u / 16 % 16;
  }

  lemma ReadUnicode(u: CodeUnit, rest: Text, read: Text)
    ensures ReadString(UnicodeEscape(u) + rest, read) == ReadString(rest, read + [u])
  {
    DigitsOfUnit(u);
    HexOfUnit(u / 4096);
    HexOfUnit(u / 256 % 16);
    HexOfUnit(u / 16 % 16);
    HexOfUnit(u % 16);
    var t := UnicodeEscape(u) + rest;
    assert t[6..] == rest;
    assert HexUnits(t[2..]) == Some(u);
  }

  /** Reading back one escaped code unit. */
  lemma ReadOne(u: CodeUnit, rest: Text, read: Text)
    ensures ReadString(EscapeOne(u) + rest, read) == ReadString(rest, read + [u])
  {
    var t := EscapeOne(u) + rest;
    if ShortEscape(u).Some? {
      UnescapeShort(u);
      assert t[2..] == rest;
    } else if u < 0x20 || IsLead(u) || IsTrail(u) {
      ReadUnicode(u, rest, read);
    } else {
      assert t[1..] == rest;
    }
  }

  lemma ReadPlain(u: CodeUnit, rest: Text, read: Text)
    requires u != QUOTE && u != BACKSLASH
    ensures ReadString([u] + rest, read) == ReadString(rest, read + [u])
  {
    assert ([u] + rest)[1..] == rest;
  }

  lemma ReadPair(lead: CodeUnit, trail: CodeUnit, rest: Text, read: Text)
    requires IsLead(lead) && IsTrail(trail)
    ensures ReadString([lead, trail] + rest, read) == ReadString(rest, read + [lead, trail])
  {
    ReadPlain(lead, [trail] + rest, read);
    ReadPlain(trail, rest, read + [lead]);
    assert [lead, trail] + rest == [lead] + ([trail] + rest);
    assert read + [lead] + [trail] == read + [lead, trail];
  }

  lemma Associative<T>(a: seq<T>, b: seq<T>, c: seq<T>)
    ensures a + (b + c) == (a + b) + c
  {
  }

  /** Reading an escaped string up to its closing quote gives the string back, lone surrogates included. */
  lemma {:induction false} ReadEscaped(s: Text, rest: Text, read: Text)
    ensures ReadString(Escape(s) + ([QUOTE] + rest), read) == Some((read + s, rest))
    decreases |s|
  {
    var close := [QUOTE] + rest;
    if s == [] {
      assert close[1..] == rest && [] + close == close && read + [] == read;
    } else if IsLead(s[0]) && |s| > 1 && IsTrail(s[1]) {
      ReadEscaped(s[2..], rest, read + [s[0], s[1]]);
      Associative([s[0], s[1]], Escape(s[2..]), close);
      ReadPair(s[0], s[1], Escape(s[2..]) + close, read);
      Regroup(read, s, 2);
    } else {
      ReadEscaped(s[1..], rest, read + [s[0]]);
      Associative(EscapeOne(s[0]), Escape(s[1..]), close);
      ReadOne(s[0], Escape(s[1..]) + close, read);
      Regroup(read, s, 1);
    }
  }

  lemma Regroup(read: Text, s: Text, n: nat)
    requires n <= |s|
    ensures read + s[..n] + s[n..] == read + s
    ensures n == 1 ==> s[..n] == [s[0]]
    ensures n == 2 ==> s[..n] == [s[0], s[1]]
  {
  }

  lemma ReadQuoted(s: Text, rest: Text)
    ensures var t := Quote(s) + rest;
            t[0] == QUOTE && ReadString(t[1..], []) == Some((s, rest))
  {
    assert (Quote(s) + rest)[1..] == Escape(s) + ([QUOTE] + rest);
    ReadEscaped(s, rest, []);
    assert [] + s == s;
  }

  // ----- Values

  /** How many number units `t` starts with. */
  function NumberLength(t: Text): (n: nat)
    ensures n <= |t|
  {
    if t != [] && IsNumberUnit(t[0]) then 1 + NumberLength(t[1..]) else 0
  }

  predicate StartsWith(t: Text, word: Text) {
    |word| <= |t| && t[..|word|] == word
  }

  /** One value and the text after it. */
  function Parse(t: Text): (r: Option<(Meaning, Text)>)
    ensures r.Some? ==> |r.value.1| < |t|
    decreases |t|, 1
  {
    if t == [] then None
    else if t[0] == QUOTE then
      match ReadString(t[1..], [])
      case None => None
      case Some((s, rest)) => Some((MStr(s), rest))
    else if t[0] == OPEN_BRACKET then
      if |t| > 1 && t[1] == CLOSE_BRACKET then Some((MArr([]), t[2..]))
      else match ParseElements(t[1..])
        case None => None
        case Some((elems, rest)) => Some((MArr(elems), rest))
    else if t[0] == OPEN_BRACE then
      if |t| > 1 && t[1] == CLOSE_BRACE then Some((MObj(map[]), t[2..]))
      else match ParseMembers(t[1..])
        case None => None
        case Some((members, rest)) => Some((MObj(members), rest))
    else if StartsWith(t, NULL) then Some((MNull, t[4..]))
    else if StartsWith(t, TRUE) then Some((MBool(true), t[4..]))
    else if StartsWith(t, FALSE) then Some((MBool(false), t[5..]))
    else
      var n := NumberLength(t);
      if n == 0 then None else Some((MNum(t[..n]), t[n..]))
  }

  /** One or more values, separated by commas and closed by a bracket. */
  function ParseElements(t: Text): (r: Option<(seq<Meaning>, Text)>)
    ensures r.Some? ==> |r.value.1| < |t|
    decreases |t|, 2
  {
    match Parse(t)
    case None => None
    case Some((m, rest)) =>
      if rest == [] then None
      else if rest[0] == CLOSE_BRACKET then Some(([m], rest[1..]))
      else if rest[0] != COMMA then None
      else match ParseElements(rest[1..])
        case None => None
        case Some((more, after)) => Some(([m] + more, after))
  }

  /** One or more members, separated by commas and closed by a brace; the first of two equal keys wins. */
  function ParseMembers(t: Text): (r: Option<(map<Text, Meaning>, Text)>)
    ensures r.Some? ==> |r.value.1| < |t|
    decreases |t|, 2
  {
    if t == [] || t[0] != QUOTE then None
    else match ReadString(t[1..], [])
      case None => None
      case Some((key, t')) =>
        if t' == [] || t'[0] != COLON then None
        else match Parse(t'[1..])
          case None => None
          case Some((m, rest)) =>
            if rest == [] then None
            else if rest[0] == CLOSE_BRACE then Some((map[key := m], rest[1..]))
            else if rest[0] != COMMA then None
            else match ParseMembers(rest[1..])
              case None => None
              case Some((more, after)) => Some((more[key := m], after))
  }

  // ----- The parser inverts the printer

  /** No number runs on into `rest`. */
  predicate Separated(rest: Text) {
    rest == [] || !IsNumberUnit(rest[0])
  }

  /** A text that is read back as `m`, whatever separated text follows. */
  ghost predicate ReadsAs(text: Text, m: Meaning) {
    forall rest :: Separated(rest) ==> Parse(text + rest) == Some((m, rest))
  }

  lemma {:induction false} NumberLengthOf(text: Text, rest: Text)
    requires (forall i :: 0 <= i < |text| ==> IsNumberUnit(text[i])) && Separated(rest)
    ensures NumberLength(text + rest) == |text|
  {
    if text == [] {
      assert [] + rest == rest;
    } else {
      assert (text + rest)[1..] == text[1..] + rest;
      NumberLengthOf(text[1..], rest);
    }
  }

  lemma StartsDiffer(t: Text, word: Text)
    requires t != [] && word != [] && t[0] != word[0]
    ensures !StartsWith(t, word)
  {
    if |word| <= |t| {
      assert t[..|word|][0] == t[0];
    }
  }

  lemma NumberReads(text: Text)
    requires IsNumberText(text)
    ensures ReadsAs(text, MNum(text))
  {
    forall rest | Separated(rest)
      ensures Parse(text + rest) == Some((MNum(text), rest))
    {
      var t := text + rest;
      NumberLengthOf(text, rest);
      assert t[0] == text[0] && t[..|text|] == text && t[|text|..] == rest;
      StartsDiffer(t, NULL);
      StartsDiffer(t, TRUE);
      StartsDiffer(t, FALSE);
    }
  }

  lemma StringReads(s: Text)
    ensures ReadsAs(Quote(s), MStr(s))
  {
    forall rest | Separated(rest)
      ensures Parse(Quote(s) + rest) == Some((MStr(s), rest))
    {
      ReadQuoted(s, rest);
    }
  }

  lemma WordsRead()
    ensures ReadsAs(NULL, MNull) && ReadsAs(TRUE, MBool(true)) && ReadsAs(FALSE, MBool(false))
  {
    forall rest | Separated(rest)
      ensures Parse(NULL + rest) == Some((MNull, rest))
      ensures Parse(TRUE + rest) == Some((MBool(true), rest))
      ensures Parse(FALSE + rest) == Some((MBool(false), rest))
    {
      assert (NULL + rest)[..4] == NULL && (NULL + rest)[4..] == rest;
      assert (TRUE + rest)[..4] == TRUE && (TRUE + rest)[4..] == rest;
      assert (FALSE + rest)[..5] == FALSE && (FALSE + rest)[5..] == rest;
      assert (TRUE + rest)[..4][0] != NULL[0];
      assert |FALSE + rest| >= 4 && (FALSE + rest)[..4][0] != NULL[0] && (FALSE + rest)[..4][0] != TRUE[0];
    }
  }

  /** Texts that are read back as the meanings at the same positions. */
  ghost predicate AllRead(texts: seq<Text>, ms: seq<Meaning>) {
    |texts| == |ms| && forall i :: 0 <= i < |texts| ==> ReadsAs(texts[i], ms[i])
  }

  lemma LastElement(text: Text, m: Meaning, rest: Text)
    requires ReadsAs(text, m)
    ensures ParseElements(text + ([CLOSE_BRACKET] + rest)) == Some(([m], rest))
  {
    assert Separated([CLOSE_BRACKET] + rest);
    assert ([CLOSE_BRACKET] + rest)[1..] == rest;
  }

  lemma NextElement(text: Text, m: Meaning, more: Text, ms: seq<Meaning>, rest: Text)
    requires ReadsAs(text, m) && ParseElements(more) == Some((ms, rest))
    ensures ParseElements(text + ([COMMA] + more)) == Some(([m] + ms, rest))
  {
    assert Separated([COMMA] + more);
    assert ([COMMA] + more)[1..] == more;
  }

  lemma JoinMore(first: Text, texts: seq<Text>, close: Text)
    requires texts != []
    ensures Join([first] + texts) + close == first + ([COMMA] + (Join(texts) + close))
  {
    assert ([first] + texts)[1..] == texts;
  }

  lemma {:induction false} ElementsRead(texts: seq<Text>, ms: seq<Meaning>, rest: Text)
    requires texts != [] && AllRead(texts, ms)
    ensures ParseElements(Join(texts) + ([CLOSE_BRACKET] + rest)) == Some((ms, rest))
    decreases |texts|
  {
    var close := [CLOSE_BRACKET] + rest;
    assert ReadsAs(texts[0], ms[0]);
    if |texts| == 1 {
      LastElement(texts[0], ms[0], rest);
      assert ms == [ms[0]];
    } else {
      assert AllRead(texts[1..], ms[1..]);
      ElementsRead(texts[1..], ms[1..], rest);
      NextElement(texts[0], ms[0], Join(texts[1..]) + close, ms[1..], rest);
      JoinMore(texts[0], texts[1..], close);
      assert texts == [texts[0]] + texts[1..] && ms == [ms[0]] + ms[1..];
    }
  }

  /** Every text that is read back starts with something other than a closing bracket or brace. */
  lemma ReadsStart(text: Text, m: Meaning)
    requires ReadsAs(text, m)
    ensures text != [] && text[0] != CLOSE_BRACKET && text[0] != CLOSE_BRACE
  {
    assert Separated([]) && text + [] == text;
    assert Parse(text) == Some((m, []));
    assert NumberLength(text) > 0 ==> IsNumberUnit(text[0]);
    assert StartsWith(text, NULL) ==> text[..4][0] == NULL[0];
    assert StartsWith(text, TRUE) ==> text[..4][0] == TRUE[0];
    assert StartsWith(text, FALSE) ==> text[..5][0] == FALSE[0];
  }

  lemma JoinStart(texts: seq<Text>)
    requires texts != [] && texts[0] != []
    ensures Join(texts) != [] && Join(texts)[0] == texts[0][0]
  {
  }

  lemma ArrayReads(texts: seq<Text>, ms: seq<Meaning>)
    requires AllRead(texts, ms)
    ensures ReadsAs([OPEN_BRACKET] + Join(texts) + [CLOSE_BRACKET], MArr(ms))
  {
    var text := [OPEN_BRACKET] + Join(texts) + [CLOSE_BRACKET];
    forall rest | Separated(rest)
      ensures Parse(text + rest) == Some((MArr(ms), rest))
    {
      var t := text + rest;
      assert t[1..] == Join(texts) + ([CLOSE_BRACKET] + rest);
      if texts == [] {
        assert t[1] == CLOSE_BRACKET && t[2..] == rest && ms == [];
      } else {
        ReadsStart(texts[0], ms[0]);
        JoinStart(texts);
        assert t[1] == texts[0][0];
        ElementsRead(texts, ms, rest);
      }
    }
  }

  // ----- Objects

  /** The parts whose value is defined. */
  predicate IsKept(p: Part) {
    p.text.Success? && p.text.value.Some?
  }

  function Kept(parts: seq<Part>): (kept: seq<Part>)
    ensures forall i :: 0 <= i < |kept| ==> IsKept(kept[i])
  {
    if parts == [] then []
    else if IsKept(parts[0]) then [parts[0]] + Kept(parts[1..])
    else Kept(parts[1..])
  }

  function TextsOf(kept: seq<Part>): (texts: seq<Text>)
    requires forall i :: 0 <= i < |kept| ==> IsKept(kept[i])
    ensures |texts| == |kept|
  {
    if kept == [] then []
    else
      assert IsKept(kept[0]);
      [MemberText(kept[0].key, kept[0].text.value.value)] + TextsOf(kept[1..])
  }

  /** All values can be printed and have been. */
  ghost predicate Printed(parts: seq<Part>) {
    forall i :: 0 <= i < |parts| ==> parts[i].text.Success? && Printable(parts[i].value)
                                     && (parts[i].text.value.Some? <==> Denote(parts[i].value).Some?)
  }

  /** The meanings of the defined parts, by key. */
  ghost function PartMap(parts: seq<Part>): map<Text, Meaning>
    requires Printed(parts)
  {
    if parts == [] then map[]
    else
      var rest := PartMap(parts[1..]);
      match Denote(parts[0].value)
      case None => rest
      case Some(m) => rest[parts[0].key := m]
  }

  lemma {:induction false} TextsOfKept(parts: seq<Part>)
    requires Printed(parts)
    ensures MemberTexts(parts) == Success(TextsOf(Kept(parts)))
    ensures Printed(Kept(parts)) && PartMap(Kept(parts)) == PartMap(parts)
  {
    if parts != [] {
      TextsOfKept(parts[1..]);
      if IsKept(parts[0]) {
        assert Kept(parts)[1..] == Kept(parts[1..]);
      }
    }
  }

  ghost predicate AllPartsRead(kept: seq<Part>)
    requires Printed(kept)
  {
    forall i :: 0 <= i < |kept| ==> IsKept(kept[i]) && ReadsAs(kept[i].text.value.value, Denote(kept[i].value).value)
  }

  /** Reading a member up to the text after its value. */
  lemma MemberStart(key: Text, text: Text, m: Meaning, rest: Text)
    requires ReadsAs(text, m) && Separated(rest)
    ensures var t := MemberText(key, text) + rest;
            t[0] == QUOTE && ReadString(t[1..], []) == Some((key, [COLON] + (text + rest)))
            && Parse(([COLON] + (text + rest))[1..]) == Some((m, rest))
  {
    assert MemberText(key, text) + rest == Quote(key) + ([COLON] + (text + rest));
    ReadQuoted(key, [COLON] + (text + rest));
    assert ([COLON] + (text + rest))[1..] == text + rest;
  }

  lemma LastMember(key: Text, text: Text, m: Meaning, rest: Text)
    requires ReadsAs(text, m)
    ensures ParseMembers(MemberText(key, text) + ([CLOSE_BRACE] + rest)) == Some((map[key := m], rest))
  {
    MemberStart(key, text, m, [CLOSE_BRACE] + rest);
    assert ([CLOSE_BRACE] + rest)[1..] == rest;
  }

  lemma NextMember(key: Text, text: Text, m: Meaning, more: Text, ms: map<Text, Meaning>, rest: Text)
    requires ReadsAs(text, m) && ParseMembers(more) == Some((ms, rest))
    ensures ParseMembers(MemberText(key, text) + ([COMMA] + more)) == Some((ms[key := m], rest))
  {
    MemberStart(key, text, m, [COMMA] + more);
    assert ([COMMA] + more)[1..] == more;
  }

  lemma {:induction false} MembersRead(kept: seq<Part>, rest: Text)
    requires kept != [] && Printed(kept) && AllPartsRead(kept)
    ensures ParseMembers(Join(TextsOf(kept)) + ([CLOSE_BRACE] + rest)) == Some((PartMap(kept), rest))
    decreases |kept|
  {
    var close := [CLOSE_BRACE] + rest;
    var key, text, m := kept[0].key, kept[0].text.value.value, Denote(kept[0].value).value;
    if |kept| == 1 {
      LastMember(key, text, m, rest);
      assert kept[1..] == [] && PartMap(kept) == map[][key := m];
    } else {
      MembersRead(kept[1..], rest);
      NextMember(key, text, m, Join(TextsOf(kept[1..])) + close, PartMap(kept[1..]), rest);
      JoinMore(MemberText(key, text), TextsOf(kept[1..]), close);
    }
  }

  lemma ObjectReads(kept: seq<Part>)
    requires Printed(kept) && AllPartsRead(kept)
    ensures ReadsAs([OPEN_BRACE] + Join(TextsOf(kept)) + [CLOSE_BRACE], MObj(PartMap(kept)))
  {
    var texts := TextsOf(kept);
    var text := [OPEN_BRACE] + Join(texts) + [CLOSE_BRACE];
    forall rest | Separated(rest)
      ensures Parse(text + rest) == Some((MObj(PartMap(kept)), rest))
    {
      var t := text + rest;
      assert t[1..] == Join(texts) + ([CLOSE_BRACE] + rest);
      if kept == [] {
        assert t[1] == CLOSE_BRACE && t[2..] == rest;
      } else {
        JoinStart(texts);
        assert t[1] == QUOTE;
        MembersRead(kept, rest);
      }
    }
  }

  // ----- Sorting does not change what an object means

  ghost predicate DistinctParts(parts: seq<Part>) {
    forall i, j :: 0 <= i < j < |parts| ==> parts[i].key != parts[j].key
  }

  lemma {:induction false} InsertKeeps(p: Part, parts: seq<Part>)
    ensures |Insert(p, parts)| == |parts| + 1
    ensures forall q :: q in Insert(p, parts) <==> q == p || q in parts
  {
    if parts == [] || Before(p.key, parts[0].key) {
    } else {
      InsertKeeps(p, parts[1..]);
      assert parts == [parts[0]] + parts[1..];
    }
  }

  lemma {:induction false} SortKeeps(parts: seq<Part>)
    ensures |SortParts(parts)| == |parts|
    ensures forall q :: q in SortParts(parts) <==> q in parts
  {
    if parts != [] {
      SortKeeps(parts[1..]);
      InsertKeeps(parts[0], SortParts(parts[1..]));
      assert parts == [parts[0]] + parts[1..];
    }
  }

  lemma PrintedIn(parts: seq<Part>)
    ensures Printed(parts) <==> forall p :: p in parts ==>
              p.text.Success? && Printable(p.value) && (p.text.value.Some? <==> Denote(p.value).Some?)
  {
  }

  lemma PrintedSorted(parts: seq<Part>)
    requires Printed(parts)
    ensures Printed(SortParts(parts))
  {
    SortKeeps(parts);
    PrintedIn(parts);
    PrintedIn(SortParts(parts));
  }

  lemma {:induction false} InsertMap(p: Part, parts: seq<Part>)
    requires Printed([p] + parts) && Printed(parts) && Printed(Insert(p, parts))
    requires forall i :: 0 <= i < |parts| ==> parts[i].key != p.key
    ensures PartMap(Insert(p, parts)) == PartMap([p] + parts)
  {
    assert ([p] + parts)[1..] == parts;
    if parts == [] || Before(p.key, parts[0].key) {
    } else {
      var rest := parts[1..];
      InsertKeeps(p, rest);
      assert Printed(rest);
      assert Insert(p, parts)[1..] == Insert(p, rest);
      assert ([p] + rest)[1..] == rest;
      InsertMap(p, rest);
    }
  }

  lemma {:induction false} SortMap(parts: seq<Part>)
    requires Printed(parts) && DistinctParts(parts)
    ensures Printed(SortParts(parts)) && PartMap(SortParts(parts)) == PartMap(parts)
  {
    PrintedSorted(parts);
    if parts != [] {
      var rest := SortParts(parts[1..]);
      SortMap(parts[1..]);
      SortKeeps(parts[1..]);
      assert parts == [parts[0]] + parts[1..];
      assert ([parts[0]] + rest)[1..] == rest;
      forall i | 0 <= i < |rest|
        ensures rest[i].key != parts[0].key
      {
        assert rest[i] in parts[1..];
      }
      InsertMap(parts[0], rest);
    }
  }

  // ----- The printer is inverted

  lemma {:induction false} PartsOf(members: seq<Member>, i: nat)
    requires i < |members|
    ensures Parts(members)[i] == Part(members[i].key, members[i].value, Canon(members[i].value))
  {
    if i > 0 {
      PartsOf(members[1..], i - 1);
    }
  }

  lemma {:induction false} PartMapOfMembers(members: seq<Member>)
    requires forall i :: 0 <= i < |members| ==> Printable(members[i].value)
    requires Printed(Parts(members))
    ensures PartMap(Parts(members)) == DenoteMembers(members)
  {
    if members != [] {
      assert Parts(members)[1..] == Parts(members[1..]);
      PartMapOfMembers(members[1..]);
    }
  }

  /** What the parser sees of a printed value: nothing of undefined, the meaning of everything else. */
  ghost predicate Inverted(v: Value)
    requires Printable(v)
  {
    && Canon(v).Success?
    && (Canon(v).value.Some? <==> Denote(v).Some?)
    && (Denote(v).Some? ==> ReadsAs(Canon(v).value.value, Denote(v).value))
  }

  lemma {:induction false} ElementsInverted(elems: seq<Value>)
    requires forall i :: 0 <= i < |elems| ==> Printable(elems[i]) && Inverted(elems[i])
    ensures ElementTexts(elems).Success? && AllRead(ElementTexts(elems).value, DenoteElements(elems))
  {
    if elems != [] {
      ElementsInverted(elems[1..]);
      WordsRead();
      var texts, ms := ElementTexts(elems).value, DenoteElements(elems);
      assert texts[1..] == ElementTexts(elems[1..]).value && ms[1..] == DenoteElements(elems[1..]);
      forall i | 0 <= i < |texts|
        ensures ReadsAs(texts[i], ms[i])
      {
        if i > 0 {
          assert texts[i] == texts[1..][i - 1] && ms[i] == ms[1..][i - 1];
        }
      }
    }
  }

  lemma ObjectInverted(members: seq<Member>)
    requires DistinctKeys(members)
    requires forall i :: 0 <= i < |members| ==> Printable(members[i].value) && Inverted(members[i].value)
    ensures Inverted(Obj(members))
  {
    var parts := Parts(members);
    forall i | 0 <= i < |parts|
      ensures parts[i] == Part(members[i].key, members[i].value, Canon(members[i].value))
    {
      PartsOf(members, i);
    }
    SortMap(parts);
    SortKeeps(parts);
    PartMapOfMembers(members);
    var sorted := SortParts(parts);
    TextsOfKept(sorted);
    KeptWithin(sorted);
    ObjectReads(Kept(sorted));
  }

  lemma {:induction false} KeptWithin(parts: seq<Part>)
    ensures forall p :: p in Kept(parts) <==> p in parts && IsKept(p)
  {
    if parts != [] {
      KeptWithin(parts[1..]);
      assert parts == [parts[0]] + parts[1..];
    }
  }

  /** The parser inverts the printer on every value that it prints. */
  lemma {:induction false} CanonInverted(v: Value)
    requires WellFormed(v) && Printable(v)
    ensures Inverted(v)
  {
    match v
    case Num(n) =>
      assert IsNumberText(ZERO);
      NumberReads(if n.NegativeZero? then ZERO else n.text);
    case Str(s) => StringReads(s);
    case Arr(elems) =>
      forall i | 0 <= i < |elems|
        ensures Inverted(elems[i])
      {
        CanonInverted(elems[i]);
      }
      ElementsInverted(elems);
      ArrayReads(ElementTexts(elems).value, DenoteElements(elems));
    case Obj(members) =>
      forall i | 0 <= i < |members|
        ensures Inverted(members[i].value)
      {
        CanonInverted(members[i].value);
      }
      ObjectInverted(members);
    case _ => WordsRead();
  }

  // ----- When the printer throws

  lemma {:induction false} ElementsSucceed(elems: seq<Value>)
    ensures ElementTexts(elems).Success? <==> forall i :: 0 <= i < |elems| ==> Canon(elems[i]).Success?
  {
    if elems != [] {
      ElementsSucceed(elems[1..]);
      assert forall i :: 0 < i < |elems| ==> elems[i] == elems[1..][i - 1];
    }
  }

  lemma {:induction false} MembersSucceed(parts: seq<Part>)
    ensures MemberTexts(parts).Success? <==> forall p :: p in parts ==> p.text.Success?
  {
    if parts != [] {
      MembersSucceed(parts[1..]);
      assert parts == [parts[0]] + parts[1..];
    }
  }

  /** The printer succeeds exactly on printable values, whatever the order of keys. */
  lemma {:induction false} CanonSucceedsExactly(v: Value)
    ensures Canon(v).Success? <==> Printable(v)
  {
    match v
    case Arr(elems) =>
      forall i | 0 <= i < |elems|
        ensures Canon(elems[i]).Success? <==> Printable(elems[i])
      {
        CanonSucceedsExactly(elems[i]);
      }
      ElementsSucceed(elems);
    case Obj(members) =>
      forall i | 0 <= i < |members|
        ensures Parts(members)[i].text.Success? <==> Printable(members[i].value)
      {
        PartsOf(members, i);
        CanonSucceedsExactly(members[i].value);
      }
      SortKeeps(Parts(members));
      MembersSucceed(SortParts(Parts(members)));
      assert forall i :: 0 <= i < |members| ==> Parts(members)[i] in Parts(members);
    case _ =>
  }

  // ----- Equal meanings print alike

  ghost predicate Sorted(parts: seq<Part>) {
    forall i, j :: 0 <= i < j < |parts| ==> Before(parts[i].key, parts[j].key) && parts[i].key != parts[j].key
  }

  lemma {:induction false} InsertSorted(p: Part, parts: seq<Part>)
    requires Sorted(parts) && forall i :: 0 <= i < |parts| ==> parts[i].key != p.key
    ensures Sorted(Insert(p, parts))
  {
    InsertKeeps(p, parts);
    if parts == [] || Before(p.key, parts[0].key) {
      forall i | 0 <= i < |parts|
        ensures Before(p.key, parts[i].key)
      {
        if i > 0 {
          BeforeTransitive(p.key, parts[0].key, parts[i].key);
        }
      }
    } else {
      var rest := parts[1..];
      InsertSorted(p, rest);
      InsertKeeps(p, rest);
      BeforeTotal(p.key, parts[0].key);
      var inserted := Insert(p, rest);
      forall i | 0 <= i < |inserted|
        ensures Before(parts[0].key, inserted[i].key) && parts[0].key != inserted[i].key
      {
        assert inserted[i] in inserted;
        if inserted[i] != p {
          var k :| 0 <= k < |rest| && rest[k] == inserted[i];
          assert parts[k + 1] == inserted[i];
        }
      }
    }
  }

  lemma {:induction false} SortSorted(parts: seq<Part>)
    requires DistinctParts(parts)
    ensures Sorted(SortParts(parts))
  {
    if parts != [] {
      SortSorted(parts[1..]);
      SortKeeps(parts[1..]);
      var rest := SortParts(parts[1..]);
      forall i | 0 <= i < |rest|
        ensures rest[i].key != parts[0].key
      {
        assert rest[i] in parts[1..];
      }
      InsertSorted(parts[0], rest);
    }
  }

  lemma {:induction false} KeptSorted(parts: seq<Part>)
    requires Sorted(parts)
    ensures Sorted(Kept(parts))
  {
    if parts != [] {
      KeptSorted(parts[1..]);
      KeptWithin(parts[1..]);
      var kept := Kept(parts[1..]);
      forall i | 0 <= i < |kept|
        ensures Before(parts[0].key, kept[i].key) && parts[0].key != kept[i].key
      {
        assert kept[i] in parts[1..];
      }
    }
  }

  lemma {:induction false} PartMapKeys(kept: seq<Part>)
    requires Printed(kept) && forall i :: 0 <= i < |kept| ==> IsKept(kept[i])
    ensures forall k :: k in PartMap(kept) <==> exists i :: 0 <= i < |kept| && kept[i].key == k
  {
    if kept != [] {
      PartMapKeys(kept[1..]);
      assert forall i :: 0 < i < |kept| ==> kept[i] == kept[1..][i - 1];
      forall k | k in PartMap(kept)
        ensures exists i :: 0 <= i < |kept| && kept[i].key == k
      {
        if k in PartMap(kept[1..]) {
          var j :| 0 <= j < |kept[1..]| && kept[1..][j].key == k;
          assert kept[j + 1].key == k;
        } else {
          assert kept[0].key == k;
        }
      }
    }
  }

  /** The least key of a sorted list is the least key of its map. */
  lemma SameFirstKey(a: seq<Part>, b: seq<Part>)
    requires a != [] && b != [] && Sorted(a) && Sorted(b) && Printed(a) && Printed(b)
    requires (forall i :: 0 <= i < |a| ==> IsKept(a[i])) && (forall i :: 0 <= i < |b| ==> IsKept(b[i]))
    requires PartMap(a) == PartMap(b)
    ensures a[0].key == b[0].key
  {
    PartMapKeys(a);
    PartMapKeys(b);
    assert a[0].key in PartMap(b) && b[0].key in PartMap(a);
    var i :| 0 <= i < |b| && b[i].key == a[0].key;
    var j :| 0 <= j < |a| && a[j].key == b[0].key;
    BeforeTotal(a[0].key, b[0].key);
  }

  lemma {:induction false} NotInMap(k: Text, parts: seq<Part>)
    requires Printed(parts) && forall i :: 0 <= i < |parts| ==> parts[i].key != k
    ensures k !in PartMap(parts)
  {
    if parts != [] {
      NotInMap(k, parts[1..]);
    }
  }

  lemma TailMap(a: seq<Part>)
    requires a != [] && Sorted(a) && Printed(a) && IsKept(a[0])
    ensures PartMap(a) != map[] && PartMap(a)[a[0].key] == Denote(a[0].value).value
    ensures PartMap(a[1..]) == PartMap(a) - {a[0].key}
  {
    NotInMap(a[0].key, a[1..]);
    assert a[0].key in PartMap(a);
  }

  /** Keys and meanings agree place by place. */
  ghost predicate SamePlaces(a: seq<Part>, b: seq<Part>)
    requires Printed(a) && Printed(b)
  {
    |a| == |b| && forall i :: 0 <= i < |a| ==> a[i].key == b[i].key && Denote(a[i].value) == Denote(b[i].value)
  }

  lemma SamePlacesCons(a: seq<Part>, b: seq<Part>)
    requires Printed(a) && Printed(b) && a != [] && b != []
    requires a[0].key == b[0].key && Denote(a[0].value) == Denote(b[0].value) && SamePlaces(a[1..], b[1..])
    ensures SamePlaces(a, b)
  {
    forall i | 0 < i < |a|
      ensures a[i].key == b[i].key && Denote(a[i].value) == Denote(b[i].value)
    {
      assert a[i] == a[1..][i - 1] && b[i] == b[1..][i - 1];
    }
  }

  /** Two sorted lists with one map have the same keys and meanings in the same places. */
  lemma {:induction false} SortedSame(a: seq<Part>, b: seq<Part>)
    requires Sorted(a) && Sorted(b) && Printed(a) && Printed(b)
    requires (forall i :: 0 <= i < |a| ==> IsKept(a[i])) && (forall i :: 0 <= i < |b| ==> IsKept(b[i]))
    requires PartMap(a) == PartMap(b)
    ensures SamePlaces(a, b)
    decreases |a|
  {
    if a == [] && b == [] {
    } else if a == [] {
      TailMap(b);
    } else if b == [] {
      TailMap(a);
    } else {
      SameFirstKey(a, b);
      TailMap(a);
      TailMap(b);
      SortedSame(a[1..], b[1..]);
      SamePlacesCons(a, b);
    }
  }

  lemma {:induction false} SameTexts(a: seq<Part>, b: seq<Part>)
    requires (forall i :: 0 <= i < |a| ==> IsKept(a[i])) && (forall i :: 0 <= i < |b| ==> IsKept(b[i]))
    requires |a| == |b| && forall i :: 0 <= i < |a| ==> a[i].key == b[i].key && a[i].text == b[i].text
    ensures TextsOf(a) == TextsOf(b)
  {
    if a != [] {
      SameTexts(a[1..], b[1..]);
    }
  }

  /** The sorted, defined members of an object. */
  ghost function Canonical(members: seq<Member>): seq<Part> {
    Kept(SortParts(Parts(members)))
  }

  lemma CanonicalFacts(members: seq<Member>)
    requires WellFormed(Obj(members)) && Printable(Obj(members))
    ensures var kept := Canonical(members);
            && Printed(kept) && Sorted(kept)
            && PartMap(kept) == DenoteMembers(members)
            && Canon(Obj(members)) == Success(Some([OPEN_BRACE] + Join(TextsOf(kept)) + [CLOSE_BRACE]))
            && forall i :: 0 <= i < |kept| ==>
                 exists j :: 0 <= j < |members| && kept[i] == Part(members[j].key, members[j].value, Canon(members[j].value))
  {
    var parts := Parts(members);
    forall i | 0 <= i < |parts|
      ensures parts[i] == Part(members[i].key, members[i].value, Canon(members[i].value))
      ensures Inverted(members[i].value)
    {
      PartsOf(members, i);
      CanonInverted(members[i].value);
    }
    SortMap(parts);
    SortKeeps(parts);
    SortSorted(parts);
    PartMapOfMembers(members);
    var sorted := SortParts(parts);
    TextsOfKept(sorted);
    KeptWithin(sorted);
    KeptSorted(sorted);
    forall i | 0 <= i < |Kept(sorted)|
      ensures exists j :: 0 <= j < |members|
                && Kept(sorted)[i] == Part(members[j].key, members[j].value, Canon(members[j].value))
    {
      assert Kept(sorted)[i] in parts;
      var j :| 0 <= j < |parts| && parts[j] == Kept(sorted)[i];
    }
  }

  lemma {:induction false} ElementsSame(a: seq<Value>, b: seq<Value>)
    requires |a| == |b|
    requires forall i :: 0 <= i < |a| ==> WellFormed(a[i]) && Printable(a[i]) && WellFormed(b[i]) && Printable(b[i])
    requires DenoteElements(a) == DenoteElements(b)
    requires forall i :: 0 <= i < |a| ==> (Denote(a[i]) == Denote(b[i]) ==> Canon(a[i]) == Canon(b[i]))
    requires forall i :: 0 <= i < |a| ==> Inverted(a[i]) && Inverted(b[i])
    requires forall i :: 0 <= i < |a| ==> Denote(a[i]) == Some(MNull) ==> Canon(a[i]) == Success(Some(NULL))
    requires forall i :: 0 <= i < |b| ==> Denote(b[i]) == Some(MNull) ==> Canon(b[i]) == Success(Some(NULL))
    ensures ElementTexts(a) == ElementTexts(b)
  {
    if a != [] {
      assert DenoteElements(a)[0] == DenoteElements(b)[0];
      assert DenoteElements(a)[1..] == DenoteElements(a[1..]) && DenoteElements(b)[1..] == DenoteElements(b[1..]);
      ElementsSame(a[1..], b[1..]);
    }
  }

  lemma {:induction false} DenoteElementsAt(elems: seq<Value>, i: nat)
    requires i < |elems| && forall k :: 0 <= k < |elems| ==> Printable(elems[k])
    ensures DenoteElements(elems)[i] == if Denote(elems[i]).Some? then Denote(elems[i]).value else MNull
  {
    if i > 0 {
      DenoteElementsAt(elems[1..], i - 1);
    }
  }

  /** Values that mean the same are printed alike. */
  lemma {:induction false} SameMeaningSameText(v: Value, w: Value)
    requires WellFormed(v) && Printable(v) && WellFormed(w) && Printable(w)
    requires Denote(v) == Denote(w)
    ensures Canon(v) == Canon(w)
    decreases v
  {
    match v
    case Arr(elems) =>
      var elems' := w.elems;
      assert |elems| == |DenoteElements(elems)| == |elems'|;
      forall i | 0 <= i < |elems|
        ensures Denote(elems[i]) == Denote(elems'[i]) ==> Canon(elems[i]) == Canon(elems'[i])
        ensures Inverted(elems[i]) && Inverted(elems'[i])
        ensures Denote(elems[i]) == Some(MNull) ==> Canon(elems[i]) == Success(Some(NULL))
        ensures Denote(elems'[i]) == Some(MNull) ==> Canon(elems'[i]) == Success(Some(NULL))
      {
        CanonInverted(elems[i]);
        CanonInverted(elems'[i]);
        if Denote(elems[i]) == Denote(elems'[i]) {
          SameMeaningSameText(elems[i], elems'[i]);
        }
      }
      ElementsSame(elems, elems');
    case Obj(members) =>
      var a, b := Canonical(members), Canonical(w.members);
      CanonicalFacts(members);
      CanonicalFacts(w.members);
      SortedSame(a, b);
      forall i | 0 <= i < |a|
        ensures a[i].text == b[i].text
      {
        var j :| 0 <= j < |members| && a[i] == Part(members[j].key, members[j].value, Canon(members[j].value));
        var k :| 0 <= k < |w.members| && b[i] == Part(w.members[k].key, w.members[k].value, Canon(w.members[k].value));
        SameMeaningSameText(members[j].value, w.members[k].value);
      }
      SameTexts(a, b);
    case _ =>
  }

  /**
   The contract of the hash: two values have the same canonical text if and only if they mean the
   same, that is, agree after sorting keys, dropping undefined members and reading -0 as 0.
   */
  lemma CanonicalExactly(v: Value, w: Value)
    requires WellFormed(v) && Printable(v) && WellFormed(w) && Printable(w)
    ensures Canon(v) == Canon(w) <==> Denote(v) == Denote(w)
  {
    CanonInverted(v);
    CanonInverted(w);
    if Canon(v) == Canon(w) && Denote(v).Some? {
      var text := Canon(v).value.value;
      assert Separated([]) && text + [] == text;
      assert Parse(text + []) == Some((Denote(v).value, []));
      assert Parse(text + []) == Some((Denote(w).value, []));
    }
    if Denote(v) == Denote(w) {
      SameMeaningSameText(v, w);
    }
  }
}
