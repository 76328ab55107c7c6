/**
 The canonical text, defined on its own and letter by letter.

 `IsText` says which text a value has without sorting and without a parser: the words and the escapes
 are spelled out, and the members of an object stand in ascending order of their keys, unit by unit. The printer
 writes that text.
 */
module CanonicalForm {
  import opened Wrappers
  import opened CanonicalJson
  import opened CanonicalParser

  // ----- The order of keys, by index

  /** At the first position where they differ the unit of `a` is smaller, or `a` ends there. */
  ghost predicate Ascends(a: Text, b: Text) {
    exists n: nat :: DiffersAt(a, b, n)
  }

  predicate DiffersAt(a: Text, b: Text, n: nat) {
    && n <= |a| && n < |b|
    && (forall i :: 0 <= i < n ==> a[i] == b[i])
    && (n == |a| || a[n] < b[n])
  }

  lemma DiffersBehind(u: CodeUnit, a: Text, b: Text, n: nat)
    ensures DiffersAt([u] + a, [u] + b, n + 1) <==> DiffersAt(a, b, n)
  {
    var x, y := [u] + a, [u] + b;
    assert forall i :: 0 <= i < |a| ==> x[i + 1] == a[i];
    assert forall i :: 0 <= i < |b| ==> y[i + 1] == b[i];
    if DiffersAt(a, b, n) {
      assert forall i :: 0 < i < n + 1 ==> x[i] == a[i - 1] && y[i] == b[i - 1];
    }
    if DiffersAt(x, y, n + 1) {
      forall i | 0 <= i < n ensures a[i] == b[i] {
        assert x[i + 1] == y[i + 1];
      }
    }
  }

  lemma AscendsBehind(u: CodeUnit, a: Text, b: Text)
    ensures Ascends([u] + a, [u] + b) <==> Ascends(a, b)
  {
    if Ascends(a, b) {
      var n: nat :| DiffersAt(a, b, n);
      DiffersBehind(u, a, b, n);
    }
    if Ascends([u] + a, [u] + b) {
      var n: nat :| DiffersAt([u] + a, [u] + b, n);
      DiffersBehind(u, a, b, n - 1);
    }
  }

  /** The order of the printer is that order. */
  lemma {:induction false} BeforeExactly(a: Text, b: Text)
    ensures Before(a, b) <==> a == b || Ascends(a, b)
  {
    if a != [] && b != [] && a[0] == b[0] {
      BeforeExactly(a[1..], b[1..]);
      assert a == [a[0]] + a[1..] && b == [b[0]] + b[1..];
      AscendsBehind(a[0], a[1..], b[1..]);
    } else if b != [] && (a == [] || a[0] < b[0]) {
      assert DiffersAt(a, b, 0);
    }
  }

  // ----- Texts

  /** The code units of a literal. */
  function U(s: string): Text
    requires forall i :: 0 <= i < |s| ==> s[i] < '\U{10000}'
  {
    seq(|s|, i requires 0 <= i < |s| => s[i] as int)
  }

  function Concat(pieces: seq<Text>): Text {
    if pieces == [] then [] else Concat(pieces[..|pieces| - 1]) + pieces[|pieces| - 1]
  }

  function WithCommas(pieces: seq<Text>): Text {
    if pieces == [] then []
    else if |pieces| == 1 then pieces[0]
    else WithCommas(pieces[..|pieces| - 1]) + U(",") + pieces[|pieces| - 1]
  }

  lemma {:induction false} ConcatCons(first: Text, rest: seq<Text>)
    ensures Concat([first] + rest) == first + Concat(rest)
    decreases |rest|
  {
    var all := [first] + rest;
    if rest == [] {
      assert all[..0] == [] && first + [] == first;
      assert all == [first];
    } else {
      var n := |rest| - 1;
      assert all[..n + 1] == [first] + rest[..n];
      ConcatCons(first, rest[..n]);
    }
  }

  lemma {:induction false} CommasCons(first: Text, rest: seq<Text>)
    requires rest != []
    ensures WithCommas([first] + rest) == first + U(",") + WithCommas(rest)
    decreases |rest|
  {
    var all, n := [first] + rest, |rest| - 1;
    if n == 0 {
      assert all[..1] == [first];
    } else {
      assert all[..n + 1] == [first] + rest[..n];
      CommasCons(first, rest[..n]);
    }
  }

  lemma {:induction false} JoinIsWithCommas(texts: seq<Text>)
    ensures Join(texts) == WithCommas(texts)
  {
    if |texts| > 1 {
      JoinIsWithCommas(texts[1..]);
      CommasCons(texts[0], texts[1..]);
      assert texts == [texts[0]] + texts[1..];
    }
  }

  // ----- Strings

  predicate PairAt(s: Text, i: int) {
    0 <= i < |s| - 1 && 0xD800 <= s[i] < 0xDC00 && 0xDC00 <= s[i + 1] < 0xE000
  }

  function HexDigit(d: nat): CodeUnit
    requires d < 16
  {
    U("0123456789abcdef")[d]
  }

  /** How JSON.stringify writes the unit at `i`: halves of surrogate pairs stay, lone ones are escaped. */
  function Written(s: Text, i: nat): Text
    requires i < |s|
  {
    var u := s[i];
    if PairAt(s, i) || PairAt(s, i - 1) then [u]
    else if u == '"' as int then U("\\\"")
    else if u == '\\' as int then U("\\\\")
    else if u == 8 then U("\\b")
    else if u == 9 then U("\\t")
    else if u == 10 then U("\\n")
    else if u == 12 then U("\\f")
    else if u == 13 then U("\\r")
    else if u < 0x20 || 0xD800 <= u < 0xE000 then
      U("\\u") + [HexDigit(u / 0x1000), HexDigit(u / 0x100 % 16), HexDigit(u / 0x10 % 16), HexDigit(u % 16)]
    else [u]
  }

  ghost predicate AreWritten(pieces: seq<Text>, s: Text, from: nat) {
    from + |pieces| == |s| && forall i :: 0 <= i < |pieces| ==> pieces[i] == Written(s, from + i)
  }

  ghost predicate IsString(t: Text, s: Text) {
    exists pieces :: AreWritten(pieces, s, 0) && t == U("\"") + Concat(pieces) + U("\"")
  }

  lemma AreWrittenCons(first: Text, pieces: seq<Text>, s: Text, from: nat)
    requires from < |s| && first == Written(s, from) && AreWritten(pieces, s, from + 1)
    ensures AreWritten([first] + pieces, s, from)
  {
    var all := [first] + pieces;
    forall i | 0 <= i < |all| ensures all[i] == Written(s, from + i) {
      if i > 0 {
        assert all[i] == pieces[i - 1] == Written(s, from + 1 + (i - 1));
      }
    }
  }

  lemma HexDigitIs(d: nat)
    requires d < 16
    ensures HexUnit(d) == HexDigit(d)
  {
  }

  lemma EscapeOneIs(s: Text, i: nat)
    requires i < |s| && !PairAt(s, i) && !PairAt(s, i - 1)
    ensures EscapeOne(s[i]) == Written(s, i)
  {
    var u := s[i];
    if ShortEscape(u).None? && (u < 0x20 || IsLead(u) || IsTrail(u)) {
      HexDigitIs(u / 4096);
      HexDigitIs(u / 256 % 16);
      HexDigitIs(u / 16 % 16);
      HexDigitIs(u % 16);
    }
  }

  lemma OneMoreWritten(s: Text, from: nat, first: Text, later: seq<Text>) returns (pieces: seq<Text>)
    requires from < |s| && first == Written(s, from) && AreWritten(later, s, from + 1)
    ensures AreWritten(pieces, s, from) && Concat(pieces) == first + Concat(later)
  {
    AreWrittenCons(first, later, s, from);
    ConcatCons(first, later);
    pieces := [first] + later;
  }

  lemma PairWritten(s: Text, from: nat, later: seq<Text>) returns (pieces: seq<Text>)
    requires PairAt(s, from) && AreWritten(later, s, from + 2)
    ensures AreWritten(pieces, s, from) && Concat(pieces) == [s[from], s[from + 1]] + Concat(later)
  {
    var half := OneMoreWritten(s, from + 1, [s[from + 1]], later);
    pieces := OneMoreWritten(s, from, [s[from]], half);
    assert [s[from]] + ([s[from + 1]] + Concat(later)) == [s[from], s[from + 1]] + Concat(later);
  }

  /** From any position that is not inside a pair. */
  lemma {:induction false} EscapeWrites(s: Text, from: nat, rest: Text) returns (pieces: seq<Text>)
    requires from <= |s| && !PairAt(s, from - 1) && rest == s[from..]
    ensures AreWritten(pieces, s, from) && Concat(pieces) == Escape(rest)
    decreases |rest|
  {
    if rest == [] {
      pieces := [];
    } else if PairAt(s, from) {
      assert s[from + 2..] == rest[2..];
      var later := EscapeWrites(s, from + 2, rest[2..]);
      pieces := PairWritten(s, from, later);
    } else {
      assert s[from + 1..] == rest[1..];
      var later := EscapeWrites(s, from + 1, rest[1..]);
      EscapeOneIs(s, from);
      pieces := OneMoreWritten(s, from, EscapeOne(s[from]), later);
    }
  }

  lemma QuoteIsString(s: Text)
    ensures IsString(Quote(s), s)
  {
    assert s[0..] == s;
    var pieces := EscapeWrites(s, 0, s);
    assert U("\"") == [QUOTE];
  }

  // ----- Values

  /** An element that is undefined is written as null. */
  ghost predicate IsElement(piece: Text, v: Value)
    decreases v, 3
  {
    if v.Undefined? then piece == U("null") else IsText(piece, v)
  }

  ghost predicate AreElements(pieces: seq<Text>, elems: seq<Value>)
    decreases elems, 0
  {
    && |pieces| == |elems|
    && forall i :: 0 <= i < |elems| ==> IsElement(pieces[i], elems[i])
  }

  /** The text of member `at`. */
  ghost predicate IsMember(piece: Text, members: seq<Member>, at: nat)
    decreases members, 0
  {
    at < |members| &&
    exists key, text :: piece == key + U(":") + text && IsString(key, members[at].key) && IsText(text, members[at].value)
  }

  /** `order` lists the members that are not undefined, by position, with their keys ascending. */
  ghost predicate IsOrder(order: seq<nat>, members: seq<Member>) {
    && (forall i :: 0 <= i < |order| ==> order[i] < |members| && !members[order[i]].value.Undefined?)
    && (forall at: nat :: at < |members| && !members[at].value.Undefined? ==> at in order)
    && (forall i, k :: 0 <= i < k < |order| ==> Ascends(members[order[i]].key, members[order[k]].key))
  }

  ghost predicate AreMembers(pieces: seq<Text>, order: seq<nat>, members: seq<Member>)
    decreases members, 1
  {
    && |pieces| == |order|
    && forall i :: 0 <= i < |order| ==> IsMember(pieces[i], members, order[i])
  }

  /** `t` is the canonical text of `v`. */
  ghost predicate IsText(t: Text, v: Value)
    decreases v, 2
  {
    match v
    case Null => t == U("null")
    case Undefined => false
    case Unsupported => false
    case Bool(b) => t == if b then U("true") else U("false")
    case Num(NegativeZero) => t == U("0")
    case Num(Finite(text)) => t == text
    case Num(_) => false
    case Str(s) => IsString(t, s)
    case Arr(elems) => exists pieces :: AreElements(pieces, elems) && t == U("[") + WithCommas(pieces) + U("]")
    case Obj(members) =>
      exists order, pieces ::
        && IsOrder(order, members) && AreMembers(pieces, order, members)
        && t == U("{") + WithCommas(pieces) + U("}")
  }

  // ----- The printer writes that text

  /** What is claimed of a value that the printer accepts. */
  ghost predicate WritesText(v: Value) {
    match Canon(v)
    case Failure(_) => true
    case Success(None) => v.Undefined?
    case Success(Some(t)) => IsText(t, v) && !v.Undefined?
  }

  lemma WordsAre()
    ensures NULL == U("null") && TRUE == U("true") && FALSE == U("false") && ZERO == U("0")
    ensures [OPEN_BRACKET] == U("[") && [CLOSE_BRACKET] == U("]") && [OPEN_BRACE] == U("{") && [CLOSE_BRACE] == U("}")
    ensures [COLON] == U(":")
  {
  }

  lemma {:induction false} ElementTextsAt(elems: seq<Value>, i: nat)
    requires ElementTexts(elems).Success? && i < |elems|
    ensures |ElementTexts(elems).value| == |elems| && Canon(elems[i]).Success?
    ensures ElementTexts(elems).value[i] == if Canon(elems[i]).value.Some? then Canon(elems[i]).value.value else NULL
    decreases |elems|
  {
    if i > 0 {
      ElementTextsAt(elems[1..], i - 1);
    } else if |elems| > 1 {
      ElementTextsAt(elems[1..], 0);
    }
  }

  lemma ElementIsWritten(v: Value, piece: Text)
    requires WritesText(v) && Canon(v).Success?
    requires piece == if Canon(v).value.Some? then Canon(v).value.value else NULL
    ensures IsElement(piece, v)
  {
    WordsAre();
  }

  lemma ElementsAreWritten(elems: seq<Value>)
    requires forall i :: 0 <= i < |elems| ==> WritesText(elems[i])
    ensures ElementTexts(elems).Success? ==> AreElements(ElementTexts(elems).value, elems)
  {
    if ElementTexts(elems).Success? {
      var pieces := ElementTexts(elems).value;
      if elems != [] {
        ElementTextsAt(elems, 0);
      }
      forall i | 0 <= i < |elems|
        ensures IsElement(pieces[i], elems[i])
      {
        ElementTextsAt(elems, i);
        ElementIsWritten(elems[i], pieces[i]);
      }
    }
  }

  lemma ArrayIsText(elems: seq<Value>)
    requires forall i :: 0 <= i < |elems| ==> WritesText(elems[i])
    ensures WritesText(Arr(elems))
  {
    ElementsAreWritten(elems);
    WordsAre();
    if ElementTexts(elems).Success? {
      var pieces := ElementTexts(elems).value;
      JoinIsWithCommas(pieces);
      assert AreElements(pieces, elems);
    }
  }

  ghost predicate IsPart(p: Part, members: seq<Member>, at: nat) {
    at < |members| && p == Part(members[at].key, members[at].value, Canon(members[at].value))
  }

  ghost predicate IsSomePart(p: Part, members: seq<Member>) {
    exists at: nat :: IsPart(p, members, at)
  }

  /** The positions of the parts in the object. */
  lemma {:induction false} FindParts(kept: seq<Part>, members: seq<Member>) returns (order: seq<nat>)
    requires forall i :: 0 <= i < |kept| ==> IsSomePart(kept[i], members)
    ensures |order| == |kept| && forall i :: 0 <= i < |kept| ==> IsPart(kept[i], members, order[i])
  {
    if kept == [] {
      order := [];
    } else {
      var rest := kept[1..];
      forall i | 0 <= i < |rest| ensures IsSomePart(rest[i], members) {
        assert rest[i] == kept[i + 1];
      }
      var at: nat :| IsPart(kept[0], members, at);
      var later := FindParts(rest, members);
      order := [at] + later;
      assert forall i :: 0 < i < |kept| ==> kept[i] == rest[i - 1] && order[i] == later[i - 1];
    }
  }

  lemma {:induction false} TextsOfAt(kept: seq<Part>, i: nat)
    requires (forall k :: 0 <= k < |kept| ==> IsKept(kept[k])) && i < |kept|
    ensures TextsOf(kept)[i] == MemberText(kept[i].key, kept[i].text.value.value)
  {
    if i > 0 {
      TextsOfAt(kept[1..], i - 1);
    }
  }

  lemma MemberIsWritten(p: Part, members: seq<Member>, at: nat, piece: Text)
    requires IsPart(p, members, at) && IsKept(p) && WritesText(members[at].value)
    requires piece == MemberText(p.key, p.text.value.value)
    ensures IsMember(piece, members, at)
  {
    QuoteIsString(p.key);
    WordsAre();
    var key, text := Quote(p.key), p.text.value.value;
    assert piece == key + U(":") + text && IsString(key, members[at].key);
  }

  lemma MemberTextIsWritten(kept: seq<Part>, order: seq<nat>, members: seq<Member>, i: nat)
    requires forall k :: 0 <= k < |kept| ==> IsKept(kept[k])
    requires i < |kept| == |order| && IsPart(kept[i], members, order[i]) && WritesText(members[order[i]].value)
    ensures IsMember(TextsOf(kept)[i], members, order[i])
  {
    TextsOfAt(kept, i);
    MemberIsWritten(kept[i], members, order[i], TextsOf(kept)[i]);
  }

  lemma MembersAreWritten(kept: seq<Part>, order: seq<nat>, members: seq<Member>)
    requires forall i :: 0 <= i < |kept| ==> IsKept(kept[i])
    requires |order| == |kept| && forall i :: 0 <= i < |kept| ==> IsPart(kept[i], members, order[i])
    requires forall i :: 0 <= i < |members| ==> WritesText(members[i].value)
    ensures AreMembers(TextsOf(kept), order, members)
  {
    var texts := TextsOf(kept);
    forall i | 0 <= i < |order| ensures IsMember(texts[i], members, order[i]) {
      MemberTextIsWritten(kept, order, members, i);
    }
  }

  lemma OrderOfSorted(kept: seq<Part>, order: seq<nat>, members: seq<Member>)
    requires Sorted(kept) && DistinctKeys(members)
    requires |order| == |kept| && forall i :: 0 <= i < |kept| ==> IsPart(kept[i], members, order[i])
    requires forall i :: 0 <= i < |kept| ==> !kept[i].value.Undefined?
    requires forall at: nat :: at < |members| && !members[at].value.Undefined? ==> exists p :: p in kept && IsPart(p, members, at)
    ensures IsOrder(order, members)
  {
    forall i, k | 0 <= i < k < |order| ensures Ascends(members[order[i]].key, members[order[k]].key) {
      BeforeExactly(kept[i].key, kept[k].key);
    }
    forall at: nat | at < |members| && !members[at].value.Undefined? ensures at in order {
      var p :| p in kept && IsPart(p, members, at);
      var i :| 0 <= i < |kept| && kept[i] == p;
      assert members[order[i]].key == members[at].key;
    }
  }

  /** The parts that are kept are those of the defined members. */
  lemma KeptParts(members: seq<Member>)
    requires WellFormed(Obj(members)) && Printable(Obj(members))
    requires forall i :: 0 <= i < |members| ==> WritesText(members[i].value)
    ensures var kept := Canonical(members);
      && (forall i :: 0 <= i < |kept| ==> !kept[i].value.Undefined? && IsSomePart(kept[i], members))
      && (forall at: nat :: at < |members| && !members[at].value.Undefined? ==> exists p :: p in kept && IsPart(p, members, at))
  {
    var parts, kept := Parts(members), Canonical(members);
    CanonicalFacts(members);
    SortKeeps(parts);
    KeptWithin(SortParts(parts));
    forall i | 0 <= i < |kept| ensures !kept[i].value.Undefined? && IsSomePart(kept[i], members) {
      var at :| 0 <= at < |members| && kept[i] == Part(members[at].key, members[at].value, Canon(members[at].value));
      assert IsPart(kept[i], members, at) && WritesText(members[at].value);
    }
    forall at: nat | at < |members| && !members[at].value.Undefined? ensures exists p :: p in kept && IsPart(p, members, at) {
      PartsOf(members, at);
      CanonSucceedsExactly(members[at].value);
      assert parts[at] in parts && WritesText(members[at].value);
      assert parts[at] in kept && IsPart(parts[at], members, at);
    }
  }

  lemma KeptInOrder(kept: seq<Part>, members: seq<Member>) returns (order: seq<nat>)
    requires WellFormed(Obj(members)) && Printable(Obj(members)) && kept == Canonical(members)
    requires forall i :: 0 <= i < |members| ==> WritesText(members[i].value)
    ensures IsOrder(order, members) && AreMembers(TextsOf(kept), order, members)
  {
    CanonicalFacts(members);
    KeptParts(members);
    order := FindParts(kept, members);
    OrderOfSorted(kept, order, members);
    MembersAreWritten(kept, order, members);
  }

  lemma BracesMakeText(t: Text, texts: seq<Text>, order: seq<nat>, members: seq<Member>)
    requires IsOrder(order, members) && AreMembers(texts, order, members)
    requires t == [OPEN_BRACE] + Join(texts) + [CLOSE_BRACE]
    ensures IsText(t, Obj(members))
  {
    JoinIsWithCommas(texts);
    WordsAre();
  }

  lemma ObjectIsText(members: seq<Member>)
    requires WellFormed(Obj(members)) && Printable(Obj(members))
    requires forall i :: 0 <= i < |members| ==> WritesText(members[i].value)
    ensures WritesText(Obj(members))
  {
    var kept := Canonical(members);
    var order := KeptInOrder(kept, members);
    CanonicalFacts(members);
    BracesMakeText(Canon(Obj(members)).value.value, TextsOf(kept), order, members);
  }

  /** Whatever the printer writes is the canonical text of the value. */
  lemma {:induction false} CanonIsText(v: Value)
    requires WellFormed(v) && Printable(v)
    ensures WritesText(v)
  {
    match v
    case Str(s) => QuoteIsString(s);
    case Arr(elems) =>
      forall i | 0 <= i < |elems| ensures WritesText(elems[i]) {
        CanonIsText(elems[i]);
      }
      ArrayIsText(elems);
    case Obj(members) =>
      forall i | 0 <= i < |members| ensures WritesText(members[i].value) {
        CanonIsText(members[i].value);
      }
      ObjectIsText(members);
    case _ => WordsAre();
  }

  // ----- There is only one such text

  lemma AscendsOneWay(a: Text, b: Text)
    requires Ascends(a, b)
    ensures !Ascends(b, a) && a != b
  {
    var n: nat :| DiffersAt(a, b, n);
    forall m: nat ensures !DiffersAt(b, a, m) {
    }
  }

  /** No position is listed twice. */
  lemma OrderIsStrict(order: seq<nat>, members: seq<Member>, i: nat, k: nat)
    requires IsOrder(order, members) && i < |order| && k < |order| && order[i] == order[k]
    ensures i == k
  {
    if i < k {
      AscendsOneWay(members[order[i]].key, members[order[k]].key);
    } else if k < i {
      AscendsOneWay(members[order[k]].key, members[order[i]].key);
    }
  }

  /** What `a` lists at `n` is in `b`, and not before `n`. */
  lemma ListedLater(a: seq<nat>, b: seq<nat>, members: seq<Member>, n: nat) returns (m: nat)
    requires IsOrder(a, members) && IsOrder(b, members)
    requires n < |a| && n <= |b| && a[..n] == b[..n]
    ensures n <= m < |b| && b[m] == a[n]
  {
    assert a[n] in b;
    m :| m < |b| && b[m] == a[n];
    if m < n {
      assert a[..n][m] == b[..n][m];
      OrderIsStrict(a, members, m, n);
    }
  }

  lemma SameNext(a: seq<nat>, b: seq<nat>, members: seq<Member>, n: nat)
    requires IsOrder(a, members) && IsOrder(b, members)
    requires n < |a| && n < |b| && a[..n] == b[..n]
    ensures a[n] == b[n]
  {
    var i := ListedLater(a, b, members, n);
    var k := ListedLater(b, a, members, n);
    if i > n {
      AscendsOneWay(members[b[n]].key, members[b[i]].key);
    }
  }

  lemma {:induction false} SamePrefix(a: seq<nat>, b: seq<nat>, members: seq<Member>, n: nat)
    requires IsOrder(a, members) && IsOrder(b, members) && n <= |a| && n <= |b|
    ensures a[..n] == b[..n]
  {
    if n > 0 {
      SamePrefix(a, b, members, n - 1);
      SameNext(a, b, members, n - 1);
    }
  }

  lemma NotLonger(a: seq<nat>, b: seq<nat>, members: seq<Member>)
    requires IsOrder(a, members) && IsOrder(b, members)
    ensures |a| <= |b|
  {
    if |a| > |b| {
      SamePrefix(a, b, members, |b|);
      var m := ListedLater(a, b, members, |b|);
    }
  }

  lemma OneOrder(a: seq<nat>, b: seq<nat>, members: seq<Member>)
    requires IsOrder(a, members) && IsOrder(b, members)
    ensures a == b
  {
    NotLonger(a, b, members);
    NotLonger(b, a, members);
    SamePrefix(a, b, members, |a|);
    assert a[..|a|] == a && b[..|b|] == b;
  }

  lemma OneString(t: Text, u: Text, s: Text)
    requires IsString(t, s) && IsString(u, s)
    ensures t == u
  {
    var a :| AreWritten(a, s, 0) && t == U("\"") + Concat(a) + U("\"");
    var b :| AreWritten(b, s, 0) && u == U("\"") + Concat(b) + U("\"");
    assert a == b;
  }

  /** What is claimed of a value: any two texts of it are the same. */
  ghost predicate HasOneText(v: Value) {
    forall t, u :: IsText(t, v) && IsText(u, v) ==> t == u
  }

  lemma OneElement(p: Text, q: Text, v: Value)
    requires HasOneText(v) && IsElement(p, v) && IsElement(q, v)
    ensures p == q
  {
  }

  lemma OneArray(elems: seq<Value>)
    requires forall i :: 0 <= i < |elems| ==> HasOneText(elems[i])
    ensures HasOneText(Arr(elems))
  {
    forall t, u | IsText(t, Arr(elems)) && IsText(u, Arr(elems)) ensures t == u {
      var a :| AreElements(a, elems) && t == U("[") + WithCommas(a) + U("]");
      var b :| AreElements(b, elems) && u == U("[") + WithCommas(b) + U("]");
      SameElements(a, b, elems);
    }
  }

  lemma SameElements(a: seq<Text>, b: seq<Text>, elems: seq<Value>)
    requires AreElements(a, elems) && AreElements(b, elems)
    requires forall i :: 0 <= i < |elems| ==> HasOneText(elems[i])
    ensures a == b
  {
    forall i | 0 <= i < |elems| ensures a[i] == b[i] {
      OneElement(a[i], b[i], elems[i]);
    }
  }

  lemma OneMember(p: Text, q: Text, members: seq<Member>, at: nat)
    requires IsMember(p, members, at) && IsMember(q, members, at) && HasOneText(members[at].value)
    ensures p == q
  {
    var key, text :| p == key + U(":") + text && IsString(key, members[at].key) && IsText(text, members[at].value);
    var key', text' :| q == key' + U(":") + text' && IsString(key', members[at].key) && IsText(text', members[at].value);
    OneString(key, key', members[at].key);
  }

  lemma SameMembers(a: seq<Text>, b: seq<Text>, order: seq<nat>, members: seq<Member>)
    requires AreMembers(a, order, members) && AreMembers(b, order, members)
    requires forall i :: 0 <= i < |members| ==> HasOneText(members[i].value)
    ensures a == b
  {
    forall i | 0 <= i < |order| ensures a[i] == b[i] {
      OneMember(a[i], b[i], members, order[i]);
    }
  }

  lemma ObjectParts(t: Text, members: seq<Member>) returns (order: seq<nat>, pieces: seq<Text>)
    requires IsText(t, Obj(members))
    ensures IsOrder(order, members) && AreMembers(pieces, order, members) && t == U("{") + WithCommas(pieces) + U("}")
  {
    order, pieces :| IsOrder(order, members) && AreMembers(pieces, order, members) && t == U("{") + WithCommas(pieces) + U("}");
  }

  lemma SameObject(t: Text, u: Text, members: seq<Member>)
    requires forall i :: 0 <= i < |members| ==> HasOneText(members[i].value)
    requires IsText(t, Obj(members)) && IsText(u, Obj(members))
    ensures t == u
  {
    var order, a := ObjectParts(t, members);
    var order', b := ObjectParts(u, members);
    OneOrder(order, order', members);
    SameMembers(a, b, order, members);
  }

  lemma OneObject(members: seq<Member>)
    requires forall i :: 0 <= i < |members| ==> HasOneText(members[i].value)
    ensures HasOneText(Obj(members))
  {
    forall t, u | IsText(t, Obj(members)) && IsText(u, Obj(members)) ensures t == u {
      SameObject(t, u, members);
    }
  }

  lemma {:induction false} OneText(v: Value)
    ensures HasOneText(v)
  {
    match v
    case Str(s) =>
      forall t, u | IsText(t, v) && IsText(u, v) ensures t == u {
        OneString(t, u, s);
      }
    case Arr(elems) =>
      forall i | 0 <= i < |elems| ensures HasOneText(elems[i]) {
        OneText(elems[i]);
      }
      OneArray(elems);
    case Obj(members) =>
      forall i | 0 <= i < |members| ensures HasOneText(members[i].value) {
        OneText(members[i].value);
      }
      OneObject(members);
    case _ =>
  }

  /** The printer writes exactly the canonical text. */
  lemma CanonExactly(v: Value, t: Text)
    requires WellFormed(v) && Printable(v)
    ensures Canon(v) == Success(Some(t)) <==> IsText(t, v)
  {
    CanonSucceedsExactly(v);
    CanonIsText(v);
    OneText(v);
  }

  // ----- Errors

  /** Somewhere in the value lies what the error speaks of. */
  predicate HasCause(v: Value, e: CanonError) {
    match v
    case Unsupported => e == UnsupportedType
    case Num(n) => e == NotRepresentable && (n.NaN? || n.Infinite?)
    case Arr(elems) => exists i :: 0 <= i < |elems| && HasCause(elems[i], e)
    case Obj(members) => exists i :: 0 <= i < |members| && HasCause(members[i].value, e)
    case _ => false
  }

  lemma {:induction false} ElementsFail(elems: seq<Value>)
    requires ElementTexts(elems).Failure?
    ensures exists i :: 0 <= i < |elems| && Canon(elems[i]) == Failure(ElementTexts(elems).error)
  {
    if Canon(elems[0]).Failure? {
      assert Canon(elems[0]) == Failure(ElementTexts(elems).error);
    } else {
      ElementsFail(elems[1..]);
      var i :| 0 <= i < |elems[1..]| && Canon(elems[1..][i]) == Failure(ElementTexts(elems).error);
      assert elems[1..][i] == elems[i + 1];
    }
  }

  lemma {:induction false} MembersFail(parts: seq<Part>)
    requires MemberTexts(parts).Failure?
    ensures exists p :: p in parts && p.text == Failure(MemberTexts(parts).error)
  {
    if parts[0].text.Failure? {
      assert parts[0] in parts;
    } else {
      MembersFail(parts[1..]);
      var p :| p in parts[1..] && p.text == Failure(MemberTexts(parts).error);
      assert p in parts;
    }
  }

  lemma ObjectFails(members: seq<Member>)
    requires Canon(Obj(members)).Failure?
    ensures exists i :: 0 <= i < |members| && Canon(members[i].value) == Failure(Canon(Obj(members)).error)
  {
    MembersFail(SortParts(Parts(members)));
    SortKeeps(Parts(members));
    var p :| p in Parts(members) && p.text == Failure(Canon(Obj(members)).error);
    var i :| 0 <= i < |members| && Parts(members)[i] == p;
    PartsOf(members, i);
  }

  /** An error names something that is in the value. */
  lemma {:induction false} ErrorHasCause(v: Value)
    requires Canon(v).Failure?
    ensures HasCause(v, Canon(v).error)
  {
    match v
    case Arr(elems) =>
      ElementsFail(elems);
      var i :| 0 <= i < |elems| && Canon(elems[i]) == Failure(ElementTexts(elems).error);
      ErrorHasCause(elems[i]);
    case Obj(members) =>
      ObjectFails(members);
      var i :| 0 <= i < |members| && Canon(members[i].value) == Failure(Canon(v).error);
      ErrorHasCause(members[i].value);
    case _ =>
  }
}
