/**
 The text of a CSV body, cut into records at the newlines that lie outside quotes.

 A quote toggles the state everywhere, so a newline is outside quotes exactly when an even number of
 quotes precedes it. `Pieces` is the declarative reading of a whole body; the streaming scanner
 and the buffered parser are both measured against it.
 */
module CsvText {

  // ----- White space

  /** White space as `String.prototype.trim` sees it. */
  predicate IsSpace(c: char) {
    || '\t' <= c <= '\r'
    || c == ' ' || c == '\U{a0}' || c == '\U{1680}'
    || '\U{2000}' <= c <= '\U{200a}'
    || c == '\U{2028}' || c == '\U{2029}' || c == '\U{202f}' || c == '\U{205f}' || c == '\U{3000}' || c == '\U{feff}'
  }

  function TrimStart(s: string): string {
    if s != "" && IsSpace(s[0]) then TrimStart(s[1..]) else s
  }

  function TrimEnd(s: string): string {
    if s != "" && IsSpace(s[|s| - 1]) then TrimEnd(s[..|s| - 1]) else s
  }

  function Trim(s: string): string {
    TrimEnd(TrimStart(s))
  }

  /** Nothing but white space. */
  predicate Blank(s: string) {
    s == "" || (IsSpace(s[0]) && Blank(s[1..]))
  }

  lemma {:induction false} TrimStartBlank(s: string)
    ensures TrimStart(s) == "" <==> Blank(s)
    ensures TrimStart(s) != "" ==> !IsSpace(TrimStart(s)[0])
  {
    if s != "" && IsSpace(s[0]) {
      TrimStartBlank(s[1..]);
    }
  }

  lemma {:induction false} SolidNotBlank(s: string, c: char)
    requires c in s && !IsSpace(c)
    ensures !Blank(s)
  {
    if s[0] != c {
      assert s == [s[0]] + s[1..];
      SolidNotBlank(s[1..], c);
    }
  }

  lemma {:induction false} TrimEndKeeps(s: string)
    requires s != "" && !IsSpace(s[0])
    ensures TrimEnd(s) != ""
  {
    if IsSpace(s[|s| - 1]) {
      TrimEndKeeps(s[..|s| - 1]);
    }
  }

  /** A record counts as empty exactly when all of it is white space. */
  lemma TrimEmpty(s: string)
    ensures Trim(s) == "" <==> Blank(s)
  {
    TrimStartBlank(s);
    if TrimStart(s) != "" {
      TrimEndKeeps(TrimStart(s));
    }
  }

  lemma {:induction false} TrimStartCuts(s: string) returns (head: string)
    ensures s == head + TrimStart(s) && forall c :: c in head ==> IsSpace(c)
  {
    if s != "" && IsSpace(s[0]) {
      var rest := TrimStartCuts(s[1..]);
      Associative([s[0]], rest, TrimStart(s));
      assert s == [s[0]] + s[1..];
      head := [s[0]] + rest;
    } else {
      head := "";
    }
  }

  lemma {:induction false} TrimEndCuts(s: string) returns (tail: string)
    ensures s == TrimEnd(s) + tail && forall c :: c in tail ==> IsSpace(c)
    ensures TrimEnd(s) != "" ==> TrimEnd(s)[0] == s[0] && !IsSpace(TrimEnd(s)[|TrimEnd(s)| - 1])
  {
    if s != "" && IsSpace(s[|s| - 1]) {
      var rest := TrimEndCuts(s[..|s| - 1]);
      Associative(TrimEnd(s), rest, [s[|s| - 1]]);
      assert s == s[..|s| - 1] + [s[|s| - 1]];
      tail := rest + [s[|s| - 1]];
    } else {
      tail := "";
    }
  }

  /** Trimming takes white space off both ends, and all of it. */
  lemma TrimExactly(s: string) returns (head: string, tail: string)
    ensures s == head + Trim(s) + tail && forall c :: c in head || c in tail ==> IsSpace(c)
    ensures var t := Trim(s); t != "" ==> !IsSpace(t[0]) && !IsSpace(t[|t| - 1])
  {
    head := TrimStartCuts(s);
    tail := TrimEndCuts(TrimStart(s));
    TrimStartBlank(s);
    Associative(head, Trim(s), tail);
  }

  lemma {:induction false} BlankExactly(s: string)
    ensures Blank(s) <==> forall c :: c in s ==> IsSpace(c)
  {
    if s != "" {
      assert s == [s[0]] + s[1..];
      BlankExactly(s[1..]);
    }
  }

  // ----- Quotes

  /** Whether `s` holds an odd number of quotes. */
  predicate Odd(s: string) {
    if s == "" then false else (s[0] == '"') != Odd(s[1..])
  }

  lemma {:induction false} OddConcat(a: string, b: string)
    ensures Odd(a + b) == (Odd(a) != Odd(b))
  {
    if a == "" {
      assert a + b == b;
    } else {
      OddConcat(a[1..], b);
      assert (a + b)[1..] == a[1..] + b;
    }
  }

  /** A quote among the first `n` characters. */
  lemma {:induction false} OddHoldsQuote(s: string)
    requires Odd(s)
    ensures '"' in s
  {
    if s[0] != '"' {
      OddHoldsQuote(s[1..]);
      assert s == [s[0]] + s[1..];
    }
  }

  // ----- Record ends

  /** A newline outside quotes, when `quoted` is the state before the text. */
  predicate EndsRecord(s: string, quoted: bool, i: nat)
    requires i < |s|
  {
    s[i] == '\n' && Odd(s[..i]) == quoted
  }

  /** The first record end in `s`, or the length of `s`. */
  function FirstEnd(s: string, quoted: bool): (i: nat)
    ensures i <= |s|
    ensures i < |s| ==> s[i] == '\n'
  {
    if s == "" || (s[0] == '\n' && !quoted) then 0
    else 1 + FirstEnd(s[1..], quoted != (s[0] == '"'))
  }

  lemma OddOfPrefix(s: string, i: nat)
    requires 0 < i <= |s|
    ensures Odd(s[..i]) == ((s[0] == '"') != Odd(s[1..][..i - 1]))
  {
    assert s[..i][1..] == s[1..][..i - 1];
  }

  /** `FirstEnd` is the least record end. */
  lemma {:induction false} FirstEndIs(s: string, quoted: bool)
    ensures var i := FirstEnd(s, quoted);
            && (i < |s| ==> EndsRecord(s, quoted, i))
            && forall k :: 0 <= k < i ==> !EndsRecord(s, quoted, k)
  {
    if s == "" || (s[0] == '\n' && !quoted) {
    } else {
      var quoted' := quoted != (s[0] == '"');
      FirstEndIs(s[1..], quoted');
      var i := FirstEnd(s, quoted);
      forall k | 0 < k < |s|
        ensures EndsRecord(s, quoted, k) == EndsRecord(s[1..], quoted', k - 1)
      {
        OddOfPrefix(s, k);
      }
    }
  }

  /** If `a` holds no record end, the search goes on in `b` with the state after `a`. */
  lemma {:induction false} FirstEndConcat(a: string, b: string, quoted: bool)
    ensures FirstEnd(a, quoted) < |a| ==> FirstEnd(a + b, quoted) == FirstEnd(a, quoted)
    ensures FirstEnd(a, quoted) == |a| ==> FirstEnd(a + b, quoted) == |a| + FirstEnd(b, quoted != Odd(a))
  {
    if a == "" {
      assert a + b == b;
    } else {
      assert (a + b)[1..] == a[1..] + b;
      FirstEndConcat(a[1..], b, quoted != (a[0] == '"'));
    }
  }

  /** Every newline ends a record in exactly one of the two states. */
  lemma {:induction false} NewlineEndsOne(s: string, quoted: bool)
    requires '\n' in s
    ensures FirstEnd(s, quoted) != FirstEnd(s, !quoted)
  {
    if s[0] != '\n' {
      assert s == [s[0]] + s[1..];
      NewlineEndsOne(s[1..], quoted != (s[0] == '"'));
    }
  }

  /** Without a newline there is no record end. */
  lemma {:induction false} NoNewlineNoEnd(s: string, quoted: bool)
    requires '\n' !in s
    ensures FirstEnd(s, quoted) == |s|
  {
    if s != "" {
      assert s[0] in s && forall c :: c in s[1..] ==> c in s;
      NoNewlineNoEnd(s[1..], quoted != (s[0] == '"'));
    }
  }

  // ----- Pieces

  /** Drops one carriage return from the end. */
  function Chomp(s: string): string {
    if s != "" && s[|s| - 1] == '\r' then s[..|s| - 1] else s
  }

  /** One carriage return at the end is dropped, and nothing else. */
  lemma ChompExactly(s: string)
    ensures Chomp(s + "\r") == s
    ensures Chomp(s) == s <==> forall k :: 0 <= k < |s| && s[k] == '\r' ==> k < |s| - 1
  {
  }

  /** The texts that a record end closes, without their line ends. */
  function Closed(text: string): seq<string> {
    var i := FirstEnd(text, false);
    if i == |text| then [] else [Chomp(text[..i])] + Closed(text[i + 1..])
  }

  /** What follows the last record end. */
  function Open(text: string): (tail: string)
    ensures |tail| <= |text|
  {
    var i := FirstEnd(text, false);
    if i == |text| then text else Open(text[i + 1..])
  }

  /** The whole body: every closed record and the unterminated last one. */
  function Pieces(text: string): seq<string> {
    Closed(text) + [Open(text)]
  }

  function NonBlank(pieces: seq<string>): seq<string> {
    if pieces == [] then []
    else (if Blank(pieces[0]) then [] else [pieces[0]]) + NonBlank(pieces[1..])
  }

  lemma {:induction false} NonBlankConcat(a: seq<string>, b: seq<string>)
    ensures NonBlank(a + b) == NonBlank(a) + NonBlank(b)
  {
    if a == [] {
      assert a + b == b;
    } else {
      assert (a + b)[1..] == a[1..] + b;
      NonBlankConcat(a[1..], b);
    }
  }

  lemma {:induction false} NonBlankIn(pieces: seq<string>, s: string)
    ensures s in NonBlank(pieces) <==> s in pieces && !Blank(s)
  {
    if pieces != [] {
      assert pieces == [pieces[0]] + pieces[1..];
      NonBlankIn(pieces[1..], s);
    }
  }

  /** The unfinished record starts outside quotes and holds no record end. */
  lemma {:induction false} OpenIsOpen(text: string)
    ensures FirstEnd(Open(text), false) == |Open(text)|
    ensures Odd(text) == Odd(Open(text))
    decreases |text|
  {
    var i := FirstEnd(text, false);
    if i < |text| {
      OpenIsOpen(text[i + 1..]);
      OddAfterEnd(text);
    }
  }

  /** Up to and including a record end, the quotes bring the state back to unquoted. */
  lemma {:induction false} OddUpToEnd(s: string, quoted: bool)
    requires FirstEnd(s, quoted) < |s|
    ensures Odd(s[..FirstEnd(s, quoted) + 1]) == quoted
  {
    OddOfPrefix(s, FirstEnd(s, quoted) + 1);
    if !(s[0] == '\n' && !quoted) {
      OddUpToEnd(s[1..], quoted != (s[0] == '"'));
    }
  }

  /** After a record end, the state is again that of the text alone. */
  lemma OddAfterEnd(s: string)
    requires FirstEnd(s, false) < |s|
    ensures Odd(s[FirstEnd(s, false) + 1..]) == Odd(s)
  {
    var i := FirstEnd(s, false) + 1;
    OddUpToEnd(s, false);
    OddConcat(s[..i], s[i..]);
    assert s == s[..i] + s[i..];
  }

  /** A record end after `head` closes that record and leaves the rest. */
  lemma CutOnce(text: string, head: string, rest: string)
    requires text == head + "\n" + rest && FirstEnd(text, false) == |head|
    ensures Closed(text) == [Chomp(head)] + Closed(rest)
    ensures Open(text) == Open(rest)
  {
    assert text[..|head|] == head && text[|head| + 1..] == rest;
  }

  lemma Associative<T>(a: seq<T>, b: seq<T>, c: seq<T>)
    ensures a + (b + c) == (a + b) + c
  {
  }

  /** Reading on after `a` only depends on the unfinished record of `a`. */
  lemma {:induction false} CutConcat(a: string, b: string)
    ensures Closed(a + b) == Closed(a) + Closed(Open(a) + b)
    ensures Open(a + b) == Open(Open(a) + b)
    decreases |a|
  {
    var i := FirstEnd(a, false);
    if i < |a| {
      var head, rest := a[..i], a[i + 1..];
      FirstEndConcat(a, b, false);
      CutOnce(a, head, rest);
      CutOnce(a + b, head, rest + b);
      CutConcat(rest, b);
      Associative([Chomp(head)], Closed(rest), Closed(Open(rest) + b));
    }
  }

  /** Concatenation of chunks. */
  function Flatten(chunks: seq<string>): string {
    if chunks == [] then "" else chunks[0] + Flatten(chunks[1..])
  }

  lemma {:induction false} FlattenConcat(a: seq<string>, b: seq<string>)
    ensures Flatten(a + b) == Flatten(a) + Flatten(b)
  {
    if a == [] {
      assert a + b == b;
    } else {
      assert (a + b)[1..] == a[1..] + b;
      FlattenConcat(a[1..], b);
    }
  }

  lemma FlattenOne(s: string)
    ensures Flatten([s]) == s
  {
    assert [s][1..] == [];
  }
}
