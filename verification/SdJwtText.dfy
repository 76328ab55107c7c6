/**
 The text form of SD-JWT credentials: `<issuer-jwt>~<disclosure>~...~[<key-binding-jwt>]`, written by
 packages/crypto/src/sd-jwt-vc-signing.ts and read by packages/verification/src/sd-jwt-vc.ts.
 */
module SdJwtText {
  import opened Wrappers
  import opened Strings

  datatype Components = Components(issuerJwt: string, disclosures: seq<string>, keyBinding: Option<string>)

  const TILDE := '~'

  // ----- Writing

  function Assemble(jwt: string, disclosures: seq<string>): string {
    if disclosures == [] then jwt + "~" else jwt + "~" + Join(disclosures, "~") + "~"
  }

  /** Every disclosure is followed by a separator, and so is the JWT. */
  lemma AssembledExactly(jwt: string, disclosures: seq<string>, last: string)
    ensures Assemble(jwt, []) == jwt + "~"
    ensures Assemble(jwt, disclosures + [last]) == Assemble(jwt, disclosures) + last + "~"
  {
    if disclosures == [] {
      assert disclosures + [last] == [last];
    } else {
      JoinAppend(disclosures, last, "~");
      Regroup(jwt + "~", Join(disclosures, "~"), "~", last + "~");
    }
  }

  lemma Regroup(a: string, b: string, c: string, d: string)
    ensures a + (b + c + d) == a + b + c + d
  {
  }

  // ----- Reading

  /** Only the last part can be a key-binding JWT: it has the three parts of a compact JWS. */
  predicate IsKeyBinding(parts: seq<string>, i: nat)
    requires i < |parts|
  {
    i == |parts| - 1 && parts[i] != "" && |Split(parts[i], '.')| == 3
  }

  /** The disclosures among the parts after the first, up to part `n`. */
  function DisclosuresTo(parts: seq<string>, n: nat): seq<string>
    requires 1 <= n <= |parts|
  {
    if n == 1 then []
    else if parts[n - 1] == "" || IsKeyBinding(parts, n - 1) then DisclosuresTo(parts, n - 1)
    else DisclosuresTo(parts, n - 1) + [parts[n - 1]]
  }

  function KeyBindingOf(parts: seq<string>): Option<string>
    requires |parts| > 1
  {
    if IsKeyBinding(parts, |parts| - 1) then Some(parts[|parts| - 1]) else None
  }

  /** None for a text without a separator. */
  function ParseOf(text: string): Option<Components> {
    var parts := Split(text, TILDE);
    if |parts| < 2 then None
    else Some(Components(parts[0], DisclosuresTo(parts, |parts|), KeyBindingOf(parts)))
  }

  method Parse(text: string) returns (r: Option<Components>)
    ensures r == ParseOf(text)
  {
    var parts := Split(text, TILDE);
    if |parts| < 2 {
      return None;
    }
    var disclosures: seq<string> := [];
    var keyBinding: Option<string> := None;
    var i := 1;
    while i < |parts|
      invariant 1 <= i <= |parts|
      invariant disclosures == DisclosuresTo(parts, i)
      invariant keyBinding == if i == |parts| then KeyBindingOf(parts) else None
    {
      var part := parts[i];
      if part != "" {
        if i == |parts| - 1 && |Split(part, '.')| == 3 {
          keyBinding := Some(part);
        } else {
          disclosures := disclosures + [part];
        }
      }
      i := i + 1;
    }
    return Some(Components(parts[0], disclosures, keyBinding));
  }

  /** Only a text without a separator is refused. */
  lemma RefusedExactly(text: string)
    ensures ParseOf(text).None? <==> '~' !in text
  {
  }

  // ----- The round trip

  predicate IsPart(s: string) {
    s != "" && TILDE !in s
  }

  /** The three parts of a compact JWS. */
  predicate IsJws(part: string) {
    |Split(part, '.')| == 3
  }

  lemma {:induction false} JoinAppend(parts: seq<string>, last: string, sep: string)
    requires parts != []
    ensures Join(parts + [last], sep) == Join(parts, sep) + sep + last
  {
    var head, tail := parts[0], parts[1..];
    if tail == [] {
      assert parts + [last] == [head] + [last];
      JoinCons(head, [last], sep, head + sep + last);
    } else {
      JoinAppend(tail, last, sep);
      assert parts + [last] == [head] + (tail + [last]);
      JoinCons(head, tail + [last], sep, Join(parts, sep) + sep + last);
    }
  }

  lemma AssembledIsJoined(jwt: string, disclosures: seq<string>, kb: string)
    ensures Assemble(jwt, disclosures) + kb == Join([jwt] + disclosures + [kb], "~")
  {
    JoinAppend([jwt] + disclosures, kb, "~");
    if disclosures == [] {
      assert [jwt] + disclosures == [jwt];
    } else {
      JoinCons(jwt, disclosures, "~", jwt + "~" + Join(disclosures, "~"));
    }
  }

  lemma {:induction false} AllAreDisclosures(parts: seq<string>, n: nat)
    requires 1 <= n < |parts| && forall i :: 1 <= i < n ==> parts[i] != ""
    ensures DisclosuresTo(parts, n) == parts[1..n]
  {
    if n > 1 {
      AllAreDisclosures(parts, n - 1);
      assert parts[1..n] == parts[1..n - 1] + [parts[n - 1]];
    }
  }

  lemma MiddleParts(parts: seq<string>, jwt: string, disclosures: seq<string>, last: string)
    requires parts == [jwt] + disclosures + [last] && "" !in disclosures
    ensures DisclosuresTo(parts, |parts|) == disclosures + if last != "" && !IsJws(last) then [last] else []
    ensures KeyBindingOf(parts) == if last != "" && IsJws(last) then Some(last) else None
  {
    forall i | 1 <= i < |parts| - 1 ensures parts[i] != "" {
      assert parts[i] == disclosures[i - 1];
    }
    AllAreDisclosures(parts, |parts| - 1);
    assert parts[1..|parts| - 1] == disclosures;
    assert disclosures + [] == disclosures;
  }

  lemma PartsOfAssembled(jwt: string, disclosures: seq<string>, kb: string)
    requires TILDE !in jwt && TILDE !in kb && forall i :: 0 <= i < |disclosures| ==> IsPart(disclosures[i])
    ensures Split(Assemble(jwt, disclosures) + kb, TILDE) == [jwt] + disclosures + [kb]
  {
    AssembledIsJoined(jwt, disclosures, kb);
    SplitOfJoin([jwt] + disclosures + [kb], TILDE);
  }

  /**
   Reading gives back what was assembled; a last part behind it is a key-binding JWT if it has the form of one, and else
   one more disclosure.
   */
  lemma ParseOfAssembled(jwt: string, disclosures: seq<string>, last: string)
    requires TILDE !in jwt && TILDE !in last && forall i :: 0 <= i < |disclosures| ==> IsPart(disclosures[i])
    ensures ParseOf(Assemble(jwt, disclosures) + last)
         == Some(if last != "" && !IsJws(last) then Components(jwt, disclosures + [last], None)
                 else Components(jwt, disclosures, if last == "" then None else Some(last)))
  {
    PartsOfAssembled(jwt, disclosures, last);
    MiddleParts([jwt] + disclosures + [last], jwt, disclosures, last);
    assert disclosures + [] == disclosures;
  }
}
