/**
 base58btc over in-place digit arrays (packages/did/src/multibase.ts).

 `Decode` and `Encode` say what the codec means in positional notation. The methods compute it the
 way the source does, with one fixed-size buffer of cells, a running carry and a final strip of
 leading zero cells, and are proved equal to it. The round trips are proved about the meaning.
 */
module Base58 {
  import opened Wrappers
  import opened Positional

  type Byte = b: int | 0 <= b < 256

  datatype Base58Error = InvalidCharacter(c: char)

  // ----- The alphabet

  /** The character of a digit. The alphabet is six runs of consecutive characters: see AlphabetIs. */
  function CharOf(d: int): char
    requires 0 <= d < 58
  {
    if d < 9 then '1' + d as char
    else if d < 17 then 'A' + (d - 9) as char
    else if d < 22 then 'J' + (d - 17) as char
    else if d < 33 then 'P' + (d - 22) as char
    else if d < 44 then 'a' + (d - 33) as char
    else 'm' + (d - 44) as char
  }

  /** The digit of a character, if it is in the alphabet. */
  function AlphabetIndex(c: char): (r: Option<nat>)
    ensures r.Some? ==> r.value < 58 && CharOf(r.value) == c
    ensures r.None? ==> forall d :: 0 <= d < 58 ==> CharOf(d) != c
  {
    if '1' <= c <= '9' then Some((c - '1') as nat)
    else if 'A' <= c <= 'H' then Some((c - 'A') as nat + 9)
    else if 'J' <= c <= 'N' then Some((c - 'J') as nat + 17)
    else if 'P' <= c <= 'Z' then Some((c - 'P') as nat + 22)
    else if 'a' <= c <= 'k' then Some((c - 'a') as nat + 33)
    else if 'm' <= c <= 'z' then Some((c - 'm') as nat + 44)
    else None
  }

  /** The alphabet string of the source, cut where its character codes jump. */
  const ALPHABET := "123456789" + "ABCDEFGH" + "JKLMN" + "PQRSTUVWXYZ" + "abcdefghijk" + "mnopqrstuvwxyz"

  /** `CharOf` is indexing into the alphabet, which has exactly 58 characters. */
  lemma AlphabetIs(d: nat)
    requires d < 58
    ensures |ALPHABET| == 58 && CharOf(d) == ALPHABET[d]
  {
    assert "123456789" == Run('1', 9) && "ABCDEFGH" == Run('A', 8) && "JKLMN" == Run('J', 5);
    assert "PQRSTUVWXYZ" == Run('P', 11) && "abcdefghijk" == Run('a', 11) && "mnopqrstuvwxyz" == Run('m', 14);
    assert ALPHABET == Run('1', 9) + Run('A', 8) + Run('J', 5) + Run('P', 11) + Run('a', 11) + Run('m', 14);
  }

  /** `n` consecutive characters from `c` on. */
  function Run(c: char, n: nat): string
    requires c as int + n <= 128
  {
    seq(n, i requires 0 <= i < n => (c as int + i) as char)
  }

  lemma IndexOfAlphabet(d: nat)
    requires d < 58
    ensures AlphabetIndex(CharOf(d)) == Some(d)
  {
  }

  predicate InAlphabet(s: string) {
    forall i :: 0 <= i < |s| ==> AlphabetIndex(s[i]).Some?
  }

  /** The digits that an alphabet string writes. */
  function Indices(s: string): (ds: seq<int>)
    requires InAlphabet(s)
    ensures |ds| == |s|
    ensures forall i :: 0 <= i < |s| ==> 0 <= ds[i] < 58 && CharOf(ds[i]) == s[i]
  {
    seq(|s|, i requires 0 <= i < |s| => AlphabetIndex(s[i]).value)
  }

  /** The characters of base-58 digits. */
  function Chars(ds: seq<int>): (s: string)
    requires AreDigits(58, ds)
    ensures |s| == |ds|
    ensures forall i :: 0 <= i < |ds| ==> s[i] == CharOf(ds[i])
  {
    seq(|ds|, i requires 0 <= i < |ds| => CharOf(ds[i]))
  }

  lemma IndicesOfChars(ds: seq<int>)
    requires AreDigits(58, ds)
    ensures InAlphabet(Chars(ds)) && Indices(Chars(ds)) == ds
  {
    forall i | 0 <= i < |ds|
      ensures AlphabetIndex(Chars(ds)[i]) == Some(ds[i])
    {
      IndexOfAlphabet(ds[i]);
    }
  }

  lemma CharsOfIndices(s: string)
    requires InAlphabet(s)
    ensures Chars(Indices(s)) == s
  {
  }

  /** The first character outside the alphabet, for a string that has one. */
  function FirstInvalid(s: string): (c: char)
    requires !InAlphabet(s)
  {
    if AlphabetIndex(s[0]).None? then s[0] else
      assert exists i :: 0 <= i < |s| && AlphabetIndex(s[i]).None?;
      assert forall i :: 0 <= i < |s| - 1 ==> s[1..][i] == s[i + 1];
      FirstInvalid(s[1..])
  }

  // ----- What the codec means

  /** Leading `1`s become zero bytes; the rest is one number, rewritten from base 58 to base 256. */
  function Decode(s: string): Result<seq<Byte>, Base58Error> {
    if InAlphabet(s) then
      Success(DecodeNumber(s))
    else
      Failure(InvalidCharacter(FirstInvalid(s)))
  }

  function DecodeNumber(s: string): (bytes: seq<Byte>)
    requires InAlphabet(s)
  {
    ConvertKeeps(58, 256, Indices(s));
    Convert(58, 256, Indices(s))
  }

  /** Leading zero bytes become `1`s; the rest is one number, rewritten from base 256 to base 58. */
  function Encode(bytes: seq<Byte>): string {
    ConvertKeeps(256, 58, bytes);
    Chars(Convert(256, 58, bytes))
  }

  // ----- Round trips

  /** Character `1` is digit zero, and no other character is. */
  lemma LeadingOnes(s: string)
    requires InAlphabet(s)
    ensures Leading(s, '1') == Leading(Indices(s), 0)
  {
    var ds, k := Indices(s), Leading(s, '1');
    forall i | 0 <= i < |s|
      ensures s[i] == '1' <==> ds[i] == 0
    {
      IndexOfAlphabet(0);
      IndexOfAlphabet(ds[i]);
    }
    LeadingIs(ds, 0, k);
  }

  /** Every byte sequence survives encoding and decoding, leading zeros included. */
  lemma DecodeAfterEncode(bytes: seq<Byte>)
    ensures Decode(Encode(bytes)) == Success(bytes)
  {
    ConvertBack(256, 58, bytes);
    IndicesOfChars(Convert(256, 58, bytes));
  }

  /** Every alphabet string survives decoding and encoding, leading `1`s included. */
  lemma EncodeAfterDecode(s: string)
    requires InAlphabet(s)
    ensures Decode(s).Success? && Encode(Decode(s).value) == s
  {
    ConvertBack(58, 256, Indices(s));
    CharsOfIndices(s);
  }

  /** The string writes the number of the bytes in base 58, behind one `1` for each leading zero byte and no other. */
  lemma EncodedExactly(bytes: seq<Byte>)
    ensures var s := Encode(bytes);
      && InAlphabet(s) && Value(58, Indices(s)) == Value(256, bytes)
      && Leading(s, '1') == Leading(bytes, 0)
  {
    ConvertKeeps(256, 58, bytes);
    IndicesOfChars(Convert(256, 58, bytes));
    LeadingOnes(Encode(bytes));
  }

  /** 256 is four times 58 and 24 more. */
  lemma KnownAnswer()
    ensures Encode([0, 1, 0]) == "15R" && Decode("15R") == Success([0, 1, 0])
  {
    var bytes: seq<Byte> := [0, 1, 0];
    assert bytes[..2] == [0, 1] && [0, 1][..1] == [0] && [0][..0] == [];
    assert Value(256, [0]) == 0 && Value(256, [0, 1]) == 1 && Value(256, bytes) == 256;
    assert Digits(58, 256) == Digits(58, 4) + [24] && Digits(58, 4) == Digits(58, 0) + [4];
    assert bytes[1..] == [1, 0];
    assert Leading(bytes, 0) == 1;
    assert Repeat(0, 1) == [0];
    assert Convert(256, 58, bytes) == [0, 4, 24];
    assert Encode(bytes) == [CharOf(0), CharOf(4), CharOf(24)];
    DecodeAfterEncode(bytes);
  }

  /** Decoding is one to one: two strings that decode to the same bytes are the same string. */
  lemma DecodeInjective(s: string, t: string)
    requires Decode(s).Success? && Decode(s) == Decode(t)
    ensures s == t
  {
    EncodeAfterDecode(s);
    EncodeAfterDecode(t);
  }

  // ----- The in-place loops

  /** One cell of the inner loop: the weight moved to the carry keeps the total. */
  lemma CarryStep(radix: nat, factor: nat, p: nat, cell: int, carry: int, low: int, oldLow: int, addend: int)
    requires radix >= 1
    requires low + carry * p == factor * oldLow + addend
    ensures var t := carry + factor * cell;
            t % radix * p + low + t / radix * (radix * p) == factor * (cell * p + oldLow) + addend
  {
    var t := carry + factor * cell;
    var q, r := t / radix, t % radix;
    assert t == q * radix + r;
    assert r * p + q * (radix * p) == (q * radix + r) * p;
    assert t * p == carry * p + factor * (cell * p);
  }

  /** The running carry never reaches `factor`. */
  lemma CarryBound(radix: nat, factor: nat, cell: int, carry: int)
    requires radix >= 1 && 0 <= cell < radix && 0 <= carry < factor
    ensures 0 <= (carry + factor * cell) / radix < factor
  {
    var t := carry + factor * cell;
    assert factor * cell >= 0;
    assert factor * cell <= factor * (radix - 1);
    assert t < factor * radix;
    var q := t / radix;
    assert q * radix <= t;
    assert q >= factor ==> q * radix >= factor * radix;
  }

  /**
   The inner loop of both directions: multiply the number in `cells` by `factor` and add `addend`,
   from the last cell to the first. Nothing is lost: what no longer fits is the carry returned.
   */
  method MultiplyAdd(cells: array<int>, radix: nat, factor: nat, addend: nat) returns (carry: int)
    requires radix >= 1 && addend < factor
    requires AreDigits(radix, cells[..])
    modifies cells
    ensures AreDigits(radix, cells[..])
    ensures 0 <= carry < factor
    ensures Value(radix, cells[..]) + carry * Pow(radix, cells.Length)
            == factor * old(Value(radix, cells[..])) + addend
  {
    ghost var before := cells[..];
    var size := cells.Length;
    carry := addend;
    var j := size - 1;
    while j >= 0
      invariant -1 <= j < size
      invariant 0 <= carry < factor
      invariant forall k :: 0 <= k <= j ==> cells[k] == before[k]
      invariant forall k :: 0 <= k < size ==> 0 <= cells[k] < radix
      invariant Value(radix, cells[j + 1..]) + carry * Pow(radix, size - 1 - j)
                == factor * Value(radix, before[j + 1..]) + addend
    {
      ghost var low, oldLow := cells[j + 1..], before[j + 1..];
      CarryStep(radix, factor, Pow(radix, size - 1 - j), cells[j], carry, Value(radix, low), Value(radix, oldLow), addend);
      CarryBound(radix, factor, cells[j], carry);
      carry := carry + factor * cells[j];
      cells[j] := carry % radix;
      carry := carry / radix;
      assert cells[j..][1..] == low && before[j..][1..] == oldLow;
      ValueCons(radix, cells[j..]);
      ValueCons(radix, before[j..]);
      j := j - 1;
    }
    assert cells[0..] == cells[..] && before[0..] == before;
  }

  /** A number below `radix` to the buffer length leaves no carry behind. */
  lemma NoCarry(radix: nat, cells: seq<int>, carry: int, n: int)
    requires radix >= 1 && AreDigits(radix, cells) && carry >= 0
    requires Value(radix, cells) + carry * Pow(radix, |cells|) == n
    requires n < Pow(radix, |cells|)
    ensures carry == 0 && Value(radix, cells) == n
  {
    ValueBound(radix, cells);
    var p := Pow(radix, |cells|);
    assert carry >= 1 ==> carry * p >= p;
    assert carry == 0 ==> carry * p == 0;
  }

  /** Reading one more digit keeps the number within a buffer that fits `len` digits. */
  lemma PrefixFits(base: nat, ds: seq<int>, i: nat, len: nat, bound: nat)
    requires base >= 1 && i < |ds| <= len && AreDigits(base, ds)
    requires Pow(base, len) <= bound
    ensures base * Value(base, ds[..i]) + ds[i] == Value(base, ds[..i + 1])
    ensures 0 <= Value(base, ds[..i + 1]) < bound
  {
    var prefix := ds[..i + 1];
    assert prefix[..i] == ds[..i];
    ValueBound(base, prefix);
    PowMonotone(base, i + 1, len);
  }

  /** The counting loops at the start and the end of both directions. */
  method CountLeading<T(==)>(s: seq<T>, x: T) returns (k: nat)
    ensures k == Leading(s, x)
  {
    k := 0;
    while k < |s| && s[k] == x
      invariant k <= |s|
      invariant forall i :: 0 <= i < k ==> s[i] == x
    {
      k := k + 1;
    }
    LeadingIs(s, x, k);
  }

  /** The outer loop of decoding: fills the zeroed buffer, or stops at the first foreign character. */
  method DecodeCells(encoded: string, bytes: array<int>) returns (invalid: Option<char>)
    requires Pow(256, bytes.Length) >= Pow(58, |encoded|)
    requires forall k :: 0 <= k < bytes.Length ==> bytes[k] == 0
    modifies bytes
    ensures InAlphabet(encoded) <==> invalid.None?
    ensures invalid.Some? ==> invalid.value == FirstInvalid(encoded)
    ensures invalid.None? ==> AreDigits(256, bytes[..]) && Value(256, bytes[..]) == Value(58, Indices(encoded))
  {
    ZerosAreZero(256, bytes[..]);
    var i := 0;
    while i < |encoded|
      invariant 0 <= i <= |encoded|
      invariant InAlphabet(encoded[..i])
      invariant AreDigits(256, bytes[..])
      invariant Value(256, bytes[..]) == Value(58, Indices(encoded[..i]))
    {
      var value := AlphabetIndex(encoded[i]);
      if value.None? {
        FirstInvalidAt(encoded, i);
        return Some(encoded[i]);
      }
      NextPrefix(encoded, i, Pow(256, bytes.Length));
      var carry := MultiplyAdd(bytes, 256, 58, value.value);
      NoCarry(256, bytes[..], carry, Value(58, Indices(encoded[..i + 1])));
      i := i + 1;
    }
    assert encoded[..i] == encoded;
    invalid := None;
  }

  /** The digits of a longer prefix are those of the shorter one and one more. */
  lemma IndicesOfPrefix(s: string, i: nat)
    requires i < |s| && InAlphabet(s[..i]) && AlphabetIndex(s[i]).Some?
    ensures InAlphabet(s[..i + 1])
    ensures Indices(s[..i + 1]) == Indices(s[..i]) + [AlphabetIndex(s[i]).value]
  {
    var longer, shorter := s[..i + 1], s[..i];
    assert forall k :: 0 <= k < i ==> longer[k] == shorter[k];
    assert forall k :: 0 <= k < i + 1 ==> Indices(longer)[k] == AlphabetIndex(longer[k]).value;
  }

  /** Reading the next character of a string keeps its number within the buffer. */
  lemma NextPrefix(s: string, i: nat, bound: nat)
    requires i < |s| && InAlphabet(s[..i]) && AlphabetIndex(s[i]).Some?
    requires Pow(58, |s|) <= bound
    ensures InAlphabet(s[..i + 1])
    ensures 58 * Value(58, Indices(s[..i])) + AlphabetIndex(s[i]).value == Value(58, Indices(s[..i + 1]))
    ensures 0 <= Value(58, Indices(s[..i + 1])) < bound
  {
    IndicesOfPrefix(s, i);
    var ds := Indices(s[..i + 1]);
    assert ds[..i] == Indices(s[..i]) && ds[..i + 1] == ds;
    PrefixFits(58, ds, i, |s|, bound);
  }

  /**
   `decodeBase58btc`. `size` is the buffer length; the source derives it from logarithms so that
   256 to `size` is at least 58 to the input length, which is all that is asked of it here.
   */
  method DecodeBase58btc(encoded: string, size: nat) returns (r: Result<seq<Byte>, Base58Error>)
    requires Pow(256, size) >= Pow(58, |encoded|)
    ensures r == Decode(encoded)
  {
    if |encoded| == 0 {
      assert Convert(58, 256, []) == [];
      return Success([]);
    }
    var leadingZeros := CountLeading(encoded, '1');
    var bytes := new int[size](_ => 0);
    var invalid := DecodeCells(encoded, bytes);
    if invalid.Some? {
      return Failure(InvalidCharacter(invalid.value));
    }
    var firstNonZero := CountLeading(bytes[..], 0);
    ConvertFromCells(58, 256, Indices(encoded), bytes[..]);
    LeadingOnes(encoded);
    ConvertKeeps(58, 256, Indices(encoded));
    r := Success(Repeat(0, leadingZeros) + bytes[..][firstNonZero..]);
  }

  /** The outer loop of encoding. */
  method EncodeCells(bytes: seq<Byte>, digits: array<int>)
    requires Pow(58, digits.Length) >= Pow(256, |bytes|)
    requires forall k :: 0 <= k < digits.Length ==> digits[k] == 0
    modifies digits
    ensures AreDigits(58, digits[..]) && Value(58, digits[..]) == Value(256, bytes)
  {
    ZerosAreZero(58, digits[..]);
    var i := 0;
    while i < |bytes|
      invariant 0 <= i <= |bytes|
      invariant AreDigits(58, digits[..])
      invariant Value(58, digits[..]) == Value(256, bytes[..i])
    {
      PrefixFits(256, bytes, i, |bytes|, Pow(58, digits.Length));
      var carry := MultiplyAdd(digits, 58, 256, bytes[i]);
      NoCarry(58, digits[..], carry, Value(256, bytes[..i + 1]));
      i := i + 1;
    }
    assert bytes[..i] == bytes;
  }

  /** The last loop of encoding: one character for each digit from `from` on. */
  method WriteDigits(digits: seq<int>, from: nat) returns (result: string)
    requires AreDigits(58, digits) && from <= |digits|
    ensures result == Chars(digits[from..])
  {
    result := "";
    var i := from;
    while i < |digits|
      invariant from <= i <= |digits|
      invariant |result| == i - from
      invariant forall k :: 0 <= k < i - from ==> result[k] == CharOf(digits[from + k])
    {
      result := result + [CharOf(digits[i])];
      i := i + 1;
    }
  }

  /** `encodeBase58btc`, with the mirror bound on its buffer. */
  method EncodeBase58btc(bytes: seq<Byte>, size: nat) returns (result: string)
    requires Pow(58, size) >= Pow(256, |bytes|)
    ensures result == Encode(bytes)
  {
    if |bytes| == 0 {
      return "";
    }
    var leadingZeros := CountLeading(bytes, 0);
    var digits := new int[size](_ => 0);
    EncodeCells(bytes, digits);
    var firstNonZero := CountLeading(digits[..], 0);
    var tail := WriteDigits(digits[..], firstNonZero);
    EncodedAs(bytes, digits[..]);
    result := Repeat('1', leadingZeros) + tail;
  }

  /** A filled buffer, stripped of its leading zero cells, holds what `Encode` writes after the ones. */
  lemma EncodedAs(bytes: seq<Byte>, digits: seq<int>)
    requires AreDigits(58, digits) && Value(58, digits) == Value(256, bytes)
    ensures Encode(bytes) == Repeat('1', Leading(bytes, 0)) + Chars(digits[Leading(digits, 0)..])
  {
    var k, tail := Leading(bytes, 0), digits[Leading(digits, 0)..];
    ConvertFromCells(256, 58, bytes, digits);
    EncodedFrom(bytes, Repeat(0, k) + tail);
    OnesThenDigits(k, tail);
  }

  lemma EncodedFrom(bytes: seq<Byte>, ds: seq<int>)
    requires ds == Convert(256, 58, bytes)
    ensures AreDigits(58, ds) && Encode(bytes) == Chars(ds)
  {
    ConvertKeeps(256, 58, bytes);
  }

  /** A digit zero is written as `1`. */
  lemma OnesThenDigits(k: nat, ds: seq<int>)
    requires AreDigits(58, ds)
    ensures Chars(Repeat(0, k) + ds) == Repeat('1', k) + Chars(ds)
  {
  }

  lemma {:induction false} FirstInvalidAt(s: string, i: nat)
    requires i < |s| && AlphabetIndex(s[i]).None? && InAlphabet(s[..i])
    ensures !InAlphabet(s) && FirstInvalid(s) == s[i]
  {
    if i > 0 {
      assert AlphabetIndex(s[..i][0]).Some?;
      assert s[1..][..i - 1] == s[..i][1..];
      FirstInvalidAt(s[1..], i - 1);
    }
  }
}
