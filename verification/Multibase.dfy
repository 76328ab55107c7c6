/**
 The second base58btc implementation, over one big integer (packages/crypto/src/data-integrity.ts).

 The two implementations meet whenever a did:key identifier written by one is read by the other.
 Encoding always agrees. Decoding agrees except on the strings made of `1`s only, where this
 implementation returns one zero byte too many.
 */
module Multibase {
  import opened Wrappers
  import opened Positional
  import opened Base58

  datatype MultibaseError = MissingPrefix | InvalidBase58Character

  // ----- Encoding

  /** The division loop of `multibaseEncode`: digits come out last first and are put in front. */
  method WriteNumber(number: nat) returns (encoded: string)
    ensures AreDigits(58, Digits(58, number))
    ensures encoded == Chars(Digits(58, number))
  {
    var num: nat := number;
    encoded := "";
    ghost var written: seq<int> := [];
    assert Digits(58, num) + [] == Digits(58, num);
    while num > 0
      invariant Digits(58, number) == Digits(58, num) + written
      invariant AreDigits(58, written) && encoded == Chars(written)
      decreases num
    {
      NextDigit(58, num, written);
      written := [num % 58] + written;
      encoded := [CharOf(num % 58)] + encoded;
      num := num / 58;
    }
    assert Digits(58, 0) + written == written;
  }

  /** The first loop of `multibaseEncode`. */
  method NumberOfBytes(bytes: seq<Byte>) returns (num: nat)
    ensures num == Value(256, bytes)
  {
    var n: int := 0;
    var i := 0;
    while i < |bytes|
      invariant 0 <= i <= |bytes|
      invariant n == Value(256, bytes[..i])
    {
      assert bytes[..i + 1][..i] == bytes[..i];
      n := n * 256 + bytes[i];
      i := i + 1;
    }
    assert bytes[..i] == bytes;
    ValueBound(256, bytes);
    num := n;
  }

  /** The last loop of `multibaseEncode`: a `1` in front for each leading zero byte. */
  method PrependOnes(bytes: seq<Byte>, digits: string) returns (encoded: string)
    ensures encoded == Repeat('1', Leading(bytes, 0)) + digits
  {
    encoded := digits;
    var i := 0;
    while i < |bytes| && bytes[i] == 0
      invariant 0 <= i <= |bytes|
      invariant forall k :: 0 <= k < i ==> bytes[k] == 0
      invariant encoded == Repeat('1', i) + digits
    {
      encoded := "1" + encoded;
      i := i + 1;
    }
    LeadingIs(bytes, 0, i);
  }

  /** `multibaseEncode` writes the prefix and exactly what the other implementation writes. */
  method MultibaseEncode(bytes: seq<Byte>) returns (r: string)
    ensures r == "z" + Encode(bytes)
  {
    var num := NumberOfBytes(bytes);
    var digits := WriteNumber(num);
    OnesThenDigits(Leading(bytes, 0), Digits(58, num));
    var encoded := PrependOnes(bytes, digits);
    r := "z" + encoded;
  }

  // ----- Decoding

  /** The number an alphabet string writes. */
  function NumberOf(s: string): (n: nat)
    requires InAlphabet(s)
  {
    ValueBound(58, Indices(s));
    Value(58, Indices(s))
  }

  function MultibaseDecodeOf(encoded: string): Result<seq<Byte>, MultibaseError> {
    if encoded == "" || encoded[0] != 'z' then Failure(MissingPrefix)
    else if !InAlphabet(encoded[1..]) then Failure(InvalidBase58Character)
    else Success(Repeat<int>(0, Leading(encoded[1..], '1')) + DigitsOrZero(256, NumberOf(encoded[1..])))
  }

  lemma PairStep(v: int, high: int, low: int)
    ensures (v * 16 + high) * 16 + low == v * 256 + (16 * high + low)
  {
  }

  /** One byte for each pair of hexadecimal digits. */
  method BytesOfPairs(padded: seq<int>) returns (bytes: seq<Byte>)
    requires |padded| % 2 == 0 && AreDigits(16, padded)
    ensures |bytes| == |padded| / 2
    ensures Value(256, bytes) == Value(16, padded)
    ensures bytes != [] ==> bytes[0] == 16 * padded[0] + padded[1]
  {
    bytes := [];
    var i := 0;
    while i < |padded|
      invariant 0 <= i <= |padded| && i % 2 == 0 && |bytes| == i / 2
      invariant Value(256, bytes) == Value(16, padded[..i])
      invariant i > 0 ==> bytes[0] == 16 * padded[0] + padded[1]
    {
      var byte := 16 * padded[i] + padded[i + 1];
      assert padded[..i + 2][..i + 1] == padded[..i + 1] && padded[..i + 1][..i] == padded[..i];
      PairStep(Value(16, padded[..i]), padded[i], padded[i + 1]);
      assert (bytes + [byte])[..|bytes|] == bytes;
      bytes := bytes + [byte];
      i := i + 2;
    }
    assert padded[..i] == padded;
  }

  /** The hexadecimal step of `multibaseDecode`: write in base 16, pad to even length, pair up. */
  method BytesOfNumber(num: nat) returns (bytes: seq<Byte>)
    ensures bytes == DigitsOrZero(256, num)
  {
    var hex := DigitsOrZero(16, num);
    var padded := if |hex| % 2 == 1 then [0] + hex else hex;
    assert Value(16, padded) == num by {
      assert [0] + hex == Repeat(0, 1) + hex;
      ValueLeadingZeros(16, 1, hex);
    }
    bytes := BytesOfPairs(padded);
    if num > 0 {
      DigitsOfValue(256, bytes);
    }
  }

  /** The first loop of `multibaseDecode`, stopped by a character outside the alphabet. */
  method NumberOfString(s: string) returns (num: Option<nat>)
    ensures num.Some? <==> InAlphabet(s)
    ensures num.Some? ==> num.value == NumberOf(s)
  {
    var n: int := 0;
    var i := 0;
    while i < |s|
      invariant 0 <= i <= |s|
      invariant InAlphabet(s[..i])
      invariant n == Value(58, Indices(s[..i]))
    {
      var index := AlphabetIndex(s[i]);
      if index.None? {
        return None;
      }
      IndicesOfPrefix(s, i);
      assert Indices(s[..i + 1])[..i] == Indices(s[..i]);
      n := n * 58 + index.value;
      i := i + 1;
    }
    assert s[..i] == s;
    assert n == NumberOf(s);
    num := Some(n);
  }

  method MultibaseDecode(encoded: string) returns (r: Result<seq<Byte>, MultibaseError>)
    ensures r == MultibaseDecodeOf(encoded)
  {
    if encoded == "" || encoded[0] != 'z' {
      return Failure(MissingPrefix);
    }
    var num := NumberOfString(encoded[1..]);
    if num.None? {
      return Failure(InvalidBase58Character);
    }
    var bytes := BytesOfNumber(num.value);
    var leadingZeros := CountLeading(encoded[1..], '1');
    r := Success(Repeat<int>(0, leadingZeros) + bytes);
  }

  // ----- Agreement of the two implementations

  /** Both fail, or both succeed with the same bytes. */
  predicate SameOutcome(a: Result<seq<Byte>, MultibaseError>, b: Result<seq<Byte>, Base58Error>) {
    (a.Success? <==> b.Success?) && (a.Success? && b.Success? ==> a.value == b.value)
  }

  /** An alphabet string writes zero exactly when all its characters are `1`. */
  lemma ZeroIsOnes(s: string)
    requires InAlphabet(s)
    ensures NumberOf(s) == 0 <==> Leading(s, '1') == |s|
  {
    LeadingOnes(s);
    StripZeros(58, Indices(s));
  }

  /** What the big-integer reader returns, in terms of the array reader, on every alphabet string. */
  lemma ReadersCompared(s: string)
    requires InAlphabet(s)
    ensures MultibaseDecodeOf("z" + s)
            == Success(DecodeNumber(s) + if Leading(s, '1') == |s| then [0] else [])
  {
    assert ("z" + s)[1..] == s;
    LeadingOnes(s);
    ConvertOrZero(58, 256, Indices(s));
  }

  /** The readers agree exactly on the strings with some character other than `1`. */
  lemma ReadersAgreeExactly(s: string)
    ensures SameOutcome(MultibaseDecodeOf("z" + s), Decode(s)) <==> exists i :: 0 <= i < |s| && s[i] != '1'
  {
    assert ("z" + s)[1..] == s;
    var k := Leading(s, '1');
    assert k < |s| <==> exists i :: 0 <= i < |s| && s[i] != '1';
    if InAlphabet(s) {
      ReadersCompared(s);
      assert |DecodeNumber(s) + [0]| == |DecodeNumber(s)| + 1;
      assert DecodeNumber(s) + [] == DecodeNumber(s);
    } else {
      assert AlphabetIndex('1') == Some(0);
    }
  }

  /** On `1`s only, the big-integer reader returns one more zero byte than there are `1`s. */
  lemma AllOnesGainAByte(k: nat)
    ensures Decode(Repeat('1', k)) == Success(Repeat(0, k))
    ensures MultibaseDecodeOf("z" + Repeat('1', k)) == Success(Repeat(0, k + 1))
  {
    var s := Repeat('1', k);
    assert InAlphabet(s) by {
      assert AlphabetIndex('1') == Some(0);
    }
    LeadingIs(s, '1', k);
    assert DecodeNumber(s) == Repeat(0, k) by {
      LeadingOnes(s);
      ZeroIsOnes(s);
    }
    ReadersCompared(s);
    assert Repeat(0, k) + [0] == Repeat(0, k + 1);
  }

  lemma ExtraByteShows(bytes: seq<Byte>, extra: seq<Byte>)
    ensures bytes + extra == bytes <==> extra == []
  {
    assert |bytes + extra| == |bytes| + |extra|;
    assert bytes + [] == bytes;
  }

  lemma LeadingShowsNonzero(bytes: seq<Byte>)
    ensures Leading(bytes, 0) < |bytes| <==> exists i :: 0 <= i < |bytes| && bytes[i] != 0
  {
  }

  /** Reading what was written gives the bytes, and one zero byte more when all are zero. */
  lemma EncodedReadsAs(bytes: seq<Byte>)
    ensures MultibaseDecodeOf("z" + Encode(bytes))
         == Success(bytes + if Leading(bytes, 0) == |bytes| then [0] else [])
  {
    DecodeAfterEncode(bytes);
    EncodedOnes(bytes);
    ReadersCompared(Encode(bytes));
  }

  /** Writing with either and reading with the big-integer reader restores the bytes, unless all are zero. */
  lemma MultibaseRoundTrip(bytes: seq<Byte>)
    ensures MultibaseDecodeOf("z" + Encode(bytes)) == Success(bytes)
            <==> exists i :: 0 <= i < |bytes| && bytes[i] != 0
  {
    LeadingShowsNonzero(bytes);
    ExtraByteShows(bytes, if Leading(bytes, 0) == |bytes| then [0] else []);
    EncodedReadsAs(bytes);
  }

  /** `Encode` writes only `1`s exactly when every byte is zero. */
  lemma EncodedOnes(bytes: seq<Byte>)
    ensures InAlphabet(Encode(bytes))
    ensures Leading(Encode(bytes), '1') == |Encode(bytes)| <==> Leading(bytes, 0) == |bytes|
  {
    ConvertKeeps(256, 58, bytes);
    IndicesOfChars(Convert(256, 58, bytes));
    ZeroIsOnes(Encode(bytes));
    StripZeros(256, bytes);
  }
}
