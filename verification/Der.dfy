/**
 ECDSA signatures between the raw r||s form and DER (packages/crypto/src/data-integrity.ts), and the
 PKCS#11 normalization built on them (packages/signing/src/pkcs11-utils.ts).
 */
module Der {
  import opened Wrappers
  import opened Positional
  import opened Base58

  datatype DerError = NotASequence | NoIntegerTagForR | NoIntegerTagForS | ComponentTooLong | WrongRawLength

  // ----- From DER to raw

  function Min(a: int, b: int): int {
    if a < b then a else b
  }

  /** `Uint8Array.prototype.slice`, which clamps both ends to the array. */
  function Slice(s: seq<Byte>, from: nat, to: nat): seq<Byte>
    requires from <= to
  {
    s[Min(from, |s|)..Min(to, |s|)]
  }

  /** Drops leading zeros while the integer is longer than `size`. */
  function StripTo(x: seq<Byte>, size: nat): (y: seq<Byte>)
    ensures |y| <= |x|
  {
    if |x| > size && x[0] == 0 then StripTo(x[1..], size) else x
  }

  /** `raw.set(x, at)`. */
  function Overlay(raw: seq<Byte>, x: seq<Byte>, at: nat): seq<Byte>
    requires at + |x| <= |raw|
  {
    raw[..at] + x + raw[at + |x|..]
  }

  /** The contents of the two integers, read at their offsets; a missing length byte of s reads nothing. */
  function ParseDer(der: seq<Byte>): Result<(seq<Byte>, seq<Byte>), DerError> {
    if |der| == 0 || der[0] != 0x30 then Failure(NotASequence)
    else if |der| <= 2 || der[2] != 0x02 then Failure(NoIntegerTagForR)
    else if |der| <= 3 then Failure(NoIntegerTagForS)
    else
      var rLen: nat := der[3];
      var offset := 4 + rLen;
      if offset >= |der| || der[offset] != 0x02 then Failure(NoIntegerTagForS)
      else
        var sLen: nat := if offset + 1 < |der| then der[offset + 1] else 0;
        Success((Slice(der, 4, offset), Slice(der, offset + 2, offset + 2 + sLen)))
  }

  /** `raw.set` of both components, each ending where its half ends; a start below zero is a RangeError. */
  function Assemble(r: seq<Byte>, s: seq<Byte>, size: nat): Result<seq<Byte>, DerError> {
    if |r| > size || |s| > 2 * size then Failure(ComponentTooLong)
    else Success(Overlay(Overlay(Repeat<Byte>(0, 2 * size), r, size - |r|), s, 2 * size - |s|))
  }

  function DerToRawOf(der: seq<Byte>, size: nat): Result<seq<Byte>, DerError> {
    match ParseDer(der)
    case Failure(e) => Failure(e)
    case Success(p) => Assemble(StripTo(p.0, size), StripTo(p.1, size), size)
  }

  method StripLeadingZeros(x: seq<Byte>, size: nat) returns (y: seq<Byte>)
    ensures y == StripTo(x, size)
  {
    y := x;
    while |y| > size && y[0] == 0
      invariant StripTo(y, size) == StripTo(x, size)
      decreases |y|
    {
      y := y[1..];
    }
  }

  /** `buffer.set(x, at)`. */
  method SetBytes(buffer: array<Byte>, x: seq<Byte>, at: nat)
    requires at + |x| <= buffer.Length
    modifies buffer
    ensures buffer[..] == Overlay(old(buffer[..]), x, at)
  {
    var i := 0;
    while i < |x|
      invariant 0 <= i <= |x|
      invariant buffer[..at] == old(buffer[..at])
      invariant buffer[at..at + i] == x[..i]
      invariant buffer[at + i..] == old(buffer[at + i..])
    {
      buffer[at + i] := x[i];
      i := i + 1;
    }
    assert buffer[..] == buffer[..at] + buffer[at..at + i] + buffer[at + i..];
  }

  /** The reading half of `derToRaw`: one offset that advances over the input. */
  method ReadIntegers(derSig: seq<Byte>) returns (res: Result<(seq<Byte>, seq<Byte>), DerError>)
    ensures res == ParseDer(derSig)
  {
    var offset: nat := 2;
    if |derSig| == 0 || derSig[0] != 0x30 {
      return Failure(NotASequence);
    }
    if offset >= |derSig| || derSig[offset] != 0x02 {
      return Failure(NoIntegerTagForR);
    }
    offset := offset + 1;
    if offset >= |derSig| {
      return Failure(NoIntegerTagForS);
    }
    var rLen: nat := derSig[offset];
    offset := offset + 1;
    var r := Slice(derSig, offset, offset + rLen);
    offset := offset + rLen;
    if offset >= |derSig| || derSig[offset] != 0x02 {
      return Failure(NoIntegerTagForS);
    }
    offset := offset + 1;
    var sLen: nat := if offset < |derSig| then derSig[offset] else 0;
    offset := offset + 1;
    var s := Slice(derSig, offset, offset + sLen);
    res := Success((r, s));
  }

  /** The writing half of `derToRaw`: both components into one zeroed buffer. */
  method WriteComponents(r: seq<Byte>, s: seq<Byte>, componentSize: nat) returns (res: Result<seq<Byte>, DerError>)
    ensures res == Assemble(r, s, componentSize)
  {
    var totalSize := componentSize * 2;
    if |r| > componentSize || |s| > totalSize {
      return Failure(ComponentTooLong);
    }
    var raw := new Byte[totalSize](_ => 0);
    assert raw[..] == Repeat<Byte>(0, totalSize);
    SetBytes(raw, r, componentSize - |r|);
    SetBytes(raw, s, totalSize - |s|);
    res := Success(raw[..]);
  }

  method DerToRaw(derSig: seq<Byte>, componentSize: nat) returns (res: Result<seq<Byte>, DerError>)
    ensures res == DerToRawOf(derSig, componentSize)
  {
    var parsed := ReadIntegers(derSig);
    if parsed.Failure? {
      return Failure(parsed.error);
    }
    var r := StripLeadingZeros(parsed.value.0, componentSize);
    var s := StripLeadingZeros(parsed.value.1, componentSize);
    res := WriteComponents(r, s, componentSize);
  }

  // ----- From raw to DER

  /** A zero byte in front of an integer whose high bit is set. */
  function PadSign(x: seq<Byte>): seq<Byte>
    requires x != []
  {
    if x[0] >= 0x80 then [0] + x else x
  }

  /** Drops leading zeros while the rest is non-empty and stays non-negative. */
  function StripSign(x: seq<Byte>): seq<Byte>
    requires x != []
  {
    if |x| > 1 && x[0] == 0 && x[1] < 0x80 then StripSign(x[1..]) else x
  }

  function DerInteger(x: seq<Byte>): seq<Byte>
    requires x != []
  {
    StripSign(PadSign(x))
  }

  /** SEQUENCE of two INTEGERs, all lengths in one byte. */
  function Sequence(r: seq<Byte>, s: seq<Byte>): seq<Byte>
    requires |r| + |s| <= 251
  {
    [0x30, 4 + |r| + |s|, 0x02, |r|] + r + [0x02, |s|] + s
  }

  function RawToDerOf(raw: seq<Byte>): Result<seq<Byte>, DerError> {
    if |raw| != 64 && |raw| != 96 then Failure(WrongRawLength)
    else
      var size := |raw| / 2;
      DerIntegerLength(raw[..size]);
      DerIntegerLength(raw[size..]);
      Success(Sequence(DerInteger(raw[..size]), DerInteger(raw[size..])))
  }

  method StripSignZeros(x: seq<Byte>) returns (y: seq<Byte>)
    requires x != []
    ensures y == StripSign(x)
  {
    y := x;
    while |y| > 1 && y[0] == 0 && y[1] < 0x80
      invariant y != [] && StripSign(y) == StripSign(x)
      decreases |y|
    {
      y := y[1..];
    }
  }

  /** The writing half of `rawToDer`: the buffer is filled at an advancing offset. */
  method WriteSequence(r: seq<Byte>, s: seq<Byte>) returns (bytes: seq<Byte>)
    requires |r| + |s| <= 251
    ensures bytes == Sequence(r, s)
  {
    var totalLen := 2 + |r| + 2 + |s|;
    var der := new Byte[2 + totalLen](_ => 0);
    der[0] := 0x30;
    der[1] := totalLen;
    der[2] := 0x02;
    der[3] := |r|;
    ghost var start := der[..4];
    SetBytes(der, r, 4);
    var offset := 4 + |r|;
    assert der[..offset] == start + r;
    der[offset] := 0x02;
    der[offset + 1] := |s|;
    offset := offset + 2;
    assert der[..offset] == start + r + [0x02, |s|];
    SetBytes(der, s, offset);
    bytes := der[..];
  }

  method RawToDer(rawSig: seq<Byte>) returns (res: Result<seq<Byte>, DerError>)
    ensures res == RawToDerOf(rawSig)
  {
    if |rawSig| != 64 && |rawSig| != 96 {
      return Failure(WrongRawLength);
    }
    var componentSize := |rawSig| / 2;
    var r := rawSig[..componentSize];
    var s := rawSig[componentSize..];
    DerIntegerLength(r);
    DerIntegerLength(s);
    if r[0] >= 0x80 {
      r := [0] + r;
    }
    if s[0] >= 0x80 {
      s := [0] + s;
    }
    r := StripSignZeros(r);
    s := StripSignZeros(s);
    var der := WriteSequence(r, s);
    res := Success(der);
  }

  // ----- What the integers mean

  /** Non-negative and without a redundant leading byte: section 8.3.2 of X.690. */
  predicate IsMinimal(x: seq<Byte>) {
    && x != []
    && x[0] < 0x80
    && (|x| > 1 ==> x[0] != 0 || x[1] >= 0x80)
  }

  lemma DropZero(x: seq<Byte>)
    requires x != [] && x[0] == 0
    ensures Value(256, x[1..]) == Value(256, x)
  {
    ValueCons(256, x);
  }

  lemma {:induction false} StripSignMinimal(x: seq<Byte>)
    requires x != [] && x[0] < 0x80
    ensures IsMinimal(StripSign(x)) && |StripSign(x)| <= |x|
    ensures Value(256, StripSign(x)) == Value(256, x)
    decreases |x|
  {
    if |x| > 1 && x[0] == 0 && x[1] < 0x80 {
      DropZero(x);
      StripSignMinimal(x[1..]);
    }
  }

  /** `rawToDer` writes each half as the minimal integer of the same value. */
  lemma DerIntegerMinimal(x: seq<Byte>)
    requires x != []
    ensures IsMinimal(DerInteger(x))
    ensures Value(256, DerInteger(x)) == Value(256, x)
  {
    if x[0] >= 0x80 {
      assert ([0] + x)[1..] == x;
      DropZero([0] + x);
    }
    StripSignMinimal(PadSign(x));
  }

  lemma DerIntegerLength(x: seq<Byte>)
    requires x != []
    ensures 1 <= |DerInteger(x)| <= |x| + 1
  {
    StripSignMinimal(PadSign(x));
  }

  /** Two byte sequences of one length and one value are the same. */
  lemma SameWidthSameValue(x: seq<Byte>, y: seq<Byte>)
    requires |x| == |y| && Value(256, x) == Value(256, y)
    ensures x == y
  {
    StripZeros(256, x);
    StripZeros(256, y);
  }

  lemma LeadingDigitWeighs(x: seq<Byte>, size: nat)
    requires |x| > size && x[0] != 0
    ensures Value(256, x) >= Pow(256, size)
  {
    ValueCons(256, x);
    ValueBound(256, x[1..]);
    PowMonotone(256, size, |x| - 1);
    LargerProduct(0, x[0], Pow(256, |x| - 1));
  }

  /** Of two minimal integers, the longer one is the larger number. */
  lemma LongerIsLarger(x: seq<Byte>, y: seq<Byte>)
    requires IsMinimal(x) && IsMinimal(y) && |x| < |y|
    ensures Value(256, x) < Value(256, y)
  {
    if y[0] != 0 {
      BelowLeadingDigit(x, y);
    } else {
      DropZero(y);
      if |x| < |y| - 1 {
        BelowLeadingDigit(x, y[1..]);
      } else {
        LargerLeadingDigit(x, y[1..]);
      }
    }
  }

  lemma BelowLeadingDigit(x: seq<Byte>, y: seq<Byte>)
    requires |x| < |y| && y[0] != 0
    ensures Value(256, x) < Value(256, y)
  {
    ValueBound(256, x);
    LeadingDigitWeighs(y, |x|);
  }

  lemma LargerLeadingDigit(x: seq<Byte>, y: seq<Byte>)
    requires |x| == |y| > 0 && x[0] < y[0]
    ensures Value(256, x) < Value(256, y)
  {
    ValueCons(256, x);
    ValueCons(256, y);
    ValueBound(256, x[1..]);
    ValueBound(256, y[1..]);
    LargerProduct(x[0], y[0], Pow(256, |x| - 1));
  }

  lemma LargerProduct(a: int, b: int, p: nat)
    requires a < b
    ensures a * p + p <= b * p
  {
    assert (a + 1) * p <= b * p;
    assert (a + 1) * p == a * p + p;
  }

  /** A number has one minimal integer. */
  lemma MinimalUnique(x: seq<Byte>, y: seq<Byte>)
    requires IsMinimal(x) && IsMinimal(y) && Value(256, x) == Value(256, y)
    ensures x == y
  {
    if |x| < |y| {
      LongerIsLarger(x, y);
    } else if |y| < |x| {
      LongerIsLarger(y, x);
    } else {
      SameWidthSameValue(x, y);
    }
  }

  /** An integer that fits is stripped to at most `size` bytes. */
  lemma {:induction false} StripToFits(x: seq<Byte>, size: nat)
    requires Value(256, x) < Pow(256, size)
    ensures |StripTo(x, size)| <= size
    ensures Value(256, StripTo(x, size)) == Value(256, x)
    decreases |x|
  {
    if |x| > size {
      if x[0] == 0 {
        DropZero(x);
        StripToFits(x[1..], size);
      } else {
        LeadingDigitWeighs(x, size);
      }
    }
  }

  /** Both halves of the assembled signature carry the value of their integer. */
  lemma AssembleValues(r: seq<Byte>, s: seq<Byte>, size: nat)
    requires |r| <= size && |s| <= size
    ensures var raw := Assemble(r, s, size).value;
            |raw| == 2 * size && Value(256, raw[..size]) == Value(256, r) && Value(256, raw[size..]) == Value(256, s)
  {
    var raw := Assemble(r, s, size).value;
    assert raw[..size] == Repeat<int>(0, size - |r|) + r;
    assert raw[size..] == Repeat<int>(0, size - |s|) + s;
    ValueLeadingZeros(256, size - |r|, r);
    ValueLeadingZeros(256, size - |s|, s);
  }

  lemma ParseSequence(r: seq<Byte>, s: seq<Byte>)
    requires |r| + |s| <= 251
    ensures ParseDer(Sequence(r, s)) == Success((r, s))
  {
    var der, offset := Sequence(r, s), 4 + |r|;
    assert der[3] == |r| && der[offset] == 0x02 && der[offset + 1] == |s|;
    assert Slice(der, 4, offset) == r;
    assert Slice(der, offset + 2, offset + 2 + |s|) == s;
  }

  /** `raw` is the fixed-width form of the two integers. */
  predicate Carries(raw: Result<seq<Byte>, DerError>, r: seq<Byte>, s: seq<Byte>, size: nat) {
    && raw.Success?
    && |raw.value| == 2 * size
    && Value(256, raw.value[..size]) == Value(256, r)
    && Value(256, raw.value[size..]) == Value(256, s)
  }

  /** Two integers that fit are carried over. */
  lemma FittingIsCarried(r: seq<Byte>, s: seq<Byte>, size: nat)
    requires |r| + |s| <= 251
    requires Value(256, r) < Pow(256, size) && Value(256, s) < Pow(256, size)
    ensures Carries(DerToRawOf(Sequence(r, s), size), r, s, size)
  {
    ParseSequence(r, s);
    StripToFits(r, size);
    StripToFits(s, size);
    AssembleValues(StripTo(r, size), StripTo(s, size), size);
  }

  /** `derToRaw` carries both integers over exactly when each fits a component. */
  lemma DerToRawFaithful(r: seq<Byte>, s: seq<Byte>, size: nat)
    requires |r| + |s| <= 251
    ensures Carries(DerToRawOf(Sequence(r, s), size), r, s, size)
            <==> Value(256, r) < Pow(256, size) && Value(256, s) < Pow(256, size)
  {
    var raw := DerToRawOf(Sequence(r, s), size);
    if Carries(raw, r, s, size) {
      ValueBound(256, raw.value[..size]);
      ValueBound(256, raw.value[size..]);
    } else if Value(256, r) < Pow(256, size) && Value(256, s) < Pow(256, size) {
      FittingIsCarried(r, s, size);
    }
  }

  /** How long an integer stays when its leading zeros are stripped down to `size`. */
  lemma {:induction false} StripToLength(x: seq<Byte>, size: nat, n: nat)
    requires size <= n
    ensures |StripTo(x, size)| <= n <==> Value(256, x) < Pow(256, n)
    decreases |x|
  {
    if |x| > size && x[0] == 0 {
      DropZero(x);
      StripToLength(x[1..], size, n);
    } else if |x| <= n {
      ValueBound(256, x);
      PowMonotone(256, |x|, n);
    } else {
      LeadingDigitWeighs(x, n);
    }
  }

  /** A SEQUENCE tag, and the tags of two INTEGERs, the second behind the contents of the first. */
  predicate HasTags(der: seq<Byte>) {
    && |der| > 4 && der[0] == 0x30 && der[2] == 0x02
    && 4 + der[3] < |der| && der[4 + der[3]] == 0x02
  }

  function FirstInteger(der: seq<Byte>): seq<Byte>
    requires HasTags(der)
  {
    der[4..4 + der[3]]
  }

  /** What is there of the second integer, as far as its length byte says. */
  function SecondInteger(der: seq<Byte>): seq<Byte>
    requires HasTags(der)
  {
    var first: nat := der[3];
    var from := 6 + first;
    if from > |der| then []
    else
      var length: nat := der[from - 1];
      if from + length > |der| then der[from..] else der[from..from + length]
  }

  lemma ParsedIntegers(der: seq<Byte>)
    ensures ParseDer(der).Success? <==> HasTags(der)
    ensures HasTags(der) ==> ParseDer(der) == Success((FirstInteger(der), SecondInteger(der)))
  {
    if HasTags(der) {
      var first: nat := der[3];
      var offset := 4 + first;
      assert Slice(der, 4, offset) == FirstInteger(der);
      if offset + 1 < |der| {
        var length: nat := der[offset + 1];
        assert Slice(der, offset + 2, offset + 2 + length) == SecondInteger(der);
      } else {
        assert Slice(der, offset + 2, offset + 2) == SecondInteger(der);
      }
    }
  }

  /**
   Of any bytes, exactly those are read that have the tags, a first integer that fits a component and a second that fits
   both; and when it fits its own, both are carried over.
   */
  lemma DerAcceptedExactly(der: seq<Byte>, size: nat)
    ensures DerToRawOf(der, size).Success? <==>
      HasTags(der) && Value(256, FirstInteger(der)) < Pow(256, size) && Value(256, SecondInteger(der)) < Pow(256, 2 * size)
    ensures DerToRawOf(der, size).Success? && Value(256, SecondInteger(der)) < Pow(256, size) ==>
      Carries(DerToRawOf(der, size), FirstInteger(der), SecondInteger(der), size)
  {
    ParsedIntegers(der);
    if HasTags(der) {
      var r, s := FirstInteger(der), SecondInteger(der);
      StripToLength(r, size, size);
      StripToLength(s, size, 2 * size);
      StripToLength(s, size, size);
      if Value(256, r) < Pow(256, size) && Value(256, s) < Pow(256, size) {
        StripToFits(r, size);
        StripToFits(s, size);
        AssembleValues(StripTo(r, size), StripTo(s, size), size);
      }
    }
  }

  /** The shape of what `rawToDer` emits: minimal integers of the two halves, short-form lengths. */
  lemma RawToDerShape(raw: seq<Byte>)
    requires |raw| == 64 || |raw| == 96
    ensures var size := |raw| / 2;
            var r, s := DerInteger(raw[..size]), DerInteger(raw[size..]);
            && |r| + |s| <= 251
            && RawToDerOf(raw) == Success(Sequence(r, s))
            && IsMinimal(r) && IsMinimal(s)
            && Value(256, r) == Value(256, raw[..size]) && Value(256, s) == Value(256, raw[size..])
            && Sequence(r, s)[1] == |Sequence(r, s)| - 2 < 128
  {
    var size := |raw| / 2;
    DerIntegerMinimal(raw[..size]);
    DerIntegerMinimal(raw[size..]);
    DerIntegerLength(raw[..size]);
    DerIntegerLength(raw[size..]);
  }

  /** A signature is determined by the values of its halves. */
  lemma SameHalves(x: seq<Byte>, y: seq<Byte>, size: nat)
    requires |x| == |y| == 2 * size
    requires Value(256, x[..size]) == Value(256, y[..size]) && Value(256, x[size..]) == Value(256, y[size..])
    ensures x == y
  {
    SameWidthSameValue(x[..size], y[..size]);
    SameWidthSameValue(x[size..], y[size..]);
    assert x == x[..size] + x[size..] && y == y[..size] + y[size..];
  }

  /** Decoding two integers with the values of the halves of a signature gives that signature. */
  lemma DecodesTo(raw: seq<Byte>, size: nat, r: seq<Byte>, s: seq<Byte>)
    requires |raw| == 2 * size && |r| + |s| <= 251
    requires Value(256, r) == Value(256, raw[..size]) && Value(256, s) == Value(256, raw[size..])
    ensures DerToRawOf(Sequence(r, s), size) == Success(raw)
  {
    ValueBound(256, raw[..size]);
    ValueBound(256, raw[size..]);
    FittingIsCarried(r, s, size);
    SameHalves(DerToRawOf(Sequence(r, s), size).value, raw, size);
  }

  lemma DecodesHalves(raw: seq<Byte>, size: nat)
    requires |raw| == 2 * size && 0 < size <= 120
    ensures |DerInteger(raw[..size])| + |DerInteger(raw[size..])| <= 251
    ensures DerToRawOf(Sequence(DerInteger(raw[..size]), DerInteger(raw[size..])), size) == Success(raw)
  {
    DerIntegerLength(raw[..size]);
    DerIntegerLength(raw[size..]);
    DerIntegerMinimal(raw[..size]);
    DerIntegerMinimal(raw[size..]);
    DecodesTo(raw, size, DerInteger(raw[..size]), DerInteger(raw[size..]));
  }

  /** Raw to DER and back is the identity on both signature sizes. */
  lemma DerRoundTrip(raw: seq<Byte>)
    requires |raw| == 64 || |raw| == 96
    ensures RawToDerOf(raw).Success?
    ensures DerToRawOf(RawToDerOf(raw).value, |raw| / 2) == Success(raw)
  {
    DecodesHalves(raw, |raw| / 2);
  }

  /** A half with the value of a minimal integer is written as that integer. */
  lemma HalfEncodes(x: seq<Byte>, r: seq<Byte>)
    requires x != [] && IsMinimal(r) && Value(256, x) == Value(256, r)
    ensures DerInteger(x) == r
  {
    DerIntegerMinimal(x);
    MinimalUnique(DerInteger(x), r);
  }

  lemma EncodesBack(raw: seq<Byte>, size: nat, r: seq<Byte>, s: seq<Byte>)
    requires (size == 32 || size == 48) && |raw| == 2 * size && |r| + |s| <= 251 && IsMinimal(r) && IsMinimal(s)
    requires Value(256, raw[..size]) == Value(256, r) && Value(256, raw[size..]) == Value(256, s)
    ensures RawToDerOf(raw) == Success(Sequence(r, s))
  {
    HalfEncodes(raw[..size], r);
    HalfEncodes(raw[size..], s);
  }

  /** DER to raw and back is the identity on minimal encodings of two integers that fit. */
  lemma RawRoundTrip(r: seq<Byte>, s: seq<Byte>, size: nat)
    requires size == 32 || size == 48
    requires |r| + |s| <= 251 && IsMinimal(r) && IsMinimal(s)
    requires Value(256, r) < Pow(256, size) && Value(256, s) < Pow(256, size)
    ensures DerToRawOf(Sequence(r, s), size).Success?
    ensures RawToDerOf(DerToRawOf(Sequence(r, s), size).value) == Success(Sequence(r, s))
  {
    FittingIsCarried(r, s, size);
    EncodesBack(DerToRawOf(Sequence(r, s), size).value, size, r, s);
  }

  // ----- PKCS#11 normalization

  datatype KeyType = EC | RSA

  datatype NormalizeError = UnparsableDer | UnexpectedLength(got: nat)

  /** `normalizeSignature`. */
  function NormalizeSignature(signature: seq<Byte>, keyType: KeyType): Result<seq<Byte>, NormalizeError> {
    if keyType == RSA then Success(signature)
    else if |signature| == 64 || |signature| == 96 then Success(signature)
    else if |signature| > 0 && signature[0] == 0x30 then
      match DerToRawOf(signature, if |signature| > 80 then 48 else 32)
      case Success(raw) => Success(raw)
      case Failure(_) => Failure(UnparsableDer)
    else Failure(UnexpectedLength(|signature|))
  }

  /** RSA signatures and raw EC signatures are left alone. */
  lemma NormalizeKeeps(signature: seq<Byte>)
    ensures NormalizeSignature(signature, RSA) == Success(signature)
    ensures |signature| == 64 || |signature| == 96 ==> NormalizeSignature(signature, EC) == Success(signature)
  {
  }

  /** Every other EC signature must be DER, and becomes a raw one of the size its length suggests; that is left alone. */
  lemma NormalizedIsRaw(signature: seq<Byte>)
    requires |signature| != 64 && |signature| != 96
    ensures match NormalizeSignature(signature, EC)
      case Success(raw) =>
        && signature != [] && signature[0] == 0x30 && |raw| == (if |signature| > 80 then 96 else 64)
        && DerToRawOf(signature, |raw| / 2) == Success(raw)
        && NormalizeSignature(raw, EC) == Success(raw)
      case Failure(UnexpectedLength(got)) => got == |signature| && (signature == [] || signature[0] != 0x30)
      case Failure(UnparsableDer) =>
        && signature != [] && signature[0] == 0x30
        && DerToRawOf(signature, if |signature| > 80 then 48 else 32).Failure?
  {
    RawLength(signature, if |signature| > 80 then 48 else 32);
  }

  /** The guess made from the DER length alone is right. */
  predicate LengthTellsTheForm(derLength: nat, rawLength: nat) {
    derLength != 64 && derLength != 96 && (derLength > 80 <==> rawLength == 96)
  }

  /** An integer that starts with a byte between 1 and 0x7f is emitted as it is. */
  lemma PlainInteger(x: seq<Byte>)
    requires x != [] && 0 < x[0] < 0x80
    ensures DerInteger(x) == x
  {
  }

  /** A signature is never its own DER encoding: its halves would both start with 0x30. */
  lemma SequenceIsNotRaw(raw: seq<Byte>, size: nat, r: seq<Byte>, s: seq<Byte>)
    requires |raw| == 2 * size && 32 <= size && size % 4 == 0 && |r| + |s| <= 251
    requires r == DerInteger(raw[..size]) && s == DerInteger(raw[size..])
    ensures Sequence(r, s) != raw
  {
    if Sequence(r, s) == raw {
      assert raw[0] == 0x30;
      PlainInteger(raw[..size]);
      assert Sequence(r, s)[4..4 + size] == r;
      RepeatsEveryFour(raw, size, size);
    }
  }

  /** A sequence whose first half reappears four places later repeats its first byte every four. */
  lemma {:induction false} RepeatsEveryFour(raw: seq<Byte>, size: nat, i: nat)
    requires size >= 4 && 4 + size <= |raw| && raw[4..4 + size] == raw[..size]
    requires i % 4 == 0 && i <= size
    ensures raw[i] == raw[0]
  {
    if i > 0 {
      RepeatsEveryFour(raw, size, i - 4);
      assert raw[4..4 + size][i - 4] == raw[..size][i - 4];
    }
  }

  lemma RawLength(der: seq<Byte>, size: nat)
    ensures DerToRawOf(der, size).Success? ==> |DerToRawOf(der, size).value| == 2 * size
  {
  }

  /** Normalization of any input that decodes to `raw` without being it. */
  lemma NormalizeDecodable(der: seq<Byte>, raw: seq<Byte>)
    requires |raw| == 64 || |raw| == 96
    requires der != [] && der[0] == 0x30 && der != raw
    requires DerToRawOf(der, |raw| / 2) == Success(raw)
    requires |raw| == 64 ==> |der| <= 80
    ensures NormalizeSignature(der, EC) == Success(raw) <==> LengthTellsTheForm(|der|, |raw|)
  {
    RawLength(der, if |der| > 80 then 48 else 32);
  }

  /** The DER form of a raw signature starts with the SEQUENCE tag, is not long, and is not that signature. */
  lemma DerFacts(raw: seq<Byte>)
    requires |raw| == 64 || |raw| == 96
    ensures RawToDerOf(raw).Success?
    ensures var der := RawToDerOf(raw).value;
            der != [] && der[0] == 0x30 && der != raw && (|raw| == 64 ==> |der| <= 80)
  {
    var size := |raw| / 2;
    DerIntegerLength(raw[..size]);
    DerIntegerLength(raw[size..]);
    SequenceIsNotRaw(raw, size, DerInteger(raw[..size]), DerInteger(raw[size..]));
  }

  /** Normalizing the DER form of a raw EC signature recovers it exactly when its length tells the form. */
  lemma NormalizeRecoversExactly(raw: seq<Byte>)
    requires |raw| == 64 || |raw| == 96
    ensures RawToDerOf(raw).Success?
    ensures NormalizeSignature(RawToDerOf(raw).value, EC) == Success(raw)
            <==> LengthTellsTheForm(|RawToDerOf(raw).value|, |raw|)
  {
    DerFacts(raw);
    DerRoundTrip(raw);
    NormalizeDecodable(RawToDerOf(raw).value, raw);
  }

  lemma ZeroInteger(x: seq<Byte>)
    requires x != [] && forall i :: 0 <= i < |x| ==> x[i] == 0
    ensures DerInteger(x) == [0]
  {
    DerIntegerMinimal(x);
    ZerosAreZero(256, x);
    ZerosAreZero(256, [0]);
    MinimalUnique(DerInteger(x), [0]);
  }

  /** An input it is not recovered from: a P-384 signature of zero bytes has a DER form of eight bytes. */
  lemma NormalizeMisses()
    ensures RawToDerOf(Repeat<int>(0, 96)).Success? && |RawToDerOf(Repeat<int>(0, 96)).value| == 8
    ensures NormalizeSignature(RawToDerOf(Repeat<int>(0, 96)).value, EC) != Success(Repeat<int>(0, 96))
  {
    var raw: seq<Byte> := Repeat<int>(0, 96);
    ZeroInteger(raw[..48]);
    ZeroInteger(raw[48..]);
    NormalizeRecoversExactly(raw);
  }
}
