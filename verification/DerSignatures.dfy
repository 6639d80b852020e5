/**
  ECDSA signature conversion in the wallet's signer: DER (X.690 sections 8.1.3 and 8.3) to the
  fixed-length form of RFC 7518 section 3.4.
 */
module DerSignatures {
  import opened Prelude

  type byte = b: int | 0 <= b < 256

  datatype Algorithm = ES256 | ES384 | ES512 | EdDSA | RS256 | RS384 | RS512 | Unknown

  function KeySizeForAlgorithm(alg: Algorithm): Option<nat> {
    match alg
    case ES256 => Some(32)
    case ES384 => Some(48)
    case ES512 => Some(66)
    case _ => None
  }

  // ---------------------------------------------------------------------------------------------
  // Big-endian integers
  // ---------------------------------------------------------------------------------------------

  function Pow256(k: nat): (p: nat)
    ensures p > 0
  {
    if k == 0 then 1 else 256 * Pow256(k - 1)
  }

  /** The value of a big-endian byte string. */
  function FromBytes(b: seq<byte>): nat {
    if b == [] then 0 else FromBytes(b[..|b| - 1]) * 256 + b[|b| - 1]
  }

  /** `big.Int.Bytes`: big-endian without leading zeros. */
  function ToBytes(n: nat): seq<byte> {
    if n == 0 then [] else ToBytes(n / 256) + [n % 256]
  }

  function Zeros(n: nat): seq<byte> {
    seq(n, _ => 0)
  }

  lemma {:induction false} BytesRoundTrip(n: nat)
    ensures FromBytes(ToBytes(n)) == n
    ensures n > 0 ==> ToBytes(n) != [] && ToBytes(n)[0] != 0
  {
    if n > 0 {
      BytesRoundTrip(n / 256);
      assert ToBytes(n)[..|ToBytes(n)| - 1] == ToBytes(n / 256);
    }
  }

  lemma {:induction false} BytesLength(n: nat, k: nat)
    ensures n < Pow256(k) <==> |ToBytes(n)| <= k
  {
    if n > 0 && k > 0 {
      BytesLength(n / 256, k - 1);
    }
  }

  lemma {:induction false} LeadingZeros(z: nat, b: seq<byte>)
    ensures FromBytes(Zeros(z) + b) == FromBytes(b)
  {
    var whole := Zeros(z) + b;
    if b != [] {
      assert whole[..|whole| - 1] == Zeros(z) + b[..|b| - 1];
      LeadingZeros(z, b[..|b| - 1]);
    } else if z > 0 {
      assert whole[..|whole| - 1] == Zeros(z - 1) + b;
      LeadingZeros(z - 1, b);
    }
  }

  lemma {:induction false} EqualValuesEqualBytes(a: seq<byte>, b: seq<byte>)
    requires |a| == |b| && FromBytes(a) == FromBytes(b)
    ensures a == b
  {
    if a != [] {
      var n := |a| - 1;
      assert a[n] == FromBytes(a) % 256 && b[n] == FromBytes(b) % 256;
      EqualValuesEqualBytes(a[..n], b[..n]);
      assert a == a[..n] + [a[n]] && b == b[..n] + [b[n]];
    }
  }

  /** n in exactly k bytes, right-aligned. */
  function Padded(n: nat, k: nat): (b: seq<byte>)
    requires n < Pow256(k)
    ensures |b| == k
  {
    BytesLength(n, k);
    Zeros(k - |ToBytes(n)|) + ToBytes(n)
  }

  lemma PaddedValue(n: nat, k: nat)
    requires n < Pow256(k)
    ensures FromBytes(Padded(n, k)) == n
  {
    BytesLength(n, k);
    BytesRoundTrip(n);
    LeadingZeros(k - |ToBytes(n)|, ToBytes(n));
  }

  // ---------------------------------------------------------------------------------------------
  // The DER encoding
  // ---------------------------------------------------------------------------------------------

  const INTEGER: byte := 0x02
  const SEQUENCE: byte := 0x30

  /** The contents octets of a positive INTEGER: minimal, with a zero octet when the top bit is set. */
  function IntegerContents(n: nat): seq<byte>
    requires n > 0
  {
    BytesRoundTrip(n);
    if ToBytes(n)[0] >= 128 then [0] + ToBytes(n) else ToBytes(n)
  }

  /** Short form below 128, long form with one octet above. */
  function Length(n: nat): seq<byte>
    requires n < 256
  {
    if n < 128 then [n] else [0x81, n]
  }

  function Element(tag: byte, contents: seq<byte>): seq<byte>
    requires |contents| < 256
  {
    [tag] + Length(|contents|) + contents
  }

  /** Both components of one signature fit the key size. */
  predicate Components(r: nat, s: nat, k: nat) {
    0 < r < Pow256(k) && 0 < s < Pow256(k) && k <= 66
  }

  lemma ContentsLength(n: nat, k: nat)
    requires 0 < n < Pow256(k)
    ensures 1 <= |IntegerContents(n)| <= k + 1
  {
    BytesLength(n, k);
  }

  function SignatureContents(r: nat, s: nat, k: nat): (c: seq<byte>)
    requires Components(r, s, k)
    ensures |c| < 256
  {
    ContentsLength(r, k);
    ContentsLength(s, k);
    Element(INTEGER, IntegerContents(r)) + Element(INTEGER, IntegerContents(s))
  }

  function EncodeSignature(r: nat, s: nat, k: nat): seq<byte>
    requires Components(r, s, k)
  {
    Element(SEQUENCE, SignatureContents(r, s, k))
  }

  // ---------------------------------------------------------------------------------------------
  // The reader
  // ---------------------------------------------------------------------------------------------

  /** The length octets after a tag: the length, and how many octets tag and length take. */
  function ReadLength(input: seq<byte>): Option<(nat, nat)> {
    if |input| < 2 then None
    else if input[1] < 128 then Some((input[1], 2))
    else
      var octets := input[1] - 128;
      if octets == 0 || octets > 4 || |input| < 2 + octets then None
      else
        var length := FromBytes(input[2..2 + octets]);
        // Only the shortest form of a length is DER.
        if length < 128 || input[2] == 0 then None else Some((length, 2 + octets))
  }

  /** One element with the given tag: its contents and the rest of the input. */
  function ReadElement(tag: byte, input: seq<byte>): Option<(seq<byte>, seq<byte>)> {
    var length := ReadLength(input);
    if length.None? || input[0] != tag then None
    else
      var (n, header) := length.value;
      if |input| < header + n then None else Some((input[header..header + n], input[header + n..]))
  }

  /** A two's-complement INTEGER in its shortest form: its value and the rest of the input. */
  function ReadInteger(input: seq<byte>): Option<(int, seq<byte>)> {
    var element := ReadElement(INTEGER, input);
    if element.None? then None
    else
      var (c, rest) := element.value;
      if c == [] then None
      else if |c| > 1 && ((c[0] == 0 && c[1] < 128) || (c[0] == 255 && c[1] >= 128)) then None
      else Some((if c[0] >= 128 then FromBytes(c) - Pow256(|c|) else FromBytes(c), rest))
  }

  /** A SEQUENCE of exactly two INTEGERs and nothing else. */
  function ReadSignature(der: seq<byte>): Option<(int, int)> {
    var outer := ReadElement(SEQUENCE, der);
    if outer.None? || outer.value.1 != [] then None
    else
      var r := ReadInteger(outer.value.0);
      if r.None? then None
      else
        var s := ReadInteger(r.value.1);
        if s.None? || s.value.1 != [] then None else Some((r.value.0, s.value.0))
  }

  lemma ElementReadsBack(tag: byte, contents: seq<byte>, rest: seq<byte>)
    requires |contents| < 256
    ensures ReadElement(tag, Element(tag, contents) + rest) == Some((contents, rest))
  {
    var input := Element(tag, contents) + rest;
    if |contents| < 128 {
      assert input[1] == |contents|;
      assert input[2..2 + |contents|] == contents && input[2 + |contents|..] == rest;
    } else {
      assert input[1] == 0x81 && input[2..3] == [|contents|];
      assert input[2..3][..0] == [];
      assert FromBytes(input[2..3]) == |contents|;
      assert input[3..3 + |contents|] == contents && input[3 + |contents|..] == rest;
    }
  }

  lemma IntegerReadsBack(n: nat, k: nat, rest: seq<byte>)
    requires 0 < n < Pow256(k) && k <= 66
    ensures |IntegerContents(n)| < 256
    ensures ReadInteger(Element(INTEGER, IntegerContents(n)) + rest) == Some((n, rest))
  {
    ContentsLength(n, k);
    BytesRoundTrip(n);
    LeadingZeros(1, ToBytes(n));
    assert Zeros(1) == [0];
    ElementReadsBack(INTEGER, IntegerContents(n), rest);
  }

  lemma SignatureReadsBack(r: nat, s: nat, k: nat)
    requires Components(r, s, k)
    ensures ReadSignature(EncodeSignature(r, s, k)) == Some((r, s))
  {
    var contents := SignatureContents(r, s, k);
    ElementReadsBack(SEQUENCE, contents, []);
    assert EncodeSignature(r, s, k) + [] == EncodeSignature(r, s, k);
    ContentsLength(s, k);
    var second := Element(INTEGER, IntegerContents(s));
    IntegerReadsBack(r, k, second);
    IntegerReadsBack(s, k, []);
    assert second + [] == second;
  }

  // ---------------------------------------------------------------------------------------------
  // The conversion
  // ---------------------------------------------------------------------------------------------

  datatype ConvertError = TooShort | NotDer | Malformed | NotPositive | TooLong

  function Converted(sig: seq<byte>, keySize: nat): Result<seq<byte>, ConvertError> {
    if |sig| < 8 then Err(TooShort)
    else if |sig| == keySize * 2 then Ok(sig)
    else if sig[0] != SEQUENCE then Err(NotDer)
    else
      var parsed := ReadSignature(sig);
      if parsed.None? then Err(Malformed)
      else
        var (r, s) := parsed.value;
        if r <= 0 || s <= 0 then Err(NotPositive)
        else if r >= Pow256(keySize) || s >= Pow256(keySize) then Err(TooLong)
        else Ok(Padded(r, keySize) + Padded(s, keySize))
  }

  /** `ConvertDERToRaw`, which fills a zeroed buffer from the right end of each half. */
  method ConvertDERToRaw(derSig: seq<byte>, keySize: nat) returns (result: Result<seq<byte>, ConvertError>)
    ensures result == Converted(derSig, keySize)
  {
    if |derSig| < 8 {
      return Err(TooShort);
    }
    if |derSig| == keySize * 2 {
      return Ok(derSig);
    }
    if derSig[0] != SEQUENCE {
      return Err(NotDer);
    }
    var parsed := ReadSignature(derSig);
    if parsed.None? {
      return Err(Malformed);
    }
    var (r, s) := parsed.value;
    if r <= 0 || s <= 0 {
      return Err(NotPositive);
    }
    BytesLength(r, keySize);
    BytesLength(s, keySize);
    var rRaw, sRaw := ToBytes(r), ToBytes(s);
    if |rRaw| > keySize || |sRaw| > keySize {
      return Err(TooLong);
    }
    var rawSig := RightAligned(rRaw, sRaw, keySize);
    return Ok(rawSig);
  }

  /** The two byte strings, each at the right end of its half of a zeroed buffer. */
  method RightAligned(rRaw: seq<byte>, sRaw: seq<byte>, keySize: nat) returns (raw: seq<byte>)
    requires |rRaw| <= keySize && |sRaw| <= keySize
    ensures raw == (Zeros(keySize - |rRaw|) + rRaw) + (Zeros(keySize - |sRaw|) + sRaw)
  {
    var rawSig := new byte[keySize * 2](_ => 0);
    assert rawSig[..] == Zeros(keySize * 2);
    CopyInto(rawSig, keySize - |rRaw|, rRaw);
    CopyInto(rawSig, keySize * 2 - |sRaw|, sRaw);
    BothPlaced(rRaw, sRaw, keySize);
    return rawSig[..];
  }

  /** A buffer with some of its bytes replaced. */
  function Placed(buffer: seq<byte>, at: nat, source: seq<byte>): (r: seq<byte>)
    requires at + |source| <= |buffer|
    ensures |r| == |buffer|
    ensures forall i :: 0 <= i < |r| ==> r[i] == if at <= i < at + |source| then source[i - at] else buffer[i]
  {
    buffer[..at] + source + buffer[at + |source|..]
  }

  lemma BothPlaced(rRaw: seq<byte>, sRaw: seq<byte>, k: nat)
    requires |rRaw| <= k && |sRaw| <= k
    ensures Placed(Placed(Zeros(k * 2), k - |rRaw|, rRaw), k * 2 - |sRaw|, sRaw) ==
            (Zeros(k - |rRaw|) + rRaw) + (Zeros(k - |sRaw|) + sRaw)
  {
    var left, right := Zeros(k - |rRaw|) + rRaw, Zeros(k - |sRaw|) + sRaw;
    var placed := Placed(Placed(Zeros(k * 2), k - |rRaw|, rRaw), k * 2 - |sRaw|, sRaw);
    forall i | 0 <= i < k * 2 ensures placed[i] == (left + right)[i] {
      if i >= k {
        assert (left + right)[i] == right[i - k];
      }
    }
  }

  method CopyInto(target: array<byte>, at: nat, source: seq<byte>)
    requires at + |source| <= target.Length
    modifies target
    ensures target[..] == Placed(old(target[..]), at, source)
  {
    for i := 0 to |source|
      invariant forall j :: 0 <= j < target.Length ==>
                  target[j] == if at <= j < at + i then source[j - at] else old(target[j])
    {
      target[at + i] := source[i];
    }
  }

  // ---------------------------------------------------------------------------------------------
  // Correctness
  // ---------------------------------------------------------------------------------------------

  /** What RFC 7518 section 3.4 asks for. */
  predicate IsRawSignature(result: Result<seq<byte>, ConvertError>, r: nat, s: nat, k: nat) {
    && result.Ok? && |result.value| == 2 * k
    && FromBytes(result.value[..k]) == r
    && FromBytes(result.value[k..]) == s
  }

  lemma EncodedLength(r: nat, s: nat, k: nat)
    requires Components(r, s, k)
    ensures |EncodeSignature(r, s, k)| >= 8 && EncodeSignature(r, s, k)[0] == SEQUENCE
  {
    ContentsLength(r, k);
    ContentsLength(s, k);
  }

  lemma ParsedIsConverted(sig: seq<byte>, r: nat, s: nat, k: nat)
    requires |sig| >= 8 && |sig| != k * 2 && sig[0] == SEQUENCE && ReadSignature(sig) == Some((r, s))
    requires 0 < r < Pow256(k) && 0 < s < Pow256(k)
    ensures Converted(sig, k) == Ok(Padded(r, k) + Padded(s, k))
  {
  }

  lemma HalvesHoldValues(r: nat, s: nat, k: nat)
    requires r < Pow256(k) && s < Pow256(k)
    ensures IsRawSignature(Ok(Padded(r, k) + Padded(s, k)), r, s, k)
  {
    PaddedValue(r, k);
    PaddedValue(s, k);
    var raw := Padded(r, k) + Padded(s, k);
    assert raw[..k] == Padded(r, k) && raw[k..] == Padded(s, k);
  }

  /** Off the one ambiguous length, both components come out in full. */
  lemma ConvertsOtherLengths(r: nat, s: nat, k: nat)
    requires Components(r, s, k) && |EncodeSignature(r, s, k)| != 2 * k
    ensures Converted(EncodeSignature(r, s, k), k) == Ok(Padded(r, k) + Padded(s, k))
    ensures IsRawSignature(Converted(EncodeSignature(r, s, k), k), r, s, k)
  {
    EncodedLength(r, s, k);
    SignatureReadsBack(r, s, k);
    ParsedIsConverted(EncodeSignature(r, s, k), r, s, k);
    HalvesHoldValues(r, s, k);
  }

  /** Bytes that repeat every 4 octets, the length of a short header, repeat the header. */
  lemma {:induction false} ShortHeaderRepeats(der: seq<byte>, i: nat)
    requires i < |der| && forall j | 0 <= j <= i - 4 :: der[j + 4] == der[j]
    ensures der[i] == der[i % 4]
  {
    if i >= 4 {
      ShortHeaderRepeats(der, i - 4);
      assert der[i - 4 + 4] == der[i - 4];
    }
  }

  /** Likewise every 5 octets, the length of a header with a long-form length. */
  lemma {:induction false} LongHeaderRepeats(der: seq<byte>, i: nat)
    requires i < |der| && forall j | 0 <= j <= i - 5 :: der[j + 5] == der[j]
    ensures der[i] == der[i % 5]
  {
    if i >= 5 {
      LongHeaderRepeats(der, i - 5);
      assert der[i - 5 + 5] == der[i - 5];
    }
  }

  function HeaderLength(k: nat): nat {
    if k == 66 then 5 else 4
  }

  /** Where the first of two nested elements has its contents. */
  lemma NestedElements(r: seq<byte>, s: seq<byte>)
    requires |r| < 128 && |s| < 128 && |r| + |s| + 4 < 256
    ensures var inner := Element(INTEGER, r) + Element(INTEGER, s);
            var der, header := Element(SEQUENCE, inner), 3 + |Length(|inner|)|;
            && |der| == header + |r| + 2 + |s|
            && der[header..header + |r|] == r
            && (|inner| >= 128 ==> der[1] == 0x81)
  {
    var inner := Element(INTEGER, r) + Element(INTEGER, s);
    var der := Element(SEQUENCE, inner);
    var before := [SEQUENCE] + Length(|inner|) + [INTEGER, |r|];
    assert der == before + r + Element(INTEGER, s);
  }

  /** Where r's contents sit in a DER signature of 2k octets whose r takes k of them. */
  lemma EncodedPrefix(r: nat, s: nat, k: nat)
    requires Components(r, s, k) && |EncodeSignature(r, s, k)| == 2 * k && k in {32, 48, 66}
    requires |IntegerContents(r)| == k
    ensures var der, header := EncodeSignature(r, s, k), HeaderLength(k);
            && der[header..header + k] == IntegerContents(r)
            && (k == 66 ==> der[1] == 0x81)
            && |IntegerContents(s)| + 2 + header + k == 2 * k
  {
    ContentsLength(s, k);
    HeaderOfLength(IntegerContents(r), IntegerContents(s), k);
  }

  lemma HeaderOfLength(r: seq<byte>, s: seq<byte>, k: nat)
    requires (k <= 48 || k == 66) && |r| == k && |s| <= k + 1
    requires |Element(SEQUENCE, Element(INTEGER, r) + Element(INTEGER, s))| == 2 * k
    ensures var der, header := Element(SEQUENCE, Element(INTEGER, r) + Element(INTEGER, s)), HeaderLength(k);
            && der[header..header + k] == r
            && (k == 66 ==> der[1] == 0x81)
            && |s| + 2 + header + k == 2 * k
  {
    NestedElements(r, s);
  }

  lemma SliceRepeats(der: seq<byte>, header: nat, k: nat, j: nat)
    requires header + k <= |der| && j < k && der[header..header + k] == der[..k]
    ensures der[j + header] == der[j]
  {
    assert der[header..header + k][j] == der[..k][j];
  }

  /** If the contents repeat the octets before them, the octet k is a header octet, not zero. */
  lemma RepeatedHeaderIsNotZero(der: seq<byte>, k: nat)
    requires k in {32, 48, 66} && |der| == 2 * k
    requires der[0] == SEQUENCE && (k == 66 ==> der[1] == 0x81)
    requires der[HeaderLength(k)..HeaderLength(k) + k] == der[..k]
    ensures der[k] != 0
  {
    var header := HeaderLength(k);
    forall j | 0 <= j <= k - header ensures der[j + header] == der[j] {
      SliceRepeats(der, header, k, j);
    }
    if k == 66 {
      LongHeaderRepeats(der, k);
    } else {
      ShortHeaderRepeats(der, k);
    }
  }

  /** A number with a full top octet fills all k octets, as INTEGER contents too when below 128. */
  lemma FullWidth(n: nat, k: nat)
    requires 0 < n < Pow256(k) && 0 < k && 0 < Padded(n, k)[0] < 128
    ensures IntegerContents(n) == Padded(n, k)
  {
    BytesLength(n, k);
  }

  /** A number whose contents are shorter than k octets starts with a zero octet when padded. */
  lemma ShortStartsWithZero(n: nat, k: nat)
    requires 0 < n < Pow256(k) && |IntegerContents(n)| < k
    ensures Padded(n, k)[0] == 0
  {
    BytesLength(n, k);
  }

  /**
    A DER signature of exactly 2k octets is returned as if it were raw, and is never right: r would
    have to repeat the DER header up to the half of s, which starts with a zero octet.
   */
  lemma AmbiguousLengthIsWrong(r: nat, s: nat, k: nat)
    requires Components(r, s, k) && k in {32, 48, 66} && |EncodeSignature(r, s, k)| == 2 * k
    ensures Converted(EncodeSignature(r, s, k), k) == Ok(EncodeSignature(r, s, k))
    ensures !IsRawSignature(Converted(EncodeSignature(r, s, k), k), r, s, k)
  {
    var der := EncodeSignature(r, s, k);
    RawLengthIsKept(der, k);
    if FromBytes(der[..k]) == r && FromBytes(der[k..]) == s {
      HalfIsPadded(der[..k], r, k);
      HalfIsPadded(der[k..], s, k);
      HalvesDoNotRepeat(r, s, k);
    }
  }

  lemma RawLengthIsKept(sig: seq<byte>, k: nat)
    requires 8 <= |sig| == 2 * k
    ensures Converted(sig, k) == Ok(sig)
  {
  }

  lemma HalfIsPadded(half: seq<byte>, n: nat, k: nat)
    requires |half| == k && FromBytes(half) == n && n < Pow256(k)
    ensures half == Padded(n, k)
  {
    PaddedValue(n, k);
    EqualValuesEqualBytes(half, Padded(n, k));
  }

  lemma HalvesDoNotRepeat(r: nat, s: nat, k: nat)
    requires Components(r, s, k) && k in {32, 48, 66} && |EncodeSignature(r, s, k)| == 2 * k
    ensures EncodeSignature(r, s, k)[..k] != Padded(r, k) || EncodeSignature(r, s, k)[k..] != Padded(s, k)
  {
    var der := EncodeSignature(r, s, k);
    EncodedLength(r, s, k);
    if der[..k] == Padded(r, k) {
      assert der[..k][0] == SEQUENCE;
      FullWidth(r, k);
      SecondHalfStarts(r, s, k);
      SecondHalfDiffers(der, s, k);
    }
  }

  lemma SecondHalfDiffers(der: seq<byte>, s: nat, k: nat)
    requires 0 < s < Pow256(k) && |IntegerContents(s)| < k < |der| && der[k] != 0
    ensures der[k..] != Padded(s, k)
  {
    ShortStartsWithZero(s, k);
    assert der[k..][0] == der[k];
  }

  lemma SecondHalfStarts(r: nat, s: nat, k: nat)
    requires Components(r, s, k) && k in {32, 48, 66} && |EncodeSignature(r, s, k)| == 2 * k
    requires IntegerContents(r) == EncodeSignature(r, s, k)[..k]
    ensures EncodeSignature(r, s, k)[k] != 0 && |IntegerContents(s)| < k
  {
    EncodedLength(r, s, k);
    EncodedPrefix(r, s, k);
    RepeatedHeaderIsNotZero(EncodeSignature(r, s, k), k);
  }

  /**
    Conversion is right exactly when the DER encoding is not 2k octets long, for every signature of
    the three curves; the long-form SEQUENCE length of P-521 is included.
   */
  lemma ConversionCorrectExactlyWhen(alg: Algorithm, r: nat, s: nat)
    requires KeySizeForAlgorithm(alg).Some? && Components(r, s, KeySizeForAlgorithm(alg).value)
    ensures var k := KeySizeForAlgorithm(alg).value;
            var der := EncodeSignature(r, s, k);
            IsRawSignature(Converted(der, k), r, s, k) <==> |der| != 2 * k
  {
    var k := KeySizeForAlgorithm(alg).value;
    if |EncodeSignature(r, s, k)| == 2 * k {
      AmbiguousLengthIsWrong(r, s, k);
    } else {
      ConvertsOtherLengths(r, s, k);
    }
  }

  lemma {:induction false} PowerOctets(m: nat)
    ensures |ToBytes(Pow256(m))| == m + 1 && ToBytes(Pow256(m))[0] == 1
    ensures |IntegerContents(Pow256(m))| == m + 1
  {
    if m > 0 {
      PowerOctets(m - 1);
    } else {
      assert ToBytes(1) == [1];
    }
  }

  lemma {:induction false} PowersGrow(m: nat, n: nat)
    requires m < n
    ensures Pow256(m) < Pow256(n)
  {
    if m + 1 < n {
      PowersGrow(m, n - 1);
    }
  }

  /** The ambiguous length does occur, on each of the three curves' key sizes. */
  lemma AmbiguousSignaturesExist(k: nat) returns (r: nat, s: nat)
    requires k in {32, 48, 66}
    ensures Components(r, s, k) && |EncodeSignature(r, s, k)| == 2 * k
  {
    if k == 66 {
      r, s := PowersEncoded(61, 62, k);
    } else {
      r, s := PowersEncoded(k - 4, k - 4, k);
    }
  }

  /** Two powers of 256, with as many octets after the first as the exponents say. */
  lemma PowersEncoded(m: nat, n: nat, k: nat) returns (r: nat, s: nat)
    requires m < k && n < k && k <= 66
    ensures Components(r, s, k)
    ensures |EncodeSignature(r, s, k)| == m + n + 8 + (if m + n + 6 < 128 then 0 else 1)
  {
    r, s := Pow256(m), Pow256(n);
    PowersGrow(m, k);
    PowersGrow(n, k);
    PowerOctets(m);
    PowerOctets(n);
    ContentsLength(r, k);
    ContentsLength(s, k);
  }

  /** Hence two signatures that convert to the same bytes are the same signature. */
  lemma ConversionIsInjective(r1: nat, s1: nat, r2: nat, s2: nat, k: nat)
    requires Components(r1, s1, k) && Components(r2, s2, k)
    requires |EncodeSignature(r1, s1, k)| != 2 * k && |EncodeSignature(r2, s2, k)| != 2 * k
    requires Converted(EncodeSignature(r1, s1, k), k) == Converted(EncodeSignature(r2, s2, k), k)
    ensures r1 == r2 && s1 == s2
  {
    ConvertsOtherLengths(r1, s1, k);
    ConvertsOtherLengths(r2, s2, k);
  }

  // ---------------------------------------------------------------------------------------------
  // Nothing but the encoding is read
  // ---------------------------------------------------------------------------------------------

  lemma {:induction false} FromBytesBound(b: seq<byte>)
    ensures FromBytes(b) < Pow256(|b|)
    ensures b != [] && b[0] != 0 ==> FromBytes(b) >= Pow256(|b| - 1)
  {
    if b != [] {
      FromBytesBound(b[..|b| - 1]);
    }
  }

  /** Bytes without a leading zero are what their number is written as. */
  lemma {:induction false} WrittenAs(b: seq<byte>)
    requires b != [] ==> b[0] != 0
    ensures ToBytes(FromBytes(b)) == b
  {
    if b != [] {
      var n := |b| - 1;
      WrittenAs(b[..n]);
      FromBytesBound(b);
      assert FromBytes(b) / 256 == FromBytes(b[..n]) && FromBytes(b) % 256 == b[n];
      assert b == b[..n] + [b[n]];
    }
  }

  lemma PositiveContents(c: seq<byte>)
    requires c != [] && c[0] < 128 && FromBytes(c) > 0
    requires |c| > 1 && c[0] == 0 ==> c[1] >= 128
    ensures IntegerContents(FromBytes(c)) == c
  {
    if c[0] == 0 {
      assert c == Zeros(1) + c[1..];
      LeadingZeros(1, c[1..]);
      assert c[1..] != [];
      WrittenAs(c[1..]);
      assert c == [0] + c[1..];
    } else {
      WrittenAs(c);
    }
  }

  lemma LongNumberIsBig(b: seq<byte>)
    ensures |b| >= 2 && b[0] != 0 ==> FromBytes(b) >= 256
  {
    FromBytesBound(b);
    if |b| > 2 {
      PowersGrow(1, |b| - 1);
    }
  }

  lemma LengthIsShortest(input: seq<byte>)
    requires ReadLength(input).Some? && ReadLength(input).value.0 < 256
    ensures var (n, header) := ReadLength(input).value;
            2 <= header <= |input| && input[1..header] == Length(n)
  {
    if input[1] >= 128 {
      var octets := input[1] - 128;
      var l := input[2..2 + octets];
      LongNumberIsBig(l);
      assert octets == 1 && l == [input[2]];
      assert l[..0] == [];
      assert FromBytes(l) == input[2];
    }
  }

  lemma ElementIsEncoded(tag: byte, input: seq<byte>)
    requires ReadElement(tag, input).Some? && |ReadElement(tag, input).value.0| < 256
    ensures var (contents, rest) := ReadElement(tag, input).value; input == Element(tag, contents) + rest
  {
    var (contents, rest) := ReadElement(tag, input).value;
    var (n, header) := ReadLength(input).value;
    LengthIsShortest(input);
    assert input == [input[0]] + input[1..header] + contents + rest;
  }

  lemma IntegerIsEncoded(input: seq<byte>, k: nat)
    requires k <= 66 && ReadInteger(input).Some? && 0 < ReadInteger(input).value.0 < Pow256(k)
    ensures var (n, rest) := ReadInteger(input).value;
            |IntegerContents(n)| < 256 && input == Element(INTEGER, IntegerContents(n)) + rest
  {
    var (c, rest) := ReadElement(INTEGER, input).value;
    FromBytesBound(c);
    assert c[0] < 128;
    var n := ReadInteger(input).value.0;
    PositiveContents(c);
    ContentsLength(n, k);
    ElementIsEncoded(INTEGER, input);
  }

  /** The only bytes read as two numbers of the key size are their DER encoding. */
  lemma OnlyItsEncodingIsRead(sig: seq<byte>, r: nat, s: nat, k: nat)
    requires ReadSignature(sig) == Some((r, s)) && Components(r, s, k)
    ensures sig == EncodeSignature(r, s, k)
  {
    var inner := ReadElement(SEQUENCE, sig).value.0;
    IntegerIsEncoded(inner, k);
    var rest := ReadInteger(inner).value.1;
    IntegerIsEncoded(rest, k);
    ContentsLength(r, k);
    ContentsLength(s, k);
    assert inner == SignatureContents(r, s, k);
    ElementIsEncoded(SEQUENCE, sig);
    assert sig == Element(SEQUENCE, inner) + [];
  }

  /** Which bytes are converted at all: those of the raw length, and DER encodings of two numbers of the key size. */
  lemma ConvertedExactlyWhen(sig: seq<byte>, k: nat)
    requires k <= 66
    ensures Converted(sig, k).Ok? <==>
            |sig| >= 8 && (|sig| == 2 * k || exists r, s :: Components(r, s, k) && sig == EncodeSignature(r, s, k))
  {
    if Converted(sig, k).Ok? && |sig| != 2 * k {
      var (r, s) := ReadSignature(sig).value;
      OnlyItsEncodingIsRead(sig, r, s, k);
      assert Components(r, s, k);
    }
    if r, s :| Components(r, s, k) && sig == EncodeSignature(r, s, k) && |sig| != 2 * k {
      ConvertsOtherLengths(r, s, k);
    }
  }

  /** The key sizes of RFC 7518 section 3.4. */
  lemma KeySizesExactly()
    ensures KeySizeForAlgorithm(ES256) == Some(32) && KeySizeForAlgorithm(ES384) == Some(48)
    ensures KeySizeForAlgorithm(ES512) == Some(66)
  {
  }
}
