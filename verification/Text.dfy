/**
 Text as .NET holds it (a sequence of UTF-16 code units, surrogates possibly unpaired),
 and its UTF-8 encoding as `Encoding.UTF8` produces it: section 2 of RFC 2781 and
 section 3 of RFC 3629, with an unpaired surrogate encoded as U+FFFD.
 */
module Text {
  import opened Options

  type CodeUnit = u: int | 0 <= u < 0x1_0000
  type Str = seq<CodeUnit>
  type Byte = b: int | 0 <= b < 0x100
  type Scalar = c: int | 0 <= c < 0x11_0000 && !(0xD800 <= c < 0xE000)

  const REPLACEMENT: Scalar := 0xFFFD

  predicate IsHigh(u: CodeUnit) {
    0xD800 <= u < 0xDC00
  }

  predicate IsLow(u: CodeUnit) {
    0xDC00 <= u < 0xE000
  }

  predicate IsSurrogate(u: CodeUnit) {
    IsHigh(u) || IsLow(u)
  }

  predicate StartsWithPair(s: Str) {
    |s| >= 2 && IsHigh(s[0]) && IsLow(s[1])
  }

  function PairScalar(high: CodeUnit, low: CodeUnit): Scalar
    requires IsHigh(high) && IsLow(low)
  {
    0x1_0000 + (high - 0xD800) * 0x400 + (low - 0xDC00)
  }

  /** How many units the first scalar value of a string takes. */
  function Width(s: Str): nat
    requires s != []
  {
    if StartsWithPair(s) then 2 else 1
  }

  function FirstScalar(s: Str): Scalar
    requires s != []
  {
    if StartsWithPair(s) then PairScalar(s[0], s[1])
    else if IsSurrogate(s[0]) then REPLACEMENT
    else s[0]
  }

  /** The scalar values of a string, with U+FFFD for each unpaired surrogate. */
  function Scalars(s: Str): seq<Scalar> {
    if s == [] then [] else [FirstScalar(s)] + Scalars(s[Width(s)..])
  }

  function EncodedLength(c: Scalar): nat {
    if c < 0x80 then 1 else if c < 0x800 then 2 else if c < 0x1_0000 then 3 else 4
  }

  function EncodeScalar(c: Scalar): (bytes: seq<Byte>)
    ensures |bytes| == EncodedLength(c)
  {
    if c < 0x80 then
      [c]
    else if c < 0x800 then
      [0xC0 + c / 0x40, 0x80 + c % 0x40]
    else if c < 0x1_0000 then
      [0xE0 + c / 0x1000, 0x80 + c / 0x40 % 0x40, 0x80 + c % 0x40]
    else
      [0xF0 + c / 0x4_0000, 0x80 + c / 0x1000 % 0x40, 0x80 + c / 0x40 % 0x40, 0x80 + c % 0x40]
  }

  function EncodeScalars(cs: seq<Scalar>): seq<Byte> {
    if cs == [] then [] else EncodeScalar(cs[0]) + EncodeScalars(cs[1..])
  }

  /** `Encoding.UTF8.GetBytes`. */
  function Utf8(s: Str): seq<Byte> {
    EncodeScalars(Scalars(s))
  }

  function UnitBytes(u: CodeUnit): nat {
    if u < 0x80 then 1 else if u < 0x800 then 2 else 3
  }

  /** `Encoding.UTF8.GetByteCount`: counts without encoding. */
  function ByteCount(s: Str): nat {
    if s == [] then 0
    else if StartsWithPair(s) then 4 + ByteCount(s[2..])
    else UnitBytes(s[0]) + ByteCount(s[1..])
  }

  lemma {:induction false} ByteCountIsEncodedLength(s: Str)
    ensures ByteCount(s) == |Utf8(s)|
  {
    if s != [] {
      ByteCountIsEncodedLength(s[Width(s)..]);
      assert Scalars(s)[1..] == Scalars(s[Width(s)..]);
    }
  }

  lemma {:induction false} ByteCountBounds(s: Str)
    ensures |s| <= ByteCount(s) <= 3 * |s|
  {
    if s == [] {
    } else if StartsWithPair(s) {
      ByteCountBounds(s[2..]);
    } else {
      ByteCountBounds(s[1..]);
    }
  }

  /** The boundary between `a` and `b` cuts a surrogate pair in two. */
  predicate SplitsPair(a: Str, b: Str) {
    a != [] && b != [] && IsHigh(a[|a| - 1]) && IsLow(b[0])
  }

  /** Byte counts add up, except that a pair cut in two counts 3 + 3 instead of 4. */
  lemma {:induction false} ByteCountAppend(a: Str, b: Str)
    ensures ByteCount(a + b) == ByteCount(a) + ByteCount(b) - (if SplitsPair(a, b) then 2 else 0)
  {
    if a == [] {
      assert a + b == b;
    } else if StartsWithPair(a) {
      assert (a + b)[2..] == a[2..] + b;
      ByteCountAppend(a[2..], b);
    } else if |a| == 1 && SplitsPair(a, b) {
      assert (a + b)[2..] == b[1..];
      assert a[1..] == [];
    } else {
      assert (a + b)[1..] == a[1..] + b;
      ByteCountAppend(a[1..], b);
    }
  }

  /** Every surrogate belongs to a pair. */
  predicate WellFormed(s: Str) {
    if s == [] then true
    else if StartsWithPair(s) then WellFormed(s[2..])
    else !IsSurrogate(s[0]) && WellFormed(s[1..])
  }

  /** UTF-16 encoding of scalar values (section 2.1 of RFC 2781). */
  function Units(cs: seq<Scalar>): Str {
    if cs == [] then []
    else if cs[0] < 0x1_0000 then [cs[0]] + Units(cs[1..])
    else [0xD800 + (cs[0] - 0x1_0000) / 0x400, 0xDC00 + (cs[0] - 0x1_0000) % 0x400] + Units(cs[1..])
  }

  lemma {:induction false} Utf16RoundTrip(s: Str)
    requires WellFormed(s)
    ensures Units(Scalars(s)) == s
  {
    if s != [] {
      Utf16RoundTrip(s[Width(s)..]);
      assert Scalars(s)[1..] == Scalars(s[Width(s)..]);
    }
  }

  /** The first example of section 7 of RFC 3629. */
  lemma EncodingOfText()
    ensures Utf8([0x41, 0x2262, 0x391, 0x2E]) == [0x41, 0xE2, 0x89, 0xA2, 0xCE, 0x91, 0x2E]
  {
    PlainUnitEncodes(0x2E, []);
    PlainUnitEncodes(0x391, [0x2E]);
    assert Utf8([0x391, 0x2E]) == [0xCE, 0x91, 0x2E];
    PlainUnitEncodes(0x2262, [0x391, 0x2E]);
    assert Utf8([0x2262, 0x391, 0x2E]) == [0xE2, 0x89, 0xA2, 0xCE, 0x91, 0x2E];
    PlainUnitEncodes(0x41, [0x2262, 0x391, 0x2E]);
  }

  lemma PlainUnitEncodes(u: CodeUnit, rest: Str)
    requires !IsSurrogate(u)
    ensures Utf8([u] + rest) == EncodeScalar(u) + Utf8(rest)
  {
    assert ([u] + rest)[1..] == rest;
    assert Scalars([u] + rest)[1..] == Scalars(rest);
  }

  /** Its last example, a surrogate pair; and an unpaired surrogate. */
  lemma EncodingOfSurrogates()
    ensures Utf8([0xD84C, 0xDFB4]) == [0xF0, 0xA3, 0x8E, 0xB4]
    ensures Utf8([0xD84C]) == [0xEF, 0xBF, 0xBD]
  {
    assert Scalars([0xD84C, 0xDFB4]) == [0x233B4];
    assert Scalars([0xD84C]) == [0xFFFD];
  }

  predicate IsContinuation(b: Byte) {
    0x80 <= b < 0xC0
  }

  /** The first scalar value of a UTF-8 string; rejects overlong forms, surrogates and truncation. */
  function DecodeScalar(b: seq<Byte>): Option<Scalar>
    requires b != []
  {
    if b[0] < 0x80 then
      Some(b[0])
    else if 0xC0 <= b[0] < 0xE0 && |b| >= 2 && IsContinuation(b[1]) then
      var c: int := 0x40 * (b[0] as int - 0xC0) + (b[1] as int - 0x80);
      if c < 0x80 then None else Some(c)
    else if 0xE0 <= b[0] < 0xF0 && |b| >= 3 && IsContinuation(b[1]) && IsContinuation(b[2]) then
      var c: int := 0x1000 * (b[0] as int - 0xE0) + 0x40 * (b[1] as int - 0x80) + (b[2] as int - 0x80);
      if c < 0x800 || 0xD800 <= c < 0xE000 then None else Some(c)
    else if 0xF0 <= b[0] < 0xF8 && |b| >= 4
            && IsContinuation(b[1]) && IsContinuation(b[2]) && IsContinuation(b[3]) then
      var c: int := 0x4_0000 * (b[0] as int - 0xF0) + 0x1000 * (b[1] as int - 0x80)
                    + 0x40 * (b[2] as int - 0x80) + (b[3] as int - 0x80);
      if c < 0x1_0000 || 0x11_0000 <= c then None else Some(c)
    else
      None
  }

  function DecodeUtf8(b: seq<Byte>): Option<seq<Scalar>> {
    if b == [] then Some([])
    else
      var first := DecodeScalar(b);
      if first.None? || |b| < EncodedLength(first.value) then None
      else
        var rest := DecodeUtf8(b[EncodedLength(first.value)..]);
        if rest.None? then None else Some([first.value] + rest.value)
  }

  /** A number is the value of its base-64 digits. */
  lemma SixBitDigits(c: nat)
    ensures c == 0x40 * (c / 0x40) + c % 0x40
    ensures c == 0x1000 * (c / 0x1000) + 0x40 * (c / 0x40 % 0x40) + c % 0x40
    ensures c == 0x4_0000 * (c / 0x4_0000) + 0x1000 * (c / 0x1000 % 0x40) + 0x40 * (c / 0x40 % 0x40) + c % 0x40
  {
    assert c / 0x40 / 0x40 == c / 0x1000;
    assert c / 0x1000 / 0x40 == c / 0x4_0000;
  }

  /** The base-64 digits of a number written with such digits. */
  lemma SixBitValue(high: nat, mid: nat, low: nat)
    requires mid < 0x40 && low < 0x40
    ensures var c := 0x1000 * high + 0x40 * mid + low;
            c / 0x1000 == high && c / 0x40 % 0x40 == mid && c % 0x40 == low
  {
    var c := 0x1000 * high + 0x40 * mid + low;
    assert c / 0x40 == 0x40 * high + mid;
  }

  lemma DecodeScalarOfEncoded(c: Scalar, rest: seq<Byte>)
    ensures DecodeScalar(EncodeScalar(c) + rest) == Some(c)
  {
    SixBitDigits(c);
  }

  lemma DecodedScalarReencodes(b: seq<Byte>)
    requires b != [] && DecodeScalar(b).Some?
    ensures EncodeScalar(DecodeScalar(b).value) <= b
  {
    if b[0] >= 0xF0 {
      FourBytesReencode(b);
    } else if b[0] >= 0xE0 {
      SixBitValue(b[0] - 0xE0, b[1] - 0x80, b[2] - 0x80);
    }
  }

  lemma FourBytesReencode(b: seq<Byte>)
    requires b != [] && b[0] >= 0xF0 && DecodeScalar(b).Some?
    ensures EncodeScalar(DecodeScalar(b).value) <= b
  {
    var c := DecodeScalar(b).value;
    var high := 0x40 * (b[0] - 0xF0) + (b[1] as int - 0x80);
    SixBitValue(high, b[2] - 0x80, b[3] - 0x80);
    SixBitValue(0, b[0] - 0xF0, b[1] - 0x80);
    assert c / 0x1000 == high;
    assert c / 0x4_0000 == high / 0x40;
  }

  lemma {:induction false} Utf8RoundTrip(cs: seq<Scalar>)
    ensures DecodeUtf8(EncodeScalars(cs)) == Some(cs)
  {
    if cs != [] {
      var e, rest := EncodeScalar(cs[0]), EncodeScalars(cs[1..]);
      DecodeScalarOfEncoded(cs[0], rest);
      assert (e + rest)[|e|..] == rest;
      Utf8RoundTrip(cs[1..]);
      assert cs == [cs[0]] + cs[1..];
    }
  }

  lemma DecodeFirst(b: seq<Byte>) returns (first: Scalar, rest: seq<Byte>)
    requires b != [] && DecodeUtf8(b).Some?
    ensures b == EncodeScalar(first) + rest && DecodeUtf8(rest).Some?
    ensures DecodeUtf8(b).value == [first] + DecodeUtf8(rest).value
  {
    DecodedScalarReencodes(b);
    first := DecodeScalar(b).value;
    rest := b[EncodedLength(first)..];
  }

  /** The decoder accepts nothing but encodings, so UTF-8 strings and scalar strings correspond one to one. */
  lemma {:induction false} DecodedUtf8Reencodes(b: seq<Byte>)
    requires DecodeUtf8(b).Some?
    ensures EncodeScalars(DecodeUtf8(b).value) == b
  {
    if b != [] {
      var first, rest := DecodeFirst(b);
      DecodedUtf8Reencodes(rest);
      assert DecodeUtf8(b).value[1..] == DecodeUtf8(rest).value;
    }
  }

  lemma Utf8Injective(a: Str, b: Str)
    requires WellFormed(a) && WellFormed(b)
    requires Utf8(a) == Utf8(b)
    ensures a == b
  {
    Utf8RoundTrip(Scalars(a));
    Utf8RoundTrip(Scalars(b));
    Utf16RoundTrip(a);
    Utf16RoundTrip(b);
  }

  lemma {:induction false} NulInScalars(s: Str)
    ensures 0 in Scalars(s) <==> 0 in s
  {
    if s == [] {
    } else if StartsWithPair(s) {
      NulInScalars(s[2..]);
      assert s == [s[0], s[1]] + s[2..];
    } else {
      NulInScalars(s[1..]);
      assert s == [s[0]] + s[1..];
    }
  }

  lemma {:induction false} NulInEncoding(cs: seq<Scalar>)
    ensures 0 in EncodeScalars(cs) <==> 0 in cs
  {
    if cs != [] {
      NulInEncoding(cs[1..]);
      assert cs == [cs[0]] + cs[1..];
    }
  }

  lemma NulInUtf8(s: Str)
    ensures 0 in Utf8(s) <==> 0 in s
  {
    NulInScalars(s);
    NulInEncoding(Scalars(s));
  }

  // ----- Appending and cutting -----

  /** Encoding is a homomorphism wherever no pair is cut. */
  lemma Utf8Append(a: Str, b: Str)
    requires !SplitsPair(a, b)
    ensures Utf8(a + b) == Utf8(a) + Utf8(b)
  {
    ScalarsAppend(a, b);
    EncodeScalarsAppend(Scalars(a), Scalars(b));
  }

  lemma {:induction false} ScalarsAppend(a: Str, b: Str)
    requires !SplitsPair(a, b)
    ensures Scalars(a + b) == Scalars(a) + Scalars(b)
  {
    if a == [] {
      assert a + b == b;
    } else {
      FirstOfAppended(a, b);
      ScalarsAppend(a[Width(a)..], b);
      assert [FirstScalar(a)] + (Scalars(a[Width(a)..]) + Scalars(b)) == Scalars(a) + Scalars(b);
    }
  }

  lemma FirstOfAppended(a: Str, b: Str)
    requires a != [] && !SplitsPair(a, b)
    ensures FirstScalar(a + b) == FirstScalar(a) && Width(a + b) == Width(a)
    ensures (a + b)[Width(a)..] == a[Width(a)..] + b && !SplitsPair(a[Width(a)..], b)
  {
  }

  lemma {:induction false} EncodeScalarsAppend(cs: seq<Scalar>, ds: seq<Scalar>)
    ensures EncodeScalars(cs + ds) == EncodeScalars(cs) + EncodeScalars(ds)
  {
    if cs == [] {
      assert cs + ds == ds;
    } else {
      assert (cs + ds)[1..] == cs[1..] + ds;
      EncodeScalarsAppend(cs[1..], ds);
    }
  }

  /** Well-formed strings can be put together: no pair arises or is cut where they meet. */
  lemma {:induction false} WellFormedAppend(a: Str, b: Str)
    requires WellFormed(a) && WellFormed(b)
    ensures WellFormed(a + b) && !SplitsPair(a, b)
  {
    if a == [] {
      assert a + b == b;
    } else if StartsWithPair(a) {
      WellFormedAppend(a[2..], b);
      assert (a + b)[2..] == a[2..] + b;
    } else {
      WellFormedAppend(a[1..], b);
      assert (a + b)[1..] == a[1..] + b;
    }
  }

  lemma {:induction false} UnitsRoundTrip(cs: seq<Scalar>)
    ensures WellFormed(Units(cs)) && Scalars(Units(cs)) == cs
  {
    if cs != [] {
      UnitsRoundTrip(cs[1..]);
      assert Units(cs)[Width(Units(cs))..] == Units(cs[1..]);
      assert cs == [cs[0]] + cs[1..];
    }
  }

  lemma {:induction false} DecodeAppended(cs: seq<Scalar>, rest: seq<Byte>)
    ensures DecodeUtf8(EncodeScalars(cs) + rest).Some? <==> DecodeUtf8(rest).Some?
  {
    if cs == [] {
      assert EncodeScalars(cs) + rest == rest;
    } else {
      var e, more := EncodeScalar(cs[0]), EncodeScalars(cs[1..]) + rest;
      assert EncodeScalars(cs) + rest == e + more;
      DecodeScalarOfEncoded(cs[0], more);
      assert (e + more)[|e|..] == more;
      DecodeAppended(cs[1..], rest);
    }
  }

  /** Cutting an encoding before a byte that is no continuation byte leaves an encoding. */
  lemma {:induction false} CutAtBoundary(cs: seq<Scalar>, n: nat) returns (k: nat)
    requires n < |EncodeScalars(cs)| && !IsContinuation(EncodeScalars(cs)[n])
    ensures k <= |cs| && EncodeScalars(cs[..k]) == EncodeScalars(cs)[..n]
  {
    if n == 0 {
      k := 0;
    } else {
      var e := EncodeScalar(cs[0]);
      assert forall i :: 1 <= i < |e| ==> IsContinuation(e[i]);
      k := CutAtBoundary(cs[1..], n - |e|);
      assert cs[..k + 1][1..] == cs[1..][..k];
      k := k + 1;
    }
  }

  /** And only there. */
  lemma CutsAreBoundaries(cs: seq<Scalar>, ds: seq<Scalar>, n: nat)
    requires n < |EncodeScalars(cs)| && EncodeScalars(cs)[..n] == EncodeScalars(ds)
    ensures !IsContinuation(EncodeScalars(cs)[n])
  {
    var rest := EncodeScalars(cs)[n..];
    assert EncodeScalars(cs) == EncodeScalars(ds) + rest;
    Utf8RoundTrip(cs);
    DecodeAppended(ds, rest);
  }
}
