/** The password policy, the loop that decides it, and the two request gates in front of it. */
module PasswordPolicy {
  import opened Options
  import opened Text
  import opened Platform

  const MIN_BYTES := 12
  const MAX_BYTES := 72

  predicate IsUpper(category: CategoryTable, u: CodeUnit) {
    category(u) == Lu
  }

  predicate IsLower(category: CategoryTable, u: CodeUnit) {
    category(u) == Ll
  }

  predicate IsDigit(category: CategoryTable, u: CodeUnit) {
    category(u) == Nd
  }

  predicate IsLetterOrDigit(category: CategoryTable, u: CodeUnit) {
    category(u) in {Lu, Ll, Lt, Lm, Lo, Nd}
  }

  /** The four classes the policy asks for. */
  datatype Class = Upper | Lower | Digit | Special

  predicate InClass(category: CategoryTable, u: CodeUnit, k: Class) {
    match k
    case Upper => IsUpper(category, u)
    case Lower => IsLower(category, u)
    case Digit => IsDigit(category, u)
    case Special => !IsLetterOrDigit(category, u)
  }

  predicate Has(category: CategoryTable, s: Str, k: Class) {
    exists i :: 0 <= i < |s| && InClass(category, s[i], k)
  }

  predicate HasAllClasses(category: CategoryTable, s: Str) {
    Has(category, s, Upper) && Has(category, s, Lower) && Has(category, s, Digit) && Has(category, s, Special)
  }

  /** The policy with the upper byte bound left open. */
  predicate CompliantUpTo(category: CategoryTable, s: Str, maxBytes: nat) {
    MIN_BYTES <= |Utf8(s)| <= maxBytes && HasAllClasses(category, s)
  }

  /** The policy: 12 to 72 bytes of UTF-8 and a character of each of the four classes. */
  predicate Compliant(category: CategoryTable, s: Str) {
    CompliantUpTo(category, s, MAX_BYTES)
  }

  predicate Accepts(category: CategoryTable, password: Option<Str>) {
    password.Some? && Compliant(category, password.value)
  }

  method IsCompliant(category: CategoryTable, password: Option<Str>) returns (compliant: bool)
    ensures compliant <==>
              && password.Some?
              && 12 <= |Utf8(password.value)| <= 72
              && (exists i :: 0 <= i < |password.value| && category(password.value[i]) == Lu)
              && (exists i :: 0 <= i < |password.value| && category(password.value[i]) == Ll)
              && (exists i :: 0 <= i < |password.value| && category(password.value[i]) == Nd)
              && (exists i :: 0 <= i < |password.value| && category(password.value[i]) !in {Lu, Ll, Lt, Lm, Lo, Nd})
    ensures compliant <==> Accepts(category, password)
  {
    if password.Some? {
      CompliantMeans(category, password.value);
    }
    if password.None? || password.value == [] {
      return false;
    }
    var s := password.value;
    ByteCountIsEncodedLength(s);
    var bytes := ByteCount(s);
    if bytes < MIN_BYTES || bytes > MAX_BYTES {
      return false;
    }

    var upper, lower, digit, special := false, false, false, false;
    for i := 0 to |s|
      invariant upper <==> Has(category, s[..i], Upper)
      invariant lower <==> Has(category, s[..i], Lower)
      invariant digit <==> Has(category, s[..i], Digit)
      invariant special <==> Has(category, s[..i], Special)
    {
      var c := s[i];
      HasInLongerPrefix(category, s, i);
      if IsUpper(category, c) {
        upper := true;
      } else if IsLower(category, c) {
        lower := true;
      } else if IsDigit(category, c) {
        digit := true;
      } else if !IsLetterOrDigit(category, c) {
        special := true;
      }
    }
    assert s[..|s|] == s;
    return upper && lower && digit && special;
  }

  /** The policy in numbers and general categories. */
  lemma CompliantMeans(category: CategoryTable, s: Str)
    ensures Compliant(category, s) <==>
              && 12 <= |Utf8(s)| <= 72
              && (exists i :: 0 <= i < |s| && category(s[i]) == Lu)
              && (exists i :: 0 <= i < |s| && category(s[i]) == Ll)
              && (exists i :: 0 <= i < |s| && category(s[i]) == Nd)
              && (exists i :: 0 <= i < |s| && category(s[i]) !in {Lu, Ll, Lt, Lm, Lo, Nd})
  {
    assert Has(category, s, Upper) <==> exists i :: 0 <= i < |s| && category(s[i]) == Lu;
    assert Has(category, s, Lower) <==> exists i :: 0 <= i < |s| && category(s[i]) == Ll;
    assert Has(category, s, Digit) <==> exists i :: 0 <= i < |s| && category(s[i]) == Nd;
    assert Has(category, s, Special) <==>
           exists i :: 0 <= i < |s| && category(s[i]) !in {Lu, Ll, Lt, Lm, Lo, Nd};
  }

  lemma HasAppend(category: CategoryTable, a: Str, b: Str)
    ensures forall k :: Has(category, a + b, k) <==> Has(category, a, k) || Has(category, b, k)
  {
    forall k
      ensures Has(category, a + b, k) <==> Has(category, a, k) || Has(category, b, k)
    {
      if Has(category, a + b, k) {
        var i :| 0 <= i < |a + b| && InClass(category, (a + b)[i], k);
        if i < |a| {
          assert InClass(category, a[i], k);
        } else {
          assert InClass(category, b[i - |a|], k);
        }
      }
      if Has(category, a, k) {
        var i :| 0 <= i < |a| && InClass(category, a[i], k);
        assert InClass(category, (a + b)[i], k);
      }
      if Has(category, b, k) {
        var i :| 0 <= i < |b| && InClass(category, b[i], k);
        assert InClass(category, (a + b)[|a| + i], k);
      }
    }
  }

  lemma HasInLongerPrefix(category: CategoryTable, s: Str, i: nat)
    requires i < |s|
    ensures forall k :: Has(category, s[..i + 1], k) <==> Has(category, s[..i], k) || InClass(category, s[i], k)
  {
    assert s[..i + 1] == s[..i] + [s[i]];
    HasAppend(category, s[..i], [s[i]]);
    assert forall k :: Has(category, [s[i]], k) <==> InClass(category, [s[i]][0], k);
  }

  // ----- Length -----

  /** Counted in UTF-16 units, a compliant password has 4 to 72 of them. */
  lemma CompliantLength(category: CategoryTable, s: Str)
    requires Compliant(category, s)
    ensures 4 <= |s| <= 72
  {
    ByteCountIsEncodedLength(s);
    ByteCountBounds(s);
  }

  /** The string of `n` copies of `u`. */
  function Repeat(u: CodeUnit, n: nat): (s: Str)
    ensures |s| == n && forall i :: 0 <= i < n ==> s[i] == u
  {
    seq(n, _ => u)
  }

  predicate IsAscii(s: Str) {
    forall i :: 0 <= i < |s| ==> s[i] < 0x80
  }

  lemma {:induction false} AsciiByteCount(s: Str)
    requires IsAscii(s)
    ensures ByteCount(s) == |s|
  {
    if s != [] {
      AsciiByteCount(s[1..]);
    }
  }

  /** Of ASCII strings with the four classes exactly those of 12 to 72 characters are compliant. */
  lemma AsciiVerdict(category: CategoryTable, s: Str)
    requires IsAscii(s) && HasAllClasses(category, s)
    ensures Compliant(category, s) <==> 12 <= |s| <= 72
  {
    AsciiByteCount(s);
    ByteCountIsEncodedLength(s);
  }

  const ASCII_CLASSES: Str := [0x41, 0x61, 0x31, 0x21]
  const FULLWIDTH_CLASSES: Str := [0xFF21, 0xFF41, 0xFF11, 0x20AC]

  ghost predicate Classifies(category: CategoryTable, s: Str) {
    |s| == 4 && category(s[0]) == Lu && category(s[1]) == Ll && category(s[2]) == Nd && category(s[3]) == Other
  }

  lemma ClassifiedHasAllClasses(category: CategoryTable, s: Str, more: Str)
    requires Classifies(category, s)
    ensures HasAllClasses(category, s + more)
  {
    assert InClass(category, s[0], Upper) && InClass(category, s[1], Lower);
    assert InClass(category, s[2], Digit) && InClass(category, s[3], Special);
    HasAppend(category, s, more);
  }

  /** Both ends of the 4..72 range occur, given the Unicode categories of eight characters. */
  lemma CompliantLengthIsTight(category: CategoryTable)
    requires Classifies(category, ASCII_CLASSES) && Classifies(category, FULLWIDTH_CLASSES)
    ensures Compliant(category, FULLWIDTH_CLASSES) && |FULLWIDTH_CLASSES| == 4
    ensures var longest := ASCII_CLASSES + Repeat(0x62, 68);
            Compliant(category, longest) && |longest| == 72
  {
    ShortestIsCompliant(category);
    LongestIsCompliant(category);
  }

  /** Both byte bounds are tight: 12 and 72 bytes are accepted, 11 and 73 are refused. */
  lemma ByteBoundsAreTight(category: CategoryTable, n: nat)
    requires Classifies(category, ASCII_CLASSES)
    ensures var s := ASCII_CLASSES + Repeat(0x62, n);
            |Utf8(s)| == 4 + n && (Compliant(category, s) <==> 8 <= n <= 68)
  {
    var s := ASCII_CLASSES + Repeat(0x62, n);
    ClassifiedHasAllClasses(category, ASCII_CLASSES, Repeat(0x62, n));
    AsciiByteCount(s);
    ByteCountIsEncodedLength(s);
    AsciiVerdict(category, s);
  }

  lemma ShortestIsCompliant(category: CategoryTable)
    requires Classifies(category, FULLWIDTH_CLASSES)
    ensures Compliant(category, FULLWIDTH_CLASSES)
  {
    ClassifiedHasAllClasses(category, FULLWIDTH_CLASSES, []);
    assert FULLWIDTH_CLASSES + [] == FULLWIDTH_CLASSES;
    ByteCountIsEncodedLength(FULLWIDTH_CLASSES);
    FullwidthByteCount();
  }

  lemma LongestIsCompliant(category: CategoryTable)
    requires Classifies(category, ASCII_CLASSES)
    ensures Compliant(category, ASCII_CLASSES + Repeat(0x62, 68))
  {
    ClassifiedHasAllClasses(category, ASCII_CLASSES, Repeat(0x62, 68));
    ByteCountIsEncodedLength(ASCII_CLASSES + Repeat(0x62, 68));
    AsciiByteCount(ASCII_CLASSES + Repeat(0x62, 68));
  }

  lemma FullwidthByteCount()
    ensures ByteCount(FULLWIDTH_CLASSES) == 12
  {
    var s := FULLWIDTH_CLASSES;
    assert s[1..] == [0xFF41, 0xFF11, 0x20AC];
    assert s[1..][1..] == [0xFF11, 0x20AC];
    assert s[1..][1..][1..] == [0x20AC];
    assert ByteCount([0x20AC]) == 3;
    assert ByteCount([0xFF11, 0x20AC]) == 6;
    assert ByteCount([0xFF41, 0xFF11, 0x20AC]) == 9;
  }

  // ----- Appended text -----

  /** Appending text keeps a compliant password compliant exactly as long as the result fits 72 bytes. */
  lemma AppendedTextKeepsCompliance(category: CategoryTable, s: Str, more: Str)
    requires Compliant(category, s)
    ensures Compliant(category, s + more) <==> |Utf8(s + more)| <= MAX_BYTES
  {
    ByteCountAppend(s, more);
    ByteCountBounds(more);
    ByteCountIsEncodedLength(s);
    ByteCountIsEncodedLength(s + more);
    HasAppend(category, s, more);
    if SplitsPair(s, more) {
      assert ByteCount(more) >= 3;
    }
  }

  // ----- The request gates -----

  predicate NotBlank(env: Runtime, value: Option<Str>) {
    value.Some? && exists i :: 0 <= i < |value.value| && !env.isWhiteSpace(value.value[i])
  }

  predicate ValidPassword(category: CategoryTable, value: Option<Str>) {
    if value.None? || value.value == [] then true else Compliant(category, value.value)
  }

  /** Together the two attributes on the request accept exactly what the service accepts. */
  lemma GatesAgree(env: Runtime, value: Option<Str>)
    requires LawfulText(env)
    ensures NotBlank(env, value) && ValidPassword(env.category, value) <==> Accepts(env.category, value)
    ensures ValidPassword(env.category, value) <==> value in {None, Some([])} || Accepts(env.category, value)
  {
    if Accepts(env.category, value) {
      var i :| 0 <= i < |value.value| && InClass(env.category, value.value[i], Upper);
      assert !env.isWhiteSpace(value.value[i]);
    }
  }
}
