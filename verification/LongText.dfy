/** Printing and parsing of 64-bit ids, as the token's subject claim carries them. */
module LongText {
  import opened Options

  const MIN_LONG: int := -0x8000_0000_0000_0000
  const MAX_LONG: int := 0x7FFF_FFFF_FFFF_FFFF

  const DIGITS: string := "0123456789"

  function PrintNat(n: nat): (s: string)
    ensures s != []
  {
    if n < 10 then [DIGITS[n]] else PrintNat(n / 10) + [DIGITS[n % 10]]
  }

  /** `long.ToString()`. */
  function ToText(n: int): string {
    if n < 0 then "-" + PrintNat(-n) else PrintNat(n)
  }

  predicate IsDigitChar(c: char) {
    '0' <= c <= '9'
  }

  function ParseNat(s: string): Option<nat> {
    if s == [] then Some(0)
    else
      var high := ParseNat(s[..|s| - 1]);
      var last := s[|s| - 1];
      if high.None? || !IsDigitChar(last) then None
      else Some(10 * high.value + (last as int - '0' as int))
  }

  /** `long.Parse`: optional sign, at least one digit, and the value must fit; `None` is the exception. */
  function ParseLong(s: string): Option<int> {
    var negative := s != [] && s[0] == '-';
    var digits := if s != [] && s[0] in {'-', '+'} then s[1..] else s;
    var magnitude := ParseNat(digits);
    if digits == [] || magnitude.None? then None
    else
      var m: int := magnitude.value;
      var value := if negative then -m else m;
      if MIN_LONG <= value <= MAX_LONG then Some(value) else None
  }

  lemma {:induction false} ParseOfPrintedNat(n: nat)
    ensures ParseNat(PrintNat(n)) == Some(n) && IsDigitChar(PrintNat(n)[0])
  {
    if n >= 10 {
      ParseOfPrintedNat(n / 10);
      var s := PrintNat(n);
      assert s[..|s| - 1] == PrintNat(n / 10);
    } else {
      assert [DIGITS[n]][..0] == [];
    }
  }

  lemma ParseSigned(digits: string, m: int)
    requires m >= 0 && digits != [] && IsDigitChar(digits[0]) && ParseNat(digits) == Some(m)
    ensures ParseLong(digits) == if m <= MAX_LONG then Some(m) else None
    ensures ParseLong("-" + digits) == if MIN_LONG <= -m then Some(-m) else None
  {
    assert ("-" + digits)[1..] == digits;
  }

  /** A printed id parses back to itself exactly when it is a 64-bit number. */
  lemma IdRoundTrip(n: int)
    ensures ParseLong(ToText(n)) ==
              if -9_223_372_036_854_775_808 <= n <= 9_223_372_036_854_775_807 then Some(n) else None
  {
    var magnitude: nat := if n < 0 then -n else n;
    ParseOfPrintedNat(magnitude);
    ParseSigned(PrintNat(magnitude), magnitude);
  }
}
