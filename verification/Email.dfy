/** The email key: registration and login both trim the submitted address and lower-case it. */
module Email {
  import opened Text
  import opened Options
  import opened Platform
  import opened PasswordPolicy

  function TrimStart(env: Runtime, s: Str): Str {
    if s != [] && env.isWhiteSpace(s[0]) then TrimStart(env, s[1..]) else s
  }

  function TrimEnd(env: Runtime, s: Str): Str {
    if s != [] && env.isWhiteSpace(s[|s| - 1]) then TrimEnd(env, s[..|s| - 1]) else s
  }

  function Trim(env: Runtime, s: Str): Str {
    TrimEnd(env, TrimStart(env, s))
  }

  function ToLower(env: Runtime, s: Str): (r: Str)
    ensures |r| == |s|
  {
    seq<CodeUnit>(|s|, i requires 0 <= i < |s| => env.toLower(s[i]))
  }

  function NormalizeEmail(env: Runtime, email: Str): Str {
    ToLower(env, Trim(env, email))
  }

  predicate AllSpace(env: Runtime, s: Str) {
    forall i :: 0 <= i < |s| ==> env.isWhiteSpace(s[i])
  }

  // ----- Trimming and lower-casing commute -----

  lemma {:induction false} TrimStartOfLower(env: Runtime, s: Str)
    requires LawfulText(env)
    ensures TrimStart(env, ToLower(env, s)) == ToLower(env, TrimStart(env, s))
  {
    if s != [] && env.isWhiteSpace(s[0]) {
      assert ToLower(env, s)[1..] == ToLower(env, s[1..]);
      TrimStartOfLower(env, s[1..]);
    }
  }

  lemma {:induction false} TrimEndOfLower(env: Runtime, s: Str)
    requires LawfulText(env)
    ensures TrimEnd(env, ToLower(env, s)) == ToLower(env, TrimEnd(env, s))
  {
    if s != [] && env.isWhiteSpace(s[|s| - 1]) {
      assert ToLower(env, s)[..|s| - 1] == ToLower(env, s[..|s| - 1]);
      TrimEndOfLower(env, s[..|s| - 1]);
    }
  }

  lemma TrimAndLowerCommute(env: Runtime, s: Str)
    requires LawfulText(env)
    ensures Trim(env, ToLower(env, s)) == ToLower(env, Trim(env, s))
  {
    TrimStartOfLower(env, s);
    TrimEndOfLower(env, TrimStart(env, s));
  }

  // ----- What trimming removes -----

  lemma {:induction false} TrimStartSplits(env: Runtime, s: Str) returns (lead: Str)
    ensures AllSpace(env, lead) && s == lead + TrimStart(env, s)
  {
    if s != [] && env.isWhiteSpace(s[0]) {
      var rest := TrimStartSplits(env, s[1..]);
      lead := [s[0]] + rest;
    } else {
      lead := [];
    }
  }

  lemma {:induction false} TrimEndSplits(env: Runtime, s: Str) returns (trail: Str)
    ensures AllSpace(env, trail) && s == TrimEnd(env, s) + trail
  {
    if s != [] && env.isWhiteSpace(s[|s| - 1]) {
      var rest := TrimEndSplits(env, s[..|s| - 1]);
      trail := rest + [s[|s| - 1]];
    } else {
      trail := [];
    }
  }

  lemma {:induction false} TrimStartOfPadded(env: Runtime, lead: Str, s: Str)
    requires AllSpace(env, lead)
    ensures TrimStart(env, lead + s) == TrimStart(env, s)
  {
    if lead == [] {
      assert lead + s == s;
    } else {
      assert (lead + s)[1..] == lead[1..] + s;
      TrimStartOfPadded(env, lead[1..], s);
    }
  }

  lemma {:induction false} TrimEndOfPadded(env: Runtime, s: Str, trail: Str)
    requires AllSpace(env, trail)
    ensures TrimEnd(env, s + trail) == TrimEnd(env, s)
  {
    if trail == [] {
      assert s + trail == s;
    } else {
      var n := |trail| - 1;
      assert (s + trail)[..|s + trail| - 1] == s + trail[..n];
      TrimEndOfPadded(env, s, trail[..n]);
    }
  }

  lemma {:induction false} TrimStartBefore(env: Runtime, s: Str, trail: Str)
    requires AllSpace(env, trail)
    ensures TrimEnd(env, TrimStart(env, s + trail)) == TrimEnd(env, TrimStart(env, s))
  {
    if s == [] {
      assert s + trail == trail == trail + [];
      TrimStartOfPadded(env, trail, []);
    } else if env.isWhiteSpace(s[0]) {
      assert (s + trail)[1..] == s[1..] + trail;
      TrimStartBefore(env, s[1..], trail);
    } else {
      TrimEndOfPadded(env, s, trail);
    }
  }

  lemma TrimOfPadded(env: Runtime, lead: Str, s: Str, trail: Str)
    requires AllSpace(env, lead) && AllSpace(env, trail)
    ensures Trim(env, lead + s + trail) == Trim(env, s)
  {
    assert lead + s + trail == lead + (s + trail);
    TrimStartOfPadded(env, lead, s + trail);
    TrimStartBefore(env, s, trail);
  }

  // ----- The key -----

  lemma NormalizeIsIdempotent(env: Runtime, email: Str)
    requires LawfulText(env)
    ensures NormalizeEmail(env, NormalizeEmail(env, email)) == NormalizeEmail(env, email)
  {
    var trimmed := Trim(env, email);
    var lead := TrimStartSplits(env, email);
    var trail := TrimEndSplits(env, TrimStart(env, email));
    assert email == lead + trimmed + trail;
    TrimOfPadded(env, lead, trimmed, trail);
    TrimAndLowerCommute(env, trimmed);
    assert ToLower(env, ToLower(env, trimmed)) == ToLower(env, trimmed);
  }

  /** The key is never longer than the address, so an address within 254 characters is stored within 254. */
  lemma NormalizeNeverLengthens(env: Runtime, email: Str)
    ensures |NormalizeEmail(env, email)| <= |email|
  {
    var lead := TrimStartSplits(env, email);
    var trail := TrimEndSplits(env, TrimStart(env, email));
  }

  /** A value passes NotBlank exactly if its key is not empty, so no validated address is stored as the empty key. */
  lemma NotBlankIff(env: Runtime, value: Option<Str>)
    ensures NotBlank(env, value) <==> value.Some? && NormalizeEmail(env, value.value) != []
  {
    if value.Some? {
      var s := value.value;
      var lead := TrimStartSplits(env, s);
      var trail := TrimEndSplits(env, TrimStart(env, s));
      assert s == lead + Trim(env, s) + trail;
      if Trim(env, s) != [] {
        TrimEndsInk(env, TrimStart(env, s));
        assert Trim(env, s)[|Trim(env, s)| - 1] == s[|lead| + |Trim(env, s)| - 1];
      }
    }
  }

  lemma {:induction false} TrimEndsInk(env: Runtime, s: Str)
    ensures var t := TrimEnd(env, s); t != [] ==> !env.isWhiteSpace(t[|t| - 1])
  {
    if s != [] && env.isWhiteSpace(s[|s| - 1]) {
      TrimEndsInk(env, s[..|s| - 1]);
    }
  }

  predicate SameUpToCase(env: Runtime, c: Str, d: Str) {
    |c| == |d| && forall i :: 0 <= i < |c| ==> env.toLower(c[i]) == env.toLower(d[i])
  }

  ghost predicate PaddingOf(env: Runtime, core: Str, s: Str) {
    exists lead: Str, trail: Str {:trigger lead + core + trail} ::
      AllSpace(env, lead) && AllSpace(env, trail) && s == lead + core + trail
  }

  /** `a` and `b` are paddings with white space of two strings that differ in case only. */
  ghost predicate SameAddress(env: Runtime, a: Str, b: Str) {
    exists c: Str, d: Str :: PaddingOf(env, c, a) && PaddingOf(env, d, b) && SameUpToCase(env, c, d)
  }

  lemma TrimIsCore(env: Runtime, s: Str)
    ensures PaddingOf(env, Trim(env, s), s)
  {
    var lead := TrimStartSplits(env, s);
    var trail := TrimEndSplits(env, TrimStart(env, s));
    assert s == lead + Trim(env, s) + trail;
  }

  /** Two addresses share a key exactly when they agree up to case and outer white space. */
  lemma SameKeyIff(env: Runtime, a: Str, b: Str)
    requires LawfulText(env)
    ensures NormalizeEmail(env, a) == NormalizeEmail(env, b) <==> SameAddress(env, a, b)
  {
    if NormalizeEmail(env, a) == NormalizeEmail(env, b) {
      var c, d := Trim(env, a), Trim(env, b);
      TrimIsCore(env, a);
      TrimIsCore(env, b);
      assert ToLower(env, c) == ToLower(env, d);
      forall i | 0 <= i < |c|
        ensures env.toLower(c[i]) == env.toLower(d[i])
      {
        assert ToLower(env, c)[i] == ToLower(env, d)[i];
      }
    }
    if SameAddress(env, a, b) {
      var c, d :| PaddingOf(env, c, a) && PaddingOf(env, d, b) && SameUpToCase(env, c, d);
      NormalizeOfPadded(env, c, a);
      NormalizeOfPadded(env, d, b);
      assert ToLower(env, c) == ToLower(env, d);
      TrimAndLowerCommute(env, c);
      TrimAndLowerCommute(env, d);
    }
  }

  lemma NormalizeOfPadded(env: Runtime, core: Str, s: Str)
    requires PaddingOf(env, core, s)
    ensures NormalizeEmail(env, s) == NormalizeEmail(env, core)
  {
    var lead, trail :| AllSpace(env, lead) && AllSpace(env, trail) && s == lead + core + trail;
    TrimOfPadded(env, lead, core, trail);
  }
}
