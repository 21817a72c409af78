/** BCrypt as the portal uses it: the key schedule reads 72 bytes, the rest is an abstract digest. */
module Bcrypt {
  import opened Text
  import opened Platform
  import opened PasswordPolicy

  const KEY_BYTES := 72

  /** Byte `i` of the infinite repetition of `word`. */
  function Cycle(word: seq<Byte>, i: nat): Byte
    requires word != []
    decreases i
  {
    if i < |word| then word[i] else Cycle(word, i - |word|)
  }

  /** The key: the first 72 bytes of the NUL-terminated password repeated without end. */
  function EffectiveKey(bytes: seq<Byte>): seq<Byte> {
    seq(KEY_BYTES, i requires 0 <= i < KEY_BYTES => Cycle(bytes + [0], i))
  }

  datatype PasswordHash = PasswordHash(salt: Salt, digest: Digest)

  function HashPassword(env: Runtime, password: Str, salt: Salt): PasswordHash {
    PasswordHash(salt, env.blowfish(salt, EffectiveKey(Utf8(password))))
  }

  predicate Verify(env: Runtime, password: Str, hash: PasswordHash) {
    env.blowfish(hash.salt, EffectiveKey(Utf8(password))) == hash.digest
  }

  predicate NulFree(s: Str) {
    0 !in s
  }

  // ----- When two keys agree -----

  /** The string is `word` written `k` times. */
  function Repetition<T>(word: seq<T>, k: nat): seq<T> {
    if k == 0 then [] else word + Repetition(word, k - 1)
  }

  predicate Repeats<T(==)>(word: seq<T>, s: seq<T>) {
    exists k :: 1 <= k <= |s| && s == Repetition(word, k)
  }

  predicate HasPeriod<T(==)>(s: seq<T>, n: nat) {
    forall i :: n <= i < |s| ==> s[i] == s[i - n]
  }

  /** What the key `key` accepts: strings that begin with it, or whose NUL-terminated form is a period of it. */
  predicate Fits(key: seq<Byte>, bytes: seq<Byte>) {
    key <= bytes || (bytes + [0] <= key && HasPeriod(key, |bytes| + 1))
  }

  lemma {:induction false} CyclePrefix(word: seq<Byte>, key: seq<Byte>, i: nat)
    requires word != [] && word <= key && HasPeriod(key, |word|) && i < |key|
    ensures Cycle(word, i) == key[i]
    decreases i
  {
    if i >= |word| {
      CyclePrefix(word, key, i - |word|);
    }
  }

  /** Exactly which strings share a key, NULs or not. */
  lemma KeysMatchIff(a: seq<Byte>, b: seq<Byte>)
    ensures EffectiveKey(a) == EffectiveKey(b) <==> Fits(EffectiveKey(a), b)
  {
    var key, word := EffectiveKey(b), b + [0];
    if |b| >= KEY_BYTES {
      assert key == b[..KEY_BYTES];
    } else {
      assert word <= key;
      assert HasPeriod(key, |word|);
      if Fits(EffectiveKey(a), b) {
        forall i | 0 <= i < KEY_BYTES
          ensures key[i] == EffectiveKey(a)[i]
        {
          CyclePrefix(word, EffectiveKey(a), i);
        }
      }
    }
  }

  lemma {:induction false} CycleOfRepetition(word: seq<Byte>, k: nat, i: nat)
    requires word != [] && i < |Repetition(word, k)|
    ensures Cycle(word, i) == Repetition(word, k)[i]
    decreases k
  {
    if i >= |word| {
      CycleOfRepetition(word, k - 1, i - |word|);
    }
  }

  lemma {:induction false} RepetitionLength<T>(word: seq<T>, k: nat)
    ensures |Repetition(word, k)| == k * |word|
  {
    if k > 0 {
      RepetitionLength(word, k - 1);
    }
  }

  /** Repeating a word without end is repeating its repetition without end. */
  lemma {:induction false} CycleOfCycle(word: seq<Byte>, k: nat, i: nat)
    requires word != [] && k >= 1 && Repetition(word, k) != []
    ensures Cycle(Repetition(word, k), i) == Cycle(word, i)
    decreases i
  {
    var long := Repetition(word, k);
    if i < |long| {
      CycleOfRepetition(word, k, i);
    } else {
      CycleOfCycle(word, k, i - |long|);
      RepetitionLength(word, k);
      CycleBack(word, k, i);
    }
  }

  lemma {:induction false} CycleBack(word: seq<Byte>, k: nat, i: nat)
    requires word != [] && i >= k * |word|
    ensures Cycle(word, i) == Cycle(word, i - k * |word|)
    decreases k
  {
    if k > 0 {
      assert k * |word| == (k - 1) * |word| + |word|;
      assert (k - 1) * |word| >= 0;
      CycleBack(word, k - 1, i - |word|);
    }
  }

  /** A prefix of a cycle that ends where its only NUL falls is a whole number of repetitions. */
  lemma {:induction false} WholeRepetitions(a: seq<Byte>, s: seq<Byte>) returns (k: nat)
    requires 0 !in a && s != [] && s[|s| - 1] == 0
    requires forall i :: 0 <= i < |s| ==> s[i] == Cycle(a + [0], i)
    ensures 1 <= k <= |s| && s == Repetition(a + [0], k)
    decreases |s|
  {
    var word := a + [0];
    assert forall i :: 0 <= i < |a| ==> a[i] != 0;
    assert |s| >= |word|;
    assert s[..|word|] == word;
    var rest := s[|word|..];
    assert s == word + rest;
    if rest == [] {
      k := 1;
      assert Repetition(word, 0) == [];
    } else {
      k := WholeRepetitions(a, rest);
      k := k + 1;
    }
  }

  /** The strings that share the key of a NUL-free one: those that begin with its key, and its repetitions. */
  lemma KeysMatchNulFreeIff(a: seq<Byte>, b: seq<Byte>)
    requires 0 !in a
    ensures EffectiveKey(a) == EffectiveKey(b) <==> EffectiveKey(a) <= b || Repeats(a + [0], b + [0])
  {
    KeysMatchIff(a, b);
    if b + [0] <= EffectiveKey(a) && EffectiveKey(a) == EffectiveKey(b) {
      var k := WholeRepetitions(a, b + [0]);
    }
    if Repeats(a + [0], b + [0]) {
      var k :| 1 <= k <= |b + [0]| && b + [0] == Repetition(a + [0], k);
      forall i | 0 <= i < KEY_BYTES
        ensures EffectiveKey(a)[i] == EffectiveKey(b)[i]
      {
        CycleOfCycle(a + [0], k, i);
      }
    }
  }

  /** Only one repetition of a NUL-terminated word has its NUL at the end only. */
  lemma NulFreeRepetition<T>(word: seq<T>, nul: T, s: seq<T>)
    requires nul !in s && Repeats(word + [nul], s + [nul])
    ensures s == word
  {
    var k :| 1 <= k <= |s + [nul]| && s + [nul] == Repetition(word + [nul], k);
    assert (s + [nul])[|word|] == nul;
    assert forall i :: 0 <= i < |s| ==> (s + [nul])[i] != nul;
    assert |s + [nul]| == |word + [nul]|;
    assert s == (s + [nul])[..|s|] == word;
  }

  /** On NUL-free byte strings the key forgets nothing but what follows the 72nd byte. */
  lemma KeysAgreeIff(a: seq<Byte>, b: seq<Byte>)
    requires 0 !in a && 0 !in b
    ensures EffectiveKey(a) == EffectiveKey(b)
       <==> a == b || (|a| >= KEY_BYTES && |b| >= KEY_BYTES && a[..KEY_BYTES] == b[..KEY_BYTES])
  {
    KeysMatchNulFreeIff(a, b);
    if Repeats(a + [0], b + [0]) {
      NulFreeRepetition(a, 0, b);
    }
    if |a| >= KEY_BYTES {
      assert EffectiveKey(a) == a[..KEY_BYTES];
    } else if |b| >= KEY_BYTES {
      assert EffectiveKey(a)[|a|] == 0;
    }
  }

  /** The 72-byte bound makes the key lossless: different accepted passwords have different keys. */
  lemma AcceptedPasswordsHaveDistinctKeys(category: CategoryTable, p: Str, q: Str)
    requires Compliant(category, p) && Compliant(category, q)
    requires WellFormed(p) && WellFormed(q) && NulFree(p) && NulFree(q)
    requires p != q
    ensures EffectiveKey(Utf8(p)) != EffectiveKey(Utf8(q))
  {
    NulInUtf8(p);
    NulInUtf8(q);
    KeysAgreeIff(Utf8(p), Utf8(q));
    if EffectiveKey(Utf8(p)) == EffectiveKey(Utf8(q)) {
      assert |Utf8(p)| == KEY_BYTES ==> Utf8(p)[..KEY_BYTES] == Utf8(p);
      assert |Utf8(q)| == KEY_BYTES ==> Utf8(q)[..KEY_BYTES] == Utf8(q);
      Utf8Injective(p, q);
    }
  }

  // ----- Which passwords open an account -----

  /** As text: `q` is `p` written one or more times, NULs in between. */
  lemma {:induction false} RepetitionEncodes(p: Str, k: nat)
    requires WellFormed(p)
    ensures WellFormed(Repetition(p + [0], k))
    ensures Utf8(Repetition(p + [0], k)) == Repetition(Utf8(p) + [0], k)
  {
    if k > 0 {
      RepetitionEncodes(p, k - 1);
      TerminatedEncodes(p);
      WellFormedAppend(p + [0], Repetition(p + [0], k - 1));
      Utf8Append(p + [0], Repetition(p + [0], k - 1));
    }
  }

  lemma TerminatedEncodes(p: Str)
    requires WellFormed(p)
    ensures WellFormed(p + [0]) && Utf8(p + [0]) == Utf8(p) + [0]
  {
    AsciiEncodesAsItself([0]);
    WellFormedAppend(p, [0]);
    Utf8Append(p, [0]);
  }

  lemma RepeatsAsText(p: Str, q: Str)
    requires WellFormed(p) && WellFormed(q)
    ensures Repeats(p + [0], q + [0]) <==> Repeats(Utf8(p) + [0], Utf8(q) + [0])
  {
    if Repeats(p + [0], q + [0]) {
      TextRepeats(p, q);
    }
    if Repeats(Utf8(p) + [0], Utf8(q) + [0]) {
      BytesRepeat(p, q);
    }
  }

  lemma RepeatsIf<T>(word: seq<T>, s: seq<T>, k: nat)
    requires word != [] && s != [] && s == Repetition(word, k)
    ensures Repeats(word, s)
  {
    RepetitionLength(word, k);
    assert k * |word| >= k;
  }

  lemma TextRepeats(p: Str, q: Str)
    requires WellFormed(p) && WellFormed(q) && Repeats(p + [0], q + [0])
    ensures Repeats(Utf8(p) + [0], Utf8(q) + [0])
  {
    var k :| 1 <= k <= |q + [0]| && q + [0] == Repetition(p + [0], k);
    RepetitionEncodes(p, k);
    TerminatedEncodes(q);
    RepeatsIf(Utf8(p) + [0], Utf8(q) + [0], k);
  }

  lemma BytesRepeat(p: Str, q: Str)
    requires WellFormed(p) && WellFormed(q) && Repeats(Utf8(p) + [0], Utf8(q) + [0])
    ensures Repeats(p + [0], q + [0])
  {
    var k :| 1 <= k <= |Utf8(q) + [0]| && Utf8(q) + [0] == Repetition(Utf8(p) + [0], k);
    RepetitionEncodes(p, k);
    TerminatedEncodes(q);
    Utf8Injective(q + [0], Repetition(p + [0], k));
    RepeatsIf(p + [0], q + [0], k);
  }

  /** The passwords that open an account registered with `p`. */
  predicate Opens(p: Str, q: Str) {
    Fits(EffectiveKey(Utf8(p)), Utf8(q))
  }

  lemma VerifiesIff(env: Runtime, p: Str, q: Str, salt: Salt)
    requires LawfulHash(env)
    ensures HashPassword(env, p, salt).salt == salt
    ensures Verify(env, q, HashPassword(env, p, salt)) <==> Opens(p, q)
  {
    KeysMatchIff(Utf8(p), Utf8(q));
    assert Verify(env, q, HashPassword(env, p, salt)) <==> EffectiveKey(Utf8(p)) == EffectiveKey(Utf8(q));
  }

  /**
   For a NUL-free `p`: those that begin with its key, and `p` written one or more times with NULs in between. If `q`
   is NUL-free as well and `p` was accepted: `p` itself, and what extends it if it has 72 bytes.
   */
  lemma OpensIff(p: Str, q: Str)
    requires WellFormed(p) && WellFormed(q) && NulFree(p)
    ensures Opens(p, q) <==> EffectiveKey(Utf8(p)) <= Utf8(q) || Repeats(p + [0], q + [0])
    ensures NulFree(q) && |Utf8(p)| <= KEY_BYTES ==>
              (Opens(p, q) <==> q == p || (|Utf8(p)| == KEY_BYTES && Utf8(p) <= Utf8(q)))
  {
    NulInUtf8(p);
    NulInUtf8(q);
    KeysMatchIff(Utf8(p), Utf8(q));
    KeysMatchNulFreeIff(Utf8(p), Utf8(q));
    RepeatsAsText(p, q);
    if NulFree(q) && |Utf8(p)| <= KEY_BYTES {
      KeysAgreeIff(Utf8(p), Utf8(q));
      if Utf8(p) == Utf8(q) {
        Utf8Injective(p, q);
      }
      if |Utf8(p)| == KEY_BYTES {
        assert Utf8(p)[..KEY_BYTES] == Utf8(p);
      }
    }
  }

  // ----- Which accepted passwords share their key -----

  /** Another accepted password has the key of `p`. */
  ghost predicate SharesKey(category: CategoryTable, p: Str) {
    exists q: Str :: IsSharedBy(category, p, q)
  }

  ghost predicate IsSharedBy(category: CategoryTable, p: Str, q: Str) {
    q != p && WellFormed(q) && Compliant(category, q) && EffectiveKey(Utf8(q)) == EffectiveKey(Utf8(p))
  }

  /** After `p` and a NUL there is room for `p` again, or the byte of `p` at which room ends starts a character. */
  predicate HasRoomToRepeat(bytes: seq<Byte>) {
    || 2 * |bytes| + 1 <= KEY_BYTES
    || (|bytes| < KEY_BYTES && !IsContinuation(bytes[KEY_BYTES - 1 - |bytes|]))
  }

  /** Whatever `p` contains, with room to repeat it shares its key. */
  lemma RoomMeansShared(category: CategoryTable, p: Str)
    requires Compliant(category, p) && WellFormed(p) && HasRoomToRepeat(Utf8(p))
    ensures SharesKey(category, p)
  {
    var more := RoomToRepeat(p);
    RepeatedShares(category, p, more);
    assert IsSharedBy(category, p, p + [0] + more);
  }

  /** The key of a password of `n` bytes is also that of the accepted text it begins with up to a NUL at byte `m`. */
  predicate EndsElsewhere(category: CategoryTable, key: seq<Byte>, n: nat, m: nat) {
    && m != n && m < |key| && key[m] == 0 && HasPeriod(key, m + 1)
    && DecodeUtf8(key[..m]).Some? && Compliant(category, Units(DecodeUtf8(key[..m]).value))
  }

  /** Exactly which accepted passwords, NULs or not, share their key with another accepted one. */
  lemma AnySharesKeyIff(category: CategoryTable, p: Str)
    requires Compliant(category, p) && WellFormed(p)
    ensures SharesKey(category, p)
       <==> HasRoomToRepeat(Utf8(p))
            || exists m: nat | m < KEY_BYTES :: EndsElsewhere(category, EffectiveKey(Utf8(p)), |Utf8(p)|, m)
  {
    if HasRoomToRepeat(Utf8(p)) {
      RoomMeansShared(category, p);
    } else if m: nat :| m < KEY_BYTES && EndsElsewhere(category, EffectiveKey(Utf8(p)), |Utf8(p)|, m) {
      var q := OtherText(category, p, m);
      assert IsSharedBy(category, p, q);
    } else if SharesKey(category, p) {
      var q :| IsSharedBy(category, p, q);
      SharedEnds(category, p, q);
      assert false;
    }
  }

  lemma OtherText(category: CategoryTable, p: Str, m: nat) returns (q: Str)
    requires EndsElsewhere(category, EffectiveKey(Utf8(p)), |Utf8(p)|, m)
    ensures IsSharedBy(category, p, q)
  {
    var key := EffectiveKey(Utf8(p));
    var cs := DecodeUtf8(key[..m]).value;
    q := Units(cs);
    UnitsRoundTrip(cs);
    DecodedUtf8Reencodes(key[..m]);
    PeriodIsKey(Utf8(p), m);
  }

  /** What comes before a NUL that ends a period of a key has that key. */
  lemma PeriodIsKey(a: seq<Byte>, m: nat)
    requires m < KEY_BYTES && EffectiveKey(a)[m] == 0 && HasPeriod(EffectiveKey(a), m + 1)
    ensures EffectiveKey(EffectiveKey(a)[..m]) == EffectiveKey(a)
  {
    var key := EffectiveKey(a);
    assert key[..m] + [0] == key[..m + 1];
    KeysMatchIff(a, key[..m]);
  }

  lemma SharedEnds(category: CategoryTable, p: Str, q: Str)
    requires Compliant(category, p) && WellFormed(p) && IsSharedBy(category, p, q)
    ensures HasRoomToRepeat(Utf8(p))
         || (|Utf8(q)| < KEY_BYTES && EndsElsewhere(category, EffectiveKey(Utf8(p)), |Utf8(p)|, |Utf8(q)|))
  {
    var a, b := Utf8(p), Utf8(q);
    KeysMatchIff(a, b);
    if |b| < KEY_BYTES {
      SharedEndsEarly(category, p, q);
    } else {
      assert b == EffectiveKey(a);
      assert |a| == KEY_BYTES ==> EffectiveKey(a) == a;
      if a == b {
        Utf8Injective(p, q);
      } else if 2 * |a| + 1 > KEY_BYTES {
        KeyIsText(p, q);
      }
    }
  }

  lemma SharedEndsEarly(category: CategoryTable, p: Str, q: Str)
    requires Compliant(category, p) && WellFormed(p) && IsSharedBy(category, p, q) && |Utf8(q)| < KEY_BYTES
    ensures EndsElsewhere(category, EffectiveKey(Utf8(p)), |Utf8(p)|, |Utf8(q)|)
  {
    var a, b, key := Utf8(p), Utf8(q), EffectiveKey(Utf8(p));
    KeysMatchIff(a, b);
    assert key[..|b|] == (b + [0])[..|b|] == b && key[|b|] == (b + [0])[|b|] == 0;
    Utf8RoundTrip(Scalars(q));
    Utf16RoundTrip(q);
    if |a| == |b| {
      assert forall i :: 0 <= i < |a| ==> a[i] == key[i] == b[i];
      assert a == b;
      Utf8Injective(p, q);
    }
  }

  /** Exactly which accepted NUL-free passwords share their key with another accepted one. */
  lemma SharesKeyIff(category: CategoryTable, p: Str)
    requires Compliant(category, p) && WellFormed(p) && NulFree(p)
    ensures SharesKey(category, p) <==> HasRoomToRepeat(Utf8(p))
  {
    if HasRoomToRepeat(Utf8(p)) {
      RoomMeansShared(category, p);
    } else if SharesKey(category, p) {
      var q :| IsSharedBy(category, p, q);
      SharedNeedsRoom(category, p, q);
      assert false;
    }
  }

  /** The part of `p` that fits after `p` and a NUL. */
  lemma RoomToRepeat(p: Str) returns (more: Str)
    requires WellFormed(p) && HasRoomToRepeat(Utf8(p))
    ensures WellFormed(more) && Utf8(more) <= Utf8(p)
    ensures |Utf8(p)| + 1 + |Utf8(more)| <= KEY_BYTES
    ensures Utf8(more) == Utf8(p) || |Utf8(p)| + 1 + |Utf8(more)| == KEY_BYTES
  {
    if 2 * |Utf8(p)| + 1 <= KEY_BYTES {
      more := p;
    } else {
      var k := CutAtBoundary(Scalars(p), KEY_BYTES - 1 - |Utf8(p)|);
      more := Units(Scalars(p)[..k]);
      UnitsRoundTrip(Scalars(p)[..k]);
    }
  }

  lemma RepeatedShares(category: CategoryTable, p: Str, more: Str)
    requires Compliant(category, p) && WellFormed(p) && WellFormed(more) && Utf8(more) <= Utf8(p)
    requires |Utf8(p)| + 1 + |Utf8(more)| <= KEY_BYTES
    requires Utf8(more) == Utf8(p) || |Utf8(p)| + 1 + |Utf8(more)| == KEY_BYTES
    ensures IsSharedBy(category, p, p + [0] + more)
  {
    RepeatedEncodes(p, more);
    RepeatedIsCompliant(category, p, more);
    RepeatedKey(Utf8(p), Utf8(more));
    assert |p + [0] + more| > |p|;
  }

  lemma RepeatedIsCompliant(category: CategoryTable, p: Str, more: Str)
    requires Compliant(category, p) && |Utf8(p + [0] + more)| <= KEY_BYTES
    ensures Compliant(category, p + [0] + more)
  {
    assert p + ([0] + more) == p + [0] + more;
    AppendedTextKeepsCompliance(category, p, [0] + more);
  }

  lemma RepeatedEncodes(p: Str, more: Str)
    requires WellFormed(p) && WellFormed(more)
    ensures WellFormed(p + [0] + more) && Utf8(p + [0] + more) == Utf8(p) + [0] + Utf8(more)
  {
    TerminatedEncodes(p);
    WellFormedAppend(p + [0], more);
    Utf8Append(p + [0], more);
  }

  /** A byte string, a NUL, and the string again, in full or up to the 72nd byte, has the key of the string. */
  lemma RepeatedKey(bytes: seq<Byte>, more: seq<Byte>)
    requires more <= bytes && (more == bytes || |bytes| + 1 + |more| == KEY_BYTES)
    ensures EffectiveKey(bytes + [0] + more) == EffectiveKey(bytes)
  {
    var word := bytes + [0];
    if more == bytes {
      assert Repetition(word, 0) == [] && Repetition(word, 1) == word;
      assert word + more + [0] == word + word == Repetition(word, 2);
      forall i: nat | i < KEY_BYTES
        ensures Cycle(word + more + [0], i) == Cycle(word, i)
      {
        CycleOfCycle(word, 2, i);
      }
    } else {
      forall i: nat | i < KEY_BYTES
        ensures Cycle(word + more + [0], i) == Cycle(word, i)
      {
        if i >= |word| {
          assert Cycle(word, i) == Cycle(word, i - |word|) == more[i - |word|];
        }
      }
    }
  }

  lemma SharedNeedsRoom(category: CategoryTable, p: Str, q: Str)
    requires Compliant(category, p) && WellFormed(p) && NulFree(p) && IsSharedBy(category, p, q)
    ensures HasRoomToRepeat(Utf8(p))
  {
    var a, b := Utf8(p), Utf8(q);
    NulInUtf8(p);
    KeysMatchNulFreeIff(a, b);
    if b == a {
      Utf8Injective(p, q);
    } else if 2 * |a| + 1 > KEY_BYTES {
      assert b == (b + [0])[..|b|] && a == (a + [0])[..|a|];
      if Repeats(a + [0], b + [0]) {
        RepeatsOnce(a + [0], b + [0]);
        assert false;
      }
      assert b == EffectiveKey(a);
      assert |a| == KEY_BYTES ==> EffectiveKey(a) == a;
      KeyIsText(p, q);
    }
  }

  lemma RepeatsOnce<T>(word: seq<T>, s: seq<T>)
    requires Repeats(word, s) && |s| < 2 * |word|
    ensures s == word
  {
    var k :| 1 <= k <= |s| && s == Repetition(word, k);
    RepetitionLength(word, k);
    assert k >= 2 ==> k * |word| >= 2 * |word|;
    assert Repetition(word, 0) == [];
  }

  lemma KeyWraps(bytes: seq<Byte>)
    requires |bytes| < KEY_BYTES < 2 * |bytes| + 1
    ensures EffectiveKey(bytes) == bytes + [0] + bytes[..KEY_BYTES - 1 - |bytes|]
  {
    var word := bytes + [0];
    forall i | |word| <= i < KEY_BYTES
      ensures EffectiveKey(bytes)[i] == bytes[i - |word|]
    {
      assert Cycle(word, i) == Cycle(word, i - |word|) == bytes[i - |word|];
    }
  }

  /** If the key of `p` is the encoding of a text, it stops where a character of `p` does. */
  lemma KeyIsText(p: Str, q: Str)
    requires WellFormed(p) && |Utf8(p)| < KEY_BYTES < 2 * |Utf8(p)| + 1
    requires Utf8(q) == EffectiveKey(Utf8(p))
    ensures !IsContinuation(Utf8(p)[KEY_BYTES - 1 - |Utf8(p)|])
  {
    var a, n := Utf8(p), KEY_BYTES - 1 - |Utf8(p)|;
    KeyWraps(a);
    TerminatedEncodes(p);
    var cs := Scalars(p + [0]);
    Utf8RoundTrip(Scalars(q));
    DecodeAppended(cs, a[..n]);
    DecodedUtf8Reencodes(a[..n]);
    CutsAreBoundaries(Scalars(p), DecodeUtf8(a[..n]).value, n);
  }

  /** One byte more and the claim fails. */
  lemma Bound73IsNotLossless(category: CategoryTable)
    requires Classifies(category, ASCII_CLASSES)
    ensures exists p: Str, q: Str ::
              && p != q
              && CompliantUpTo(category, p, 73) && CompliantUpTo(category, q, 73)
              && WellFormed(p) && WellFormed(q) && NulFree(p) && NulFree(q)
              && EffectiveKey(Utf8(p)) == EffectiveKey(Utf8(q))
  {
    var stem := ASCII_CLASSES + Repeat(0x62, 68);
    LongestPlus(category, 0x63);
    LongestPlus(category, 0x64);
    var p, q := stem + [0x63], stem + [0x64];
    SameFirst72Bytes(stem, 0x63, 0x64);
    assert p[72] != q[72];
  }

  lemma LongestPlus(category: CategoryTable, last: CodeUnit)
    requires Classifies(category, ASCII_CLASSES) && 0 < last < 0x80
    ensures var p := ASCII_CLASSES + Repeat(0x62, 68) + [last];
            CompliantUpTo(category, p, 73) && WellFormed(p) && NulFree(p) && Utf8(p) == p
  {
    AsciiPassword(category, ASCII_CLASSES, Repeat(0x62, 68), last);
  }

  lemma AsciiPassword(category: CategoryTable, classes: Str, rest: Str, last: CodeUnit)
    requires Classifies(category, classes) && IsAscii(classes + rest) && NulFree(classes + rest)
    requires |rest| == 68 && 0 < last < 0x80
    ensures var p := classes + rest + [last];
            CompliantUpTo(category, p, 73) && WellFormed(p) && NulFree(p) && Utf8(p) == p
  {
    AsciiEncodesAsItself(classes + rest + [last]);
    ClassifiedHasAllClasses(category, classes, rest + [last]);
    assert classes + (rest + [last]) == classes + rest + [last];
  }

  lemma SameFirst72Bytes(stem: seq<Byte>, x: Byte, y: Byte)
    requires |stem| == KEY_BYTES && 0 !in stem && x != 0 && y != 0
    ensures EffectiveKey(stem + [x]) == EffectiveKey(stem + [y])
  {
    KeysAgreeIff(stem + [x], stem + [y]);
    assert (stem + [x])[..KEY_BYTES] == stem == (stem + [y])[..KEY_BYTES];
  }

  lemma {:induction false} AsciiEncodesAsItself(s: Str)
    requires IsAscii(s)
    ensures WellFormed(s) && Utf8(s) == s
  {
    if s != [] {
      AsciiEncodesAsItself(s[1..]);
      assert Scalars(s)[1..] == Scalars(s[1..]);
      assert s == [s[0]] + s[1..];
    }
  }
}
