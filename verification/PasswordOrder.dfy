/** When the order of its characters decides whether a password is compliant. */
module PasswordOrder {
  import opened Text
  import opened Platform
  import opened PasswordPolicy

  // ----- Permutations -----

  /** The sum of a weight over the units of a string. */
  function Sum(weight: CodeUnit -> nat, s: Str): nat {
    if s == [] then 0 else weight(s[0]) + Sum(weight, s[1..])
  }

  lemma {:induction false} SumAppend(weight: CodeUnit -> nat, a: Str, b: Str)
    ensures Sum(weight, a + b) == Sum(weight, a) + Sum(weight, b)
  {
    if a == [] {
      assert a + b == b;
    } else {
      assert (a + b)[1..] == a[1..] + b;
      SumAppend(weight, a[1..], b);
    }
  }

  lemma SumAround(weight: CodeUnit -> nat, l: Str, x: CodeUnit, r: Str)
    ensures Sum(weight, l + [x] + r) == weight(x) + Sum(weight, l + r)
  {
    assert l + [x] + r == l + ([x] + r);
    SumAppend(weight, l, [x] + r);
    assert ([x] + r)[1..] == r;
    SumAppend(weight, l, r);
  }

  lemma MultisetAround<T>(l: seq<T>, x: T, r: seq<T>)
    ensures multiset(l + [x] + r) == multiset(l + r) + multiset{x}
  {
  }

  lemma MultisetOfTail<T>(a: seq<T>)
    requires a != []
    ensures multiset(a) == multiset(a[1..]) + multiset{a[0]}
  {
    assert a == [a[0]] + a[1..];
  }

  lemma CancelOne<T>(m: multiset<T>, n: multiset<T>, x: T)
    requires m + multiset{x} == n + multiset{x}
    ensures m == n
  {
    assert m == m + multiset{x} - multiset{x};
    assert n == n + multiset{x} - multiset{x};
  }

  lemma FindIn<T>(s: seq<T>, x: T) returns (l: seq<T>, r: seq<T>)
    requires x in multiset(s)
    ensures s == l + [x] + r
  {
    var i :| 0 <= i < |s| && s[i] == x;
    l, r := s[..i], s[i + 1..];
  }

  lemma FindInPermutation<T>(a: seq<T>, b: seq<T>) returns (l: seq<T>, r: seq<T>)
    requires multiset(a) == multiset(b) && a != []
    ensures b == l + [a[0]] + r && multiset(a[1..]) == multiset(l + r)
  {
    assert a[0] in multiset(a);
    l, r := FindIn(b, a[0]);
    MultisetAround(l, a[0], r);
    MultisetOfTail(a);
    CancelOne(multiset(a[1..]), multiset(l + r), a[0]);
  }

  lemma {:induction false} SumPermuted(weight: CodeUnit -> nat, a: Str, b: Str)
    requires multiset(a) == multiset(b)
    ensures Sum(weight, a) == Sum(weight, b)
  {
    if a == [] {
      assert |multiset(b)| == 0;
    } else {
      var l, r := FindInPermutation(a, b);
      SumPermuted(weight, a[1..], l + r);
      SumAround(weight, l, a[0], r);
    }
  }

  lemma SameUnits(a: Str, b: Str)
    requires multiset(a) == multiset(b)
    ensures forall i :: 0 <= i < |b| ==> b[i] in a
  {
    forall i | 0 <= i < |b|
      ensures b[i] in a
    {
      assert b[i] in multiset(b);
    }
  }

  lemma HasPermuted(category: CategoryTable, a: Str, b: Str, k: Class)
    requires multiset(a) == multiset(b)
    ensures Has(category, b, k) ==> Has(category, a, k)
  {
    SameUnits(a, b);
  }

  lemma ClassesPermuted(category: CategoryTable, a: Str, b: Str)
    requires multiset(a) == multiset(b)
    ensures HasAllClasses(category, a) <==> HasAllClasses(category, b)
  {
    forall k
      ensures Has(category, a, k) <==> Has(category, b, k)
    {
      HasPermuted(category, a, b, k);
      HasPermuted(category, b, a, k);
    }
  }

  // ----- Surrogate pairs and bytes -----

  /** How many places hold a high surrogate followed by a low one. */
  function Pairs(s: Str): nat {
    if |s| < 2 then 0 else (if StartsWithPair(s) then 1 else 0) + Pairs(s[1..])
  }

  /** Each pair saves two of the six bytes its halves take apart. */
  lemma {:induction false} ByteCountByPairs(s: Str)
    ensures ByteCount(s) == Sum(UnitBytes, s) - 2 * Pairs(s)
  {
    if StartsWithPair(s) {
      ByteCountByPairs(s[2..]);
      assert s[1..][1..] == s[2..];
    } else if s != [] {
      ByteCountByPairs(s[1..]);
    }
  }

  function HighOne(u: CodeUnit): nat {
    if IsHigh(u) then 1 else 0
  }

  function LowOne(u: CodeUnit): nat {
    if IsLow(u) then 1 else 0
  }

  lemma {:induction false} PairsWithin(s: Str)
    ensures Pairs(s) <= Sum(HighOne, s)
    ensures s != [] ==> Pairs(s) <= Sum(LowOne, s[1..])
  {
    if s != [] {
      PairsWithin(s[1..]);
    }
  }

  /** As many pairs as the surrogates of the string can form in any order. */
  function PossiblePairs(s: Str): nat {
    if Sum(HighOne, s) <= Sum(LowOne, s) then Sum(HighOne, s) else Sum(LowOne, s)
  }

  lemma PairsOfPermutation(a: Str, b: Str)
    requires multiset(a) == multiset(b)
    ensures Pairs(b) <= PossiblePairs(a)
  {
    PairsWithin(b);
    SumPermuted(HighOne, a, b);
    SumPermuted(LowOne, a, b);
  }

  // ----- Arrangements with no pair and with every pair -----

  predicate NotSurrogate(u: CodeUnit) {
    !IsSurrogate(u)
  }

  function Pick(keep: CodeUnit -> bool, s: Str): (picked: Str)
    ensures forall i :: 0 <= i < |picked| ==> keep(picked[i])
  {
    if s == [] then [] else (if keep(s[0]) then [s[0]] else []) + Pick(keep, s[1..])
  }

  lemma {:induction false} PickCount(keep: CodeUnit -> bool, weight: CodeUnit -> nat, s: Str)
    requires forall u :: weight(u) == if keep(u) then 1 else 0
    ensures |Pick(keep, s)| == Sum(weight, s)
  {
    if s != [] {
      PickCount(keep, weight, s[1..]);
    }
  }

  lemma {:induction false} PicksPartition(s: Str)
    ensures multiset(Pick(IsHigh, s)) + multiset(Pick(IsLow, s)) + multiset(Pick(NotSurrogate, s)) == multiset(s)
  {
    if s != [] {
      PicksPartition(s[1..]);
      MultisetOfTail(s);
    }
  }

  /** Every low surrogate before every high one: no pair. */
  function Apart(s: Str): Str {
    Pick(IsLow, s) + Pick(NotSurrogate, s) + Pick(IsHigh, s)
  }

  /** High and low surrogates in turn, as long as there are both. */
  function Woven(highs: Str, lows: Str): Str {
    if highs == [] || lows == [] then highs + lows else [highs[0], lows[0]] + Woven(highs[1..], lows[1..])
  }

  function Together(s: Str): Str {
    Woven(Pick(IsHigh, s), Pick(IsLow, s)) + Pick(NotSurrogate, s)
  }

  lemma {:induction false} NoPairs(s: Str)
    requires forall i :: 0 <= i < |s| - 1 ==> !(IsHigh(s[i]) && IsLow(s[i + 1]))
    ensures Pairs(s) == 0
  {
    if s != [] {
      NoPairs(s[1..]);
    }
  }

  lemma ApartHasNoPairs(s: Str)
    ensures multiset(Apart(s)) == multiset(s) && Pairs(Apart(s)) == 0
  {
    PicksPartition(s);
    NoPairs(Apart(s));
  }

  lemma {:induction false} WovenMultiset(highs: Str, lows: Str)
    ensures multiset(Woven(highs, lows)) == multiset(highs) + multiset(lows)
  {
    if highs != [] && lows != [] {
      WovenMultiset(highs[1..], lows[1..]);
      MultisetOfTail(highs);
      MultisetOfTail(lows);
    }
  }

  lemma {:induction false} WovenPairs(highs: Str, lows: Str, rest: Str)
    requires forall i :: 0 <= i < |highs| ==> IsHigh(highs[i])
    requires forall i :: 0 <= i < |lows| ==> IsLow(lows[i])
    requires forall i :: 0 <= i < |rest| ==> NotSurrogate(rest[i])
    ensures Pairs(Woven(highs, lows) + rest) == if |highs| <= |lows| then |highs| else |lows|
  {
    var s := Woven(highs, lows) + rest;
    if highs == [] || lows == [] {
      NoPairs(s);
    } else {
      WovenPairs(highs[1..], lows[1..], rest);
      assert s[2..] == Woven(highs[1..], lows[1..]) + rest;
      assert s[1..][1..] == s[2..];
    }
  }

  lemma TogetherHasAllPairs(s: Str)
    ensures multiset(Together(s)) == multiset(s) && Pairs(Together(s)) == PossiblePairs(s)
  {
    var highs, lows := Pick(IsHigh, s), Pick(IsLow, s);
    PicksPartition(s);
    WovenMultiset(highs, lows);
    WovenPairs(highs, lows, Pick(NotSurrogate, s));
    PickCount(IsHigh, HighOne, s);
    PickCount(IsLow, LowOne, s);
  }

  // ----- The verdict -----

  predicate InBounds(bytes: int) {
    MIN_BYTES <= bytes <= MAX_BYTES
  }

  /** Of a permutation, only the number of its pairs matters. */
  lemma VerdictOfPermutation(category: CategoryTable, a: Str, b: Str)
    requires multiset(a) == multiset(b)
    ensures Compliant(category, b) <==> HasAllClasses(category, a) && InBounds(Sum(UnitBytes, a) - 2 * Pairs(b))
  {
    ByteCountIsEncodedLength(b);
    ByteCountByPairs(b);
    SumPermuted(UnitBytes, a, b);
    ClassesPermuted(category, a, b);
  }

  predicate SameVerdict(category: CategoryTable, a: Str, b: Str) {
    Compliant(category, a) <==> Compliant(category, b)
  }

  predicate IsPermutation(a: Str, b: Str) {
    multiset(a) == multiset(b)
  }

  /** Every permutation of the string gets the same verdict. */
  ghost predicate OrderIsImmaterial(category: CategoryTable, s: Str) {
    forall b: Str :: IsPermutation(s, b) ==> SameVerdict(category, s, b)
  }

  /**
   Exactly when no order of the characters changes the verdict: a class is missing, or the byte counts with no pair
   and with as many pairs as can be formed are both within the bounds or both outside.
   */
  lemma OrderIsImmaterialIff(category: CategoryTable, s: Str)
    ensures OrderIsImmaterial(category, s) <==> (HasAllClasses(category, s) ==> BoundsAgree(s))
  {
    if OrderIsImmaterial(category, s) {
      ApartHasNoPairs(s);
      TogetherHasAllPairs(s);
      ExtremesAgree(category, s, Apart(s), Together(s));
    } else {
      var b: Str :| IsPermutation(s, b) && !SameVerdict(category, s, b);
      if HasAllClasses(category, s) ==> BoundsAgree(s) {
        AgreeingBoundsDecide(category, s, b);
        assert false;
      }
    }
  }

  predicate BoundsAgree(s: Str) {
    InBounds(Sum(UnitBytes, s)) <==> InBounds(Sum(UnitBytes, s) - 2 * PossiblePairs(s))
  }

  lemma ExtremesAgree(category: CategoryTable, s: Str, apart: Str, together: Str)
    requires OrderIsImmaterial(category, s)
    requires multiset(apart) == multiset(s) && Pairs(apart) == 0
    requires multiset(together) == multiset(s) && Pairs(together) == PossiblePairs(s)
    ensures HasAllClasses(category, s) ==> BoundsAgree(s)
  {
    VerdictIsSame(category, s, apart);
    VerdictIsSame(category, s, together);
    SharedVerdict(category, s, apart, 0);
    SharedVerdict(category, s, together, PossiblePairs(s));
  }

  lemma VerdictIsSame(category: CategoryTable, s: Str, b: Str)
    requires OrderIsImmaterial(category, s) && multiset(b) == multiset(s)
    ensures SameVerdict(category, s, b)
  {
    assert IsPermutation(s, b);
  }

  lemma SharedVerdict(category: CategoryTable, s: Str, b: Str, pairs: nat)
    requires SameVerdict(category, s, b) && multiset(b) == multiset(s) && Pairs(b) == pairs
    ensures Compliant(category, s) <==> HasAllClasses(category, s) && InBounds(Sum(UnitBytes, s) - 2 * pairs)
  {
    VerdictOfPermutation(category, s, b);
  }

  lemma AgreeingBoundsDecide(category: CategoryTable, s: Str, b: Str)
    requires multiset(b) == multiset(s) && (HasAllClasses(category, s) ==> BoundsAgree(s))
    ensures SameVerdict(category, s, b)
  {
    VerdictOfPermutation(category, s, b);
    VerdictOfPermutation(category, s, s);
    if BoundsAgree(s) {
      CountsBetween(s, b);
      CountsBetween(s, s);
    }
  }

  lemma CountsBetween(s: Str, b: Str)
    requires multiset(b) == multiset(s) && BoundsAgree(s)
    ensures InBounds(Sum(UnitBytes, s) - 2 * Pairs(b)) <==> InBounds(Sum(UnitBytes, s))
  {
    PairsOfPermutation(s, b);
    SixBytesAPair(s);
  }

  /** The halves of each pair take three bytes each, so no count is below the bounds apart and above them together. */
  lemma {:induction false} SixBytesAPair(s: Str)
    ensures Sum(UnitBytes, s) >= 3 * Sum(HighOne, s) + 3 * Sum(LowOne, s)
  {
    if s != [] {
      SixBytesAPair(s[1..]);
    }
  }

  predicate NoSurrogates(s: Str) {
    forall i :: 0 <= i < |s| ==> !IsSurrogate(s[i])
  }

  /** Without surrogates the verdict does not depend on the order of the characters. */
  lemma VerdictIgnoresOrder(category: CategoryTable, a: Str, b: Str)
    requires multiset(a) == multiset(b)
    requires NoSurrogates(a)
    ensures Compliant(category, a) <==> Compliant(category, b)
  {
    SameUnits(a, b);
    NoPairs(a);
    NoPairs(b);
    VerdictOfPermutation(category, a, a);
    VerdictOfPermutation(category, a, b);
  }

  /** With them it may: putting the halves of a pair apart costs two bytes. */
  lemma VerdictDependsOnSurrogateOrder(category: CategoryTable)
    requires Classifies(category, ASCII_CLASSES)
    ensures var filler := ASCII_CLASSES + Repeat(0x62, 64);
            && multiset(filler + [0xD83D, 0xDE00]) == multiset(filler + [0xDE00, 0xD83D])
            && Compliant(category, filler + [0xD83D, 0xDE00])
            && !Compliant(category, filler + [0xDE00, 0xD83D])
  {
    var rest := Repeat(0x62, 64);
    ClassifiedHasAllClasses(category, ASCII_CLASSES, rest + [0xD83D, 0xDE00]);
    assert ASCII_CLASSES + (rest + [0xD83D, 0xDE00]) == ASCII_CLASSES + rest + [0xD83D, 0xDE00];
    PairAfterFiller(category, ASCII_CLASSES + rest);
  }

  lemma PairAfterFiller(category: CategoryTable, filler: Str)
    requires IsAscii(filler) && |filler| == 68 && HasAllClasses(category, filler + [0xD83D, 0xDE00])
    ensures multiset(filler + [0xD83D, 0xDE00]) == multiset(filler + [0xDE00, 0xD83D])
    ensures Compliant(category, filler + [0xD83D, 0xDE00]) && !Compliant(category, filler + [0xDE00, 0xD83D])
  {
    LastTwoSwapped(filler, 0xD83D, 0xDE00);
    OneLastPair(filler);
    VerdictWithPairs(category, filler + [0xD83D, 0xDE00], filler + [0xD83D, 0xDE00], 1, 74);
    VerdictWithPairs(category, filler + [0xD83D, 0xDE00], filler + [0xDE00, 0xD83D], 0, 74);
  }

  lemma VerdictWithPairs(category: CategoryTable, a: Str, b: Str, pairs: nat, units: nat)
    requires multiset(a) == multiset(b) && HasAllClasses(category, a)
    requires Pairs(b) == pairs && Sum(UnitBytes, a) == units
    ensures Compliant(category, b) <==> InBounds(units - 2 * pairs)
  {
    VerdictOfPermutation(category, a, b);
  }

  lemma LastTwoSwapped(s: Str, x: CodeUnit, y: CodeUnit)
    ensures multiset(s + [x, y]) == multiset(s + [y, x])
  {
    assert multiset(s + [x, y]) == multiset(s) + multiset([x, y]);
    assert multiset(s + [y, x]) == multiset(s) + multiset([y, x]);
  }

  lemma {:induction false} OneLastPair(filler: Str)
    requires IsAscii(filler)
    ensures Pairs(filler + [0xD83D, 0xDE00]) == 1 && Pairs(filler + [0xDE00, 0xD83D]) == 0
    ensures Sum(UnitBytes, filler + [0xD83D, 0xDE00]) == |filler| + 6
  {
    if filler == [] {
      assert filler + [0xD83D, 0xDE00] == [0xD83D, 0xDE00];
      assert filler + [0xDE00, 0xD83D] == [0xDE00, 0xD83D];
      assert [0xD83D, 0xDE00][1..] == [0xDE00] && [0xDE00][1..] == [];
    } else {
      OneLastPair(filler[1..]);
      assert (filler + [0xD83D, 0xDE00])[1..] == filler[1..] + [0xD83D, 0xDE00];
      assert (filler + [0xDE00, 0xD83D])[1..] == filler[1..] + [0xDE00, 0xD83D];
    }
  }
}
