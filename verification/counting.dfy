/** Counting values in a sequence: the reference definitions behind the
    genetic solver's conflict count and behind "each of 1..9 exactly once". */
module Counting {

  /** The distinct values of s. */
  function Elems(s: seq<int>): set<int>
  {
    set x | x in s
  }

  /** No value occurs twice in s. */
  predicate Distinct(s: seq<int>)
  {
    forall i, j :: 0 <= i < j < |s| ==> s[i] != s[j]
  }

  /** Occurrences of v in s (defined from the last entry, as a loop fills a counter). */
  function Count(s: seq<int>, v: int): nat
  {
    if s == [] then 0 else Count(s[..|s| - 1], v) + (if s[|s| - 1] == v then 1 else 0)
  }

  /** Entries of s whose value lies in vs. */
  function CountIn(s: seq<int>, vs: set<int>): nat
  {
    if s == [] then 0 else CountIn(s[..|s| - 1], vs) + (if s[|s| - 1] in vs then 1 else 0)
  }

  /** Entries of s that repeat a value already seen earlier in s. */
  function Repeats(s: seq<int>): nat
  {
    if s == [] then 0
    else Repeats(s[..|s| - 1]) + (if s[|s| - 1] in s[..|s| - 1] then 1 else 0)
  }

  /** The digits a completed unit must hold, as a set and in order. */
  const DIGITS: set<int> := {1, 2, 3, 4, 5, 6, 7, 8, 9}
  const DIGIT_SEQ: seq<int> := [1, 2, 3, 4, 5, 6, 7, 8, 9]

  /** s holds each of 1..9 exactly once, in some order. */
  predicate IsDigitPermutation(s: seq<int>)
  {
    multiset(s) == multiset(DIGIT_SEQ)
  }

  lemma {:induction false} CountStep(s: seq<int>, i: int, v: int)
    requires 0 <= i < |s|
    ensures Count(s[..i + 1], v) == Count(s[..i], v) + (if s[i] == v then 1 else 0)
  {
    assert s[..i + 1][..i] == s[..i];
  }

  /** A prefix holds no more occurrences than the whole sequence. */
  lemma {:induction false} CountPrefix(s: seq<int>, i: int, v: int)
    requires 0 <= i <= |s|
    ensures Count(s[..i], v) <= Count(s, v)
    decreases |s|
  {
    if i < |s| {
      var init := s[..|s| - 1];
      assert init[..i] == s[..i];
      CountPrefix(init, i, v);
    } else {
      assert s[..i] == s;
    }
  }

  /** A value occurs a positive number of times exactly when it is in s. */
  lemma {:induction false} CountPositiveIff(s: seq<int>, v: int)
    ensures Count(s, v) > 0 <==> v in s
  {
    if s != [] {
      var init := s[..|s| - 1];
      assert s == init + [s[|s| - 1]];
      CountPositiveIff(init, v);
    }
  }

  /** Selecting no value counts nothing. */
  lemma {:induction false} CountInEmpty(s: seq<int>)
    ensures CountIn(s, {}) == 0
  {
    if s != [] {
      CountInEmpty(s[..|s| - 1]);
    }
  }

  /** Adding one value v to the selected set adds exactly its occurrences. */
  lemma {:induction false} CountInAddValue(s: seq<int>, vs: set<int>, v: int)
    requires v !in vs
    ensures CountIn(s, vs + {v}) == CountIn(s, vs) + Count(s, v)
  {
    if s != [] {
      CountInAddValue(s[..|s| - 1], vs, v);
    }
  }

  /** Selecting every value of s counts every entry. */
  lemma {:induction false} CountInAll(s: seq<int>, vs: set<int>)
    requires Elems(s) <= vs
    ensures CountIn(s, vs) == |s|
  {
    if s != [] {
      var init := s[..|s| - 1];
      assert s == init + [s[|s| - 1]];
      assert s[|s| - 1] in Elems(s);
      assert Elems(init) <= Elems(s);
      CountInAll(init, vs);
    }
  }

  /** The repeat count is the length minus the number of distinct values. */
  lemma {:induction false} RepeatsIsLengthMinusDistinct(s: seq<int>)
    ensures |Elems(s)| <= |s|
    ensures Repeats(s) == |s| - |Elems(s)|
  {
    if s != [] {
      var init := s[..|s| - 1];
      var last := s[|s| - 1];
      RepeatsIsLengthMinusDistinct(init);
      assert s == init + [last];
      assert Elems(s) == Elems(init) + {last};
      if last in init {
        assert Elems(s) == Elems(init);
      } else {
        assert last !in Elems(init);
      }
    }
  }

  /** No entry repeats exactly when all entries are distinct. */
  lemma {:induction false} RepeatsZeroIffDistinct(s: seq<int>)
    ensures Repeats(s) == 0 <==> Distinct(s)
  {
    if s != [] {
      var n := |s| - 1;
      var init := s[..n];
      RepeatsZeroIffDistinct(init);
      if Distinct(s) {
        assert Distinct(init);
        forall i | 0 <= i < n ensures init[i] != s[n] {
          assert s[i] != s[n];
        }
      }
      if Repeats(s) == 0 {
        forall i, j | 0 <= i < j < |s| ensures s[i] != s[j] {
          if j < n {
            assert init[i] == s[i] && init[j] == s[j];
          } else {
            assert init[i] == s[i];
          }
        }
      }
    }
  }

  /** The repeat count depends only on the multiset of values. */
  lemma RepeatsOfPermutation(s: seq<int>, t: seq<int>)
    requires multiset(s) == multiset(t)
    ensures Repeats(s) == Repeats(t)
  {
    assert |s| == |multiset(s)| == |multiset(t)| == |t|;
    SameMultisetSameElems(s, t);
    RepeatsIsLengthMinusDistinct(s);
    RepeatsIsLengthMinusDistinct(t);
  }

  /** Nine distinct digits are all of 1..9. */
  lemma NineDistinctDigits(s: seq<int>)
    requires |s| == 9 && Distinct(s)
    requires forall i :: 0 <= i < 9 ==> 1 <= s[i] <= 9
    ensures Elems(s) == DIGITS
  {
    RepeatsZeroIffDistinct(s);
    RepeatsIsLengthMinusDistinct(s);
    var e := Elems(s);
    assert e <= DIGITS by {
      forall x | x in e ensures x in DIGITS {
        var i :| 0 <= i < 9 && s[i] == x;
      }
    }
    DigitsSize();
    SubsetOfSameSize(e, DIGITS);
  }

  lemma DigitsSize()
    ensures |DIGITS| == 9
  {
  }

  lemma SubsetOfSameSize(a: set<int>, b: set<int>)
    requires a <= b && |a| == |b|
    ensures a == b
  {
    assert |b - a| == |b| - |a|;
  }

  /** 1..9 in order has no repeated entry. */
  lemma DigitSeqDistinct()
    ensures forall i :: 0 <= i < 9 ==> DIGIT_SEQ[i] == i + 1
    ensures Distinct(DIGIT_SEQ)
  {
    forall i | 0 <= i < 9 ensures DIGIT_SEQ[i] == i + 1 {
    }
  }

  /** Two sequences with the same multiset hold the same values. */
  lemma SameMultisetSameElems(s: seq<int>, t: seq<int>)
    requires multiset(s) == multiset(t)
    ensures Elems(s) == Elems(t)
  {
    forall x ensures x in s <==> x in t {
      assert x in s <==> x in multiset(s);
      assert x in t <==> x in multiset(t);
    }
  }

  /** A permutation of 1..9 has no repeated entry. */
  lemma DigitPermutationHasNoRepeats(s: seq<int>)
    requires IsDigitPermutation(s)
    ensures Repeats(s) == 0 && Distinct(s) && Elems(s) == DIGITS
  {
    DigitSeqDistinct();
    RepeatsZeroIffDistinct(DIGIT_SEQ);
    RepeatsOfPermutation(s, DIGIT_SEQ);
    RepeatsZeroIffDistinct(s);
    SameMultisetSameElems(s, DIGIT_SEQ);
    assert Elems(DIGIT_SEQ) == DIGITS;
  }

  /** In a sequence without repeats every value occurs at most once. */
  lemma {:induction false} DistinctMultiplicity(s: seq<int>, x: int)
    requires Distinct(s)
    ensures multiset(s)[x] == if x in s then 1 else 0
  {
    if s != [] {
      var init := s[..|s| - 1];
      var last := s[|s| - 1];
      assert s == init + [last];
      assert Distinct(init);
      DistinctMultiplicity(init, x);
      if x == last {
        assert x !in init by {
          forall i | 0 <= i < |init| ensures init[i] != last {
            assert s[i] != s[|s| - 1];
          }
        }
      }
    }
  }

  /** Each digit occurs once in 1..9, and nothing else occurs. */
  lemma DigitSeqMultiplicity(x: int)
    ensures multiset(DIGIT_SEQ)[x] == if 1 <= x <= 9 then 1 else 0
  {
    DigitSeqDistinct();
    DistinctMultiplicity(DIGIT_SEQ, x);
    if 1 <= x <= 9 {
      assert DIGIT_SEQ[x - 1] == x;
    }
  }

  /** A non-empty set of integers has a member to pick. */
  lemma NonEmptyHasMember(s: set<int>)
    requires s != {}
    ensures exists x :: x in s
  {
    if forall x :: x !in s {
      assert false;
    }
  }
}
