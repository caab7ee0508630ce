/**
 * Permutations of the box and prisoner numbers 1..n.
 *
 * Every shuffled list in the simulation (the slips put into the boxes, the
 * candidate order of the random strategy) is a rearrangement of 1..n. Here a
 * permutation is stated as "n numbers, each within 1..n, no two equal"; the
 * pigeonhole lemma PermutationCovers shows that every number of 1..n then
 * occurs, so the definition is exactly "a rearrangement of 1..n".
 */
module Permutations {

  /** `s` lists each of 1..n exactly once. */
  predicate IsPermutation(s: seq<int>, n: nat) {
    |s| == n && InRange(s) && Distinct(s)
  }

  /** Every element of `s` is a number between 1 and |s|. */
  predicate InRange(s: seq<int>) {
    forall i :: 0 <= i < |s| ==> 1 <= s[i] <= |s|
  }

  /** No element of `s` occurs twice. */
  predicate Distinct(s: seq<int>) {
    forall i, j :: 0 <= i < j < |s| ==> s[i] != s[j]
  }

  /** The list read back to front, as repeatedly taking `pop()` from its end yields it. */
  function Reversed(s: seq<int>): (r: seq<int>)
    ensures |r| == |s|
    ensures forall k :: 0 <= k < |s| ==> r[k] == s[|s| - 1 - k]
  {
    if s == [] then [] else [s[|s| - 1]] + Reversed(s[..|s| - 1])
  }

  /** The set of the numbers 1..n. */
  function UpTo(n: nat): set<int> {
    if n == 0 then {} else UpTo(n - 1) + {n}
  }

  /** UpTo(n) holds exactly the numbers 1..n. */
  lemma {:induction false} UpToMember(n: nat, v: int)
    ensures v in UpTo(n) <==> 1 <= v <= n
  {
    if n > 0 {
      UpToMember(n - 1, v);
    }
  }

  /** A list without repetitions has as many distinct elements as it is long. */
  lemma {:induction false} DistinctCard(s: seq<int>)
    requires Distinct(s)
    ensures |set i | 0 <= i < |s| :: s[i]| == |s|
  {
    if s != [] {
      var t := s[..|s| - 1];
      assert Distinct(t);
      DistinctCard(t);
      var last := s[|s| - 1];
      assert (set i | 0 <= i < |s| :: s[i]) == (set i | 0 <= i < |t| :: t[i]) + {last};
      assert last !in (set i | 0 <= i < |t| :: t[i]);
    }
  }

  /** There are exactly n numbers in 1..n. */
  lemma {:induction false} UpToCard(n: nat)
    ensures |UpTo(n)| == n
  {
    if n > 0 {
      UpToCard(n - 1);
      UpToMember(n - 1, n);
    }
  }

  /** A subset is no larger than the set that contains it. */
  lemma SubsetCard(a: set<int>, b: set<int>)
    requires a <= b
    ensures |a| <= |b|
    ensures |a| == |b| ==> a == b
  {
    assert b == a + (b - a);
    assert a * (b - a) == {};
    if |a| == |b| {
      assert |b - a| == 0;
    }
  }

  /** Pigeonhole: a permutation of 1..n contains every number of 1..n. */
  lemma PermutationCovers(s: seq<int>, n: nat)
    requires IsPermutation(s, n)
    ensures forall v :: 1 <= v <= n ==> v in s
  {
    var values := set i | 0 <= i < |s| :: s[i];
    DistinctCard(s);
    UpToCard(n);
    forall v | v in values
      ensures v in UpTo(n)
    {
      UpToMember(n, v);
    }
    SubsetCard(values, UpTo(n));
    forall v | 1 <= v <= n
      ensures v in s
    {
      UpToMember(n, v);
      assert v in values;
    }
  }

  /** Reading a permutation back to front gives a permutation again. */
  lemma ReversedIsPermutation(s: seq<int>, n: nat)
    requires IsPermutation(s, n)
    ensures IsPermutation(Reversed(s), n)
  {
    var r := Reversed(s);
    forall i, j | 0 <= i < j < |r|
      ensures r[i] != r[j]
    {
      assert r[i] == s[|s| - 1 - i] && r[j] == s[|s| - 1 - j];
    }
  }

  /** The elements of `s` from position `lo` on, as a set. */
  function SuffixSet(s: seq<int>, lo: nat): set<int> {
    set i | lo <= i < |s| :: s[i]
  }

  /** Moving the start of a suffix one place to the left adds one element. */
  lemma SuffixSetGrows(s: seq<int>, lo: nat)
    requires 0 < lo <= |s|
    ensures SuffixSet(s, lo - 1) == SuffixSet(s, lo) + {s[lo - 1]}
  {
  }

  /** The elements of a permutation taken from position `lo` on are all different, so there are n - lo of them. */
  lemma SuffixCard(s: seq<int>, n: nat, lo: nat)
    requires IsPermutation(s, n) && lo <= n
    ensures |SuffixSet(s, lo)| == n - lo
  {
    var t := s[lo..];
    assert Distinct(t);
    DistinctCard(t);
    var whole := set i | 0 <= i < |t| :: t[i];
    assert SuffixSet(s, lo) == whole by {
      forall v | v in whole
        ensures v in SuffixSet(s, lo)
      {
        var i :| 0 <= i < |t| && t[i] == v;
        assert s[lo + i] == v;
      }
    }
  }
}
