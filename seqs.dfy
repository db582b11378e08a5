/**
 * JavaScript's `Array.prototype.filter` over Dafny sequences, the
 * order-preserving subsequence relation it establishes, and counting by a
 * key function, which the chart tallies are built from.
 */
module Seqs {

  /** The elements of `s` for which `keep` holds, in their original order. */
  function Filter<T>(s: seq<T>, keep: T -> bool): (r: seq<T>)
    ensures |r| <= |s|
  {
    if s == [] then []
    else if keep(s[0]) then [s[0]] + Filter(s[1..], keep)
    else Filter(s[1..], keep)
  }

  /** The filter keeps exactly the elements `keep` accepts: everything it
      returns comes from `s` and is accepted, and every accepted element of
      `s` is returned. */
  lemma {:induction false} FilterMembers<T>(s: seq<T>, keep: T -> bool)
    ensures forall i :: 0 <= i < |Filter(s, keep)| ==> Filter(s, keep)[i] in s && keep(Filter(s, keep)[i])
    ensures forall i :: 0 <= i < |s| && keep(s[i]) ==> s[i] in Filter(s, keep)
  {
    if s != [] {
      FilterMembers(s[1..], keep);
      var r := Filter(s, keep);
      var rest := Filter(s[1..], keep);
      forall i | 0 <= i < |r| ensures r[i] in s && keep(r[i]) {
        if keep(s[0]) {
          if i > 0 {
            assert r[i] == rest[i - 1];
            assert s[1..][0] in s[1..];
          }
        }
      }
    }
  }

  /** The filter keeps every accepted element as often as it occurs in `s`
      and drops every other one entirely. */
  lemma {:induction false} FilterMultiset<T>(s: seq<T>, keep: T -> bool)
    ensures forall x :: multiset(Filter(s, keep))[x] == if keep(x) then multiset(s)[x] else 0
  {
    if s != [] {
      FilterMultiset(s[1..], keep);
      assert s == [s[0]] + s[1..];
      assert multiset(s) == multiset{s[0]} + multiset(s[1..]);
      if keep(s[0]) {
        assert multiset(Filter(s, keep)) == multiset{s[0]} + multiset(Filter(s[1..], keep));
      }
    }
  }

  /** `r` is obtained from `s` by deleting elements, without reordering. */
  ghost predicate IsSubsequence<T>(r: seq<T>, s: seq<T>)
    decreases |s|
  {
    if s == [] then r == []
    else IsSubsequence(r, s[1..]) || (r != [] && r[0] == s[0] && IsSubsequence(r[1..], s[1..]))
  }

  lemma {:induction false} FilterIsSubsequence<T>(s: seq<T>, keep: T -> bool)
    ensures IsSubsequence(Filter(s, keep), s)
  {
    if s != [] {
      FilterIsSubsequence(s[1..], keep);
      if keep(s[0]) {
        assert Filter(s, keep)[1..] == Filter(s[1..], keep);
      }
    }
  }

  lemma {:induction false} SubsequenceMembers<T>(r: seq<T>, s: seq<T>)
    requires IsSubsequence(r, s)
    ensures forall x :: x in r ==> x in s
  {
    if s != [] {
      if IsSubsequence(r, s[1..]) {
        SubsequenceMembers(r, s[1..]);
      } else {
        SubsequenceMembers(r[1..], s[1..]);
        assert r == [r[0]] + r[1..];
      }
    }
  }

  /** Filtering distributes over concatenation. */
  lemma {:induction false} FilterAppend<T>(a: seq<T>, b: seq<T>, keep: T -> bool)
    ensures Filter(a + b, keep) == Filter(a, keep) + Filter(b, keep)
  {
    if a == [] {
      assert a + b == b;
    } else {
      assert (a + b)[1..] == a[1..] + b;
      FilterAppend(a[1..], b, keep);
    }
  }

  /** A filter that rejects nothing returns its input. */
  lemma {:induction false} FilterKeepsAll<T>(s: seq<T>, keep: T -> bool)
    requires forall i :: 0 <= i < |s| ==> keep(s[i])
    ensures Filter(s, keep) == s
  {
    if s != [] {
      FilterKeepsAll(s[1..], keep);
    }
  }

  /** Filters with pointwise equal predicates agree. */
  lemma {:induction false} FilterCongruent<T>(s: seq<T>, p: T -> bool, q: T -> bool)
    requires forall x :: p(x) == q(x)
    ensures Filter(s, p) == Filter(s, q)
  {
    if s != [] {
      FilterCongruent(s[1..], p, q);
    }
  }

  /** When `p` holds exactly where one of the disjoint `q1`, `q2` holds, the
      counts add up. */
  lemma {:induction false} FilterCountSplit<T>(s: seq<T>, p: T -> bool, q1: T -> bool, q2: T -> bool)
    requires forall x :: p(x) == (q1(x) || q2(x))
    requires forall x :: !(q1(x) && q2(x))
    ensures |Filter(s, p)| == |Filter(s, q1)| + |Filter(s, q2)|
  {
    if s != [] {
      FilterCountSplit(s[1..], p, q1, q2);
    }
  }

  /** The predicate `key(x) == k`. */
  function KeyIs<T>(key: T -> int, k: int): T -> bool {
    x => key(x) == k
  }

  /** The predicate `0 <= key(x) < n`. */
  function KeyBelow<T>(key: T -> int, n: nat): T -> bool {
    x => 0 <= key(x) < n
  }

  /** How many elements of `s` have key `k`. */
  function CountKey<T>(s: seq<T>, key: T -> int, k: int): nat {
    |Filter(s, KeyIs(key, k))|
  }

  /** The counts of keys `0 .. n-1`, added up. */
  function SumCounts<T>(s: seq<T>, key: T -> int, n: nat): nat {
    if n == 0 then 0 else SumCounts(s, key, n - 1) + CountKey(s, key, n - 1)
  }

  /** Appending one element adds one to the count of its own key only. */
  lemma CountKeySnoc<T>(s: seq<T>, x: T, key: T -> int, k: int)
    ensures CountKey(s + [x], key, k) == CountKey(s, key, k) + (if key(x) == k then 1 else 0)
  {
    FilterAppend(s, [x], KeyIs(key, k));
  }

  /** Each element is counted under at most one key, so the counts of the
      keys `0 .. n-1` add up to the number of elements whose key is in range. */
  lemma {:induction false} SumCountsIsCountInRange<T>(s: seq<T>, key: T -> int, n: nat)
    ensures SumCounts(s, key, n) == |Filter(s, KeyBelow(key, n))|
  {
    if n == 0 {
      NoKeyBelowZero(s, key);
    } else {
      SumCountsIsCountInRange(s, key, n - 1);
      CountInRangeSplit(s, key, n);
      assert SumCounts(s, key, n) == SumCounts(s, key, n - 1) + CountKey(s, key, n - 1);
    }
  }

  /** No key lies in the empty range. */
  lemma NoKeyBelowZero<T>(s: seq<T>, key: T -> int)
    ensures Filter(s, KeyBelow(key, 0)) == []
  {
  }

  /** The elements with key below `n` are those with key below `n - 1` and
      those with key `n - 1`. */
  lemma CountInRangeSplit<T>(s: seq<T>, key: T -> int, n: nat)
    requires n > 0
    ensures |Filter(s, KeyBelow(key, n))| == |Filter(s, KeyBelow(key, n - 1))| + CountKey(s, key, n - 1)
  {
  }
}
