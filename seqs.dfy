/**
 * Sequence helpers shared by the pruner: an order-preserving filter, the
 * result of deleting a set of collected indices, and the subsequence order.
 */
module Seqs {

  /** The elements of `s` that satisfy `p`, in their original order. */
  function Filter<T>(s: seq<T>, p: T -> bool): (r: seq<T>)
    ensures |r| <= |s|
    ensures forall x :: x in r ==> x in s && p(x)
    ensures forall x :: x in s && p(x) ==> x in r
  {
    if s == [] then [] else (if p(s[0]) then [s[0]] else []) + Filter(s[1..], p)
  }

  lemma {:induction false} FilterAppend<T>(a: seq<T>, b: seq<T>, p: T -> bool)
    ensures Filter(a + b, p) == Filter(a, p) + Filter(b, p)
  {
    if a == [] {
      assert a + b == b;
    } else {
      assert (a + b)[1..] == a[1..] + b;
      FilterAppend(a[1..], b, p);
    }
  }

  /** Filtering keeps a sequence whose every element passes. */
  lemma {:induction false} FilterAll<T>(s: seq<T>, p: T -> bool)
    requires forall x :: x in s ==> p(x)
    ensures Filter(s, p) == s
  {
    if s != [] {
      assert forall x :: x in s[1..] ==> x in s;
      FilterAll(s[1..], p);
    }
  }

  /** Filtering a sequence none of whose elements passes leaves nothing. */
  lemma {:induction false} FilterNone<T>(s: seq<T>, p: T -> bool)
    requires forall x :: x in s ==> !p(x)
    ensures Filter(s, p) == []
  {
    if s != [] {
      assert forall x :: x in s[1..] ==> x in s;
      FilterNone(s[1..], p);
    }
  }

  /** The middle part of a concatenation, cut back out. */
  /** A slice inside the first part of a concatenation, and the second part as a suffix. */
  lemma AppendSlices<T>(a: seq<T>, b: seq<T>, i: nat, j: nat)
    requires i <= j <= |a|
    ensures (a + b)[i..j] == a[i..j]
    ensures (a + b)[|a|..] == b
  {
  }

  lemma MiddleSlice<T>(pre: seq<T>, mid: seq<T>, post: seq<T>)
    ensures (pre + mid + post)[|pre|..|pre| + |mid|] == mid
  {
    assert forall j :: 0 <= j < |mid| ==> (pre + mid + post)[|pre| + j] == mid[j];
  }

  /** Strictly increasing, as the removal indices collected by a left-to-right scan are. */
  ghost predicate Increasing(s: seq<int>) {
    forall a, b :: 0 <= a < b < |s| ==> s[a] < s[b]
  }

  /**
   * `s` with the elements at the indices listed in `gone` deleted, where
   * `s[k]` stands at index `from + k`; survivors keep their order.
   */
  function Without<T>(s: seq<T>, gone: seq<int>, from: int): seq<T>
    decreases |s|
  {
    if s == [] then [] else (if from in gone then [] else [s[0]]) + Without(s[1..], gone, from + 1)
  }

  lemma {:induction false} WithoutAppend<T>(a: seq<T>, b: seq<T>, gone: seq<int>, from: int)
    ensures Without(a + b, gone, from) == Without(a, gone, from) + Without(b, gone, from + |a|)
  {
    if a == [] {
      assert a + b == b;
    } else {
      assert (a + b)[1..] == a[1..] + b;
      WithoutAppend(a[1..], b, gone, from + 1);
    }
  }

  /** Deleting indices that lie outside the slice changes nothing. */
  lemma {:induction false} WithoutNone<T>(s: seq<T>, gone: seq<int>, from: int)
    requires forall t :: 0 <= t < |gone| ==> !(from <= gone[t] < from + |s|)
    ensures Without(s, gone, from) == s
  {
    if s != [] {
      WithoutNone(s[1..], gone, from + 1);
    }
  }

  /** Deleting exactly the indices of the elements failing `p` is filtering by `p`. */
  lemma {:induction false} WithoutFilter<T>(s: seq<T>, gone: seq<int>, from: int, p: T -> bool)
    requires forall k :: 0 <= k < |s| ==> (from + k in gone <==> !p(s[k]))
    ensures Without(s, gone, from) == Filter(s, p)
  {
    if s != [] {
      assert from + 0 in gone <==> !p(s[0]);
      forall k | 0 <= k < |s[1..]|
        ensures (from + 1) + k in gone <==> !p(s[1..][k])
      {
        assert s[1..][k] == s[k + 1];
      }
      WithoutFilter(s[1..], gone, from + 1, p);
    }
  }

  /** Only the survivors matter: sequences that agree off `gone` lose the same elements. */
  lemma {:induction false} WithoutAgree<T>(a: seq<T>, b: seq<T>, gone: seq<int>, from: int)
    requires |a| == |b|
    requires forall k :: 0 <= k < |a| && !(from + k in gone) ==> a[k] == b[k]
    ensures Without(a, gone, from) == Without(b, gone, from)
  {
    if a != [] {
      forall k | 0 <= k < |a[1..]| && !((from + 1) + k in gone)
        ensures a[1..][k] == b[1..][k]
      {
        assert a[k + 1] == b[k + 1];
      }
      WithoutAgree(a[1..], b[1..], gone, from + 1);
    }
  }

  /** `a` is obtained from `b` by deleting elements: nothing added, nothing reordered. */
  predicate IsSubsequence<T(==)>(a: seq<T>, b: seq<T>)
    decreases |b|
  {
    a == [] || (b != [] && ((a[0] == b[0] && IsSubsequence(a[1..], b[1..])) || IsSubsequence(a, b[1..])))
  }

  lemma {:induction false} WithoutIsSubsequence<T>(s: seq<T>, gone: seq<int>, from: int)
    ensures IsSubsequence(Without(s, gone, from), s)
  {
    if s != [] {
      WithoutIsSubsequence(s[1..], gone, from + 1);
      if !(from in gone) {
        assert Without(s, gone, from) == [s[0]] + Without(s[1..], gone, from + 1);
        assert ([s[0]] + Without(s[1..], gone, from + 1))[1..] == Without(s[1..], gone, from + 1);
      } else {
        assert Without(s, gone, from) == Without(s[1..], gone, from + 1);
      }
    }
  }

  lemma {:induction false} FilterIsSubsequence<T>(s: seq<T>, p: T -> bool)
    ensures IsSubsequence(Filter(s, p), s)
  {
    if s != [] {
      FilterIsSubsequence(s[1..], p);
      if p(s[0]) {
        assert Filter(s, p) == [s[0]] + Filter(s[1..], p);
        assert ([s[0]] + Filter(s[1..], p))[1..] == Filter(s[1..], p);
      } else {
        assert Filter(s, p) == Filter(s[1..], p);
      }
    }
  }
}
