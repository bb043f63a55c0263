/**
 * Order-preserving filtering of sequences, the shape of JavaScript's
 * `Array.prototype.filter`, together with the subsequence relation that
 * states "nothing is added and nothing is reordered".
 */
module Seqs {

  /** `a` can be obtained from `b` by deleting elements, keeping the order
      of the ones that remain: either the head of `b` is matched to the head
      of `a`, or it is skipped. */
  ghost predicate IsSubsequence<T>(a: seq<T>, b: seq<T>)
    decreases |b|
  {
    if |a| == 0 then true
    else if |b| == 0 then false
    else (a[0] == b[0] && IsSubsequence(a[1..], b[1..])) || IsSubsequence(a, b[1..])
  }

  /** Strictly increasing positions, every one of them inside `bound`. */
  ghost predicate IncreasingIndices(idx: seq<nat>, bound: nat)
  {
    && (forall k :: 0 <= k < |idx| ==> idx[k] < bound)
    && (forall k, l :: 0 <= k < l < |idx| ==> idx[k] < idx[l])
  }

  /** The elements of `s` kept by `filter`: the ones whose predicate holds,
      in their original order. */
  function Filter<T>(p: T -> bool, s: seq<T>): (r: seq<T>)
    ensures |r| <= |s|
    ensures forall i :: 0 <= i < |r| ==> r[i] in s && p(r[i])
    ensures forall i :: 0 <= i < |s| ==> (s[i] in r <==> p(s[i]))
  {
    if |s| == 0 then []
    else if p(s[0]) then [s[0]] + Filter(p, s[1..])
    else Filter(p, s[1..])
  }

  /** Every element is kept exactly as often as it occurs, or dropped
      completely: the filter neither duplicates nor loses copies. */
  lemma {:induction false} FilterCounts<T>(p: T -> bool, s: seq<T>, x: T)
    ensures multiset(Filter(p, s))[x] == if p(x) then multiset(s)[x] else 0
  {
    if |s| > 0 {
      FilterCounts(p, s[1..], x);
      assert s == [s[0]] + s[1..];
    }
  }

  /** The filtered sequence is an order-preserving subsequence of the input. */
  lemma {:induction false} FilterIsSubsequence<T>(p: T -> bool, s: seq<T>)
    ensures IsSubsequence(Filter(p, s), s)
  {
    if |s| > 0 {
      FilterIsSubsequence(p, s[1..]);
      if p(s[0]) {
        var r := Filter(p, s);
        assert r[0] == s[0] && r[1..] == Filter(p, s[1..]);
      }
    }
  }

  /** Filtering a concatenation filters each part. */
  lemma {:induction false} FilterAppend<T>(p: T -> bool, a: seq<T>, b: seq<T>)
    ensures Filter(p, a + b) == Filter(p, a) + Filter(p, b)
  {
    if |a| > 0 {
      FilterAppend(p, a[1..], b);
      assert (a + b)[1..] == a[1..] + b;
    } else {
      assert a + b == b;
    }
  }

  /** When every element passes, the filter is the identity. */
  lemma {:induction false} FilterAllPass<T>(p: T -> bool, s: seq<T>)
    requires forall i :: 0 <= i < |s| ==> p(s[i])
    ensures Filter(p, s) == s
  {
    if |s| > 0 {
      FilterAllPass(p, s[1..]);
      assert s == [s[0]] + s[1..];
    }
  }

  /** When no element passes, the result is empty. */
  lemma {:induction false} FilterNonePass<T>(p: T -> bool, s: seq<T>)
    requires forall i :: 0 <= i < |s| ==> !p(s[i])
    ensures Filter(p, s) == []
  {
    if |s| > 0 {
      FilterNonePass(p, s[1..]);
    }
  }

  /** Filtering again with the same predicate changes nothing. */
  lemma FilterIdempotent<T>(p: T -> bool, s: seq<T>)
    ensures Filter(p, Filter(p, s)) == Filter(p, s)
  {
    FilterAllPass(p, Filter(p, s));
  }

  /** Filtering with a stronger predicate keeps a subsequence of what the
      weaker one keeps. */
  lemma {:induction false} FilterMonotone<T>(p: T -> bool, q: T -> bool, s: seq<T>)
    requires forall i :: 0 <= i < |s| ==> p(s[i]) ==> q(s[i])
    ensures IsSubsequence(Filter(p, s), Filter(q, s))
  {
    if |s| > 0 {
      FilterMonotone(p, q, s[1..]);
      var a, b := Filter(p, s), Filter(q, s);
      if p(s[0]) {
        assert a[0] == b[0] && a[1..] == Filter(p, s[1..]) && b[1..] == Filter(q, s[1..]);
      } else if q(s[0]) {
        assert b[1..] == Filter(q, s[1..]);
        SubsequenceOfTail(a, b);
      }
    }
  }

  /** Skipping the head of the larger sequence keeps the relation. */
  lemma SubsequenceOfTail<T>(a: seq<T>, b: seq<T>)
    requires |b| > 0 && IsSubsequence(a, b[1..])
    ensures IsSubsequence(a, b)
  {
  }

  /** The recursive definition agrees with the textbook one: the elements of
      `a` sit in `b` at strictly increasing positions. */
  lemma {:induction false} SubsequenceIndices<T>(a: seq<T>, b: seq<T>) returns (idx: seq<nat>)
    requires IsSubsequence(a, b)
    ensures |idx| == |a| && IncreasingIndices(idx, |b|)
    ensures forall k :: 0 <= k < |a| ==> a[k] == b[idx[k]]
    decreases |b|
  {
    if |a| == 0 {
      idx := [];
    } else if a[0] == b[0] && IsSubsequence(a[1..], b[1..]) {
      var rest := SubsequenceIndices(a[1..], b[1..]);
      idx := [0] + seq(|rest|, k requires 0 <= k < |rest| => rest[k] + 1);
    } else {
      var rest := SubsequenceIndices(a, b[1..]);
      idx := seq(|rest|, k requires 0 <= k < |rest| => rest[k] + 1);
    }
  }

  /** The relation is transitive, so refining in stages stays a subsequence
      of the original. */
  lemma {:induction false} SubsequenceTransitive<T>(a: seq<T>, b: seq<T>, c: seq<T>)
    requires IsSubsequence(a, b) && IsSubsequence(b, c)
    ensures IsSubsequence(a, c)
    decreases |c|
  {
    if |a| > 0 {
      assert |b| > 0 && |c| > 0;
      if b[0] == c[0] && IsSubsequence(b[1..], c[1..]) {
        if a[0] == b[0] && IsSubsequence(a[1..], b[1..]) {
          SubsequenceTransitive(a[1..], b[1..], c[1..]);
        } else {
          SubsequenceTransitive(a, b[1..], c[1..]);
          SubsequenceOfTail(a, c);
        }
      } else {
        SubsequenceTransitive(a, b, c[1..]);
        SubsequenceOfTail(a, c);
      }
    }
  }
}
