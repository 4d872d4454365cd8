/** Order- and multiplicity-preserving selection over sequences, and the
    substring test that Python's `in` performs on strings. */
module Sequences {

  /** `sub` occurs as a contiguous block of `s` (Python's `sub in s` on strings).
      The empty sequence occurs in every sequence. */
  predicate Contains<T(==)>(s: seq<T>, sub: seq<T>)
  {
    exists i | 0 <= i <= |s| - |sub| :: sub <= s[i..]
  }

  lemma ContainsEmpty<T>(s: seq<T>)
    ensures Contains(s, [])
  {
    assert [] <= s[0..];
  }

  /** The elements of `s` that satisfy `keep`, in their original order and with
      their original multiplicity (a list comprehension with a condition). */
  function Filter<T>(s: seq<T>, keep: T -> bool): (r: seq<T>)
    ensures |r| <= |s|
    ensures forall k :: 0 <= k < |r| ==> keep(r[k])
  {
    if |s| == 0 then []
    else Filter(s[..|s| - 1], keep) + (if keep(s[|s| - 1]) then [s[|s| - 1]] else [])
  }

  /** Extending a prefix by one element extends its filtered image by that
      element exactly when it is kept. */
  lemma FilterStep<T>(s: seq<T>, i: int, keep: T -> bool)
    requires 0 <= i < |s|
    ensures Filter(s[..i + 1], keep) == Filter(s[..i], keep) + (if keep(s[i]) then [s[i]] else [])
  {
    assert s[..i + 1][..i] == s[..i];
  }

  /** `idx` lists, in strictly increasing order, positions of `b` whose elements
      spell out `a`: `a` is a subsequence of `b` and `idx` says where. */
  ghost predicate Embedding<T>(idx: seq<int>, a: seq<T>, b: seq<T>)
  {
    && |idx| == |a|
    && (forall k :: 0 <= k < |idx| ==> 0 <= idx[k] < |b| && b[idx[k]] == a[k])
    && (forall k, l :: 0 <= k < l < |idx| ==> idx[k] < idx[l])
  }

  /** The positions of `s` that `Filter(s, keep)` keeps. */
  function KeptPositions<T>(s: seq<T>, keep: T -> bool): seq<int>
  {
    if |s| == 0 then []
    else KeptPositions(s[..|s| - 1], keep) + (if keep(s[|s| - 1]) then [|s| - 1] else [])
  }

  lemma {:induction false} KeptPositionsBelow<T>(s: seq<T>, keep: T -> bool)
    ensures forall k :: 0 <= k < |KeptPositions(s, keep)| ==> 0 <= KeptPositions(s, keep)[k] < |s|
  {
    if |s| > 0 {
      KeptPositionsBelow(s[..|s| - 1], keep);
    }
  }

  /** Occurrence-level meaning of `Filter`: the result is the subsequence of `s`
      made of exactly the positions whose element satisfies `keep`. */
  lemma {:induction false} FilterSelectsPositions<T>(s: seq<T>, keep: T -> bool)
    ensures Embedding(KeptPositions(s, keep), Filter(s, keep), s)
    ensures forall i :: 0 <= i < |s| ==> (i in KeptPositions(s, keep) <==> keep(s[i]))
  {
    if |s| > 0 {
      var n := |s| - 1;
      var init := s[..n];
      FilterSelectsPositions(init, keep);
      KeptPositionsBelow(init, keep);
      var idx := KeptPositions(init, keep);
      var r := Filter(init, keep);
      if keep(s[n]) {
        assert KeptPositions(s, keep) == idx + [n];
        assert Filter(s, keep) == r + [s[n]];
      } else {
        assert KeptPositions(s, keep) == idx;
        assert Filter(s, keep) == r;
      }
      forall i | 0 <= i < n
        ensures i in KeptPositions(s, keep) <==> keep(s[i])
      {
        assert s[i] == init[i];
      }
    }
  }

  /** Multiplicity: every value that satisfies `keep` keeps all its occurrences;
      every other value loses all of them. */
  lemma {:induction false} FilterCount<T>(s: seq<T>, keep: T -> bool, x: T)
    ensures multiset(Filter(s, keep))[x] == if keep(x) then multiset(s)[x] else 0
  {
    if |s| > 0 {
      var n := |s| - 1;
      FilterCount(s[..n], keep, x);
      assert s == s[..n] + [s[n]];
    }
  }

  /** A filter whose condition holds of every element changes nothing. */
  lemma {:induction false} FilterKeepsAll<T>(s: seq<T>, keep: T -> bool)
    requires forall k :: 0 <= k < |s| ==> keep(s[k])
    ensures Filter(s, keep) == s
  {
    if |s| > 0 {
      var n := |s| - 1;
      FilterKeepsAll(s[..n], keep);
      assert s == s[..n] + [s[n]];
    }
  }

  /** A filter whose condition holds of no element yields nothing. */
  lemma {:induction false} FilterKeepsNone<T>(s: seq<T>, keep: T -> bool)
    requires forall k :: 0 <= k < |s| ==> !keep(s[k])
    ensures Filter(s, keep) == []
  {
    if |s| > 0 {
      FilterKeepsNone(s[..|s| - 1], keep);
    }
  }

  /** Filtering twice by the same condition is filtering once. */
  lemma FilterIdempotent<T>(s: seq<T>, keep: T -> bool)
    ensures Filter(Filter(s, keep), keep) == Filter(s, keep)
  {
    FilterKeepsAll(Filter(s, keep), keep);
  }

  /** A sequence without repeated elements has as many distinct elements as positions. */
  lemma {:induction false} DistinctCardinality<T>(s: seq<T>)
    requires forall a, b :: 0 <= a < b < |s| ==> s[a] != s[b]
    ensures |set x | x in s| == |s|
  {
    if |s| > 0 {
      var n := |s| - 1;
      DistinctCardinality(s[..n]);
      assert (set x | x in s) == (set x | x in s[..n]) + {s[n]};
      assert s[n] !in (set x | x in s[..n]);
    }
  }
}
