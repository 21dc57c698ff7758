/** Order-preserving selection from a sequence, the shape shared by
    `Array.prototype.filter`, by the stable sort's equal-standing classes and by
    the card list's "skip records without an id". */
module Seqs {

  /** The elements of `s` that satisfy `keep`, in their original order. */
  function Filter<T>(s: seq<T>, keep: T -> bool): (r: seq<T>)
    ensures |r| <= |s|
    ensures forall i :: 0 <= i < |r| ==> keep(r[i])
    decreases |s|
  {
    if s == [] then []
    else Filter(s[..|s| - 1], keep) + (if keep(s[|s| - 1]) then [s[|s| - 1]] else [])
  }

  /** `idx` picks out `r` from `s` at strictly increasing positions. */
  ghost predicate Embedding<T>(idx: seq<nat>, r: seq<T>, s: seq<T>)
  {
    && |idx| == |r|
    && (forall i, j :: 0 <= i < j < |idx| ==> idx[i] < idx[j])
    && (forall i :: 0 <= i < |idx| ==> idx[i] < |s| && s[idx[i]] == r[i])
  }

  /** `r` is an in-order subsequence of `s`. */
  ghost predicate IsSubsequence<T>(r: seq<T>, s: seq<T>)
  {
    exists idx :: Embedding(idx, r, s)
  }

  lemma FilterSnoc<T>(s: seq<T>, x: T, keep: T -> bool)
    ensures Filter(s + [x], keep) == Filter(s, keep) + (if keep(x) then [x] else [])
  {
    assert (s + [x])[..|s|] == s;
  }

  /** Filter keeps exactly the positions whose element satisfies `keep`, and
      keeps them in order. */
  lemma {:induction false} FilterSelectsExactly<T>(s: seq<T>, keep: T -> bool) returns (idx: seq<nat>)
    ensures Embedding(idx, Filter(s, keep), s)
    ensures forall k :: 0 <= k < |s| ==> (keep(s[k]) <==> k in idx)
    decreases |s|
  {
    if s == [] {
      idx := [];
    } else {
      var init, last := s[..|s| - 1], s[|s| - 1];
      assert s == init + [last];
      var idx0 := FilterSelectsExactly(init, keep);
      FilterSnoc(init, last, keep);
      if keep(last) {
        idx := idx0 + [|s| - 1];
      } else {
        idx := idx0;
      }
      forall k | 0 <= k < |s| ensures keep(s[k]) <==> k in idx {
        if k < |s| - 1 {
          assert s[k] == init[k];
        } else {
          assert forall i :: 0 <= i < |idx0| ==> idx0[i] < |s| - 1;
        }
      }
    }
  }

  lemma FilterIsSubsequence<T>(s: seq<T>, keep: T -> bool)
    ensures IsSubsequence(Filter(s, keep), s)
  {
    var idx := FilterSelectsExactly(s, keep);
  }

  /** Every element occurs in the result exactly as often as in the input if it
      satisfies `keep`, and not at all otherwise. */
  lemma {:induction false} FilterCount<T>(s: seq<T>, keep: T -> bool, x: T)
    ensures multiset(Filter(s, keep))[x] == if keep(x) then multiset(s)[x] else 0
    decreases |s|
  {
    if s != [] {
      var init, last := s[..|s| - 1], s[|s| - 1];
      assert s == init + [last];
      FilterSnoc(init, last, keep);
      FilterCount(init, keep, x);
    }
  }

  /** Filtering twice by the same test is filtering once. */
  lemma {:induction false} FilterIdempotent<T>(s: seq<T>, keep: T -> bool)
    ensures Filter(Filter(s, keep), keep) == Filter(s, keep)
    decreases |s|
  {
    if s != [] {
      var init, last := s[..|s| - 1], s[|s| - 1];
      assert s == init + [last];
      FilterSnoc(init, last, keep);
      FilterIdempotent(init, keep);
      var f := Filter(init, keep);
      if keep(last) {
        calc {
          Filter(Filter(s, keep), keep);
          Filter(f + [last], keep);
          { FilterSnoc(f, last, keep); }
          Filter(f, keep) + [last];
          f + [last];
        }
      } else {
        assert Filter(s, keep) == f;
      }
    }
  }

  /** Filter returns its input unchanged exactly when every element passes. */
  lemma {:induction false} FilterIdentity<T>(s: seq<T>, keep: T -> bool)
    ensures Filter(s, keep) == s <==> forall i :: 0 <= i < |s| ==> keep(s[i])
    decreases |s|
  {
    if s != [] {
      var init, last := s[..|s| - 1], s[|s| - 1];
      assert s == init + [last];
      FilterSnoc(init, last, keep);
      FilterIdentity(init, keep);
      if forall i :: 0 <= i < |s| ==> keep(s[i]) {
        assert forall i :: 0 <= i < |init| ==> keep(init[i]) by {
          forall i | 0 <= i < |init| ensures keep(init[i]) { assert init[i] == s[i]; }
        }
      } else if keep(last) {
        var i :| 0 <= i < |s| && !keep(s[i]);
        assert i < |init| && !keep(init[i]);
      } else {
        assert |Filter(s, keep)| < |s|;
      }
    }
  }
}
