/** Order-preserving selection from a sequence, as the widget's `for`-and-`push` loops do it. */
module Seqs {
  /** The elements of `s` that satisfy `keep`, in their order in `s`. */
  function Filter<T>(s: seq<T>, keep: T -> bool): (r: seq<T>)
    ensures |r| <= |s|
  {
    if |s| == 0 then []
    else
      var init := s[..|s| - 1];
      Filter(init, keep) + (if keep(s[|s| - 1]) then [s[|s| - 1]] else [])
  }

  /** The positions in `idx` strictly increase. */
  ghost predicate Increasing(idx: seq<nat>) {
    forall k, l :: 0 <= k < l < |idx| ==> idx[k] < idx[l]
  }

  /**
   * `Filter` keeps exactly the elements that satisfy `keep`: the positions
   * it keeps, in increasing order, are those of the elements satisfying `keep`.
   */
  lemma {:induction false} FilterIndices<T>(s: seq<T>, keep: T -> bool) returns (idx: seq<nat>)
    ensures |idx| == |Filter(s, keep)|
    ensures forall k :: 0 <= k < |idx| ==> idx[k] < |s| && Filter(s, keep)[k] == s[idx[k]]
    ensures Increasing(idx)
    ensures forall j :: 0 <= j < |s| ==> (keep(s[j]) <==> j in idx)
  {
    if |s| == 0 {
      idx := [];
    } else {
      var prev := FilterIndices(s[..|s| - 1], keep);
      idx := FilterIndicesStep(s, keep, prev);
    }
  }

  /** One step of `FilterIndices`: from the positions kept in all but the last element to those kept in `s`. */
  lemma FilterIndicesStep<T>(s: seq<T>, keep: T -> bool, prev: seq<nat>) returns (idx: seq<nat>)
    requires |s| > 0
    requires |prev| == |Filter(s[..|s| - 1], keep)|
    requires forall k :: 0 <= k < |prev| ==> prev[k] < |s| - 1 && Filter(s[..|s| - 1], keep)[k] == s[..|s| - 1][prev[k]]
    requires Increasing(prev)
    requires forall j :: 0 <= j < |s| - 1 ==> (keep(s[..|s| - 1][j]) <==> j in prev)
    ensures |idx| == |Filter(s, keep)|
    ensures forall k :: 0 <= k < |idx| ==> idx[k] < |s| && Filter(s, keep)[k] == s[idx[k]]
    ensures Increasing(idx)
    ensures forall j :: 0 <= j < |s| ==> (keep(s[j]) <==> j in idx)
  {
    var n := |s| - 1;
    var init := s[..n];
    var r, f := Filter(s, keep), Filter(init, keep);
    if keep(s[n]) {
      idx := prev + [n];
      assert r == f + [s[n]];
      forall k, l | 0 <= k < l < |idx| ensures idx[k] < idx[l] {
        assert idx[k] == prev[k];
        if l < |prev| { assert idx[l] == prev[l]; }
      }
      forall k | 0 <= k < |idx| ensures idx[k] < |s| && r[k] == s[idx[k]] {
        if k < |prev| { assert r[k] == f[k]; }
      }
      forall j | 0 <= j < |s| ensures keep(s[j]) <==> j in idx {
        if j < n { assert keep(init[j]) <==> j in prev; }
      }
    } else {
      idx := prev;
      assert r == f;
      forall j | 0 <= j < |s| ensures keep(s[j]) <==> j in idx {
        if j < n { assert keep(init[j]) <==> j in prev; } else { assert n !in prev; }
      }
    }
  }
}
