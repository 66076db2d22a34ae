/** Positions within a sequence: the indices a list of flags marks, and the
    elements at those indices, in order. A loop that keeps some elements
    of a list and drops the others produces exactly these. */
module Positions {

  /** The indices from `from` on at which `bs` holds, in increasing order. */
  function Marked(bs: seq<bool>, from: nat): (r: seq<nat>)
    requires from <= |bs|
    ensures forall k :: 0 <= k < |r| ==> from <= r[k] < |bs|
    decreases |bs| - from
  {
    if from == |bs| then []
    else
      var t := Marked(bs, from + 1);
      if bs[from] then [from] + t else t
  }

  /** Only marked indices are listed. */
  lemma {:induction false} MarkedSound(bs: seq<bool>, from: nat)
    requires from <= |bs|
    ensures forall k :: 0 <= k < |Marked(bs, from)| ==> bs[Marked(bs, from)[k]]
    decreases |bs| - from
  {
    if from < |bs| {
      MarkedSound(bs, from + 1);
      var t := Marked(bs, from + 1);
      var r := Marked(bs, from);
      if bs[from] {
        assert r == [from] + t;
        forall k | 0 <= k < |r| ensures bs[r[k]] {
          if k > 0 {
            assert r[k] == t[k - 1];
          }
        }
      }
    }
  }

  /** The indices increase, so none is listed twice. */
  lemma {:induction false} MarkedIncreasing(bs: seq<bool>, from: nat)
    requires from <= |bs|
    ensures forall k, l :: 0 <= k < l < |Marked(bs, from)| ==> Marked(bs, from)[k] < Marked(bs, from)[l]
    decreases |bs| - from
  {
    if from < |bs| {
      MarkedIncreasing(bs, from + 1);
      var t := Marked(bs, from + 1);
      var r := Marked(bs, from);
      if bs[from] {
        assert r == [from] + t;
        forall k, l | 0 <= k < l < |r| ensures r[k] < r[l] {
          assert r[l] == t[l - 1];
          if k > 0 {
            assert r[k] == t[k - 1];
          }
        }
      }
    }
  }

  /** Every marked index from `from` on is listed. */
  lemma {:induction false} MarkedComplete(bs: seq<bool>, from: nat)
    requires from <= |bs|
    ensures forall i :: from <= i < |bs| && bs[i] ==> i in Marked(bs, from)
    decreases |bs| - from
  {
    if from < |bs| {
      MarkedComplete(bs, from + 1);
      var t := Marked(bs, from + 1);
      if bs[from] {
        assert Marked(bs, from) == [from] + t;
      }
    }
  }

  /** The elements of `xs` from `from` on whose flags hold, in order. */
  function Select<T>(xs: seq<T>, bs: seq<bool>, from: nat): (r: seq<T>)
    requires |xs| == |bs| && from <= |xs|
    ensures |r| <= |xs| - from
    decreases |xs| - from
  {
    if from == |xs| then []
    else (if bs[from] then [xs[from]] else []) + Select(xs, bs, from + 1)
  }

  /** The k-th selected element is the element at the k-th marked index. */
  lemma {:induction false} SelectAt<T>(xs: seq<T>, bs: seq<bool>, from: nat)
    requires |xs| == |bs| && from <= |xs|
    ensures |Select(xs, bs, from)| == |Marked(bs, from)|
    ensures forall k :: 0 <= k < |Marked(bs, from)| ==> Select(xs, bs, from)[k] == xs[Marked(bs, from)[k]]
    decreases |xs| - from
  {
    if from < |xs| {
      SelectAt(xs, bs, from + 1);
      var idx := Marked(bs, from);
      var sel := Select(xs, bs, from);
      var t := Marked(bs, from + 1);
      var rest := Select(xs, bs, from + 1);
      if bs[from] {
        assert idx == [from] + t && sel == [xs[from]] + rest;
        forall k | 0 <= k < |idx| ensures sel[k] == xs[idx[k]] {
          if k > 0 {
            assert idx[k] == t[k - 1] && sel[k] == rest[k - 1];
          }
        }
      } else {
        assert idx == t && sel == rest;
      }
    }
  }

  /** Dropping the first element and its flag selects the same elements
      from one place further on. */
  lemma {:induction false} SelectTail<T>(xs: seq<T>, bs: seq<bool>, from: nat)
    requires |xs| == |bs| && from < |xs|
    ensures Select(xs, bs, from + 1) == Select(xs[1..], bs[1..], from)
    decreases |xs| - from
  {
    if from + 1 < |xs| {
      SelectTail(xs, bs, from + 1);
      assert xs[1..][from] == xs[from + 1] && bs[1..][from] == bs[from + 1];
    }
  }

  /** Concatenation regroups freely. */
  lemma AppendAssoc<T>(a: seq<T>, b: seq<T>, c: seq<T>)
    ensures (a + b) + c == a + (b + c)
  {
  }
}
