/** Lists of child slots, where a slot holds a value or something falsy;
    `array_filter()` without a callback, which drops the falsy slots, and
    `array_values( array_filter( $xs, $callback ) )`, which keeps the
    values the callback accepts. */
module Falsy {
  import opened Wrappers

  /** `array_filter($slots)`: the values, falsy slots dropped, order kept. */
  function Present<T(!new)>(cs: seq<Option<T>>): (r: seq<T>)
    ensures |r| <= |cs|
    ensures forall x :: x in r <==> Some(x) in cs
  {
    if |cs| == 0 then []
    else
      var t := Present(cs[1..]);
      assert forall x :: Some(x) in cs <==> cs[0] == Some(x) || Some(x) in cs[1..];
      (if cs[0].Some? then [cs[0].value] else []) + t
  }

  /** Filtering distributes over concatenation, so relative order is kept. */
  lemma {:induction false} PresentAppend<T(!new)>(a: seq<Option<T>>, b: seq<Option<T>>)
    ensures Present(a + b) == Present(a) + Present(b)
  {
    if |a| > 0 {
      assert (a + b)[1..] == a[1..] + b;
      PresentAppend(a[1..], b);
    } else {
      assert a + b == b;
    }
  }

  /** Values as slots that are all filled. */
  function AsSlots<T(!new)>(xs: seq<T>): (r: seq<Option<T>>)
    ensures |r| == |xs| && forall i :: 0 <= i < |xs| ==> r[i] == Some(xs[i])
  {
    seq(|xs|, i requires 0 <= i < |xs| => Some(xs[i]))
  }

  /** Filtering filled slots gives back the values. */
  lemma {:induction false} PresentAsSlots<T(!new)>(xs: seq<T>)
    ensures Present(AsSlots(xs)) == xs
  {
    if |xs| > 0 {
      assert AsSlots(xs)[1..] == AsSlots(xs[1..]);
      PresentAsSlots(xs[1..]);
    }
  }

  /** Filtering twice is filtering once. */
  lemma PresentIdempotent<T(!new)>(cs: seq<Option<T>>)
    ensures Present(AsSlots(Present(cs))) == Present(cs)
  {
    PresentAsSlots(Present(cs));
  }

  /** With every slot filled, filtering drops nothing. */
  lemma {:induction false} PresentAll<T(!new)>(cs: seq<Option<T>>)
    requires forall i :: 0 <= i < |cs| ==> cs[i].Some?
    ensures |Present(cs)| == |cs| && forall i :: 0 <= i < |cs| ==> Present(cs)[i] == cs[i].value
  {
    if |cs| > 0 {
      PresentAll(cs[1..]);
    }
  }

  /** `array_values( array_filter( $xs, $p ) )`: the accepted values, in
      order. */
  function Keep<T(!new)>(xs: seq<T>, p: T -> bool): (r: seq<T>)
    ensures |r| <= |xs|
    ensures forall x :: x in r <==> x in xs && p(x)
  {
    if |xs| == 0 then []
    else
      var t := Keep(xs[1..], p);
      assert forall x :: x in xs <==> x == xs[0] || x in xs[1..];
      (if p(xs[0]) then [xs[0]] else []) + t
  }

  /** Keeping distributes over concatenation, so relative order is kept. */
  lemma {:induction false} KeepAppend<T(!new)>(a: seq<T>, b: seq<T>, p: T -> bool)
    ensures Keep(a + b, p) == Keep(a, p) + Keep(b, p)
  {
    if |a| > 0 {
      assert (a + b)[1..] == a[1..] + b;
      KeepAppend(a[1..], b, p);
    } else {
      assert a + b == b;
    }
  }

  /** `xs[i]` is accepted and nothing after it is. */
  predicate LastAccepted<T>(xs: seq<T>, p: T -> bool, i: int) {
    0 <= i < |xs| && p(xs[i]) && forall j :: i < j < |xs| ==> !p(xs[j])
  }

  /** The last kept value is the last accepted value of the input. */
  lemma {:induction false} KeepLast<T(!new)>(xs: seq<T>, p: T -> bool)
    requires |Keep(xs, p)| > 0
    ensures exists i :: LastAccepted(xs, p, i) && xs[i] == Keep(xs, p)[|Keep(xs, p)| - 1]
  {
    var t := Keep(xs[1..], p);
    var h := if p(xs[0]) then [xs[0]] else [];
    assert Keep(xs, p) == h + t;
    if |t| > 0 {
      assert Keep(xs, p)[|Keep(xs, p)| - 1] == t[|t| - 1];
      KeepLast(xs[1..], p);
      var i :| LastAccepted(xs[1..], p, i) && xs[1..][i] == t[|t| - 1];
      forall j | i + 1 < j < |xs| ensures !p(xs[j]) {
        assert xs[j] == xs[1..][j - 1];
      }
      assert xs[i + 1] == xs[1..][i];
      assert LastAccepted(xs, p, i + 1);
    } else {
      assert Keep(xs, p) == [xs[0]] && p(xs[0]);
      forall j | 0 < j < |xs| ensures !p(xs[j]) {
        assert xs[j] in xs[1..];
      }
      assert LastAccepted(xs, p, 0);
    }
  }

  /** Nothing is kept exactly when nothing is accepted. */
  lemma KeepEmptyIff<T(!new)>(xs: seq<T>, p: T -> bool)
    ensures |Keep(xs, p)| == 0 <==> forall i :: 0 <= i < |xs| ==> !p(xs[i])
  {
    var kept := Keep(xs, p);
    if |kept| > 0 {
      assert kept[0] in kept;
    } else {
      forall i | 0 <= i < |xs| ensures !p(xs[i]) {
        assert xs[i] in xs;
      }
    }
  }

  /** `array_pop( array_filter( $xs, $p ) )`: the last accepted value, or
      `None` when nothing is accepted. */
  function LastKept<T(!new)>(xs: seq<T>, p: T -> bool): (r: Option<T>)
    ensures r.None? <==> forall i :: 0 <= i < |xs| ==> !p(xs[i])
    ensures r.Some? ==> exists i :: LastAccepted(xs, p, i) && xs[i] == r.value
  {
    var kept := Keep(xs, p);
    KeepEmptyIff(xs, p);
    if |kept| == 0 then None
    else
      KeepLast(xs, p);
      Some(kept[|kept| - 1])
  }

  /** Some element of `us` stands in relation `p` to `x`. */
  ghost predicate CoveredBy<T, U>(us: seq<U>, p: (U, T) -> bool, x: T) {
    exists i :: 0 <= i < |us| && p(us[i], x)
  }

  /** Every element of `xs` is covered by some element of `us`. */
  ghost predicate AllCoveredBy<T, U>(xs: seq<T>, us: seq<U>, p: (U, T) -> bool) {
    forall j :: 0 <= j < |xs| ==> CoveredBy(us, p, xs[j])
  }

  lemma CoveredByTail<T, U>(us: seq<U>, p: (U, T) -> bool, x: T)
    requires |us| > 0 && CoveredBy(us[1..], p, x)
    ensures CoveredBy(us, p, x)
  {
    var i :| 0 <= i < |us[1..]| && p(us[1..][i], x);
    assert us[1..][i] == us[i + 1];
  }

  /** Covering survives a longer source list. */
  lemma AllCoveredByTail<T, U>(xs: seq<T>, us: seq<U>, p: (U, T) -> bool)
    requires |us| > 0 && AllCoveredBy(xs, us[1..], p)
    ensures AllCoveredBy(xs, us, p)
  {
    forall j | 0 <= j < |xs| ensures CoveredBy(us, p, xs[j]) {
      CoveredByTail(us, p, xs[j]);
    }
  }

  /** An element covered by the head of the source list may be put in
      front. */
  lemma AllCoveredByCons<T, U>(x: T, xs: seq<T>, us: seq<U>, p: (U, T) -> bool)
    requires |us| > 0 && p(us[0], x) && AllCoveredBy(xs, us[1..], p)
    ensures AllCoveredBy([x] + xs, us, p)
  {
    var all := [x] + xs;
    forall j | 0 <= j < |all| ensures CoveredBy(us, p, all[j]) {
      if j == 0 {
        assert all[0] == x;
      } else {
        assert all[j] == xs[j - 1];
        CoveredByTail(us, p, xs[j - 1]);
      }
    }
  }
}
