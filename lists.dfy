/** Python's `filter` and list comprehensions over sequences. */
module Lists {
  /** `list(filter(keep, xs))`: the elements satisfying `keep`, in order. */
  function Filter<T>(xs: seq<T>, keep: T -> bool): (r: seq<T>)
    ensures |r| <= |xs|
  {
    if xs == [] then []
    else if keep(xs[0]) then [xs[0]] + Filter(xs[1..], keep)
    else Filter(xs[1..], keep)
  }

  /** `[f(x) for x in xs]`. */
  function Map<T, U>(xs: seq<T>, f: T -> U): (r: seq<U>)
    ensures |r| == |xs| && forall k :: 0 <= k < |xs| ==> r[k] == f(xs[k])
  {
    seq(|xs|, k requires 0 <= k < |xs| => f(xs[k]))
  }

  /** `[f(x) for x in xs[i:] if keep(x)]`, that is `Map(Filter(xs[i..], keep), f)`, stated from an
      index so that it follows the index-based scans of the parser step by step. */
  function Selected<T, U>(xs: seq<T>, i: nat, keep: T -> bool, f: T -> U): seq<U>
    requires i <= |xs|
    decreases |xs| - i
  {
    if i == |xs| then []
    else if keep(xs[i]) then [f(xs[i])] + Selected(xs, i + 1, keep, f)
    else Selected(xs, i + 1, keep, f)
  }

  /** `Selected` is the comprehension written with `Filter` and `Map`. */
  lemma {:induction false} SelectedIsMapFilter<T, U>(xs: seq<T>, i: nat, keep: T -> bool, f: T -> U)
    requires i <= |xs|
    ensures Selected(xs, i, keep, f) == Map(Filter(xs[i..], keep), f)
    decreases |xs| - i
  {
    if i < |xs| {
      SelectedIsMapFilter(xs, i + 1, keep, f);
      assert xs[i..][1..] == xs[i + 1..];
      var rest := Filter(xs[i + 1..], keep);
      if keep(xs[i]) {
        assert Filter(xs[i..], keep) == [xs[i]] + rest;
        assert Map([xs[i]] + rest, f) == [f(xs[i])] + Map(rest, f);
      } else {
        assert Filter(xs[i..], keep) == rest;
      }
    }
  }

  /** The selection holds the images of the kept elements at or after `i`, and nothing else. */
  lemma {:induction false} SelectedMembers<T, U>(xs: seq<T>, i: nat, keep: T -> bool, f: T -> U, y: U)
    requires i <= |xs|
    ensures y in Selected(xs, i, keep, f) <==> exists p :: i <= p < |xs| && keep(xs[p]) && f(xs[p]) == y
    decreases |xs| - i
  {
    if i < |xs| {
      SelectedMembers(xs, i + 1, keep, f, y);
      if keep(xs[i]) && f(xs[i]) == y {
        assert y in Selected(xs, i, keep, f) by {
          assert Selected(xs, i, keep, f) == [y] + Selected(xs, i + 1, keep, f);
        }
      } else {
        assert y in Selected(xs, i, keep, f) <==> y in Selected(xs, i + 1, keep, f) by {
          if keep(xs[i]) {
            assert Selected(xs, i, keep, f) == [f(xs[i])] + Selected(xs, i + 1, keep, f);
          }
        }
        if y in Selected(xs, i + 1, keep, f) {
          var p :| i + 1 <= p < |xs| && keep(xs[p]) && f(xs[p]) == y;
        }
      }
    }
  }

  /** An element survives the filter exactly when it is in the input and is kept. */
  lemma {:induction false} FilterMembers<T>(xs: seq<T>, keep: T -> bool, x: T)
    ensures x in Filter(xs, keep) <==> x in xs && keep(x)
  {
    if xs != [] {
      FilterMembers(xs[1..], keep, x);
      assert xs == [xs[0]] + xs[1..];
    }
  }

  /** Filtering keeps the order: filtering two parts gives the two filtered parts. */
  lemma {:induction false} FilterAppend<T>(a: seq<T>, b: seq<T>, keep: T -> bool)
    ensures Filter(a + b, keep) == Filter(a, keep) + Filter(b, keep)
  {
    if a == [] {
      assert a + b == b;
    } else {
      assert (a + b)[1..] == a[1..] + b;
      FilterAppend(a[1..], b, keep);
    }
  }

  /** Mapping commutes with concatenation. */
  lemma MapAppend<T, U>(a: seq<T>, b: seq<T>, f: T -> U)
    ensures Map(a + b, f) == Map(a, f) + Map(b, f)
  {
  }

  /** An image is in the mapped sequence exactly when some element maps to it. */
  lemma MapMembers<T, U>(xs: seq<T>, f: T -> U, y: U)
    ensures y in Map(xs, f) <==> exists x :: x in xs && f(x) == y
  {
    if y in Map(xs, f) {
      var k :| 0 <= k < |xs| && Map(xs, f)[k] == y;
      assert xs[k] in xs;
    }
  }
}
