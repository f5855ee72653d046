/** The shape shared by the script's `each` loops that push an item for
    some elements only: keep the elements that pass a test, each mapped to
    the item pushed for it, in order. */
module Seqs {
  /** `f(x)` for every `x` of `xs` with `keep(x)`, in the order of `xs`. */
  ghost function FilterMap<T, U>(xs: seq<T>, keep: T -> bool, f: T -> U): (r: seq<U>)
    ensures |r| <= |xs|
    decreases |xs|
  {
    if xs == [] then []
    else
      var n := |xs| - 1;
      FilterMap(xs[..n], keep, f) + (if keep(xs[n]) then [f(xs[n])] else [])
  }

  /** One more element adds its item at the end when it passes the test. */
  lemma FilterMapSnoc<T, U>(xs: seq<T>, x: T, keep: T -> bool, f: T -> U)
    ensures FilterMap(xs + [x], keep, f) == FilterMap(xs, keep, f) + (if keep(x) then [f(x)] else [])
  {
    assert (xs + [x])[..|xs|] == xs;
  }

  /** The items kept from two runs are those of the first run, then those of the second. */
  lemma {:induction false} FilterMapAppend<T, U>(a: seq<T>, b: seq<T>, keep: T -> bool, f: T -> U)
    ensures FilterMap(a + b, keep, f) == FilterMap(a, keep, f) + FilterMap(b, keep, f)
    decreases |b|
  {
    if b == [] {
      assert a + b == a;
    } else {
      var n := |b| - 1;
      assert a + b == (a + b[..n]) + [b[n]];
      FilterMapSnoc(a + b[..n], b[n], keep, f);
      FilterMapAppend(a, b[..n], keep, f);
      assert b == b[..n] + [b[n]];
      FilterMapSnoc(b[..n], b[n], keep, f);
    }
  }

  /** An item is kept exactly when some element that passes the test maps to it. */
  lemma {:induction false} FilterMapMembership<T, U>(xs: seq<T>, keep: T -> bool, f: T -> U, y: U)
    ensures y in FilterMap(xs, keep, f) <==> exists i :: 0 <= i < |xs| && keep(xs[i]) && f(xs[i]) == y
    decreases |xs|
  {
    if xs != [] {
      var n := |xs| - 1;
      var init := xs[..n];
      FilterMapMembership(init, keep, f, y);
      if y in FilterMap(init, keep, f) {
        var i :| 0 <= i < n && keep(init[i]) && f(init[i]) == y;
        assert init[i] == xs[i];
      }
      if exists i :: 0 <= i < |xs| && keep(xs[i]) && f(xs[i]) == y {
        var i :| 0 <= i < |xs| && keep(xs[i]) && f(xs[i]) == y;
        if i < n {
          assert init[i] == xs[i];
        }
      }
    }
  }

  /** A test that holds for more elements keeps at least as many items. */
  lemma {:induction false} FilterMapMonotone<T, U>(xs: seq<T>, fewer: T -> bool, more: T -> bool, f: T -> U)
    requires forall x :: fewer(x) ==> more(x)
    ensures |FilterMap(xs, fewer, f)| <= |FilterMap(xs, more, f)|
    decreases |xs|
  {
    if xs != [] {
      FilterMapMonotone(xs[..|xs| - 1], fewer, more, f);
    }
  }
}
