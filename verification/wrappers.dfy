/** The optional-value datatype used for the source's error returns and absent
    stats, and the filter-and-map over sequences that the source's generators
    perform. */
module Wrappers {

  /** `None` stands for a missing value (an absent file, a path `with_suffix` refuses). */
  datatype Option<+T> = None | Some(value: T)

  /** Keeps, in order, the values `f` produces, dropping the `None`s; the
      shape of a generator that skips some inputs and transforms the rest. */
  function FilterMap<A, B>(xs: seq<A>, f: A -> Option<B>): (ys: seq<B>)
    ensures |ys| <= |xs|
  {
    if xs == [] then []
    else
      var rest := FilterMap(xs[1..], f);
      match f(xs[0])
      case Some(y) => [y] + rest
      case None => rest
  }

  /** Filtering streams: a concatenation filters to the concatenation. */
  lemma {:induction false} FilterMapConcat<A, B>(xs: seq<A>, zs: seq<A>, f: A -> Option<B>)
    ensures FilterMap(xs + zs, f) == FilterMap(xs, f) + FilterMap(zs, f)
  {
    if xs == [] {
      assert xs + zs == zs;
    } else {
      assert (xs + zs)[1..] == xs[1..] + zs;
      assert (xs + zs)[0] == xs[0];
      FilterMapConcat(xs[1..], zs, f);
    }
  }

  /** A value is kept exactly when some input produces it. */
  lemma {:induction false} FilterMapMembers<A, B>(xs: seq<A>, f: A -> Option<B>, y: B)
    ensures y in FilterMap(xs, f) <==> exists k :: 0 <= k < |xs| && f(xs[k]) == Some(y)
  {
    if xs != [] {
      FilterMapMembers(xs[1..], f, y);
      if y in FilterMap(xs[1..], f) {
        var k :| 0 <= k < |xs[1..]| && f(xs[1..][k]) == Some(y);
        assert f(xs[k + 1]) == Some(y);
      }
      if exists k :: 0 <= k < |xs| && f(xs[k]) == Some(y) {
        var k :| 0 <= k < |xs| && f(xs[k]) == Some(y);
        if k > 0 {
          assert xs[1..][k - 1] == xs[k];
        }
      }
    }
  }

  /** Every kept value has a property that every produced value has. */
  lemma {:induction false} FilterMapKeeps<A, B>(xs: seq<A>, f: A -> Option<B>, p: B -> bool)
    requires forall x :: f(x).Some? ==> p(f(x).value)
    ensures forall j :: 0 <= j < |FilterMap(xs, f)| ==> p(FilterMap(xs, f)[j])
  {
    if xs != [] {
      FilterMapKeeps(xs[1..], f, p);
    }
  }
}
