/**
 Sequence utilities: keeping the present results of a partial map.
 */
module Seqs {
  import opened Strings

  /** The value of `o` as a sequence of length 0 or 1. */
  function Present<B>(o: Option<B>): seq<B> {
    match o
    case Some(y) => [y]
    case None => []
  }

  /** The values `f` yields on `xs`, in order, skipping the elements it maps to `None`. */
  function FilterMap<A, B>(xs: seq<A>, f: A -> Option<B>): (r: seq<B>)
    ensures |r| <= |xs|
  {
    if |xs| == 0 then [] else Present(f(xs[0])) + FilterMap(xs[1..], f)
  }

  /** Every kept value satisfies what every `Some` result of `f` on `xs` satisfies. */
  lemma {:induction false} FilterMapAll<A, B>(xs: seq<A>, f: A -> Option<B>, p: B -> bool)
    requires forall k :: 0 <= k < |xs| && f(xs[k]).Some? ==> p(f(xs[k]).value)
    ensures forall k :: 0 <= k < |FilterMap(xs, f)| ==> p(FilterMap(xs, f)[k])
  {
    if |xs| > 0 {
      FilterMapAll(xs[1..], f, p);
    }
  }

  /** Elements are handled independently: the results of a concatenation concatenate. */
  lemma {:induction false} FilterMapConcat<A, B>(xs: seq<A>, ys: seq<A>, f: A -> Option<B>)
    ensures FilterMap(xs + ys, f) == FilterMap(xs, f) + FilterMap(ys, f)
  {
    if |xs| == 0 {
      assert xs + ys == ys;
    } else {
      var zs := xs + ys;
      assert zs[0] == xs[0];
      assert zs[1..] == xs[1..] + ys;
      FilterMapConcat(xs[1..], ys, f);
      var h := Present(f(xs[0]));
      assert FilterMap(zs, f) == h + (FilterMap(xs[1..], f) + FilterMap(ys, f));
      assert FilterMap(xs, f) == h + FilterMap(xs[1..], f);
    }
  }
}
