/** `generic.Map`: a slice transformed element by element. */
module Generic {

  /** Element-wise application, as a recursive definition. */
  function Map<I, O>(xs: seq<I>, f: I -> O): (ys: seq<O>)
    ensures |ys| == |xs|
    ensures forall i :: 0 <= i < |xs| ==> ys[i] == f(xs[i])
    decreases |xs|
  {
    if xs == [] then [] else [f(xs[0])] + Map(xs[1..], f)
  }

  /** The loop of `generic.Map`: `ys[i] = f(x)` for each index in turn. */
  method MapLoop<I, O>(xs: seq<I>, f: I -> O) returns (ys: seq<O>)
    ensures |ys| == |xs|
    ensures forall i :: 0 <= i < |xs| ==> ys[i] == f(xs[i])
    ensures ys == Map(xs, f)
  {
    ys := [];
    var i := 0;
    while i < |xs|
      invariant 0 <= i <= |xs|
      invariant |ys| == i
      invariant forall j :: 0 <= j < i ==> ys[j] == f(xs[j])
    {
      ys := ys + [f(xs[i])];
      i := i + 1;
    }
  }

  /** Mapping keeps order across a concatenation. */
  lemma {:induction false} MapAppend<I, O>(xs: seq<I>, zs: seq<I>, f: I -> O)
    ensures Map(xs + zs, f) == Map(xs, f) + Map(zs, f)
    decreases |xs|
  {
    if xs == [] {
      assert xs + zs == zs;
    } else {
      assert (xs + zs)[1..] == xs[1..] + zs;
      MapAppend(xs[1..], zs, f);
    }
  }

  /** Mapping a composition is mapping twice. */
  lemma {:induction false} MapCompose<A, B, C>(xs: seq<A>, f: A -> B, g: B -> C)
    ensures Map(Map(xs, f), g) == Map(xs, x => g(f(x)))
    decreases |xs|
  {
    if xs != [] {
      MapCompose(xs[1..], f, g);
      assert Map(xs, f)[1..] == Map(xs[1..], f);
    }
  }
}
