/** `Array.prototype.findIndex`, counting and flat-mapping over sequences. */
module Lists {

  /** `xs.findIndex(p)`: the first position whose element satisfies `p`, or -1. */
  function FindIndex<T>(xs: seq<T>, p: T -> bool): (r: int)
    ensures -1 <= r < |xs|
    ensures r == -1 <==> forall j :: 0 <= j < |xs| ==> !p(xs[j])
    ensures r >= 0 ==> p(xs[r]) && forall j :: 0 <= j < r ==> !p(xs[j])
  {
    if xs == [] then -1
    else if p(xs[0]) then 0
    else
      var k := FindIndex(xs[1..], p);
      if k < 0 then -1 else k + 1
  }

  /** Number of elements satisfying `p`. */
  function CountWhere<T>(xs: seq<T>, p: T -> bool): (r: nat)
    ensures r <= |xs|
  {
    if xs == [] then 0 else (if p(xs[0]) then 1 else 0) + CountWhere(xs[1..], p)
  }

  lemma {:induction false} CountWhereAppend<T>(xs: seq<T>, x: T, p: T -> bool)
    ensures CountWhere(xs + [x], p) == CountWhere(xs, p) + (if p(x) then 1 else 0)
  {
    if xs != [] {
      assert (xs + [x])[1..] == xs[1..] + [x];
      CountWhereAppend(xs[1..], x, p);
    }
  }

  /** `xs.flatMap(f)`: the results of `f`, concatenated in order. */
  function FlatMap<T, U>(xs: seq<T>, f: T -> seq<U>): seq<U> {
    if xs == [] then [] else f(xs[0]) + FlatMap(xs[1..], f)
  }

  lemma {:induction false} FlatMapAppend<T, U>(xs: seq<T>, x: T, f: T -> seq<U>)
    ensures FlatMap(xs + [x], f) == FlatMap(xs, f) + f(x)
  {
    if xs == [] {
      assert [x][1..] == [];
    } else {
      assert (xs + [x])[0] == xs[0] && (xs + [x])[1..] == xs[1..] + [x];
      FlatMapAppend(xs[1..], x, f);
      assert f(xs[0]) + (FlatMap(xs[1..], f) + f(x)) == (f(xs[0]) + FlatMap(xs[1..], f)) + f(x);
    }
  }
}
