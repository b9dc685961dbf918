/** Counting the elements of a sequence that satisfy a test, as Python's
    `sum(test(x) for x in xs)` does. */
module Counting {

  /** How many elements of xs satisfy f. */
  function CountWhere<T>(xs: seq<T>, f: T -> bool): (r: nat)
    ensures r <= |xs|
    ensures r > 0 <==> exists i :: 0 <= i < |xs| && f(xs[i])
    decreases |xs|
  {
    if |xs| == 0 then 0
    else
      var rest := CountWhere(xs[1..], f);
      assert forall i :: 1 <= i < |xs| ==> xs[i] == xs[1..][i - 1];
      (if f(xs[0]) then 1 else 0) + rest
  }

  /** The elements of xs that satisfy f. */
  function Where<T>(xs: seq<T>, f: T -> bool): set<T> {
    set x | x in xs && f(x)
  }

  /** Over a sequence without repetitions, the count is the size of the set of
      elements satisfying f. */
  lemma {:induction false} CountWhereIsSetSize<T>(xs: seq<T>, f: T -> bool)
    requires forall i, j :: 0 <= i < j < |xs| ==> xs[i] != xs[j]
    ensures CountWhere(xs, f) == |Where(xs, f)|
    decreases |xs|
  {
    if |xs| > 0 {
      var tail := xs[1..];
      CountWhereIsSetSize(tail, f);
      var rest := Where(tail, f);
      var all := Where(xs, f);
      assert xs[0] !in rest;
      assert forall x :: x in xs <==> x == xs[0] || x in tail;
      if f(xs[0]) {
        assert all == {xs[0]} + rest;
      } else {
        assert all == rest;
      }
    }
  }

  /** A weaker test counts at least as many elements. */
  lemma {:induction false} CountWhereMonotone<T>(xs: seq<T>, f: T -> bool, g: T -> bool)
    requires forall x :: f(x) ==> g(x)
    ensures CountWhere(xs, f) <= CountWhere(xs, g)
    decreases |xs|
  {
    if |xs| > 0 {
      CountWhereMonotone(xs[1..], f, g);
    }
  }
}
