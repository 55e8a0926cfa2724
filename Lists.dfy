/** Python list operations the inventory code uses on lists it changes in place. */
module Lists {
  import opened Wrappers

  /**
   * `xs.remove(x)`: the first element equal to `x` is taken out; without one,
   * `list.remove` raises `ValueError`, here `None`.
   */
  function RemoveFirst<T(==)>(xs: seq<T>, x: T): (r: Option<seq<T>>)
    ensures r.None? <==> x !in xs
    ensures r.Some? ==> |r.value| == |xs| - 1
  {
    if xs == [] then None
    else if xs[0] == x then Some(xs[1..])
    else
      match RemoveFirst(xs[1..], x)
      case None => None
      case Some(rest) => Some([xs[0]] + rest)
  }

  /** `remove` takes out exactly one copy of `x` and keeps every other element. */
  lemma {:induction false} RemoveFirstOneCopy<T>(xs: seq<T>, x: T)
    requires x in xs
    ensures multiset(RemoveFirst(xs, x).value) + multiset{x} == multiset(xs)
  {
    assert xs == [xs[0]] + xs[1..];
    if xs[0] != x {
      RemoveFirstOneCopy(xs[1..], x);
    }
  }

  /** Removing an element whose first occurrence is at `i` cuts out index `i`. */
  lemma {:induction false} RemoveFirstAt<T>(xs: seq<T>, i: nat)
    requires i < |xs| && forall j :: 0 <= j < i ==> xs[j] != xs[i]
    ensures RemoveFirst(xs, xs[i]) == Some(xs[..i] + xs[i + 1..])
    decreases i
  {
    if i == 0 {
      assert xs[..0] + xs[1..] == xs[1..];
    } else {
      var tail := xs[1..];
      forall j | 0 <= j < i - 1
        ensures tail[j] != tail[i - 1]
      {
        assert tail[j] == xs[j + 1] && tail[i - 1] == xs[i];
      }
      RemoveFirstAt(tail, i - 1);
      var rest := tail[..i - 1] + tail[i..];
      assert xs[0] != xs[i] && tail[i - 1] == xs[i];
      RemoveFirstCons(xs, xs[i], rest);
      SpliceFront(xs, i);
    }
  }

  /** Past a different first element, `remove` works on the rest and keeps that element in front. */
  lemma RemoveFirstCons<T>(xs: seq<T>, x: T, rest: seq<T>)
    requires xs != [] && xs[0] != x && RemoveFirst(xs[1..], x) == Some(rest)
    ensures RemoveFirst(xs, x) == Some([xs[0]] + rest)
  {
  }

  lemma SpliceFront<T>(xs: seq<T>, i: nat)
    requires 0 < i < |xs|
    ensures [xs[0]] + (xs[1..][..i - 1] + xs[1..][i..]) == xs[..i] + xs[i + 1..]
  {
    assert xs[1..][..i - 1] == xs[1..i] && xs[1..][i..] == xs[i + 1..];
    assert xs[..i] == [xs[0]] + xs[1..i];
  }
}
