/** Sequences filtered by a condition. */
module Sequences {

  function Filter<T>(keep: T -> bool, xs: seq<T>): (r: seq<T>)
    ensures |r| <= |xs|
  {
    if xs == [] then [] else (if keep(xs[0]) then [xs[0]] else []) + Filter(keep, xs[1..])
  }

  lemma Associative<T>(a: seq<T>, b: seq<T>, c: seq<T>)
    ensures (a + b) + c == a + (b + c)
  {
  }

  lemma {:induction false} FilterConcat<T>(keep: T -> bool, a: seq<T>, b: seq<T>)
    ensures Filter(keep, a + b) == Filter(keep, a) + Filter(keep, b)
  {
    if a == [] {
      assert a + b == b;
    } else {
      assert (a + b)[1..] == a[1..] + b;
      FilterConcat(keep, a[1..], b);
      Associative(if keep(a[0]) then [a[0]] else [], Filter(keep, a[1..]), Filter(keep, b));
    }
  }

  lemma {:induction false} FilterMembers<T>(keep: T -> bool, xs: seq<T>)
    ensures forall x :: x in Filter(keep, xs) ==> x in xs
    ensures forall x :: x in Filter(keep, xs) ==> keep(x)
    ensures forall x :: x in xs && keep(x) ==> x in Filter(keep, xs)
  {
    if xs != [] {
      FilterMembers(keep, xs[1..]);
      assert xs == [xs[0]] + xs[1..];
    }
  }

  lemma {:induction false} FilterAll<T>(keep: T -> bool, xs: seq<T>)
    requires forall i :: 0 <= i < |xs| ==> keep(xs[i])
    ensures Filter(keep, xs) == xs
  {
    if xs != [] { FilterAll(keep, xs[1..]); }
  }

  lemma {:induction false} FilterNone<T>(keep: T -> bool, xs: seq<T>)
    requires forall i :: 0 <= i < |xs| ==> !keep(xs[i])
    ensures Filter(keep, xs) == []
  {
    if xs != [] { FilterNone(keep, xs[1..]); }
  }
}
