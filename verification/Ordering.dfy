/** Sorting by key, and the byte order of names. */
module Ordering {

  ghost predicate TotalPreorder<T(!new)>(leq: (T, T) -> bool) {
    && (forall x, y :: leq(x, y) || leq(y, x))
    && (forall x, y, z :: leq(x, y) && leq(y, z) ==> leq(x, z))
  }

  ghost predicate SortedBy<T>(xs: seq<T>, leq: (T, T) -> bool) {
    forall i, j :: 0 <= i < j < |xs| ==> leq(xs[i], xs[j])
  }

  function Insert<T>(x: T, xs: seq<T>, leq: (T, T) -> bool): seq<T> {
    if xs == [] || leq(x, xs[0]) then [x] + xs else [xs[0]] + Insert(x, xs[1..], leq)
  }

  /** `sort_by_key`: an element stays in front of later ones with an equal key. */
  function Sort<T>(xs: seq<T>, leq: (T, T) -> bool): seq<T> {
    if xs == [] then [] else Insert(xs[0], Sort(xs[1..], leq), leq)
  }

  lemma {:induction false} InsertKeeps<T>(x: T, xs: seq<T>, leq: (T, T) -> bool)
    ensures multiset(Insert(x, xs, leq)) == multiset([x] + xs)
  {
    if xs != [] && !leq(x, xs[0]) {
      InsertKeeps(x, xs[1..], leq);
      assert xs == [xs[0]] + xs[1..];
    }
  }

  lemma {:induction false} InsertSorts<T(!new)>(x: T, xs: seq<T>, leq: (T, T) -> bool)
    requires TotalPreorder(leq) && SortedBy(xs, leq)
    ensures SortedBy(Insert(x, xs, leq), leq)
  {
    var ys := Insert(x, xs, leq);
    if xs == [] {
    } else if leq(x, xs[0]) {
      forall i, j | 0 <= i < j < |ys|
        ensures leq(ys[i], ys[j])
      {
        if i == 0 && j > 1 {
          assert leq(xs[0], xs[j - 1]);
        } else if i > 0 {
          assert ys[i] == xs[i - 1] && ys[j] == xs[j - 1];
        }
      }
    } else {
      var tail := Insert(x, xs[1..], leq);
      InsertSorts(x, xs[1..], leq);
      InsertKeeps(x, xs[1..], leq);
      forall k | 0 <= k < |tail|
        ensures leq(xs[0], tail[k])
      {
        assert tail[k] in multiset(tail);
        assert tail[k] in [x] + xs[1..];
      }
    }
  }

  lemma {:induction false} SortKeeps<T>(xs: seq<T>, leq: (T, T) -> bool)
    ensures multiset(Sort(xs, leq)) == multiset(xs)
  {
    if xs != [] {
      SortKeeps(xs[1..], leq);
      InsertKeeps(xs[0], Sort(xs[1..], leq), leq);
      assert xs == [xs[0]] + xs[1..];
    }
  }

  lemma {:induction false} SortSorts<T(!new)>(xs: seq<T>, leq: (T, T) -> bool)
    requires TotalPreorder(leq)
    ensures SortedBy(Sort(xs, leq), leq)
  {
    if xs != [] {
      SortSorts(xs[1..], leq);
      InsertSorts(xs[0], Sort(xs[1..], leq), leq);
    }
  }

  /** The elements whose key is that of `k`, in order. */
  function Ties<T>(xs: seq<T>, k: T, leq: (T, T) -> bool): seq<T> {
    if xs == [] then []
    else (if leq(xs[0], k) && leq(k, xs[0]) then [xs[0]] else []) + Ties(xs[1..], k, leq)
  }

  lemma {:induction false} InsertInFrontOfTies<T(!new)>(x: T, xs: seq<T>, k: T, leq: (T, T) -> bool)
    requires TotalPreorder(leq)
    ensures Ties(Insert(x, xs, leq), k, leq)
         == (if leq(x, k) && leq(k, x) then [x] else []) + Ties(xs, k, leq)
  {
    if xs == [] || leq(x, xs[0]) {
      assert ([x] + xs)[1..] == xs;
    } else {
      InsertInFrontOfTies(x, xs[1..], k, leq);
      assert ([xs[0]] + Insert(x, xs[1..], leq))[1..] == Insert(x, xs[1..], leq);
    }
  }

  /** The sort is stable: elements with equal keys keep their order. */
  lemma {:induction false} SortIsStable<T(!new)>(xs: seq<T>, k: T, leq: (T, T) -> bool)
    requires TotalPreorder(leq)
    ensures Ties(Sort(xs, leq), k, leq) == Ties(xs, k, leq)
  {
    if xs != [] {
      SortIsStable(xs[1..], k, leq);
      InsertInFrontOfTies(xs[0], Sort(xs[1..], leq), k, leq);
    }
  }

  lemma SameElements<T>(xs: seq<T>, ys: seq<T>)
    requires multiset(xs) == multiset(ys)
    ensures forall x :: x in xs <==> x in ys
    ensures |xs| == |ys|
  {
    assert forall x :: x in xs <==> x in multiset(xs);
    assert forall x :: x in ys <==> x in multiset(ys);
    assert |multiset(xs)| == |multiset(ys)|;
  }

  /** The order of strings. */
  predicate TextLeq(a: string, b: string) {
    a == [] || (b != [] && (a[0] < b[0] || (a[0] == b[0] && TextLeq(a[1..], b[1..]))))
  }

  lemma {:induction false} TextLeqTotal(a: string, b: string)
    ensures TextLeq(a, b) || TextLeq(b, a)
  {
    if a != [] && b != [] {
      TextLeqTotal(a[1..], b[1..]);
    }
  }

  lemma {:induction false} TextLeqTransitive(a: string, b: string, c: string)
    ensures TextLeq(a, b) && TextLeq(b, c) ==> TextLeq(a, c)
  {
    if a != [] && b != [] && c != [] {
      TextLeqTransitive(a[1..], b[1..], c[1..]);
    }
  }

  lemma {:induction false} TextLeqAntisymmetric(a: string, b: string)
    requires TextLeq(a, b) && TextLeq(b, a)
    ensures a == b
  {
    if a != [] {
      TextLeqAntisymmetric(a[1..], b[1..]);
      assert a == [a[0]] + a[1..] && b == [b[0]] + b[1..];
    }
  }

  /** In order and without repeats, as a sorted set lists its elements. */
  predicate Ascending(xs: seq<string>) {
    forall i, j :: 0 <= i < j < |xs| ==> TextLeq(xs[i], xs[j]) && xs[i] != xs[j]
  }

  /** Insertion into a sorted set. */
  function AddText(x: string, xs: seq<string>): seq<string> {
    if xs == [] then [x]
    else if x == xs[0] then xs
    else if TextLeq(x, xs[0]) then [x] + xs
    else [xs[0]] + AddText(x, xs[1..])
  }

  lemma {:induction false} AddTextAdds(x: string, xs: seq<string>)
    ensures forall y :: y in AddText(x, xs) <==> y == x || y in xs
  {
    if xs != [] && x != xs[0] && !TextLeq(x, xs[0]) {
      AddTextAdds(x, xs[1..]);
      assert xs == [xs[0]] + xs[1..];
    }
  }

  lemma SmallerInFront(x: string, xs: seq<string>)
    requires Ascending(xs) && forall y :: y in xs ==> TextLeq(x, y) && x != y
    ensures Ascending([x] + xs)
  {
    var all := [x] + xs;
    forall i, j | 0 <= i < j < |all|
      ensures TextLeq(all[i], all[j]) && all[i] != all[j]
    {
      assert all[j] == xs[j - 1] && xs[j - 1] in xs;
    }
  }

  lemma BelowFirst(x: string, xs: seq<string>, y: string)
    requires Ascending(xs) && xs != [] && TextLeq(x, xs[0]) && x != xs[0] && y in xs
    ensures TextLeq(x, y) && x != y
  {
    TextLeqTransitive(x, xs[0], y);
    if x == y {
      TextLeqAntisymmetric(x, xs[0]);
    }
  }

  lemma {:induction false} AddTextAscends(x: string, xs: seq<string>)
    requires Ascending(xs)
    ensures Ascending(AddText(x, xs))
  {
    if xs != [] && x != xs[0] {
      if TextLeq(x, xs[0]) {
        forall y | y in xs
          ensures TextLeq(x, y) && x != y
        {
          BelowFirst(x, xs, y);
        }
        SmallerInFront(x, xs);
      } else {
        TextLeqTotal(x, xs[0]);
        AddTextAscends(x, xs[1..]);
        AddTextAdds(x, xs[1..]);
        SmallerInFront(xs[0], AddText(x, xs[1..]));
      }
    }
  }
}
