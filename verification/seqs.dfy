/**
  List operations shared by the repositories and services: stream filtering,
  `List.remove(Object)`, summation and first-match lookup by name.
 */
module Seqs {
  import opened Wrappers
  import opened Text

  /** `stream().map(f)`: `f` applied to every element, in order. */
  function Map<T, U>(f: T -> U, xs: seq<T>): (r: seq<U>)
    ensures |r| == |xs|
    ensures forall i :: 0 <= i < |xs| ==> r[i] == f(xs[i])
  {
    seq(|xs|, i requires 0 <= i < |xs| => f(xs[i]))
  }

  /** `stream().filter(p)`: the elements satisfying `p`, in their original order. */
  function Filter<T>(p: T -> bool, xs: seq<T>): (r: seq<T>)
    ensures |r| <= |xs|
  {
    if xs == [] then [] else (if p(xs[0]) then [xs[0]] else []) + Filter(p, xs[1..])
  }

  /** Exactly the elements satisfying `p` survive. */
  lemma {:induction false} FilterMembership<T>(p: T -> bool, xs: seq<T>, x: T)
    ensures x in Filter(p, xs) <==> x in xs && p(x)
  {
    if xs != [] {
      FilterMembership(p, xs[1..], x);
      assert x in xs <==> x == xs[0] || x in xs[1..];
    }
  }

  lemma FilterCons<T>(p: T -> bool, x: T, xs: seq<T>)
    ensures Filter(p, [x] + xs) == (if p(x) then [x] else []) + Filter(p, xs)
  {
    assert ([x] + xs)[1..] == xs;
  }

  /** Filtering keeps every occurrence of a kept element and none of the others. */
  lemma {:induction false} FilterMultiset<T>(p: T -> bool, xs: seq<T>, x: T)
    ensures multiset(Filter(p, xs))[x] == if p(x) then multiset(xs)[x] else 0
  {
    if xs != [] {
      FilterMultiset(p, xs[1..], x);
      FilterCons(p, xs[0], xs[1..]);
      assert xs == [xs[0]] + xs[1..];
    }
  }

  /** Filtering works piece by piece: the filtered concatenation is the
      concatenation of the filtered parts, so relative order is kept. */
  lemma {:induction false} FilterAppend<T>(p: T -> bool, a: seq<T>, b: seq<T>)
    ensures Filter(p, a + b) == Filter(p, a) + Filter(p, b)
  {
    if a != [] {
      FilterAppend(p, a[1..], b);
      assert a + b == [a[0]] + (a[1..] + b);
      FilterCons(p, a[0], a[1..] + b);
      FilterCons(p, a[0], a[1..]);
      assert a == [a[0]] + a[1..];
    } else {
      assert a + b == b;
    }
  }

  /** Filtering a list whose every element passes changes nothing. */
  lemma {:induction false} FilterAll<T>(p: T -> bool, xs: seq<T>)
    requires forall i :: 0 <= i < |xs| ==> p(xs[i])
    ensures Filter(p, xs) == xs
  {
    if xs != [] {
      FilterAll(p, xs[1..]);
      assert xs == [xs[0]] + xs[1..];
    }
  }

  /** Filtering out an element that is present makes the list shorter. */
  lemma {:induction false} FilterShrinks<T>(p: T -> bool, xs: seq<T>, i: nat)
    requires i < |xs| && !p(xs[i])
    ensures |Filter(p, xs)| < |xs|
  {
    if i == 0 {
      assert Filter(p, xs) == Filter(p, xs[1..]);
    } else {
      FilterShrinks(p, xs[1..], i - 1);
    }
  }

  /** Filtering an already filtered list changes nothing. */
  lemma {:induction false} FilterIdempotent<T>(p: T -> bool, xs: seq<T>)
    ensures Filter(p, Filter(p, xs)) == Filter(p, xs)
  {
    if xs != [] {
      FilterIdempotent(p, xs[1..]);
      if p(xs[0]) {
        FilterCons(p, xs[0], Filter(p, xs[1..]));
      } else {
        assert Filter(p, xs) == Filter(p, xs[1..]);
      }
    }
  }

  /** `flatMap`: the lists `f` gives for the elements, concatenated in order. */
  function FlatMap<T, U>(f: T -> seq<U>, xs: seq<T>): seq<U>
  {
    if xs == [] then [] else f(xs[0]) + FlatMap(f, xs[1..])
  }

  lemma {:induction false} FlatMapAppend<T, U>(f: T -> seq<U>, a: seq<T>, b: seq<T>)
    ensures FlatMap(f, a + b) == FlatMap(f, a) + FlatMap(f, b)
  {
    if a == [] {
      assert a + b == b;
    } else {
      FlatMapAppend(f, a[1..], b);
      assert (a + b)[0] == a[0] && (a + b)[1..] == a[1..] + b;
    }
  }

  /** When every element gives at most one result, so does the whole list. */
  lemma {:induction false} FlatMapAtMostOne<T, U>(f: T -> seq<U>, xs: seq<T>)
    requires forall i :: 0 <= i < |xs| ==> |f(xs[i])| <= 1
    ensures |FlatMap(f, xs)| <= |xs|
  {
    if xs != [] {
      assert forall i :: 0 <= i < |xs[1..]| ==> xs[1..][i] == xs[i + 1];
      FlatMapAtMostOne(f, xs[1..]);
    }
  }

  lemma {:induction false} FlatMapMembership<T, U>(f: T -> seq<U>, xs: seq<T>, y: U)
    ensures y in FlatMap(f, xs) <==> exists i :: 0 <= i < |xs| && y in f(xs[i])
  {
    if xs != [] {
      FlatMapMembership(f, xs[1..], y);
      if exists i :: 0 <= i < |xs| && y in f(xs[i]) {
        var i :| 0 <= i < |xs| && y in f(xs[i]);
        if i > 0 {
          assert xs[1..][i - 1] == xs[i];
        }
      }
      if exists i :: 0 <= i < |xs[1..]| && y in f(xs[1..][i]) {
        var i :| 0 <= i < |xs[1..]| && y in f(xs[1..][i]);
        assert xs[i + 1] == xs[1..][i];
      }
    }
  }

  /** The list without its element at position `i`. */
  function RemoveAt<T>(xs: seq<T>, i: nat): seq<T>
    requires i < |xs|
  {
    xs[..i] + xs[i + 1..]
  }

  /** The position of the first occurrence of `x`. */
  function IndexOf<T(==)>(xs: seq<T>, x: T): (i: nat)
    requires x in xs
    ensures i < |xs| && xs[i] == x && x !in xs[..i]
  {
    if xs[0] == x then 0
    else
      var i := IndexOf(xs[1..], x);
      assert xs[..i + 1] == [xs[0]] + xs[1..][..i];
      i + 1
  }

  /** `List.remove(Object)`: the first element equal to `x` is removed; a list
      without `x` is returned unchanged. */
  function RemoveFirst<T(==)>(xs: seq<T>, x: T): (r: seq<T>)
    ensures x !in xs ==> r == xs
    ensures x in xs ==> r == RemoveAt(xs, IndexOf(xs, x))
  {
    if xs == [] then []
    else if xs[0] == x then xs[1..]
    else
      var rest := RemoveFirst(xs[1..], x);
      assert x in xs ==> x in xs[1..];
      assert x in xs ==> IndexOf(xs, x) == IndexOf(xs[1..], x) + 1;
      [xs[0]] + rest
  }

  /** Removing the first occurrence of an element that occurs nowhere
      before position `i` removes position `i`. */
  lemma RemoveFirstAt<T>(xs: seq<T>, i: nat)
    requires i < |xs|
    requires forall j :: 0 <= j < i ==> xs[j] != xs[i]
    ensures RemoveFirst(xs, xs[i]) == RemoveAt(xs, i)
  {
    var k := IndexOf(xs, xs[i]);
    assert xs[..i + 1][i] == xs[i];
  }

  /** Removing a kept element makes the filtered list one shorter. */
  lemma FilterRemoveAt<T>(p: T -> bool, xs: seq<T>, i: nat)
    requires i < |xs| && p(xs[i])
    ensures |Filter(p, RemoveAt(xs, i))| == |Filter(p, xs)| - 1
  {
    assert xs == (xs[..i] + [xs[i]]) + xs[i + 1..];
    FilterAppend(p, xs[..i] + [xs[i]], xs[i + 1..]);
    FilterAppend(p, xs[..i], [xs[i]]);
    FilterAppend(p, xs[..i], xs[i + 1..]);
    FilterCons(p, xs[i], []);
  }

  lemma RemoveAtMultiset<T>(xs: seq<T>, i: nat)
    requires i < |xs|
    ensures multiset(RemoveAt(xs, i)) == multiset(xs) - multiset{xs[i]}
  {
    assert xs == xs[..i] + [xs[i]] + xs[i + 1..];
  }

  /** `mapToDouble(f).sum()`, over exact reals. */
  function Sum<T>(f: T -> real, xs: seq<T>): real
  {
    if xs == [] then 0.0 else f(xs[0]) + Sum(f, xs[1..])
  }

  lemma {:induction false} SumAppend<T>(f: T -> real, a: seq<T>, b: seq<T>)
    ensures Sum(f, a + b) == Sum(f, a) + Sum(f, b)
  {
    if a != [] {
      SumAppend(f, a[1..], b);
      assert (a + b)[1..] == a[1..] + b;
    } else {
      assert a + b == b;
    }
  }

  /** A sum is the term at any position plus the sum of the rest. */
  lemma {:induction false} SumRemoveAt<T>(f: T -> real, xs: seq<T>, i: nat)
    requires i < |xs|
    ensures Sum(f, xs) == f(xs[i]) + Sum(f, RemoveAt(xs, i))
  {
    if i == 0 {
      assert RemoveAt(xs, 0) == xs[1..];
    } else {
      var r := RemoveAt(xs[1..], i - 1);
      SumRemoveAt(f, xs[1..], i - 1);
      assert RemoveAt(xs, i) == [xs[0]] + r;
      assert ([xs[0]] + r)[1..] == r;
    }
  }

  /** A sum does not depend on the order of its terms. */
  lemma {:induction false} SumPermutation<T>(f: T -> real, a: seq<T>, b: seq<T>)
    requires multiset(a) == multiset(b)
    ensures Sum(f, a) == Sum(f, b)
    decreases |a|
  {
    if a != [] {
      assert a[0] in multiset(b);
      var j :| 0 <= j < |b| && b[j] == a[0];
      assert a == [a[0]] + a[1..];
      assert multiset(a[1..]) == multiset(a) - multiset{a[0]};
      RemoveAtMultiset(b, j);
      SumPermutation(f, a[1..], RemoveAt(b, j));
      SumRemoveAt(f, b, j);
    } else {
      assert |b| == |multiset(b)| == 0;
    }
  }

  /** The position of the first name equal to `query` ignoring case
      (`stream().filter(equalsIgnoreCase).findFirst()`), or none. */
  function FirstMatch(names: seq<string>, query: string): (r: Option<nat>)
    ensures r.None? <==> forall i :: 0 <= i < |names| ==> !EqualsIgnoreCase(names[i], query)
    ensures r.Some? ==> r.value < |names| && EqualsIgnoreCase(names[r.value], query)
    ensures r.Some? ==> forall j :: 0 <= j < r.value ==> !EqualsIgnoreCase(names[j], query)
  {
    if names == [] then None
    else if EqualsIgnoreCase(names[0], query) then Some(0)
    else
      match FirstMatch(names[1..], query)
      case None => None
      case Some(k) => Some(k + 1)
  }
}
