/**
  Stable sorting by a key, as `List.sort` does with a `Comparator` built by
  `Comparator.comparing` (a string key) or `Comparator.comparingDouble` (a
  numeric key). The sort is an insertion sort; `SortedStableUnique` shows that
  every stable sort returns the same list, so the choice of algorithm does not
  matter.
 */
module Sorting {
  import opened Text

  /** A sort key: a number or a text. */
  datatype Key = Num(x: real) | Word(s: string)

  /** The comparator's "less than or equal": numbers by value, texts by
      `String.compareTo`; all numbers before all texts, so that the order is total. */
  predicate KeyLe(a: Key, b: Key)
  {
    if a.Num? && b.Num? then a.x <= b.x
    else if a.Word? && b.Word? then StringLe(a.s, b.s)
    else a.Num?
  }

  lemma {:induction false} StringLeReflexive(s: string)
    ensures StringLe(s, s)
  {
    if s != [] {
      StringLeReflexive(s[1..]);
    }
  }

  lemma KeyLeReflexive(a: Key)
    ensures KeyLe(a, a)
  {
    if a.Word? {
      StringLeReflexive(a.s);
    }
  }

  lemma KeyLeTotal(a: Key, b: Key)
    ensures KeyLe(a, b) || KeyLe(b, a)
  {
    if a.Word? && b.Word? {
      StringLeTotal(a.s, b.s);
    }
  }

  lemma KeyLeTransitive(a: Key, b: Key, c: Key)
    requires KeyLe(a, b) && KeyLe(b, c)
    ensures KeyLe(a, c)
  {
    if a.Word? && b.Word? && c.Word? {
      StringLeTransitive(a.s, b.s, c.s);
    }
  }

  lemma KeyLeAntisymmetric(a: Key, b: Key)
    requires KeyLe(a, b) && KeyLe(b, a)
    ensures a == b
  {
    if a.Word? && b.Word? {
      StringLeAntisymmetric(a.s, b.s);
    }
  }

  /** Every element's key is at most the key of every later element. */
  ghost predicate SortedBy<T>(key: T -> Key, s: seq<T>)
  {
    forall i, j :: 0 <= i < j < |s| ==> KeyLe(key(s[i]), key(s[j]))
  }

  /** The elements whose key is `k`, in their order in `s`. Two lists agree
      on every key class exactly when equal-key elements appear in the same
      relative order in both: this is what stability preserves. */
  function KeyClass<T>(key: T -> Key, k: Key, s: seq<T>): seq<T>
  {
    if s == [] then [] else (if key(s[0]) == k then [s[0]] else []) + KeyClass(key, k, s[1..])
  }

  lemma KeyClassCons<T>(key: T -> Key, k: Key, x: T, s: seq<T>)
    ensures KeyClass(key, k, [x] + s) == (if key(x) == k then [x] else []) + KeyClass(key, k, s)
  {
    assert ([x] + s)[1..] == s;
  }

  lemma {:induction false} KeyClassMembership<T>(key: T -> Key, k: Key, s: seq<T>, x: T)
    ensures x in KeyClass(key, k, s) <==> x in s && key(x) == k
  {
    if s != [] {
      KeyClassMembership(key, k, s[1..], x);
      assert x in s <==> x == s[0] || x in s[1..];
    }
  }

  /** `x` placed before the first element whose key is not smaller than its own. */
  function Insert<T>(key: T -> Key, x: T, s: seq<T>): (r: seq<T>)
    ensures multiset(r) == multiset(s) + multiset{x}
  {
    if s == [] then [x]
    else if KeyLe(key(x), key(s[0])) then [x] + s
    else
      var rest := Insert(key, x, s[1..]);
      assert s == [s[0]] + s[1..];
      [s[0]] + rest
  }

  /** Inserting `x` puts it first among the elements with its key and
      disturbs no key class. */
  lemma {:induction false} InsertStable<T>(key: T -> Key, x: T, s: seq<T>, k: Key)
    ensures KeyClass(key, k, Insert(key, x, s)) == (if key(x) == k then [x] else []) + KeyClass(key, k, s)
  {
    if s == [] {
      KeyClassCons(key, k, x, []);
    } else if KeyLe(key(x), key(s[0])) {
      KeyClassCons(key, k, x, s);
    } else {
      InsertStable(key, x, s[1..], k);
      InsertStablePast(key, x, s, k);
    }
  }

  /** The step of `InsertStable` where `x` moves past the head of `s`: its key
      is larger than the head's, so at most one of the two is in class `k`. */
  lemma InsertStablePast<T>(key: T -> Key, x: T, s: seq<T>, k: Key)
    requires s != [] && !KeyLe(key(x), key(s[0]))
    requires KeyClass(key, k, Insert(key, x, s[1..])) == (if key(x) == k then [x] else []) + KeyClass(key, k, s[1..])
    ensures KeyClass(key, k, Insert(key, x, s)) == (if key(x) == k then [x] else []) + KeyClass(key, k, s)
  {
    var rest := Insert(key, x, s[1..]);
    var tail := KeyClass(key, k, s[1..]);
    var cx := if key(x) == k then [x] else [];
    var c0 := if key(s[0]) == k then [s[0]] else [];
    assert Insert(key, x, s) == [s[0]] + rest;
    KeyClassCons(key, k, s[0], rest);
    assert KeyClass(key, k, s) == c0 + tail;
    if key(x) == k {
      KeyLeReflexive(key(x));
      assert c0 == [];
      assert c0 + tail == tail;
      assert c0 + (cx + tail) == cx + tail;
    } else {
      assert cx + tail == tail;
      assert cx + (c0 + tail) == c0 + tail;
    }
  }

  lemma {:induction false} InsertSorted<T>(key: T -> Key, x: T, s: seq<T>)
    requires SortedBy(key, s)
    ensures SortedBy(key, Insert(key, x, s))
  {
    if s == [] {
    } else if KeyLe(key(x), key(s[0])) {
      InsertSortedFront(key, x, s);
    } else {
      assert SortedBy(key, s[1..]) by {
        forall i, j | 0 <= i < j < |s[1..]|
          ensures KeyLe(key(s[1..][i]), key(s[1..][j]))
        {
          assert s[1..][i] == s[i + 1] && s[1..][j] == s[j + 1];
        }
      }
      InsertSorted(key, x, s[1..]);
      InsertSortedPast(key, x, s);
    }
  }

  /** `x` in front of an ordered list whose head has a key at least its own. */
  lemma InsertSortedFront<T>(key: T -> Key, x: T, s: seq<T>)
    requires SortedBy(key, s) && s != [] && KeyLe(key(x), key(s[0]))
    ensures SortedBy(key, [x] + s)
  {
    var r := [x] + s;
    forall i, j | 0 <= i < j < |r|
      ensures KeyLe(key(r[i]), key(r[j]))
    {
      if i == 0 && j > 1 {
        KeyLeTransitive(key(x), key(s[0]), key(s[j - 1]));
      }
    }
  }

  /** `x` inserted past the head of an ordered list: the head's key is below
      every key of the rest and below `x`'s, so it stays in front. */
  lemma InsertSortedPast<T>(key: T -> Key, x: T, s: seq<T>)
    requires SortedBy(key, s) && s != [] && !KeyLe(key(x), key(s[0]))
    requires SortedBy(key, Insert(key, x, s[1..]))
    ensures SortedBy(key, Insert(key, x, s))
  {
    KeyLeTotal(key(x), key(s[0]));
    var rest := Insert(key, x, s[1..]);
    var r := [s[0]] + rest;
    assert Insert(key, x, s) == r;
    forall y | y in rest
      ensures KeyLe(key(s[0]), key(y))
    {
      assert y in multiset(rest);
      if y != x {
        assert y in multiset(s[1..]);
        var j :| 0 <= j < |s[1..]| && s[1..][j] == y;
        assert s[j + 1] == y;
      }
    }
    forall i, j | 0 <= i < j < |r|
      ensures KeyLe(key(r[i]), key(r[j]))
    {
      if i == 0 {
        assert r[j] == rest[j - 1];
        assert r[j] in rest;
      } else {
        assert r[i] == rest[i - 1] && r[j] == rest[j - 1];
      }
    }
  }

  /** The stable sort: a permutation, ordered by key, every key class in its
      original order. */
  function SortBy<T>(key: T -> Key, xs: seq<T>): (r: seq<T>)
    ensures multiset(r) == multiset(xs)
    ensures SortedBy(key, r)
    ensures forall k :: KeyClass(key, k, r) == KeyClass(key, k, xs)
  {
    if xs == [] then []
    else
      var s := SortBy(key, xs[1..]);
      InsertSorted(key, xs[0], s);
      assert xs == [xs[0]] + xs[1..];
      assert forall k :: KeyClass(key, k, Insert(key, xs[0], s)) == KeyClass(key, k, xs) by {
        forall k
          ensures KeyClass(key, k, Insert(key, xs[0], s)) == KeyClass(key, k, xs)
        {
          InsertStable(key, xs[0], s, k);
          KeyClassCons(key, k, xs[0], xs[1..]);
        }
      }
      Insert(key, xs[0], s)
  }

  /** Lists that agree on every key class are empty together. */
  lemma KeyClassesEmpty<T>(key: T -> Key, a: seq<T>, b: seq<T>)
    requires forall k :: KeyClass(key, k, a) == KeyClass(key, k, b)
    ensures a == [] <==> b == []
  {
    if a != [] {
      KeyClassMembership(key, key(a[0]), a, a[0]);
      KeyClassMembership(key, key(a[0]), b, a[0]);
    }
    if b != [] {
      KeyClassMembership(key, key(b[0]), b, b[0]);
      KeyClassMembership(key, key(b[0]), a, b[0]);
    }
  }

  /** A stable sort has only one possible result: two lists that are both
      ordered by key and agree with each other on every key class are equal. */
  lemma {:induction false} SortedStableUnique<T>(key: T -> Key, a: seq<T>, b: seq<T>)
    requires SortedBy(key, a) && SortedBy(key, b)
    requires forall k :: KeyClass(key, k, a) == KeyClass(key, k, b)
    ensures a == b
    decreases |a|
  {
    KeyClassesEmpty(key, a, b);
    if a != [] {
      // The heads have the smallest key of both lists, so the same key.
      KeyClassMembership(key, key(b[0]), b, b[0]);
      KeyClassMembership(key, key(b[0]), a, b[0]);
      var i :| 0 <= i < |a| && a[i] == b[0];
      KeyClassMembership(key, key(a[0]), a, a[0]);
      KeyClassMembership(key, key(a[0]), b, a[0]);
      var j :| 0 <= j < |b| && b[j] == a[0];
      if i > 0 {
        assert KeyLe(key(a[0]), key(a[i]));
      } else {
        KeyLeReflexive(key(a[0]));
      }
      if j > 0 {
        assert KeyLe(key(b[0]), key(b[j]));
      } else {
        KeyLeReflexive(key(b[0]));
      }
      KeyLeAntisymmetric(key(a[0]), key(b[0]));
      var k0 := key(a[0]);
      assert a == [a[0]] + a[1..] && b == [b[0]] + b[1..];
      KeyClassCons(key, k0, a[0], a[1..]);
      KeyClassCons(key, k0, b[0], b[1..]);
      assert KeyClass(key, k0, a)[0] == a[0];
      assert KeyClass(key, k0, b)[0] == b[0];
      forall k
        ensures KeyClass(key, k, a[1..]) == KeyClass(key, k, b[1..])
      {
        KeyClassCons(key, k, a[0], a[1..]);
        KeyClassCons(key, k, b[0], b[1..]);
        if k == k0 {
          assert KeyClass(key, k, a)[1..] == KeyClass(key, k, a[1..]);
          assert KeyClass(key, k, b)[1..] == KeyClass(key, k, b[1..]);
        } else {
          assert KeyClass(key, k, a) == KeyClass(key, k, a[1..]);
          assert KeyClass(key, k, b) == KeyClass(key, k, b[1..]);
        }
      }
      SortedStableUnique(key, a[1..], b[1..]);
    }
  }
}
