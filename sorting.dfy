/** A stable sort by key: the model of `Array.prototype.sort` with a
    consistent comparator (stable since ES2019) and of `ORDER BY` over rows
    read in table order. `before(a, b)` says key `a` sorts strictly before key `b`. */
module Sorting {

  /** No key sorts strictly before itself. */
  ghost predicate Irreflexive<K(!new)>(before: (K, K) -> bool) {
    forall a :: !before(a, a)
  }

  /** `before` is a strict total order on keys. */
  ghost predicate StrictTotalOrder<K(!new)>(before: (K, K) -> bool) {
    && Irreflexive(before)
    && (forall a, b, c :: before(a, b) && before(b, c) ==> before(a, c))
    && (forall a, b :: a != b ==> before(a, b) || before(b, a))
  }

  /** No element sorts strictly before an element that precedes it. */
  predicate SortedBy<T, K>(s: seq<T>, key: T -> K, before: (K, K) -> bool) {
    forall i, j :: 0 <= i < j < |s| ==> !before(key(s[j]), key(s[i]))
  }

  /** The elements of `s` whose key is `k`, in their order in `s`. */
  function Select<T, K(==)>(s: seq<T>, key: T -> K, k: K): seq<T> {
    if s == [] then []
    else (if key(s[0]) == k then [s[0]] else []) + Select(s[1..], key, k)
  }

  /** Puts `x` in front of the first element that does not sort strictly before it. */
  function Insert<T, K>(x: T, ys: seq<T>, key: T -> K, before: (K, K) -> bool): (r: seq<T>)
    ensures |r| == |ys| + 1
  {
    if ys == [] || !before(key(ys[0]), key(x)) then [x] + ys
    else [ys[0]] + Insert(x, ys[1..], key, before)
  }

  /** Insertion sort from the back: the first of equal-keyed elements stays first. */
  function SortBy<T, K>(s: seq<T>, key: T -> K, before: (K, K) -> bool): (r: seq<T>)
    ensures |r| == |s|
  {
    if s == [] then [] else Insert(s[0], SortBy(s[1..], key, before), key, before)
  }

  lemma {:induction false} InsertPermutes<T, K>(x: T, ys: seq<T>, key: T -> K, before: (K, K) -> bool)
    ensures multiset(Insert(x, ys, key, before)) == multiset([x] + ys)
  {
    if ys != [] && before(key(ys[0]), key(x)) {
      InsertPermutes(x, ys[1..], key, before);
      assert ys == [ys[0]] + ys[1..];
    }
  }

  /** Sorting only reorders: the result is a permutation of the input. */
  lemma {:induction false} SortByPermutes<T, K>(s: seq<T>, key: T -> K, before: (K, K) -> bool)
    ensures multiset(SortBy(s, key, before)) == multiset(s)
  {
    if s != [] {
      SortByPermutes(s[1..], key, before);
      InsertPermutes(s[0], SortBy(s[1..], key, before), key, before);
      assert s == [s[0]] + s[1..];
    }
  }

  /** No element of `s` has a key that sorts strictly before `k`. */
  predicate NoneBefore<T, K>(s: seq<T>, key: T -> K, before: (K, K) -> bool, k: K) {
    forall i :: 0 <= i < |s| ==> !before(key(s[i]), k)
  }

  lemma {:induction false} InsertNoneBefore<T, K>(x: T, ys: seq<T>, key: T -> K, before: (K, K) -> bool, k: K)
    requires NoneBefore(ys, key, before, k) && !before(key(x), k)
    ensures NoneBefore(Insert(x, ys, key, before), key, before, k)
  {
    if ys != [] && before(key(ys[0]), key(x)) {
      InsertNoneBefore(x, ys[1..], key, before, k);
    }
  }

  lemma {:induction false} InsertSorted<T, K(!new)>(x: T, ys: seq<T>, key: T -> K, before: (K, K) -> bool)
    requires StrictTotalOrder(before)
    requires SortedBy(ys, key, before)
    ensures SortedBy(Insert(x, ys, key, before), key, before)
  {
    var r := Insert(x, ys, key, before);
    if ys == [] || !before(key(ys[0]), key(x)) {
      forall i, j | 0 <= i < j < |r| ensures !before(key(r[j]), key(r[i])) {
        if i == 0 {
          assert r[j] == ys[j - 1];
          if j > 1 {
            assert !before(key(ys[j - 1]), key(ys[0]));
          }
        } else {
          assert r[i] == ys[i - 1] && r[j] == ys[j - 1];
        }
      }
    } else {
      var tail := ys[1..];
      assert SortedBy(tail, key, before) by {
        forall i, j | 0 <= i < j < |tail| ensures !before(key(tail[j]), key(tail[i])) {
          assert tail[i] == ys[i + 1] && tail[j] == ys[j + 1];
        }
      }
      InsertSorted(x, tail, key, before);
      var rest := Insert(x, tail, key, before);
      assert NoneBefore(tail, key, before, key(ys[0])) by {
        forall i | 0 <= i < |tail| ensures !before(key(tail[i]), key(ys[0])) {
          assert tail[i] == ys[i + 1];
        }
      }
      InsertNoneBefore(x, tail, key, before, key(ys[0]));
      assert r == [ys[0]] + rest;
      forall i, j | 0 <= i < j < |r| ensures !before(key(r[j]), key(r[i])) {
        assert r[j] == rest[j - 1];
        if i > 0 { assert r[i] == rest[i - 1]; }
      }
    }
  }

  /** The result is ordered by key. */
  lemma {:induction false} SortBySorted<T, K(!new)>(s: seq<T>, key: T -> K, before: (K, K) -> bool)
    requires StrictTotalOrder(before)
    ensures SortedBy(SortBy(s, key, before), key, before)
  {
    if s != [] {
      SortBySorted(s[1..], key, before);
      InsertSorted(s[0], SortBy(s[1..], key, before), key, before);
    }
  }

  lemma {:induction false} SelectAppend<T, K>(a: seq<T>, b: seq<T>, key: T -> K, k: K)
    ensures Select(a + b, key, k) == Select(a, key, k) + Select(b, key, k)
  {
    if a != [] {
      SelectAppend(a[1..], b, key, k);
      assert (a + b)[0] == a[0];
      assert (a + b)[1..] == a[1..] + b;
    } else {
      assert a + b == b;
    }
  }

  lemma {:induction false} InsertSelect<T, K(!new)>(x: T, ys: seq<T>, key: T -> K, before: (K, K) -> bool, k: K)
    requires Irreflexive(before)
    ensures Select(Insert(x, ys, key, before), key, k) == Select([x], key, k) + Select(ys, key, k)
  {
    if ys == [] || !before(key(ys[0]), key(x)) {
      SelectAppend([x], ys, key, k);
    } else {
      InsertSelect(x, ys[1..], key, before, k);
      SelectAppend([ys[0]], Insert(x, ys[1..], key, before), key, k);
      SelectAppend([ys[0]], ys[1..], key, k);
      assert ys == [ys[0]] + ys[1..];
      assert key(ys[0]) != key(x);
    }
  }

  /** Stability: for every key, the elements with that key keep their relative order. */
  lemma {:induction false} SortByStable<T, K(!new)>(s: seq<T>, key: T -> K, before: (K, K) -> bool, k: K)
    requires Irreflexive(before)
    ensures Select(SortBy(s, key, before), key, k) == Select(s, key, k)
  {
    if s != [] {
      SortByStable(s[1..], key, before, k);
      InsertSelect(s[0], SortBy(s[1..], key, before), key, before, k);
      SelectAppend([s[0]], s[1..], key, k);
      assert s == [s[0]] + s[1..];
    }
  }

  lemma {:induction false} MultisetSplit<T>(s: seq<T>, m: nat)
    requires m <= |s|
    ensures multiset(s) == multiset(s[..m]) + multiset(s[m..])
  {
    assert s == s[..m] + s[m..];
  }

  /** A prefix of a sorted sequence holds its first elements: nothing left out
      of the prefix sorts strictly before anything in it. */
  lemma SortedPrefixTop<T, K>(s: seq<T>, m: nat, key: T -> K, before: (K, K) -> bool)
    requires m <= |s| && SortedBy(s, key, before)
    ensures multiset(s[..m]) <= multiset(s)
    ensures forall x, y :: x in s[..m] && y in multiset(s) - multiset(s[..m]) ==> !before(key(y), key(x))
  {
    MultisetSplit(s, m);
    forall x, y | x in s[..m] && y in multiset(s) - multiset(s[..m]) ensures !before(key(y), key(x)) {
      var i :| 0 <= i < m && s[..m][i] == x;
      assert y in multiset(s[m..]);
      var j :| 0 <= j < |s| - m && s[m..][j] == y;
      assert s[i] == x && s[m + j] == y;
    }
  }

  /** `f` applied to every element: the projection a `SELECT` list makes of each row. */
  function Project<T, U>(s: seq<T>, f: T -> U): seq<U> {
    seq(|s|, i requires 0 <= i < |s| => f(s[i]))
  }

  lemma ProjectAppend<T, U>(a: seq<T>, b: seq<T>, f: T -> U)
    ensures Project(a + b, f) == Project(a, f) + Project(b, f)
  {
  }

  lemma ProjectMember<T, U>(s: seq<T>, x: T, f: T -> U)
    requires x in s
    ensures f(x) in Project(s, f)
  {
    var i :| 0 <= i < |s| && s[i] == x;
    assert Project(s, f)[i] == f(x);
  }

  /** Projecting two permutations of each other gives permutations of each other. */
  lemma {:induction false} ProjectPermutes<T, U>(s: seq<T>, t: seq<T>, f: T -> U)
    requires multiset(s) == multiset(t)
    ensures multiset(Project(s, f)) == multiset(Project(t, f))
    decreases |s|
  {
    if s == [] {
      assert |t| == |multiset(t)| == 0;
    } else {
      var x := s[0];
      assert x in multiset(t);
      var j :| 0 <= j < |t| && t[j] == x;
      var rest := t[..j] + t[j + 1..];
      assert t == t[..j] + [x] + t[j + 1..];
      assert s == [x] + s[1..];
      calc {
        multiset(s[1..]) + multiset{x};
        multiset(s);
        multiset(t);
        multiset(t[..j]) + multiset{x} + multiset(t[j + 1..]);
        multiset(rest) + multiset{x};
      }
      assert multiset(s[1..]) == (multiset(s[1..]) + multiset{x}) - multiset{x};
      assert multiset(rest) == (multiset(rest) + multiset{x}) - multiset{x};
      ProjectPermutes(s[1..], rest, f);
      ProjectAppend([x], s[1..], f);
      ProjectAppend(t[..j] + [x], t[j + 1..], f);
      ProjectAppend(t[..j], [x], f);
      ProjectAppend(t[..j], t[j + 1..], f);
    }
  }
}
