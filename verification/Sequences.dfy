/** Filtering and stable sorting of sequences, shared by the ring buffer, the retention strategies
    and the occupancy metric. */
module Sequences {

  lemma HeadIsElement<T>(s: seq<T>)
    ensures s == [] || s[0] in s
  {
  }

  lemma CountOfHead<T>(s: seq<T>, x: T)
    requires s != []
    ensures multiset(s)[x] == (if s[0] == x then 1 else 0) + multiset(s[1..])[x]
  {
    assert s == [s[0]] + s[1..];
  }

  // ------------------------------------------------------------------ filter

  function Filter<T(!new)>(s: seq<T>, keep: T -> bool): (r: seq<T>)
    ensures |r| <= |s|
  {
    if s == [] then []
    else (if keep(s[0]) then [s[0]] else []) + Filter(s[1..], keep)
  }

  lemma {:induction false} FilterElements<T(!new)>(s: seq<T>, keep: T -> bool)
    ensures forall x :: x in Filter(s, keep) <==> x in s && keep(x)
  {
    if s != [] {
      FilterElements(s[1..], keep);
    }
  }

  lemma {:induction false} FilterAppend<T(!new)>(a: seq<T>, b: seq<T>, keep: T -> bool)
    ensures Filter(a + b, keep) == Filter(a, keep) + Filter(b, keep)
  {
    if a == [] {
      assert a + b == b;
    } else {
      var t := a + b;
      assert t != [] && t[0] == a[0];
      assert t[1..] == a[1..] + b;
      FilterAppend(a[1..], b, keep);
      assert Filter(t, keep) == (if keep(t[0]) then [t[0]] else []) + Filter(t[1..], keep);
    }
  }

  lemma {:induction false} FilterAlike<T(!new)>(s: seq<T>, keep: T -> bool, also: T -> bool)
    requires forall x :: x in s ==> (keep(x) <==> also(x))
    ensures Filter(s, keep) == Filter(s, also)
  {
    if s != [] {
      FilterAlike(s[1..], keep, also);
    }
  }

  lemma {:induction false} FilterAll<T(!new)>(s: seq<T>, keep: T -> bool)
    requires forall x :: x in s ==> keep(x)
    ensures Filter(s, keep) == s
  {
    if s != [] {
      FilterAll(s[1..], keep);
    }
  }

  lemma {:induction false} FilterNone<T(!new)>(s: seq<T>, keep: T -> bool)
    requires forall x :: x in s ==> !keep(x)
    ensures Filter(s, keep) == []
  {
    if s != [] {
      FilterNone(s[1..], keep);
    }
  }

  /** A filter that rejects exactly a prefix is the suffix that is left. */
  lemma FilterDropsPrefix<T(!new)>(s: seq<T>, k: nat, keep: T -> bool)
    requires k <= |s|
    requires forall x :: x in s[..k] ==> !keep(x)
    requires forall x :: x in s[k..] ==> keep(x)
    ensures Filter(s, keep) == s[k..]
  {
    assert s == s[..k] + s[k..];
    FilterAppend(s[..k], s[k..], keep);
    FilterNone(s[..k], keep);
    FilterAll(s[k..], keep);
  }

  // ------------------------------------------------------------- stable sort

  ghost predicate SortedBy<T(!new)>(s: seq<T>, key: T -> int) {
    forall i, j :: 0 <= i < j < |s| ==> key(s[i]) <= key(s[j])
  }

  /** The elements of s whose key is k, in the order in which s holds them. */
  function WithKey<T(!new)>(s: seq<T>, key: T -> int, k: int): seq<T> {
    if s == [] then []
    else (if key(s[0]) == k then [s[0]] else []) + WithKey(s[1..], key, k)
  }

  function InsertByKey<T(!new)>(x: T, s: seq<T>, key: T -> int): seq<T> {
    if s == [] || key(x) <= key(s[0]) then [x] + s
    else [s[0]] + InsertByKey(x, s[1..], key)
  }

  /** std::stable_sort and Python's list.sort(key=...): ascending keys, ties in the given order. */
  function StableSort<T(!new)>(s: seq<T>, key: T -> int): seq<T> {
    if s == [] then [] else InsertByKey(s[0], StableSort(s[1..], key), key)
  }

  lemma {:induction false} InsertKeepsElements<T(!new)>(x: T, s: seq<T>, key: T -> int)
    ensures multiset(InsertByKey(x, s, key)) == multiset{x} + multiset(s)
  {
    if s == [] || key(x) <= key(s[0]) {
    } else {
      InsertKeepsElements(x, s[1..], key);
      assert s == [s[0]] + s[1..];
    }
  }

  lemma {:induction false} InsertIsOrdered<T(!new)>(x: T, s: seq<T>, key: T -> int)
    requires SortedBy(s, key)
    ensures SortedBy(InsertByKey(x, s, key), key)
  {
    if s == [] || key(x) <= key(s[0]) {
    } else {
      InsertIsOrdered(x, s[1..], key);
      InsertKeepsElements(x, s[1..], key);
      var t := InsertByKey(x, s[1..], key);
      forall j | 0 <= j < |t| ensures key(s[0]) <= key(t[j]) {
        assert t[j] in multiset(t);
        assert t[j] == x || t[j] in s[1..];
      }
    }
  }

  lemma {:induction false} InsertIsStable<T(!new)>(x: T, s: seq<T>, key: T -> int, k: int)
    ensures WithKey(InsertByKey(x, s, key), key, k) == (if key(x) == k then [x] else []) + WithKey(s, key, k)
  {
    if s == [] || key(x) <= key(s[0]) {
      WithKeyCons(x, s, key, k);
    } else {
      InsertIsStable(x, s[1..], key, k);
      WithKeyCons(s[0], InsertByKey(x, s[1..], key), key, k);
    }
  }

  lemma WithKeyCons<T(!new)>(x: T, s: seq<T>, key: T -> int, k: int)
    ensures WithKey([x] + s, key, k) == (if key(x) == k then [x] else []) + WithKey(s, key, k)
  {
    assert ([x] + s)[1..] == s;
  }

  lemma WithKeyTails<T(!new)>(t: seq<T>, u: seq<T>, key: T -> int, k: int)
    requires t != [] && u != [] && t[0] == u[0] && WithKey(t, key, k) == WithKey(u, key, k)
    ensures WithKey(t[1..], key, k) == WithKey(u[1..], key, k)
  {
    if key(t[0]) == k {
      assert WithKey(t[1..], key, k) == WithKey(t, key, k)[1..];
      assert WithKey(u[1..], key, k) == WithKey(u, key, k)[1..];
    } else {
      assert WithKey(t[1..], key, k) == WithKey(t, key, k);
      assert WithKey(u[1..], key, k) == WithKey(u, key, k);
    }
  }

  /** The sort is a sorted permutation that keeps the order of elements with equal keys. */
  lemma {:induction false} StableSortIsStable<T(!new)>(s: seq<T>, key: T -> int)
    ensures SortedBy(StableSort(s, key), key)
    ensures multiset(StableSort(s, key)) == multiset(s)
    ensures forall k :: WithKey(StableSort(s, key), key, k) == WithKey(s, key, k)
  {
    if s != [] {
      StableSortIsStable(s[1..], key);
      InsertIsOrdered(s[0], StableSort(s[1..], key), key);
      InsertKeepsElements(s[0], StableSort(s[1..], key), key);
      assert s == [s[0]] + s[1..];
      forall k ensures WithKey(StableSort(s, key), key, k) == WithKey(s, key, k) {
        InsertIsStable(s[0], StableSort(s[1..], key), key, k);
      }
    }
  }

  lemma {:induction false} WithKeyElements<T(!new)>(s: seq<T>, key: T -> int, k: int)
    ensures forall x :: x in WithKey(s, key, k) <==> x in s && key(x) == k
  {
    if s != [] {
      WithKeyElements(s[1..], key, k);
    }
  }

  lemma LeastKeyFirst<T(!new)>(t: seq<T>, u: seq<T>, key: T -> int)
    requires t != [] && SortedBy(u, key) && WithKey(t, key, key(t[0])) == WithKey(u, key, key(t[0]))
    ensures u != [] && key(u[0]) <= key(t[0])
  {
    WithKeyElements(t, key, key(t[0]));
    WithKeyElements(u, key, key(t[0]));
    assert t[0] in u;
  }

  /** There is one such order: sorted and stable leave no choice. */
  lemma {:induction false} StableOrderIsUnique<T(!new)>(t: seq<T>, u: seq<T>, key: T -> int)
    requires SortedBy(t, key) && SortedBy(u, key)
    requires forall k :: WithKey(t, key, k) == WithKey(u, key, k)
    ensures t == u
  {
    if t == [] {
      if u != [] {
        LeastKeyFirst(u, t, key);
      }
    } else {
      LeastKeyFirst(t, u, key);
      LeastKeyFirst(u, t, key);
      var k0 := key(t[0]);
      assert WithKey(t, key, k0)[0] == t[0] && WithKey(u, key, k0)[0] == u[0];
      forall k ensures WithKey(t[1..], key, k) == WithKey(u[1..], key, k) {
        WithKeyTails(t, u, key, k);
      }
      StableOrderIsUnique(t[1..], u[1..], key);
    }
  }
}
