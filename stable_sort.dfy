/** `Array.prototype.sort` with a comparator of the form `key(a) - key(b)`.
    Since ECMAScript 2019 the sort is stable: elements the comparator calls
    equal keep their relative order. `SortBy` is a stable insertion sort;
    `StableSortIsUnique` shows that every stable sort by the same key gives
    the same sequence, so the engine's own algorithm and `SortBy` agree. */
module StableSort {

  /** Keys never decrease from left to right. */
  ghost predicate Sorted<T>(s: seq<T>, key: T -> int)
  {
    forall i, j :: 0 <= i < j < |s| ==> key(s[i]) <= key(s[j])
  }

  /** The elements of s whose key is k, in their order in s. */
  function WithKey<T>(s: seq<T>, key: T -> int, k: int): (r: seq<T>)
    ensures |r| <= |s|
  {
    if s == [] then []
    else if key(s[0]) == k then [s[0]] + WithKey(s[1..], key, k)
    else WithKey(s[1..], key, k)
  }

  /** r keeps, for every key, the relative order that s has. */
  ghost predicate KeepsTiesInOrder<T>(r: seq<T>, s: seq<T>, key: T -> int)
  {
    forall k :: WithKey(r, key, k) == WithKey(s, key, k)
  }

  /** Puts x in front of the first element whose key is not smaller. */
  function Insert<T>(x: T, s: seq<T>, key: T -> int): (r: seq<T>)
    ensures |r| == |s| + 1
  {
    if s == [] || key(x) <= key(s[0]) then [x] + s
    else [s[0]] + Insert(x, s[1..], key)
  }

  /** Stable insertion sort, ascending by key. */
  function SortBy<T>(s: seq<T>, key: T -> int): (r: seq<T>)
    ensures |r| == |s|
  {
    if s == [] then [] else Insert(s[0], SortBy(s[1..], key), key)
  }

  lemma {:induction false} WithKeyAppend<T>(a: seq<T>, b: seq<T>, key: T -> int, k: int)
    ensures WithKey(a + b, key, k) == WithKey(a, key, k) + WithKey(b, key, k)
  {
    if a == [] {
      assert a + b == b;
    } else {
      var ab := a + b;
      assert ab[1..] == a[1..] + b;
      assert ab[0] == a[0];
      WithKeyAppend(a[1..], b, key, k);
      if key(a[0]) == k {
        assert WithKey(ab, key, k) == [a[0]] + WithKey(ab[1..], key, k);
        assert [a[0]] + (WithKey(a[1..], key, k) + WithKey(b, key, k))
            == ([a[0]] + WithKey(a[1..], key, k)) + WithKey(b, key, k);
      } else {
        assert WithKey(ab, key, k) == WithKey(ab[1..], key, k);
      }
    }
  }

  lemma {:induction false} InsertPermutes<T>(x: T, s: seq<T>, key: T -> int)
    ensures multiset(Insert(x, s, key)) == multiset(s) + multiset{x}
    ensures |Insert(x, s, key)| == |s| + 1
  {
    if s != [] && key(x) > key(s[0]) {
      InsertPermutes(x, s[1..], key);
      assert s == [s[0]] + s[1..];
    }
  }

  lemma {:induction false} InsertSorted<T>(x: T, s: seq<T>, key: T -> int)
    requires Sorted(s, key)
    ensures Sorted(Insert(x, s, key), key)
  {
    if s != [] && key(x) > key(s[0]) {
      InsertSorted(x, s[1..], key);
      var t := Insert(x, s[1..], key);
      InsertPermutes(x, s[1..], key);
      forall j | 0 <= j < |t| ensures key(s[0]) <= key(t[j]) {
        assert t[j] in multiset(s[1..]) + multiset{x};
        if t[j] in multiset(s[1..]) {
          var m :| 0 <= m < |s[1..]| && s[1..][m] == t[j];
          assert s[1 + m] == t[j];
        }
      }
    }
  }

  lemma {:induction false} InsertKeepsTies<T>(x: T, s: seq<T>, key: T -> int, k: int)
    requires Sorted(s, key)
    ensures WithKey(Insert(x, s, key), key, k) == WithKey([x] + s, key, k)
  {
    if s != [] && key(x) > key(s[0]) {
      InsertKeepsTies(x, s[1..], key, k);
      assert ([s[0]] + Insert(x, s[1..], key))[1..] == Insert(x, s[1..], key);
      assert ([x] + s[1..])[1..] == s[1..];
      assert ([x] + s)[1..] == s;
    }
  }

  lemma {:induction false} SortByPermutes<T>(s: seq<T>, key: T -> int)
    ensures multiset(SortBy(s, key)) == multiset(s)
  {
    if s != [] {
      SortByPermutes(s[1..], key);
      InsertPermutes(s[0], SortBy(s[1..], key), key);
      assert s == [s[0]] + s[1..];
    }
  }

  lemma {:induction false} SortBySorted<T>(s: seq<T>, key: T -> int)
    ensures Sorted(SortBy(s, key), key)
  {
    if s != [] {
      SortBySorted(s[1..], key);
      InsertSorted(s[0], SortBy(s[1..], key), key);
    }
  }

  lemma {:induction false} SortByKeepsTies<T>(s: seq<T>, key: T -> int)
    ensures KeepsTiesInOrder(SortBy(s, key), s, key)
  {
    if s != [] {
      SortByKeepsTies(s[1..], key);
      SortBySorted(s[1..], key);
      forall k ensures WithKey(SortBy(s, key), key, k) == WithKey(s, key, k) {
        InsertKeepsTies(s[0], SortBy(s[1..], key), key, k);
        assert ([s[0]] + SortBy(s[1..], key))[1..] == SortBy(s[1..], key);
      }
    }
  }

  /** The first element of a sorted nonempty sequence has the least key of
      all, and it leads the group of its key. */
  lemma SortedHead<T>(r: seq<T>, key: T -> int, k: int)
    requires Sorted(r, key) && r != [] && WithKey(r, key, k) != []
    ensures key(r[0]) <= k
  {
    var i :| 0 <= i < |r| && key(r[i]) == k by {
      WithKeyMember(r, key, k);
    }
  }

  lemma {:induction false} WithKeyMember<T>(r: seq<T>, key: T -> int, k: int)
    requires WithKey(r, key, k) != []
    ensures exists i :: 0 <= i < |r| && key(r[i]) == k
  {
    if key(r[0]) != k {
      WithKeyMember(r[1..], key, k);
      var i :| 0 <= i < |r[1..]| && key(r[1..][i]) == k;
      assert key(r[i + 1]) == k;
    }
  }

  lemma HeadGroupNonEmpty<T>(r: seq<T>, key: T -> int)
    requires r != []
    ensures WithKey(r, key, key(r[0])) != []
  {
  }

  lemma NoKeysMeansEmpty<T>(r: seq<T>, key: T -> int)
    requires forall k :: WithKey(r, key, k) == []
    ensures r == []
  {
    if r != [] {
      HeadGroupNonEmpty(r, key);
    }
  }

  /** A stable sort is determined by its input: two sequences that are both
      sorted and both keep every group of equal keys in the same order are
      the same sequence. */
  lemma {:induction false} StableSortIsUnique<T>(r1: seq<T>, r2: seq<T>, key: T -> int)
    requires Sorted(r1, key) && Sorted(r2, key)
    requires forall k :: WithKey(r1, key, k) == WithKey(r2, key, k)
    ensures r1 == r2
    decreases |r1|
  {
    if r1 == [] {
      NoKeysMeansEmpty(r2, key);
    } else if r2 == [] {
      NoKeysMeansEmpty(r1, key);
    } else {
      var m1, m2 := key(r1[0]), key(r2[0]);
      assert WithKey(r1, key, m1) != [];
      assert WithKey(r2, key, m2) != [];
      SortedHead(r1, key, m2);
      SortedHead(r2, key, m1);
      assert m1 == m2;
      assert r1[0] == WithKey(r1, key, m1)[0] == WithKey(r2, key, m1)[0] == r2[0];
      forall k ensures WithKey(r1[1..], key, k) == WithKey(r2[1..], key, k) {
        assert WithKey(r1, key, k) == WithKey(r2, key, k);
        if m1 == k {
          assert WithKey(r1[1..], key, k) == WithKey(r1, key, k)[1..];
          assert WithKey(r2[1..], key, k) == WithKey(r2, key, k)[1..];
        }
      }
      assert Sorted(r1[1..], key) && Sorted(r2[1..], key);
      StableSortIsUnique(r1[1..], r2[1..], key);
      assert r1 == [r1[0]] + r1[1..];
      assert r2 == [r2[0]] + r2[1..];
    }
  }

  /** Any sorted, tie-preserving rearrangement of s is `SortBy(s, key)`. */
  lemma IsSortBy<T>(r: seq<T>, s: seq<T>, key: T -> int)
    requires Sorted(r, key) && KeepsTiesInOrder(r, s, key)
    ensures r == SortBy(s, key)
  {
    SortBySorted(s, key);
    SortByKeepsTies(s, key);
    StableSortIsUnique(r, SortBy(s, key), key);
  }
}
