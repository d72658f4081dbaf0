/**
 * The stable sort both sorting sites rely on: `Array.prototype.sort`, which
 * ECMAScript 2019 and later requires to be stable. The comparators in the
 * source all return a difference of two timestamps, so every sort is a stable
 * sort by one integer key. `SortByKeyDesc` orders by the key largest first;
 * an ascending sort is the same sort by the negated key.
 */
module StableSort {
  import opened Collections

  /** Keys never increase from one element to the next. */
  ghost predicate NonIncreasing<T>(s: seq<T>, key: T -> int)
    decreases |s|
  {
    |s| <= 1 || (key(s[0]) >= key(s[1]) && NonIncreasing(s[1..], key))
  }

  /** In a non-increasing sequence every element's key is at least every later element's. */
  lemma {:induction false} NonIncreasingPairs<T>(s: seq<T>, key: T -> int)
    requires NonIncreasing(s, key)
    ensures forall i, j :: 0 <= i < j < |s| ==> key(s[i]) >= key(s[j])
    decreases |s|
  {
    if |s| > 1 {
      NonIncreasingPairs(s[1..], key);
      forall j | 0 < j < |s| ensures key(s[0]) >= key(s[j]) {
        assert s[1..][0] == s[1];
        if j > 1 {
          assert s[1..][j - 1] == s[j];
        }
      }
      forall i, j | 0 < i < j < |s| ensures key(s[i]) >= key(s[j]) {
        assert s[1..][i - 1] == s[i] && s[1..][j - 1] == s[j];
      }
    }
  }

  /** The elements of `s` whose key is `k`, in their order in `s`. */
  function WithKey<T>(s: seq<T>, key: T -> int, k: int): seq<T>
    decreases |s|
  {
    if s == [] then []
    else (if key(s[0]) == k then [s[0]] else []) + WithKey(s[1..], key, k)
  }

  /** Places `x` in front of the first element whose key is not larger. */
  function Insert<T>(x: T, s: seq<T>, key: T -> int): (r: seq<T>)
    ensures |r| == |s| + 1
    ensures r[0] == x || (|s| > 0 && r[0] == s[0])
    decreases |s|
  {
    if s == [] || key(x) >= key(s[0]) then [x] + s
    else [s[0]] + Insert(x, s[1..], key)
  }

  /** Inserting adds `x` and keeps every element of `s`. */
  lemma {:induction false} InsertPerm<T>(x: T, s: seq<T>, key: T -> int)
    ensures multiset(Insert(x, s, key)) == multiset(s) + multiset{x}
    decreases |s|
  {
    if s != [] && key(x) < key(s[0]) {
      InsertPerm(x, s[1..], key);
      assert s == [s[0]] + s[1..];
    }
  }

  /** A head no smaller than the first key keeps a sorted sequence sorted. */
  lemma ConsSorted<T>(h: T, r: seq<T>, key: T -> int)
    requires NonIncreasing(r, key)
    requires |r| > 0 ==> key(h) >= key(r[0])
    ensures NonIncreasing([h] + r, key)
  {
    assert ([h] + r)[1..] == r;
  }

  lemma {:induction false} InsertSorted<T>(x: T, s: seq<T>, key: T -> int)
    requires NonIncreasing(s, key)
    ensures NonIncreasing(Insert(x, s, key), key)
    decreases |s|
  {
    if s == [] || key(x) >= key(s[0]) {
      ConsSorted(x, s, key);
    } else {
      var t := s[1..];
      assert NonIncreasing(t, key);
      InsertSorted(x, t, key);
      ConsSorted(s[0], Insert(x, t, key), key);
    }
  }

  lemma WithKeyCons<T>(h: T, t: seq<T>, key: T -> int, k: int)
    ensures key(h) == k ==> WithKey([h] + t, key, k) == [h] + WithKey(t, key, k)
    ensures key(h) != k ==> WithKey([h] + t, key, k) == WithKey(t, key, k)
  {
    assert ([h] + t)[0] == h && ([h] + t)[1..] == t;
    assert [] + WithKey(t, key, k) == WithKey(t, key, k);
  }

  /** Inserting `x` adds it in front of the equal-key elements already there. */
  lemma {:induction false} InsertStable<T>(x: T, s: seq<T>, key: T -> int, k: int)
    ensures key(x) == k ==> WithKey(Insert(x, s, key), key, k) == [x] + WithKey(s, key, k)
    ensures key(x) != k ==> WithKey(Insert(x, s, key), key, k) == WithKey(s, key, k)
    decreases |s|
  {
    if s == [] || key(x) >= key(s[0]) {
      WithKeyCons(x, s, key, k);
    } else {
      var t := s[1..];
      var r := Insert(x, t, key);
      assert Insert(x, s, key) == [s[0]] + r;
      assert [s[0]] + t == s;
      InsertStable(x, t, key, k);
      WithKeyCons(s[0], r, key, k);
      WithKeyCons(s[0], t, key, k);
      if key(x) == k {
        assert key(s[0]) != k;
      } else if key(s[0]) == k {
        assert WithKey(Insert(x, s, key), key, k) == [s[0]] + WithKey(r, key, k);
      }
    }
  }

  lemma InsertStableAll<T>(x: T, s: seq<T>, key: T -> int)
    ensures forall k :: key(x) == k ==> WithKey(Insert(x, s, key), key, k) == [x] + WithKey(s, key, k)
    ensures forall k :: key(x) != k ==> WithKey(Insert(x, s, key), key, k) == WithKey(s, key, k)
  {
    forall k ensures key(x) == k ==> WithKey(Insert(x, s, key), key, k) == [x] + WithKey(s, key, k)
               ensures key(x) != k ==> WithKey(Insert(x, s, key), key, k) == WithKey(s, key, k) {
      InsertStable(x, s, key, k);
    }
  }

  /** A head whose `f` differs from every element's keeps `f` distinct. */
  lemma ConsDistinct<T, U>(h: T, r: seq<T>, f: T -> U)
    requires DistinctBy(r, f)
    requires forall y :: y in r ==> f(y) != f(h)
    ensures DistinctBy([h] + r, f)
  {
    var full := [h] + r;
    forall i, j | 0 <= i < |full| && 0 <= j < |full| && i != j ensures f(full[i]) != f(full[j]) {
      if i > 0 && j > 0 {
        assert full[i] == r[i - 1] && full[j] == r[j - 1];
      } else if i == 0 {
        assert full[j] == r[j - 1];
      } else {
        assert full[i] == r[i - 1];
      }
    }
  }

  /** The tail of an `f`-distinct sequence is `f`-distinct and avoids the head's `f`. */
  lemma TailDistinct<T, U>(s: seq<T>, f: T -> U)
    requires DistinctBy(s, f) && |s| > 0
    ensures DistinctBy(s[1..], f)
    ensures forall y :: y in s[1..] ==> f(y) != f(s[0])
  {
    var t := s[1..];
    forall i, j | 0 <= i < |t| && 0 <= j < |t| && i != j ensures f(t[i]) != f(t[j]) {
      assert t[i] == s[i + 1] && t[j] == s[j + 1];
    }
    forall y | y in t ensures f(y) != f(s[0]) {
      var i :| 0 <= i < |t| && t[i] == y;
      assert s[i + 1] == y;
    }
  }

  lemma {:induction false} InsertDistinct<T, U>(x: T, s: seq<T>, key: T -> int, f: T -> U)
    requires DistinctBy(s, f)
    requires forall y :: y in s ==> f(y) != f(x)
    ensures DistinctBy(Insert(x, s, key), f)
    decreases |s|
  {
    if s == [] || key(x) >= key(s[0]) {
      ConsDistinct(x, s, f);
    } else {
      var t := s[1..];
      TailDistinct(s, f);
      InsertDistinct(x, t, key, f);
      var rest := Insert(x, t, key);
      InsertPerm(x, t, key);
      forall y | y in rest ensures f(y) != f(s[0]) {
        assert y in multiset(rest);
        assert y == x || y in multiset(t);
      }
      ConsDistinct(s[0], rest, f);
    }
  }

  /** Inserting the head into a stable sort of the tail gives a stable sort of the whole. */
  lemma SortStep<T>(s: seq<T>, rest: seq<T>, key: T -> int)
    requires |s| > 0
    requires multiset(rest) == multiset(s[1..])
    requires NonIncreasing(rest, key)
    requires forall k :: WithKey(rest, key, k) == WithKey(s[1..], key, k)
    ensures multiset(Insert(s[0], rest, key)) == multiset(s)
    ensures NonIncreasing(Insert(s[0], rest, key), key)
    ensures forall k :: WithKey(Insert(s[0], rest, key), key, k) == WithKey(s, key, k)
  {
    InsertPerm(s[0], rest, key);
    InsertSorted(s[0], rest, key);
    InsertStableAll(s[0], rest, key);
    assert s == [s[0]] + s[1..];
    forall k ensures WithKey(Insert(s[0], rest, key), key, k) == WithKey(s, key, k) {
      WithKeyCons(s[0], s[1..], key, k);
    }
  }

  /** Stable insertion sort, largest key first. */
  function SortByKeyDesc<T>(s: seq<T>, key: T -> int): (r: seq<T>)
    ensures |r| == |s|
    decreases |s|
  {
    if s == [] then [] else Insert(s[0], SortByKeyDesc(s[1..], key), key)
  }

  /**
   * The whole specification of a stable sort: the result is a permutation
   * of the input, it is ordered by the key, and for every key the elements
   * carrying it keep their input order.
   */
  lemma {:induction false} SortByKeyDescSpec<T>(s: seq<T>, key: T -> int)
    ensures multiset(SortByKeyDesc(s, key)) == multiset(s)
    ensures NonIncreasing(SortByKeyDesc(s, key), key)
    ensures forall k :: WithKey(SortByKeyDesc(s, key), key, k) == WithKey(s, key, k)
    decreases |s|
  {
    if s != [] {
      SortByKeyDescSpec(s[1..], key);
      SortStep(s, SortByKeyDesc(s[1..], key), key);
    }
  }

  /** Sorting a sequence that is already in order changes nothing. */
  lemma {:induction false} SortSorted<T>(s: seq<T>, key: T -> int)
    requires NonIncreasing(s, key)
    ensures SortByKeyDesc(s, key) == s
    decreases |s|
  {
    if s != [] {
      SortSorted(s[1..], key);
      assert [s[0]] + s[1..] == s;
    }
  }

  /** Sorting never makes two elements agree on `f`. */
  lemma {:induction false} SortKeepsDistinct<T, U>(s: seq<T>, key: T -> int, f: T -> U)
    requires DistinctBy(s, f)
    ensures DistinctBy(SortByKeyDesc(s, key), f)
    decreases |s|
  {
    if s != [] {
      var t := s[1..];
      TailDistinct(s, f);
      SortKeepsDistinct(t, key, f);
      SortByKeyDescSpec(t, key);
      var rest := SortByKeyDesc(t, key);
      forall y | y in rest ensures f(y) != f(s[0]) {
        assert y in multiset(rest);
        assert y in multiset(t);
      }
      InsertDistinct(s[0], rest, key, f);
    }
  }
}
