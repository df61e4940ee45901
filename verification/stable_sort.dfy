/** A stable insertion sort in descending key order: Python's
    `list.sort(key=..., reverse=True)`, which keeps elements with equal keys
    in their original relative order. */
module StableSort {
  import opened Seqs

  /** Keys never increase from left to right. */
  predicate SortedDesc<T>(s: seq<T>, key: T -> int)
  {
    forall i, j :: 0 <= i < j < |s| ==> key(s[i]) >= key(s[j])
  }

  /** The elements of `s` whose key is `v`, in order. */
  function WithKey<T(==)>(s: seq<T>, key: T -> int, v: int): seq<T>
  {
    Filter(s, x => key(x) == v)
  }

  /** Two elements with key `v` keep their order among the elements with that key. */
  lemma {:induction false} WithKeyOrder<T>(s: seq<T>, key: T -> int, v: int, k: nat, l: nat)
    requires k < l < |s| && key(s[k]) == v && key(s[l]) == v
    ensures exists x, y :: 0 <= x < y < |WithKey(s, key, v)|
                          && WithKey(s, key, v)[x] == s[k] && WithKey(s, key, v)[y] == s[l]
  {
    var p := x => key(x) == v;
    assert WithKey(s, key, v) == Filter(s, p);
    FilterOrder(s, p, k, l);
  }

  /** Places `x` in front of the first element whose key is not larger. */
  function Insert<T(==)>(x: T, s: seq<T>, key: T -> int): (r: seq<T>)
    requires SortedDesc(s, key)
    ensures SortedDesc(r, key)
    ensures multiset(r) == multiset(s) + multiset{x}
    decreases |s|
  {
    if s == [] || key(s[0]) <= key(x) then [x] + s
    else
      var rest := Insert(x, s[1..], key);
      assert s == [s[0]] + s[1..];
      HeadBoundsInsertion(x, s, key, rest);
      ConsSorted(s[0], rest, key);
      [s[0]] + rest
  }

  /** Inserting `x` below the head keeps every key at most the head's. */
  lemma {:induction false} HeadBoundsInsertion<T>(x: T, s: seq<T>, key: T -> int, rest: seq<T>)
    requires SortedDesc(s, key)
    requires s != [] && key(s[0]) > key(x)
    requires multiset(rest) == multiset(s[1..]) + multiset{x}
    ensures forall i :: 0 <= i < |rest| ==> key(rest[i]) <= key(s[0])
  {
    forall i | 0 <= i < |rest| ensures key(rest[i]) <= key(s[0]) {
      assert rest[i] in multiset(s[1..]) + multiset{x};
      if rest[i] != x {
        var k :| 0 <= k < |s[1..]| && s[1..][k] == rest[i];
        assert s[k + 1] == rest[i];
      }
    }
  }

  lemma {:induction false} ConsSorted<T>(h: T, rest: seq<T>, key: T -> int)
    requires SortedDesc(rest, key)
    requires forall i :: 0 <= i < |rest| ==> key(rest[i]) <= key(h)
    ensures SortedDesc([h] + rest, key)
  {
    var r := [h] + rest;
    forall i, j | 0 <= i < j < |r| ensures key(r[i]) >= key(r[j]) {
      assert r[j] == rest[j - 1];
    }
  }

  /** Sorts by descending key; equal keys keep their input order. */
  function SortDesc<T(==)>(s: seq<T>, key: T -> int): (r: seq<T>)
    ensures SortedDesc(r, key)
    ensures multiset(r) == multiset(s)
    ensures forall i :: 0 <= i < |r| ==> r[i] in s
    ensures forall i :: 0 <= i < |s| ==> s[i] in r
    decreases |s|
  {
    if s == [] then []
    else
      assert s == [s[0]] + s[1..];
      var r := Insert(s[0], SortDesc(s[1..], key), key);
      SameMembers(r, s);
      r
  }

  /** Sequences that are permutations of each other have the same members. */
  lemma {:induction false} SameMembers<T>(r: seq<T>, s: seq<T>)
    requires multiset(r) == multiset(s)
    ensures forall i :: 0 <= i < |r| ==> r[i] in s
    ensures forall i :: 0 <= i < |s| ==> s[i] in r
  {
    assert forall i :: 0 <= i < |r| ==> r[i] in multiset(r);
    assert forall i :: 0 <= i < |s| ==> s[i] in multiset(s);
  }

  lemma {:induction false} InsertWithKey<T>(x: T, s: seq<T>, key: T -> int, v: int)
    requires SortedDesc(s, key)
    ensures WithKey(Insert(x, s, key), key, v)
         == (if key(x) == v then [x] else []) + WithKey(s, key, v)
    decreases |s|
  {
    if s == [] || key(s[0]) <= key(x) {
      assert ([x] + s)[1..] == s;
    } else {
      var rest := Insert(x, s[1..], key);
      assert ([s[0]] + rest)[1..] == rest;
      InsertWithKey(x, s[1..], key, v);
    }
  }

  /** Stability: for every key value, the elements carrying it appear in the
      sorted output exactly as they appear in the input. */
  lemma {:induction false} SortDescStable<T>(s: seq<T>, key: T -> int)
    ensures forall v :: WithKey(SortDesc(s, key), key, v) == WithKey(s, key, v)
    decreases |s|
  {
    if s != [] {
      SortDescStable(s[1..], key);
      forall v ensures WithKey(SortDesc(s, key), key, v) == WithKey(s, key, v) {
        InsertWithKey(s[0], SortDesc(s[1..], key), key, v);
      }
    }
  }

  lemma {:induction false} InsertDistinctBy<T, K>(x: T, s: seq<T>, key: T -> int, f: T -> K)
    requires SortedDesc(s, key)
    requires DistinctBy(s, f)
    requires forall y :: y in s ==> f(y) != f(x)
    ensures DistinctBy(Insert(x, s, key), f)
    decreases |s|
  {
    if s == [] || key(s[0]) <= key(x) {
    } else {
      var rest := Insert(x, s[1..], key);
      assert DistinctBy(s[1..], f);
      InsertDistinctBy(x, s[1..], key, f);
      HeadDiffersFromInsertion(x, s, f, rest);
      ConsDistinctBy(s[0], rest, f);
    }
  }

  lemma {:induction false} HeadDiffersFromInsertion<T, K>(x: T, s: seq<T>, f: T -> K, rest: seq<T>)
    requires s != [] && DistinctBy(s, f) && f(s[0]) != f(x)
    requires multiset(rest) == multiset(s[1..]) + multiset{x}
    ensures forall y :: y in rest ==> f(y) != f(s[0])
  {
    forall y | y in rest ensures f(y) != f(s[0]) {
      assert y in multiset(rest);
      if y != x {
        assert y in s[1..];
        var k :| 0 <= k < |s[1..]| && s[1..][k] == y;
        assert s[k + 1] == y;
      }
    }
  }

  lemma {:induction false} ConsDistinctBy<T, K>(h: T, rest: seq<T>, f: T -> K)
    requires DistinctBy(rest, f)
    requires forall y :: y in rest ==> f(y) != f(h)
    ensures DistinctBy([h] + rest, f)
  {
    var r := [h] + rest;
    forall i, j | 0 <= i < j < |r| ensures f(r[i]) != f(r[j]) {
      if i == 0 {
        assert r[j] == rest[j - 1];
      } else {
        assert r[i] == rest[i - 1] && r[j] == rest[j - 1];
      }
    }
  }

  /** Sorting never makes two elements agree on `f`. */
  lemma {:induction false} SortDescDistinctBy<T, K>(s: seq<T>, key: T -> int, f: T -> K)
    requires DistinctBy(s, f)
    ensures DistinctBy(SortDesc(s, key), f)
    decreases |s|
  {
    if s != [] {
      assert DistinctBy(s[1..], f);
      SortDescDistinctBy(s[1..], key, f);
      var sorted := SortDesc(s[1..], key);
      forall y | y in sorted ensures f(y) != f(s[0]) {
        var k :| 0 <= k < |s[1..]| && s[1..][k] == y;
        assert s[k + 1] == y;
      }
      InsertDistinctBy(s[0], sorted, key, f);
    }
  }

  /** A duplicate-free sorted list drawn from two elements with different
      keys, containing both, is the higher-keyed one followed by the other. */
  lemma {:induction false} TwoElementsSorted<T, K>(s: seq<T>, key: T -> int, f: T -> K, high: T, low: T)
    requires f(high) != f(low) && key(high) > key(low)
    requires high in s && low in s
    requires forall k :: 0 <= k < |s| ==> s[k] == high || s[k] == low
    requires DistinctBy(s, f)
    requires SortedDesc(s, key)
    ensures s == [high, low]
  {
    DistinctByBound(s, f, {f(high), f(low)});
    assert f(s[0]) != f(s[1]);
    assert key(s[0]) >= key(s[1]);
  }
}
