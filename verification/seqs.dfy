/** Generic sequence helpers: order-preserving filtering and mapping,
    the subsequence relation, and duplicate-freedom. */
module Seqs {

  /** `a` can be obtained from `b` by deleting elements: `a` occurs in `b`
      in the same relative order. */
  predicate Subseq<T(==)>(a: seq<T>, b: seq<T>)
    decreases |b|
  {
    a == [] || (b != [] && ((a[0] == b[0] && Subseq(a[1..], b[1..])) || Subseq(a, b[1..])))
  }

  /** `a` is an initial segment of `b`. */
  predicate IsPrefix<T(==)>(a: seq<T>, b: seq<T>)
  {
    |a| <= |b| && a == b[..|a|]
  }

  /** No element occurs twice. */
  predicate Distinct<T(==)>(s: seq<T>)
  {
    forall i, j :: 0 <= i < j < |s| ==> s[i] != s[j]
  }

  /** No two elements agree on `f`. */
  predicate DistinctBy<T, K(==)>(s: seq<T>, f: T -> K)
  {
    forall i, j :: 0 <= i < j < |s| ==> f(s[i]) != f(s[j])
  }

  /** The elements of `s` that satisfy `p`, in their original order. */
  function Filter<T(==)>(s: seq<T>, p: T -> bool): (r: seq<T>)
    ensures |r| <= |s|
    ensures forall i :: 0 <= i < |r| ==> r[i] in s && p(r[i])
    ensures forall i :: 0 <= i < |s| && p(s[i]) ==> s[i] in r
    ensures Subseq(r, s)
  {
    if s == [] then []
    else if p(s[0]) then
      var rest := Filter(s[1..], p);
      assert ([s[0]] + rest)[1..] == rest;
      [s[0]] + rest
    else Filter(s[1..], p)
  }

  /** `f` applied to every element of `s`, position by position. */
  function Map<T, U>(s: seq<T>, f: T -> U): (r: seq<U>)
    ensures |r| == |s|
    ensures forall i :: 0 <= i < |s| ==> r[i] == f(s[i])
  {
    if s == [] then [] else [f(s[0])] + Map(s[1..], f)
  }

  lemma {:induction false} SubseqMembers<T>(a: seq<T>, b: seq<T>)
    requires Subseq(a, b)
    ensures forall x :: x in a ==> x in b
    decreases |b|
  {
    if a != [] {
      if a[0] == b[0] && Subseq(a[1..], b[1..]) {
        SubseqMembers(a[1..], b[1..]);
        assert a == [a[0]] + a[1..];
      } else {
        SubseqMembers(a, b[1..]);
      }
    }
  }

  lemma {:induction false} SubseqTrans<T>(a: seq<T>, b: seq<T>, c: seq<T>)
    requires Subseq(a, b) && Subseq(b, c)
    ensures Subseq(a, c)
    decreases |c|
  {
    if a != [] {
      assert b != [] && c != [];
      if b[0] == c[0] && Subseq(b[1..], c[1..]) {
        if a[0] == b[0] && Subseq(a[1..], b[1..]) {
          SubseqTrans(a[1..], b[1..], c[1..]);
        } else {
          SubseqTrans(a, b[1..], c[1..]);
        }
      } else {
        SubseqTrans(a, b, c[1..]);
      }
    }
  }

  lemma {:induction false} SubseqMap<T, U>(a: seq<T>, b: seq<T>, f: T -> U)
    requires Subseq(a, b)
    ensures Subseq(Map(a, f), Map(b, f))
    decreases |b|
  {
    if a != [] {
      var ma, mb := Map(a, f), Map(b, f);
      assert ma[1..] == Map(a[1..], f);
      assert mb[1..] == Map(b[1..], f);
      if a[0] == b[0] && Subseq(a[1..], b[1..]) {
        SubseqMap(a[1..], b[1..], f);
      } else {
        SubseqMap(a, b[1..], f);
      }
    }
  }

  lemma {:induction false} SubseqDistinct<T>(a: seq<T>, b: seq<T>)
    requires Subseq(a, b) && Distinct(b)
    ensures Distinct(a)
    decreases |b|
  {
    if a != [] {
      if a[0] == b[0] && Subseq(a[1..], b[1..]) {
        SubseqDistinct(a[1..], b[1..]);
        SubseqMembers(a[1..], b[1..]);
        forall j | 0 < j < |a|
          ensures a[0] != a[j]
        {
          assert a[j] == a[1..][j - 1];
          assert a[j] in b[1..];
          var k :| 0 <= k < |b[1..]| && b[1..][k] == a[j];
          assert b[k + 1] == a[j];
        }
      } else {
        SubseqDistinct(a, b[1..]);
      }
    }
  }

  lemma {:induction false} FilterSnoc<T>(s: seq<T>, x: T, p: T -> bool)
    ensures Filter(s + [x], p) == Filter(s, p) + (if p(x) then [x] else [])
    decreases |s|
  {
    if s != [] {
      assert (s + [x])[1..] == s[1..] + [x];
      FilterSnoc(s[1..], x, p);
    } else {
      assert s + [x] == [x];
    }
  }

  lemma {:induction false} MapPrefix<T, U>(s: seq<T>, n: nat, f: T -> U)
    requires n <= |s|
    ensures Map(s[..n], f) == Map(s, f)[..n]
  {
  }

  lemma {:induction false} MapSnoc<T, U>(s: seq<T>, x: T, f: T -> U)
    ensures Map(s + [x], f) == Map(s, f) + [f(x)]
  {
  }

  /** A list without two elements agreeing on `f` is no longer than the set
      of values `f` takes on it. */
  lemma {:induction false} DistinctByBound<T, K>(s: seq<T>, f: T -> K, values: set<K>)
    requires DistinctBy(s, f)
    requires forall k :: 0 <= k < |s| ==> f(s[k]) in values
    ensures |s| <= |values|
    decreases |s|
  {
    if s != [] {
      var rest := values - {f(s[0])};
      assert forall k :: 0 < k < |s| ==> f(s[k]) != f(s[0]);
      assert forall k :: 0 <= k < |s[1..]| ==> s[1..][k] == s[k + 1];
      DistinctByBound(s[1..], f, rest);
    }
  }

  /** Two positions of a subsequence, in order, come from two positions of
      the longer sequence in the same order. */
  lemma {:induction false} SubseqOrder<T>(a: seq<T>, b: seq<T>, x: nat, y: nat)
    requires Subseq(a, b) && x < y < |a|
    ensures exists i, j :: 0 <= i < j < |b| && b[i] == a[x] && b[j] == a[y]
    decreases |b|
  {
    assert b != [];
    if a[0] == b[0] && Subseq(a[1..], b[1..]) {
      if x == 0 {
        SubseqMembers(a[1..], b[1..]);
        assert a[y] == a[1..][y - 1];
        assert a[y] in b[1..];
        var j :| 0 <= j < |b[1..]| && b[1..][j] == a[y];
        assert b[0] == a[x] && b[j + 1] == a[y];
      } else {
        SubseqOrder(a[1..], b[1..], x - 1, y - 1);
        var i, j :| 0 <= i < j < |b[1..]| && b[1..][i] == a[1..][x - 1] && b[1..][j] == a[1..][y - 1];
        assert b[i + 1] == a[x] && b[j + 1] == a[y];
      }
    } else {
      SubseqOrder(a, b[1..], x, y);
      var i, j :| 0 <= i < j < |b[1..]| && b[1..][i] == a[x] && b[1..][j] == a[y];
      assert b[i + 1] == a[x] && b[j + 1] == a[y];
    }
  }

  /** One unfolding of `Filter` at the head of a non-empty sequence. */
  lemma {:induction false} FilterStep<T>(s: seq<T>, p: T -> bool)
    requires s != []
    ensures p(s[0]) ==> Filter(s, p) == [s[0]] + Filter(s[1..], p)
    ensures !p(s[0]) ==> Filter(s, p) == Filter(s[1..], p)
  {
  }

  /** Filtering keeps two kept elements in their order. */
  lemma {:induction false} FilterOrder<T>(s: seq<T>, p: T -> bool, k: nat, l: nat)
    requires k < l < |s| && p(s[k]) && p(s[l])
    ensures exists x, y :: 0 <= x < y < |Filter(s, p)| && Filter(s, p)[x] == s[k] && Filter(s, p)[y] == s[l]
    decreases |s|
  {
    var r := Filter(s, p);
    var rest := Filter(s[1..], p);
    FilterStep(s, p);
    assert s[1..][l - 1] == s[l];
    if k == 0 {
      assert s[l] in rest;
      var y :| 0 <= y < |rest| && rest[y] == s[l];
      ConsOrder(s[0], rest, 0, y);
      assert 0 <= 0 < y + 1 < |r| && r[0] == s[k] && r[y + 1] == s[l];
    } else {
      FilterOrder(s[1..], p, k - 1, l - 1);
      assert s[1..][k - 1] == s[k];
      var x, y :| 0 <= x < y < |rest| && rest[x] == s[k] && rest[y] == s[l];
      if p(s[0]) {
        ConsOrder(s[0], rest, x + 1, y);
        assert 0 <= x + 1 < y + 1 < |r| && r[x + 1] == s[k] && r[y + 1] == s[l];
      } else {
        assert 0 <= x < y < |r| && r[x] == s[k] && r[y] == s[l];
      }
    }
  }

  /** Positions in a tail, shifted by one in the cons. */
  lemma {:induction false} ConsOrder<T>(h: T, rest: seq<T>, x: nat, y: nat)
    requires x <= y < |rest|
    ensures x == 0 ==> ([h] + rest)[0] == h
    ensures ([h] + rest)[y + 1] == rest[y]
    ensures 0 < x ==> ([h] + rest)[x] == rest[x - 1]
  {
  }

  function Id<T>(x: T): T { x }

  /** A duplicate-free sequence drawn from two different values, containing
      both, is those two in one order or the other. */
  lemma {:induction false} DistinctOfTwo<T>(s: seq<T>, a: T, b: T)
    requires Distinct(s) && a in s && b in s && a != b
    requires forall k :: 0 <= k < |s| ==> s[k] == a || s[k] == b
    ensures s == [a, b] || s == [b, a]
  {
    assert DistinctBy(s, Id);
    assert |{a, b}| == 2;
    DistinctByBound(s, Id, {a, b});
    var i :| 0 <= i < |s| && s[i] == a;
    var j :| 0 <= j < |s| && s[j] == b;
    assert i != j;
    assert s == [s[0], s[1]];
  }
}
