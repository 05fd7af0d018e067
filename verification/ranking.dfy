/** Stable ranking by a numeric key: the `sort((a, b) => a.distance -
    b.distance)` followed by `slice(0, n)` that both club selection and
    partner selection use. JavaScript's `Array.prototype.sort` is stable,
    so items with equal keys keep their input order. */
module Ranking {
  import opened Seqs

  datatype Keyed<T> = Keyed(item: T, key: int)

  predicate Sorted<T>(s: seq<Keyed<T>>) {
    forall i, j :: 0 <= i < j < |s| ==> s[i].key <= s[j].key
  }

  /** The items of `s` carrying key `k`, in their order in `s`. */
  function WithKey<T>(s: seq<Keyed<T>>, k: int): seq<Keyed<T>> {
    if s == [] then []
    else (if s[0].key == k then [s[0]] else []) + WithKey(s[1..], k)
  }

  function Items<T>(s: seq<Keyed<T>>): (r: seq<T>)
    ensures |r| == |s|
    ensures forall i :: 0 <= i < |s| ==> r[i] == s[i].item
  {
    if s == [] then [] else [s[0].item] + Items(s[1..])
  }

  /** Inserts `x` in front of the first item whose key is not smaller. */
  function Insert<T>(x: Keyed<T>, s: seq<Keyed<T>>): (r: seq<Keyed<T>>)
    ensures |r| == |s| + 1
    ensures multiset(r) == multiset(s) + multiset{x}
  {
    if s == [] then [x]
    else if x.key <= s[0].key then [x] + s
    else
      assert s == [s[0]] + s[1..];
      [s[0]] + Insert(x, s[1..])
  }

  lemma {:induction false} InsertSorted<T>(x: Keyed<T>, s: seq<Keyed<T>>)
    requires Sorted(s)
    ensures Sorted(Insert(x, s))
  {
    if s != [] && x.key > s[0].key {
      var t := Insert(x, s[1..]);
      InsertSorted(x, s[1..]);
      assert s[0].key <= t[0].key by {
        if s[1..] == [] || x.key <= s[1..][0].key {
          assert t[0] == x;
        } else {
          assert t[0] == s[1];
        }
      }
      var r := [s[0]] + t;
      assert Insert(x, s) == r;
      forall i, j | 0 <= i < j < |r| ensures r[i].key <= r[j].key {
        if i == 0 && j > 1 {
          assert t[0].key <= t[j - 1].key;
        }
      }
    }
  }

  /** Stable insertion sort by key. */
  function SortByKey<T>(xs: seq<Keyed<T>>): (r: seq<Keyed<T>>)
    ensures |r| == |xs|
    ensures multiset(r) == multiset(xs)
    ensures Sorted(r)
  {
    if xs == [] then []
    else
      assert xs == [xs[0]] + xs[1..];
      InsertSorted(xs[0], SortByKey(xs[1..]));
      Insert(xs[0], SortByKey(xs[1..]))
  }

  /** Inserting `x` adds it in front of the items of its own key and leaves
      the items of every other key as they were: everything it is inserted
      behind has a smaller key. */
  lemma {:induction false} InsertWithKey<T>(x: Keyed<T>, s: seq<Keyed<T>>, k: int)
    ensures WithKey(Insert(x, s), k) == (if x.key == k then [x] else []) + WithKey(s, k)
  {
    if s == [] {
    } else if x.key <= s[0].key {
      assert Insert(x, s) == [x] + s;
      assert ([x] + s)[1..] == s;
    } else {
      var t := Insert(x, s[1..]);
      InsertWithKey(x, s[1..], k);
      assert Insert(x, s) == [s[0]] + t;
      assert ([s[0]] + t)[1..] == t;
      assert WithKey([s[0]] + t, k) == (if s[0].key == k then [s[0]] else []) + WithKey(t, k);
      assert WithKey(s, k) == (if s[0].key == k then [s[0]] else []) + WithKey(s[1..], k);
      if s[0].key == k {
        assert x.key != k;
        assert WithKey(Insert(x, s), k) == [s[0]] + WithKey(s[1..], k);
      } else {
        assert WithKey(Insert(x, s), k) == WithKey(t, k);
        assert WithKey(s, k) == WithKey(s[1..], k);
      }
    }
  }

  /** Stability: for every key, the items carrying it appear in the sorted
      output in exactly their input order. */
  lemma {:induction false} SortIsStable<T>(xs: seq<Keyed<T>>, k: int)
    ensures WithKey(SortByKey(xs), k) == WithKey(xs, k)
  {
    if xs != [] {
      SortIsStable(xs[1..], k);
      InsertWithKey(xs[0], SortByKey(xs[1..]), k);
    }
  }

  /** The `n` smallest-keyed items of `xs`, ties in input order. */
  function Closest<T>(xs: seq<Keyed<T>>, n: nat): (r: seq<Keyed<T>>)
    ensures |r| == if |xs| < n then |xs| else n
    ensures Sorted(r)
    ensures multiset(r) <= multiset(xs)
  {
    var s := SortByKey(xs);
    var m := if |xs| < n then |xs| else n;
    assert s == s[..m] + s[m..];
    assert multiset(s) == multiset(s[..m]) + multiset(s[m..]);
    s[..m]
  }

  /** In a sorted sequence every item of a prefix is at most every item of
      the remaining suffix. */
  lemma SortedSplit<T>(s: seq<Keyed<T>>, m: nat)
    requires Sorted(s) && m <= |s|
    ensures forall y, z :: y in s[..m] && z in s[m..] ==> y.key <= z.key
  {
    forall y, z | y in s[..m] && z in s[m..] ensures y.key <= z.key {
      var i :| 0 <= i < m && s[..m][i] == y;
      var j :| 0 <= j < |s| - m && s[m..][j] == z;
      assert s[i].key <= s[m + j].key;
    }
  }

  /** Every item not kept is at least as far as every item kept. */
  lemma ClosestBound<T>(xs: seq<Keyed<T>>, n: nat)
    ensures var r := Closest(xs, n);
            forall x, y :: x in multiset(xs) - multiset(r) && y in r ==> y.key <= x.key
  {
    var s := SortByKey(xs);
    var m := if |xs| < n then |xs| else n;
    var r := Closest(xs, n);
    assert r == s[..m];
    assert s == s[..m] + s[m..];
    assert multiset(xs) == multiset(r) + multiset(s[m..]);
    SortedSplit(s, m);
    forall x | x in multiset(xs) - multiset(r) ensures x in s[m..] {
      assert x in multiset(s[m..]);
    }
  }

  /** Every entry kept is an entry of the input. */
  lemma ClosestMembers<T>(xs: seq<Keyed<T>>, n: nat)
    ensures forall i :: 0 <= i < |Closest(xs, n)| ==> Closest(xs, n)[i] in xs
  {
    var r := Closest(xs, n);
    forall i | 0 <= i < |r| ensures r[i] in xs {
      assert r[i] in multiset(xs);
    }
  }

  /** The closest `n` are a prefix of the full stable ranking. */
  lemma ClosestIsPrefix<T>(xs: seq<Keyed<T>>, n: nat)
    ensures Closest(xs, n) <= SortByKey(xs)
  {
  }

  lemma ItemsMembership<T>(s: seq<Keyed<T>>, x: Keyed<T>)
    requires x in s
    ensures x.item in Items(s)
  {
    var i :| 0 <= i < |s| && s[i] == x;
    assert Items(s)[i] == x.item;
  }

  /** An item left out of the closest `n` is at least as far as every item
      kept. */
  lemma LeftOutIsFarther<T>(xs: seq<Keyed<T>>, n: nat, x: Keyed<T>)
    requires x in xs && x.item !in Items(Closest(xs, n))
    ensures forall i :: 0 <= i < |Closest(xs, n)| ==> Closest(xs, n)[i].key <= x.key
  {
    var r := Closest(xs, n);
    assert x in multiset(xs);
    if x in multiset(r) {
      ItemsMembership(r, x);
    }
    assert x in multiset(xs) - multiset(r);
    ClosestBound(xs, n);
    forall i | 0 <= i < |r| ensures r[i].key <= x.key {
      assert r[i] in r;
    }
  }

  /** With no more than `n` items, every item is among the closest `n`. */
  lemma FewAreAllKept<T>(xs: seq<Keyed<T>>, n: nat, x: Keyed<T>)
    requires |xs| <= n && x in xs
    ensures x.item in Items(Closest(xs, n))
  {
    var r := Closest(xs, n);
    assert r == SortByKey(xs);
    assert x in multiset(r);
    ItemsMembership(r, x);
  }

  /** A sequence without repeats holds each value at most once. */
  lemma {:induction false} DistinctCount<T>(s: seq<T>, x: T)
    requires Distinct(s)
    ensures multiset(s)[x] <= 1
  {
    if s != [] {
      assert s == [s[0]] + s[1..];
      assert Distinct(s[1..]) by {
        forall i, j | 0 <= i < j < |s[1..]| ensures s[1..][i] != s[1..][j] {
          assert s[1..][i] == s[i + 1] && s[1..][j] == s[j + 1];
        }
      }
      DistinctCount(s[1..], x);
      if s[0] == x {
        assert x !in s[1..] by {
          forall k | 0 <= k < |s[1..]| ensures s[1..][k] != x {
            assert s[1..][k] == s[k + 1];
          }
        }
      }
    }
  }

  /** A value at two positions is held at least twice. */
  lemma RepeatCount<T>(s: seq<T>, i: int, j: int)
    requires 0 <= i < j < |s| && s[i] == s[j]
    ensures multiset(s)[s[i]] >= 2
  {
    assert s == s[..i] + [s[i]] + s[i + 1..j] + [s[j]] + s[j + 1..];
  }

  /** When the items are distinct, so are the items of the closest `n`:
      the ranking neither repeats nor merges entries. */
  lemma ClosestItemsDistinct<T>(xs: seq<Keyed<T>>, n: nat)
    requires Distinct(Items(xs))
    ensures Distinct(Items(Closest(xs, n)))
  {
    var r := Closest(xs, n);
    assert Distinct(xs) by {
      forall i, j | 0 <= i < j < |xs| ensures xs[i] != xs[j] {
        assert Items(xs)[i] != Items(xs)[j];
      }
    }
    forall i, j | 0 <= i < j < |r| ensures Items(r)[i] != Items(r)[j] {
      if r[i].item == r[j].item {
        assert r[i] in multiset(xs) && r[j] in multiset(xs);
        var a :| 0 <= a < |xs| && xs[a] == r[i];
        var b :| 0 <= b < |xs| && xs[b] == r[j];
        assert Items(xs)[a] == Items(xs)[b];
        assert r[i] == r[j];
        RepeatCount(r, i, j);
        DistinctCount(xs, r[i]);
        assert false;
      }
    }
  }
}
