/**
 * A stable sort on an integer key: the model of `Array.prototype.sort` with a
 * numeric comparator, which ECMAScript 2019 and later require to be stable.
 */
module Sorting {
  import opened Wrappers
  import opened Seqs

  ghost predicate SortedBy<T>(s: seq<T>, key: T -> int) {
    forall i, j :: 0 <= i < j < |s| ==> key(s[i]) <= key(s[j])
  }

  /** The elements whose key is `k`, in their order of appearance. */
  function WithKey<T>(s: seq<T>, key: T -> int, k: int): seq<T> {
    Filter(s, y => key(y) == k)
  }

  /** Inserts `x` in front of the first element whose key is not smaller than its own. */
  function Insert<T>(x: T, t: seq<T>, key: T -> int): (r: seq<T>)
    ensures |r| == |t| + 1
    ensures multiset(r) == multiset(t) + multiset{x}
    decreases |t|
  {
    if |t| == 0 || key(x) <= key(t[0]) then [x] + t
    else
      assert t == [t[0]] + t[1..];
      [t[0]] + Insert(x, t[1..], key)
  }

  /** Every element of the result is `x` or came from `t`. */
  lemma InsertElements<T>(x: T, t: seq<T>, key: T -> int)
    ensures forall i :: 0 <= i < |Insert(x, t, key)| ==> Insert(x, t, key)[i] == x || Insert(x, t, key)[i] in t
  {
    var r := Insert(x, t, key);
    forall i | 0 <= i < |r|
      ensures r[i] == x || r[i] in t
    {
      assert r[i] in multiset(r);
    }
  }

  /** Inserting into a sorted sequence keeps it sorted, and nothing smaller than `x` or the old head appears. */
  lemma {:induction false} InsertSorted<T>(x: T, t: seq<T>, key: T -> int)
    requires SortedBy(t, key)
    ensures SortedBy(Insert(x, t, key), key)
    ensures |t| > 0 ==> forall i :: 0 <= i < |t| + 1 ==> Min(key(x), key(t[0])) <= key(Insert(x, t, key)[i])
    decreases |t|
  {
    if |t| > 0 && key(x) > key(t[0]) {
      InsertSorted(x, t[1..], key);
      var rest := Insert(x, t[1..], key);
      var r := [t[0]] + rest;
      assert r == Insert(x, t, key);
      assert forall i :: 1 <= i < |r| ==> r[i] == rest[i - 1];
      if |t| > 1 {
        assert key(t[0]) <= key(t[1]);
        assert forall i :: 0 <= i < |rest| ==> key(t[0]) <= key(rest[i]);
      } else {
        assert rest == [x];
      }
    }
  }

  /** Insertion sort, ascending by `key`. */
  function SortBy<T>(s: seq<T>, key: T -> int): (r: seq<T>)
    ensures |r| == |s|
    ensures SortedBy(r, key)
    ensures multiset(r) == multiset(s)
    ensures forall i :: 0 <= i < |r| ==> r[i] in s
    decreases |s|
  {
    if |s| == 0 then []
    else
      assert s == [s[0]] + s[1..];
      var t := SortBy(s[1..], key);
      InsertSorted(s[0], t, key);
      var r := Insert(s[0], t, key);
      assert forall i :: 0 <= i < |r| ==> r[i] in s by {
        forall i | 0 <= i < |r| ensures r[i] in s {
          assert r[i] in multiset(r);
        }
      }
      r
  }

  lemma FilterCons<T>(x: T, t: seq<T>, p: T -> bool)
    ensures Filter([x] + t, p) == (if p(x) then [x] else []) + Filter(t, p)
  {
    assert ([x] + t)[0] == x;
    assert ([x] + t)[1..] == t;
  }

  lemma {:induction false} InsertStable<T>(x: T, t: seq<T>, key: T -> int, k: int)
    requires SortedBy(t, key)
    ensures WithKey(Insert(x, t, key), key, k) == WithKey([x] + t, key, k)
    decreases |t|
  {
    if |t| > 0 && key(x) > key(t[0]) {
      var p := (y: T) => key(y) == k;
      InsertStable(x, t[1..], key, k);
      FilterCons(t[0], Insert(x, t[1..], key), p);
      FilterCons(x, t[1..], p);
      FilterCons(x, t, p);
      assert t == [t[0]] + t[1..];
      FilterCons(t[0], t[1..], p);
    }
  }

  /**
   * Stability: for every key value, the elements carrying it come out in the
   * order they went in.
   */
  lemma {:induction false} SortByStable<T>(s: seq<T>, key: T -> int, k: int)
    ensures WithKey(SortBy(s, key), key, k) == WithKey(s, key, k)
    decreases |s|
  {
    if |s| > 0 {
      var p := (y: T) => key(y) == k;
      SortByStable(s[1..], key, k);
      InsertStable(s[0], SortBy(s[1..], key), key, k);
      FilterCons(s[0], SortBy(s[1..], key), p);
      assert s == [s[0]] + s[1..];
      FilterCons(s[0], s[1..], p);
    }
  }

  lemma MapCons<T, U>(x: T, t: seq<T>, f: T -> U)
    ensures Map([x] + t, f) == [f(x)] + Map(t, f)
  {
  }

  lemma SumCons(v: int, w: seq<int>)
    ensures Sum([v] + w) == v + Sum(w)
  {
    assert ([v] + w)[1..] == w;
  }

  lemma SumMapCons<T>(x: T, t: seq<T>, f: T -> int)
    ensures Sum(Map([x] + t, f)) == f(x) + Sum(Map(t, f))
  {
    MapCons(x, t, f);
    SumCons(f(x), Map(t, f));
  }

  lemma SumMapFirst<T>(s: seq<T>, f: T -> int)
    requires |s| > 0
    ensures Sum(Map(s, f)) == f(s[0]) + Sum(Map(s[1..], f))
  {
    assert s == [s[0]] + s[1..];
    SumMapCons(s[0], s[1..], f);
  }

  lemma {:induction false} InsertKeepsSum<T>(x: T, t: seq<T>, key: T -> int, f: T -> int)
    ensures Sum(Map(Insert(x, t, key), f)) == f(x) + Sum(Map(t, f))
    decreases |t|
  {
    if |t| == 0 || key(x) <= key(t[0]) {
      SumMapCons(x, t, f);
    } else {
      InsertKeepsSum(x, t[1..], key, f);
      SumMapCons(t[0], Insert(x, t[1..], key), f);
      SumMapFirst(t, f);
    }
  }

  /** Sorting moves elements around, so any per-element total is unchanged. */
  lemma {:induction false} SortByKeepsSum<T>(s: seq<T>, key: T -> int, f: T -> int)
    ensures Sum(Map(SortBy(s, key), f)) == Sum(Map(s, f))
    decreases |s|
  {
    if |s| > 0 {
      var t := SortBy(s[1..], key);
      SortByKeepsSum(s[1..], key, f);
      InsertKeepsSum(s[0], t, key, f);
      assert SortBy(s, key) == Insert(s[0], t, key);
      SumMapFirst(s, f);
    }
  }

  /** Sorting never duplicates an identity: distinct identities stay distinct. */
  lemma {:induction false} InsertKeepsUnique<T, K>(x: T, t: seq<T>, key: T -> int, id: T -> K)
    requires SortedBy(t, key)
    requires UniqueBy(t, id)
    requires forall j :: 0 <= j < |t| ==> id(t[j]) != id(x)
    ensures UniqueBy(Insert(x, t, key), id)
    decreases |t|
  {
    if |t| > 0 && key(x) > key(t[0]) {
      InsertKeepsUnique(x, t[1..], key, id);
      InsertElements(x, t[1..], key);
      var rest := Insert(x, t[1..], key);
      forall i | 0 <= i < |rest|
        ensures id(rest[i]) != id(t[0])
      {
        if rest[i] != x {
          var k :| 0 <= k < |t[1..]| && t[1..][k] == rest[i];
          assert t[k + 1] == rest[i];
        }
      }
    }
  }

  lemma {:induction false} SortByKeepsUnique<T, K>(s: seq<T>, key: T -> int, id: T -> K)
    requires UniqueBy(s, id)
    ensures UniqueBy(SortBy(s, key), id)
    decreases |s|
  {
    if |s| > 0 {
      SortByKeepsUnique(s[1..], key, id);
      var t := SortBy(s[1..], key);
      forall j | 0 <= j < |t|
        ensures id(t[j]) != id(s[0])
      {
        var k :| 0 <= k < |s[1..]| && s[1..][k] == t[j];
        assert s[k + 1] == t[j];
      }
      InsertKeepsUnique(s[0], t, key, id);
    }
  }

  /** Elements with equal keys appear in increasing `ord`. */
  ghost predicate TieOrdered<T>(s: seq<T>, key: T -> int, ord: T -> int) {
    forall i, j :: 0 <= i < j < |s| && key(s[i]) == key(s[j]) ==> ord(s[i]) < ord(s[j])
  }

  lemma {:induction false} InsertTieOrdered<T>(x: T, t: seq<T>, key: T -> int, ord: T -> int)
    requires SortedBy(t, key) && TieOrdered(t, key, ord)
    requires forall j :: 0 <= j < |t| ==> ord(x) < ord(t[j])
    ensures TieOrdered(Insert(x, t, key), key, ord)
    decreases |t|
  {
    if |t| > 0 && key(x) > key(t[0]) {
      InsertTieOrdered(x, t[1..], key, ord);
      InsertElements(x, t[1..], key);
      var rest := Insert(x, t[1..], key);
      var r := Insert(x, t, key);
      assert r == [t[0]] + rest;
      forall j | 0 < j < |r| && key(r[0]) == key(r[j])
        ensures ord(r[0]) < ord(r[j])
      {
        assert r[j] == rest[j - 1];
        if r[j] != x {
          var m :| 0 <= m < |t[1..]| && t[1..][m] == r[j];
          assert t[m + 1] == r[j];
        }
      }
    }
  }

  /**
   * Stability, stated by position: when the input is in increasing `ord`,
   * elements the sort cannot tell apart come out in increasing `ord` too.
   */
  lemma {:induction false} SortByTieOrdered<T>(s: seq<T>, key: T -> int, ord: T -> int)
    requires forall i, j :: 0 <= i < j < |s| ==> ord(s[i]) < ord(s[j])
    ensures TieOrdered(SortBy(s, key), key, ord)
    decreases |s|
  {
    if |s| > 0 {
      SortByTieOrdered(s[1..], key, ord);
      var t := SortBy(s[1..], key);
      forall j | 0 <= j < |t|
        ensures ord(s[0]) < ord(t[j])
      {
        var m :| 0 <= m < |s[1..]| && s[1..][m] == t[j];
        assert s[m + 1] == t[j];
      }
      InsertTieOrdered(s[0], t, key, ord);
    }
  }
}
