/**
 * A store table as a sequence of rows with a natural key. Reads return rows in
 * table order; an upsert (`upsert(row, { onConflict: key })`) overwrites the row
 * holding the key in place, or appends the row when the key is new.
 */
module Tables {
  import opened Wrappers
  import opened Seqs

  /** Position of the first row holding key `k`. */
  function FindKey<T, K(==)>(s: seq<T>, key: T -> K, k: K): (r: Option<nat>)
    ensures r.Some? ==> r.value < |s| && key(s[r.value]) == k
    ensures r.Some? ==> forall j :: 0 <= j < r.value ==> key(s[j]) != k
    ensures r.None? <==> forall j :: 0 <= j < |s| ==> key(s[j]) != k
  {
    if |s| == 0 then None
    else if key(s[0]) == k then Some(0)
    else match FindKey(s[1..], key, k)
      case None => None
      case Some(i) => Some(i + 1)
  }

  lemma FindKeyIs<T, K>(s: seq<T>, key: T -> K, k: K, i: nat)
    requires i < |s| && key(s[i]) == k
    requires forall j :: 0 <= j < i ==> key(s[j]) != k
    ensures FindKey(s, key, k) == Some(i)
  {
    assert FindKey(s, key, k).Some?;
  }

  /** Appending a row does not move the first occurrence of any key already present. */
  lemma FindKeyAppend<T, K>(s: seq<T>, x: T, key: T -> K, k: K)
    ensures FindKey(s + [x], key, k)
         == if FindKey(s, key, k).Some? then FindKey(s, key, k)
            else if key(x) == k then Some(|s|) else None
  {
    var t := s + [x];
    match FindKey(s, key, k)
    case Some(i) => FindKeyIs(t, key, k, i);
    case None =>
      if key(x) == k {
        FindKeyIs(t, key, k, |s|);
      } else {
        assert forall j :: 0 <= j < |t| ==> key(t[j]) != k by {
          forall j | 0 <= j < |t| ensures key(t[j]) != k {
            if j < |s| { assert t[j] == s[j]; }
          }
        }
      }
  }

  /** The row holding key `k`, if any (a point read). */
  function Lookup<T, K(==)>(s: seq<T>, key: T -> K, k: K): (r: Option<T>)
    ensures r.Some? ==> r.value in s && key(r.value) == k
    ensures r.None? <==> forall j :: 0 <= j < |s| ==> key(s[j]) != k
  {
    match FindKey(s, key, k)
    case None => None
    case Some(i) => Some(s[i])
  }

  /** Insert-or-overwrite on the natural key. */
  function Upsert<T, K(==)>(s: seq<T>, x: T, key: T -> K): (r: seq<T>)
    ensures |r| == |s| || |r| == |s| + 1
    ensures forall j :: 0 <= j < |s| && key(s[j]) != key(x) ==> r[j] == s[j]
    ensures forall j :: 0 <= j < |s| ==> key(r[j]) == key(s[j])
  {
    match FindKey(s, key, key(x))
    case Some(i) => s[i := x]
    case None => s + [x]
  }

  /** Upserts `xs` one after the other, in order. */
  function UpsertAll<T, K(==)>(s: seq<T>, xs: seq<T>, key: T -> K): (r: seq<T>)
    ensures |s| <= |r| <= |s| + |xs|
    decreases |xs|
  {
    if |xs| == 0 then s else Upsert(UpsertAll(s, xs[..|xs| - 1], key), xs[|xs| - 1], key)
  }

  lemma UpsertAllSnoc<T, K>(s: seq<T>, xs: seq<T>, x: T, key: T -> K)
    ensures UpsertAll(s, xs + [x], key) == Upsert(UpsertAll(s, xs, key), x, key)
  {
    assert (xs + [x])[..|xs|] == xs;
  }

  /** The last element of `xs` holding key `k`: the one whose upsert is the final word. */
  function LastWithKey<T, K(==)>(xs: seq<T>, key: T -> K, k: K): (r: Option<T>)
    ensures r.Some? ==> r.value in xs && key(r.value) == k
    ensures r.None? <==> forall j :: 0 <= j < |xs| ==> key(xs[j]) != k
    decreases |xs|
  {
    if |xs| == 0 then None
    else if key(xs[|xs| - 1]) == k then Some(xs[|xs| - 1])
    else LastWithKey(xs[..|xs| - 1], key, k)
  }

  /** After an upsert, a read of its key sees the new row and every other key is unaffected. */
  lemma LookupUpsert<T, K>(s: seq<T>, x: T, key: T -> K, k: K)
    ensures Lookup(Upsert(s, x, key), key, k) == if k == key(x) then Some(x) else Lookup(s, key, k)
  {
    var r := Upsert(s, x, key);
    match FindKey(s, key, key(x))
    case Some(i) =>
      if k == key(x) {
        FindKeyIs(r, key, k, i);
      } else {
        match FindKey(s, key, k)
        case Some(m) => FindKeyIs(r, key, k, m);
        case None =>
          assert forall j :: 0 <= j < |r| ==> key(r[j]) != k by {
            forall j | 0 <= j < |r| ensures key(r[j]) != k {
              if j != i { assert r[j] == s[j]; }
            }
          }
      }
    case None =>
      if k == key(x) {
        FindKeyIs(r, key, k, |s|);
      } else {
        match FindKey(s, key, k)
        case Some(m) => FindKeyIs(r, key, k, m);
        case None =>
          assert forall j :: 0 <= j < |r| ==> key(r[j]) != k by {
            forall j | 0 <= j < |r| ensures key(r[j]) != k {
              if j < |s| { assert r[j] == s[j]; }
            }
          }
      }
  }

  /**
   * After a batch of upserts, each key holds the last row written for it, and keys
   * the batch does not touch keep what they held.
   */
  lemma {:induction false} LookupUpsertAll<T, K>(s: seq<T>, xs: seq<T>, key: T -> K, k: K)
    ensures Lookup(UpsertAll(s, xs, key), key, k)
         == match LastWithKey(xs, key, k) case Some(x) => Some(x) case None => Lookup(s, key, k)
    decreases |xs|
  {
    if |xs| > 0 {
      LookupUpsertAll(s, xs[..|xs| - 1], key, k);
      LookupUpsert(UpsertAll(s, xs[..|xs| - 1], key), xs[|xs| - 1], key, k);
    }
  }

  /** Rewriting a row that is already stored is a no-op. */
  lemma UpsertPresent<T, K>(s: seq<T>, x: T, key: T -> K)
    requires Lookup(s, key, key(x)) == Some(x)
    ensures Upsert(s, x, key) == s
  {
    var i := FindKey(s, key, key(x)).value;
    assert s[i := x] == s;
  }

  lemma {:induction false} UpsertAllPresent<T, K>(t: seq<T>, xs: seq<T>, key: T -> K)
    requires forall j :: 0 <= j < |xs| ==> Lookup(t, key, key(xs[j])) == Some(xs[j])
    ensures UpsertAll(t, xs, key) == t
    decreases |xs|
  {
    if |xs| > 0 {
      UpsertAllPresent(t, xs[..|xs| - 1], key);
      UpsertPresent(t, xs[|xs| - 1], key);
    }
  }

  /** Upserting a batch a second time changes nothing (the idempotency of a natural-key upsert). */
  lemma UpsertAllIdempotent<T, K>(s: seq<T>, xs: seq<T>, key: T -> K)
    requires KeyFunctional(xs, key)
    ensures UpsertAll(UpsertAll(s, xs, key), xs, key) == UpsertAll(s, xs, key)
  {
    var t := UpsertAll(s, xs, key);
    forall j | 0 <= j < |xs|
      ensures Lookup(t, key, key(xs[j])) == Some(xs[j])
    {
      LookupUpsertAll(s, xs, key, key(xs[j]));
      var y := LastWithKey(xs, key, key(xs[j])).value;
      var m :| 0 <= m < |xs| && xs[m] == y;
    }
    UpsertAllPresent(t, xs, key);
  }

  lemma {:induction false} UpsertAllConcat<T, K>(s: seq<T>, a: seq<T>, b: seq<T>, key: T -> K)
    ensures UpsertAll(UpsertAll(s, a, key), b, key) == UpsertAll(s, a + b, key)
    decreases |b|
  {
    if |b| == 0 {
      assert a + b == a;
    } else {
      assert (a + b)[..|a + b| - 1] == a + b[..|b| - 1];
      UpsertAllConcat(s, a, b[..|b| - 1], key);
    }
  }

  /** An upsert never creates a second row for a key. */
  lemma UpsertKeepsUnique<T, K>(s: seq<T>, x: T, key: T -> K)
    requires UniqueBy(s, key)
    ensures UniqueBy(Upsert(s, x, key), key)
  {
  }

  lemma {:induction false} UpsertAllKeepsUnique<T, K>(s: seq<T>, xs: seq<T>, key: T -> K)
    requires UniqueBy(s, key)
    ensures UniqueBy(UpsertAll(s, xs, key), key)
    decreases |xs|
  {
    if |xs| > 0 {
      UpsertAllKeepsUnique(s, xs[..|xs| - 1], key);
      UpsertKeepsUnique(UpsertAll(s, xs[..|xs| - 1], key), xs[|xs| - 1], key);
    }
  }
}
