/**
 * Grouping amounts by key into a plain object and reading it back with
 * `Object.entries`: the per-rider totals of the ranking pass and the per-day
 * totals of the damage history. The keys involved (rider IDs starting with "BC",
 * ISO dates) are not array indices, so `Object.entries` lists them in insertion
 * order, i.e. in order of first appearance.
 */
module Aggregation {
  import opened Seqs

  function Fst<K>(e: (K, int)): K { e.0 }

  function Snd<K>(e: (K, int)): int { e.1 }

  /** Where key `k` first occurs in `s`; `|s|` when it never does. */
  function Pos<K(==)>(s: seq<(K, int)>, k: K): (r: nat)
    ensures r <= |s|
    decreases |s|
  {
    if |s| == 0 then 0
    else
      var q := Pos(s[..|s| - 1], k);
      if q < |s| - 1 then q
      else if s[|s| - 1].0 == k then |s| - 1
      else |s|
  }

  /** `Pos` names the first entry holding `k`, and no earlier entry holds it. */
  lemma {:induction false} PosFacts<K>(s: seq<(K, int)>, k: K)
    ensures Pos(s, k) < |s| ==> s[Pos(s, k)].0 == k
    ensures forall i :: 0 <= i < Pos(s, k) ==> s[i].0 != k
    decreases |s|
  {
    if |s| > 0 {
      PosFacts(s[..|s| - 1], k);
    }
  }

  /** The sum of the amounts recorded under `k`. */
  ghost function SumFor<K>(pairs: seq<(K, int)>, k: K): int
    decreases |pairs|
  {
    if |pairs| == 0 then 0
    else SumFor(pairs[..|pairs| - 1], k) + (if pairs[|pairs| - 1].0 == k then pairs[|pairs| - 1].1 else 0)
  }

  /** No key has two entries. */
  ghost predicate DistinctKeys<K>(agg: seq<(K, int)>) {
    forall i, j :: 0 <= i < j < |agg| ==> agg[i].0 != agg[j].0
  }

  /** Every key of `pairs` has an entry in `agg`. */
  ghost predicate Covers<K>(agg: seq<(K, int)>, pairs: seq<(K, int)>) {
    forall m :: 0 <= m < |pairs| ==> Pos(agg, pairs[m].0) < |agg|
  }

  /** Every entry of `agg` is for a key that occurs in `pairs`. */
  ghost predicate FromPairs<K>(agg: seq<(K, int)>, pairs: seq<(K, int)>) {
    forall j :: 0 <= j < |agg| ==> Pos(pairs, agg[j].0) < |pairs|
  }

  /** Every entry holds the sum of its key's amounts. */
  ghost predicate HoldsTotals<K>(agg: seq<(K, int)>, pairs: seq<(K, int)>) {
    forall j :: 0 <= j < |agg| ==> agg[j].1 == SumFor(pairs, agg[j].0)
  }

  /** Entries are listed in order of their key's first appearance in `pairs`. */
  ghost predicate InFirstAppearanceOrder<K>(agg: seq<(K, int)>, pairs: seq<(K, int)>) {
    forall i, j :: 0 <= i < j < |agg| ==> Pos(pairs, agg[i].0) < Pos(pairs, agg[j].0)
  }

  /**
   * `agg` is the grouped form of `pairs`: one entry per distinct key, holding the
   * sum of that key's amounts, listed in order of first appearance.
   */
  ghost predicate IsAggregateOf<K>(agg: seq<(K, int)>, pairs: seq<(K, int)>) {
    && DistinctKeys(agg)
    && Covers(agg, pairs)
    && FromPairs(agg, pairs)
    && HoldsTotals(agg, pairs)
    && InFirstAppearanceOrder(agg, pairs)
  }

  /**
   * The grouped totals, in order of first appearance: each row either adds its
   * amount to the entry already holding its key (`acc[k] += amount`) or opens a
   * new entry at the end (`acc[k] = 0` on a key not seen before).
   */
  function Group<K(==)>(pairs: seq<(K, int)>): seq<(K, int)>
    decreases |pairs|
  {
    if |pairs| == 0 then []
    else
      var prev := Group(pairs[..|pairs| - 1]);
      var p := pairs[|pairs| - 1];
      var i := Pos(prev, p.0);
      if i < |prev| then prev[i := (p.0, prev[i].1 + p.1)] else prev + [p]
  }

  lemma {:induction false} GroupIsAggregate<K>(pairs: seq<(K, int)>)
    ensures IsAggregateOf(Group(pairs), pairs)
    decreases |pairs|
  {
    if |pairs| > 0 {
      var prev := Group(pairs[..|pairs| - 1]);
      GroupIsAggregate(pairs[..|pairs| - 1]);
      var p := pairs[|pairs| - 1];
      var i := Pos(prev, p.0);
      if i < |prev| {
        FoundStep(prev, pairs, i);
      } else {
        NewStep(prev, pairs);
      }
    }
  }

  /** The grouped form of `pairs`, as `IsAggregateOf` describes it. */
  function AggregateBy<K(==)>(pairs: seq<(K, int)>): (agg: seq<(K, int)>)
    ensures DistinctKeys(agg)
    ensures Covers(agg, pairs)
    ensures FromPairs(agg, pairs)
    ensures HoldsTotals(agg, pairs)
    ensures InFirstAppearanceOrder(agg, pairs)
  {
    GroupIsAggregate(pairs);
    Group(pairs)
  }

  lemma {:induction false} GroupKeepsSum<K>(pairs: seq<(K, int)>)
    ensures Sum(Map(Group(pairs), Snd)) == Sum(Map(pairs, Snd))
    decreases |pairs|
  {
    if |pairs| > 0 {
      var prev := Group(pairs[..|pairs| - 1]);
      GroupKeepsSum(pairs[..|pairs| - 1]);
      var p := pairs[|pairs| - 1];
      var i := Pos(prev, p.0);
      LastRowSum(pairs);
      StepSum(prev, p, i);
    }
  }

  /** Grouping keeps the grand total. */
  lemma AggregateKeepsSum<K>(pairs: seq<(K, int)>)
    ensures Sum(Map(AggregateBy(pairs), Snd)) == Sum(Map(pairs, Snd))
  {
    GroupKeepsSum(pairs);
  }

  /** One grouping step adds the row's amount to the grand total. */
  lemma StepSum<K>(prev: seq<(K, int)>, p: (K, int), i: nat)
    ensures i < |prev| ==> Sum(Map(prev[i := (p.0, prev[i].1 + p.1)], Snd)) == Sum(Map(prev, Snd)) + p.1
    ensures Sum(Map(prev + [p], Snd)) == Sum(Map(prev, Snd)) + p.1
  {
    if i < |prev| {
      FoundSum(prev, p, i);
    }
    assert Map(prev + [p], Snd) == Map(prev, Snd) + [p.1];
    SumConcat(Map(prev, Snd), [p.1]);
  }

  /** What the last row contributes to a key's first position and its sum. */
  lemma LastRowFacts<K>(pairs: seq<(K, int)>, k: K)
    requires |pairs| > 0
    ensures Pos(pairs, k)
         == if Pos(pairs[..|pairs| - 1], k) < |pairs| - 1 then Pos(pairs[..|pairs| - 1], k)
            else if pairs[|pairs| - 1].0 == k then |pairs| - 1 else |pairs|
    ensures SumFor(pairs, k)
         == SumFor(pairs[..|pairs| - 1], k) + (if pairs[|pairs| - 1].0 == k then pairs[|pairs| - 1].1 else 0)
  {
  }

  lemma LastRowSum<K>(pairs: seq<(K, int)>)
    requires |pairs| > 0
    ensures Sum(Map(pairs, Snd)) == Sum(Map(pairs[..|pairs| - 1], Snd)) + pairs[|pairs| - 1].1
  {
    assert Map(pairs, Snd) == Map(pairs[..|pairs| - 1], Snd) + [pairs[|pairs| - 1].1];
    SumConcat(Map(pairs[..|pairs| - 1], Snd), [pairs[|pairs| - 1].1]);
  }

  lemma {:induction false} SumForAbsent<K>(pairs: seq<(K, int)>, k: K)
    requires Pos(pairs, k) == |pairs|
    ensures SumFor(pairs, k) == 0
    decreases |pairs|
  {
    if |pairs| > 0 {
      SumForAbsent(pairs[..|pairs| - 1], k);
    }
  }

  lemma FoundStep<K>(prev: seq<(K, int)>, pairs: seq<(K, int)>, i: nat)
    requires |pairs| > 0
    requires IsAggregateOf(prev, pairs[..|pairs| - 1])
    requires i < |prev| && i == Pos(prev, pairs[|pairs| - 1].0)
    ensures DistinctKeys(prev[i := (pairs[|pairs| - 1].0, prev[i].1 + pairs[|pairs| - 1].1)])
    ensures Covers(prev[i := (pairs[|pairs| - 1].0, prev[i].1 + pairs[|pairs| - 1].1)], pairs)
    ensures FromPairs(prev[i := (pairs[|pairs| - 1].0, prev[i].1 + pairs[|pairs| - 1].1)], pairs)
    ensures HoldsTotals(prev[i := (pairs[|pairs| - 1].0, prev[i].1 + pairs[|pairs| - 1].1)], pairs)
    ensures InFirstAppearanceOrder(prev[i := (pairs[|pairs| - 1].0, prev[i].1 + pairs[|pairs| - 1].1)], pairs)
  {
    var p := pairs[|pairs| - 1];
    PosFacts(prev, p.0);
    FoundDistinct(prev, p, i);
    FoundCovers(prev, pairs, i);
    FoundFromPairs(prev, pairs, i);
    FoundTotals(prev, pairs, i);
    FoundOrder(prev, pairs, i);
  }

  lemma FoundDistinct<K>(prev: seq<(K, int)>, p: (K, int), i: nat)
    requires DistinctKeys(prev)
    requires i < |prev| && prev[i].0 == p.0
    ensures DistinctKeys(prev[i := (p.0, prev[i].1 + p.1)])
  {
    var a := prev[i := (p.0, prev[i].1 + p.1)];
    assert forall j :: 0 <= j < |a| ==> a[j].0 == prev[j].0;
  }

  lemma FoundSum<K>(prev: seq<(K, int)>, p: (K, int), i: nat)
    requires i < |prev|
    ensures Sum(Map(prev[i := (p.0, prev[i].1 + p.1)], Snd)) == Sum(Map(prev, Snd)) + p.1
  {
    assert Map(prev[i := (p.0, prev[i].1 + p.1)], Snd) == Map(prev, Snd)[i := prev[i].1 + p.1];
    SumUpdate(Map(prev, Snd), i, prev[i].1 + p.1);
  }

  /** Overwriting an entry with one of the same key leaves every position lookup alone. */
  lemma PosSameKeys<K>(prev: seq<(K, int)>, a: seq<(K, int)>, k: K)
    requires |a| == |prev|
    requires forall j :: 0 <= j < |a| ==> a[j].0 == prev[j].0
    ensures Pos(a, k) == Pos(prev, k)
  {
    PosFacts(prev, k);
    PosFacts(a, k);
  }

  lemma FoundCovers<K>(prev: seq<(K, int)>, pairs: seq<(K, int)>, i: nat)
    requires |pairs| > 0
    requires Covers(prev, pairs[..|pairs| - 1])
    requires i < |prev| && prev[i].0 == pairs[|pairs| - 1].0
    ensures Covers(prev[i := (pairs[|pairs| - 1].0, prev[i].1 + pairs[|pairs| - 1].1)], pairs)
  {
    var p := pairs[|pairs| - 1];
    var a := prev[i := (p.0, prev[i].1 + p.1)];
    forall m | 0 <= m < |pairs|
      ensures Pos(a, pairs[m].0) < |a|
    {
      PosSameKeys(prev, a, pairs[m].0);
      if m < |pairs| - 1 {
        assert pairs[..|pairs| - 1][m] == pairs[m];
      } else {
        PosFacts(prev, p.0);
      }
    }
  }

  lemma FoundFromPairs<K>(prev: seq<(K, int)>, pairs: seq<(K, int)>, i: nat)
    requires |pairs| > 0
    requires FromPairs(prev, pairs[..|pairs| - 1])
    requires i < |prev| && prev[i].0 == pairs[|pairs| - 1].0
    ensures FromPairs(prev[i := (pairs[|pairs| - 1].0, prev[i].1 + pairs[|pairs| - 1].1)], pairs)
  {
    var p := pairs[|pairs| - 1];
    var a := prev[i := (p.0, prev[i].1 + p.1)];
    forall j | 0 <= j < |a|
      ensures Pos(pairs, a[j].0) < |pairs|
    {
      assert a[j].0 == prev[j].0;
      LastRowFacts(pairs, a[j].0);
    }
  }

  lemma FoundTotals<K>(prev: seq<(K, int)>, pairs: seq<(K, int)>, i: nat)
    requires |pairs| > 0
    requires DistinctKeys(prev)
    requires HoldsTotals(prev, pairs[..|pairs| - 1])
    requires i < |prev| && prev[i].0 == pairs[|pairs| - 1].0
    ensures HoldsTotals(prev[i := (pairs[|pairs| - 1].0, prev[i].1 + pairs[|pairs| - 1].1)], pairs)
  {
    var p := pairs[|pairs| - 1];
    var a := prev[i := (p.0, prev[i].1 + p.1)];
    forall j | 0 <= j < |a|
      ensures a[j].1 == SumFor(pairs, a[j].0)
    {
      LastRowFacts(pairs, a[j].0);
      if j != i {
        assert a[j] == prev[j];
        assert prev[j].0 != prev[i].0 by {
          if j < i {
            assert prev[j].0 != prev[i].0;
          } else {
            assert prev[i].0 != prev[j].0;
          }
        }
      }
    }
  }

  lemma FoundOrder<K>(prev: seq<(K, int)>, pairs: seq<(K, int)>, i: nat)
    requires |pairs| > 0
    requires FromPairs(prev, pairs[..|pairs| - 1])
    requires InFirstAppearanceOrder(prev, pairs[..|pairs| - 1])
    requires i < |prev| && prev[i].0 == pairs[|pairs| - 1].0
    ensures InFirstAppearanceOrder(prev[i := (pairs[|pairs| - 1].0, prev[i].1 + pairs[|pairs| - 1].1)], pairs)
  {
    var p := pairs[|pairs| - 1];
    var a := prev[i := (p.0, prev[i].1 + p.1)];
    forall j | 0 <= j < |a|
      ensures Pos(pairs, a[j].0) == Pos(pairs[..|pairs| - 1], prev[j].0)
    {
      assert a[j].0 == prev[j].0;
      LastRowFacts(pairs, a[j].0);
    }
  }

  lemma NewStep<K>(prev: seq<(K, int)>, pairs: seq<(K, int)>)
    requires |pairs| > 0
    requires IsAggregateOf(prev, pairs[..|pairs| - 1])
    requires Pos(prev, pairs[|pairs| - 1].0) == |prev|
    ensures DistinctKeys(prev + [pairs[|pairs| - 1]])
    ensures Covers(prev + [pairs[|pairs| - 1]], pairs)
    ensures FromPairs(prev + [pairs[|pairs| - 1]], pairs)
    ensures HoldsTotals(prev + [pairs[|pairs| - 1]], pairs)
    ensures InFirstAppearanceOrder(prev + [pairs[|pairs| - 1]], pairs)
  {
    var p := pairs[|pairs| - 1];
    var init := pairs[..|pairs| - 1];
    NotCovered(prev, init, p.0);
    SumForAbsent(init, p.0);
    LastRowFacts(pairs, p.0);
    NewDistinct(prev, p);
    NewCovers(prev, pairs);
    NewFromPairs(prev, pairs);
    NewTotals(prev, pairs);
    NewOrder(prev, pairs);
  }

  /** A key missing from a covering aggregate never occurs in the rows. */
  lemma NotCovered<K>(agg: seq<(K, int)>, pairs: seq<(K, int)>, k: K)
    requires Covers(agg, pairs)
    requires Pos(agg, k) == |agg|
    ensures Pos(pairs, k) == |pairs|
  {
    PosFacts(pairs, k);
  }

  lemma NewDistinct<K>(prev: seq<(K, int)>, p: (K, int))
    requires DistinctKeys(prev)
    requires Pos(prev, p.0) == |prev|
    ensures DistinctKeys(prev + [p])
  {
    var a := prev + [p];
    forall i, j | 0 <= i < j < |a|
      ensures a[i].0 != a[j].0
    {
      PosFacts(prev, p.0);
      assert a[i] == prev[i];
    }
  }

  /** Appending an entry keeps every earlier first position. */
  lemma PosAppend<K>(prev: seq<(K, int)>, p: (K, int), k: K)
    ensures Pos(prev + [p], k) == if Pos(prev, k) < |prev| then Pos(prev, k) else if p.0 == k then |prev| else |prev| + 1
  {
    assert (prev + [p])[..|prev|] == prev;
  }

  lemma NewCovers<K>(prev: seq<(K, int)>, pairs: seq<(K, int)>)
    requires |pairs| > 0
    requires Covers(prev, pairs[..|pairs| - 1])
    ensures Covers(prev + [pairs[|pairs| - 1]], pairs)
  {
    var a := prev + [pairs[|pairs| - 1]];
    forall m | 0 <= m < |pairs|
      ensures Pos(a, pairs[m].0) < |a|
    {
      PosAppend(prev, pairs[|pairs| - 1], pairs[m].0);
      if m < |pairs| - 1 {
        assert pairs[..|pairs| - 1][m] == pairs[m];
      }
    }
  }

  lemma NewFromPairs<K>(prev: seq<(K, int)>, pairs: seq<(K, int)>)
    requires |pairs| > 0
    requires FromPairs(prev, pairs[..|pairs| - 1])
    ensures FromPairs(prev + [pairs[|pairs| - 1]], pairs)
  {
    var a := prev + [pairs[|pairs| - 1]];
    forall j | 0 <= j < |a|
      ensures Pos(pairs, a[j].0) < |pairs|
    {
      LastRowFacts(pairs, a[j].0);
      if j < |prev| {
        assert a[j] == prev[j];
      }
    }
  }

  lemma NewTotals<K>(prev: seq<(K, int)>, pairs: seq<(K, int)>)
    requires |pairs| > 0
    requires HoldsTotals(prev, pairs[..|pairs| - 1])
    requires Pos(prev, pairs[|pairs| - 1].0) == |prev|
    requires SumFor(pairs, pairs[|pairs| - 1].0) == pairs[|pairs| - 1].1
    ensures HoldsTotals(prev + [pairs[|pairs| - 1]], pairs)
  {
    var p := pairs[|pairs| - 1];
    var a := prev + [p];
    forall j | 0 <= j < |a|
      ensures a[j].1 == SumFor(pairs, a[j].0)
    {
      if j < |prev| {
        LastRowFacts(pairs, a[j].0);
        PosFacts(prev, p.0);
        assert a[j] == prev[j];
      }
    }
  }

  lemma NewOrder<K>(prev: seq<(K, int)>, pairs: seq<(K, int)>)
    requires |pairs| > 0
    requires FromPairs(prev, pairs[..|pairs| - 1])
    requires InFirstAppearanceOrder(prev, pairs[..|pairs| - 1])
    requires Pos(pairs[..|pairs| - 1], pairs[|pairs| - 1].0) == |pairs| - 1
    ensures InFirstAppearanceOrder(prev + [pairs[|pairs| - 1]], pairs)
  {
    var a := prev + [pairs[|pairs| - 1]];
    forall j | 0 <= j < |a|
      ensures j < |prev| ==> Pos(pairs, a[j].0) == Pos(pairs[..|pairs| - 1], prev[j].0) < |pairs| - 1
      ensures j == |prev| ==> Pos(pairs, a[j].0) == |pairs| - 1
    {
      LastRowFacts(pairs, a[j].0);
      if j < |prev| {
        assert a[j] == prev[j];
      }
    }
  }
}
