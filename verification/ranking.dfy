/**
 * `updateRankings`: for every raid that is active or completed, sum the damage
 * ledger per rider, order the riders by total (highest first, ties in order of
 * first appearance), number them from 1, and upsert the rows on
 * (raid, rider).
 */
module Ranking {
  import opened Wrappers
  import opened Seqs
  import opened Tables
  import opened Sorting
  import opened Aggregation
  import opened Store

  function DamageOf(raidId: int): DamageRow -> bool {
    (d: DamageRow) => d.raidId == raidId
  }

  function RiderAmount(d: DamageRow): (string, int) { (d.riderId, d.totalDamage) }

  /** `select('rider_id, total_damage').eq('raid_id', raid.id)`, as (rider, amount) pairs in ledger order. */
  function LedgerPairs(damages: seq<DamageRow>, raidId: int): seq<(string, int)> {
    Map(Filter(damages, DamageOf(raidId)), RiderAmount)
  }

  /** The ledger row behind pair `m`. */
  lemma LedgerRowOfPair(damages: seq<DamageRow>, raidId: int, m: nat) returns (k: nat)
    requires m < |LedgerPairs(damages, raidId)|
    ensures k < |damages| && damages[k].raidId == raidId && RiderAmount(damages[k]) == LedgerPairs(damages, raidId)[m]
  {
    var mine := Filter(damages, DamageOf(raidId));
    assert mine[m] in damages && DamageOf(raidId)(mine[m]);
    k :| 0 <= k < |damages| && damages[k] == mine[m];
  }

  /** Every ledger row of the raid has its pair. */
  lemma PairOfLedgerRow(damages: seq<DamageRow>, raidId: int, k: nat) returns (m: nat)
    requires k < |damages| && damages[k].raidId == raidId
    ensures m < |LedgerPairs(damages, raidId)| && LedgerPairs(damages, raidId)[m] == RiderAmount(damages[k])
  {
    var mine := Filter(damages, DamageOf(raidId));
    assert damages[k] in mine;
    m :| 0 <= m < |mine| && mine[m] == damages[k];
  }

  /** The comparator `b.total_damage - a.total_damage`, as an ascending key. */
  function ByTotalDesc(e: (string, int)): int { -e.1 }

  function FirstSeenIn(pairs: seq<(string, int)>): ((string, int)) -> int {
    (e: (string, int)) => Pos(pairs, e.0)
  }

  /** `.map((item, index) => ({ ..., rank: index + 1 }))`. */
  function Numbered(raidId: int, sorted: seq<(string, int)>): (rs: seq<RankingRow>)
    ensures |rs| == |sorted|
    ensures forall i :: 0 <= i < |rs| ==> rs[i] == RankingRow(raidId, sorted[i].0, sorted[i].1, i + 1)
  {
    seq(|sorted|, i requires 0 <= i < |sorted| => RankingRow(raidId, sorted[i].0, sorted[i].1, i + 1))
  }

  /** The per-rider totals of one raid, highest first. */
  function SortedTotals(damages: seq<DamageRow>, raidId: int): (sorted: seq<(string, int)>)
    ensures SortedBy(sorted, ByTotalDesc)
    ensures UniqueBy(sorted, Fst)
  {
    var totals := AggregateBy(LedgerPairs(damages, raidId));
    assert UniqueBy(totals, Fst) by {
      assert DistinctKeys(totals);
      forall i, j | 0 <= i < j < |totals| ensures Fst(totals[i]) != Fst(totals[j]) {
        assert totals[i].0 != totals[j].0;
      }
    }
    SortByKeepsUnique(totals, ByTotalDesc, Fst);
    SortBy(totals, ByTotalDesc)
  }

  /** The ranking of one raid: ranks 1..n in order, totals never increasing, each rider once. */
  function BuildRanking(raidId: int, damages: seq<DamageRow>): (rs: seq<RankingRow>)
    ensures forall i :: 0 <= i < |rs| ==> rs[i].raidId == raidId && rs[i].rank == i + 1
    ensures forall i, j :: 0 <= i < j < |rs| ==> rs[i].totalDamage >= rs[j].totalDamage
    ensures UniqueBy(rs, RiderOf)
  {
    var sorted := SortedTotals(damages, raidId);
    var rs := Numbered(raidId, sorted);
    assert forall i, j :: 0 <= i < j < |rs| ==> ByTotalDesc(sorted[i]) <= ByTotalDesc(sorted[j]);
    assert forall i, j :: 0 <= i < j < |rs| ==> Fst(sorted[i]) != Fst(sorted[j]);
    rs
  }

  /** Sorting keeps the per-rider entries: the sorted list holds exactly the grouped totals. */
  lemma SortedTotalsSame(damages: seq<DamageRow>, raidId: int, e: (string, int))
    ensures e in SortedTotals(damages, raidId) <==> e in AggregateBy(LedgerPairs(damages, raidId))
  {
    var totals := AggregateBy(LedgerPairs(damages, raidId));
    var sorted := SortBy(totals, ByTotalDesc);
    assert e in sorted <==> e in multiset(sorted);
    assert e in totals <==> e in multiset(totals);
  }

  /** The ranked row of the rider of ledger row `k`. */
  lemma RankOfLedgerRow(raidId: int, damages: seq<DamageRow>, k: nat) returns (i: nat)
    requires k < |damages| && damages[k].raidId == raidId
    ensures i < |BuildRanking(raidId, damages)| && BuildRanking(raidId, damages)[i].riderId == damages[k].riderId
  {
    var pairs := LedgerPairs(damages, raidId);
    var totals := AggregateBy(pairs);
    var sorted := SortedTotals(damages, raidId);
    var m := PairOfLedgerRow(damages, raidId, k);
    var p := Pos(totals, pairs[m].0);
    PosFacts(totals, pairs[m].0);
    SortedTotalsSame(damages, raidId, totals[p]);
    i :| 0 <= i < |sorted| && sorted[i] == totals[p];
  }

  /** The ledger row behind ranked row `i`, and the total it carries. */
  lemma LedgerRowOfRank(raidId: int, damages: seq<DamageRow>, i: nat) returns (k: nat)
    requires i < |BuildRanking(raidId, damages)|
    ensures k < |damages| && damages[k].raidId == raidId && damages[k].riderId == BuildRanking(raidId, damages)[i].riderId
    ensures BuildRanking(raidId, damages)[i].totalDamage == SumFor(LedgerPairs(damages, raidId), damages[k].riderId)
  {
    var pairs := LedgerPairs(damages, raidId);
    var totals := AggregateBy(pairs);
    var sorted := SortedTotals(damages, raidId);
    SortedTotalsSame(damages, raidId, sorted[i]);
    var j :| 0 <= j < |totals| && totals[j] == sorted[i];
    var q := Pos(pairs, totals[j].0);
    PosFacts(pairs, totals[j].0);
    k := LedgerRowOfPair(damages, raidId, q);
  }

  /** `rider` has at least one damage row for the raid. */
  ghost predicate InLedger(damages: seq<DamageRow>, raidId: int, rider: string) {
    exists k :: 0 <= k < |damages| && damages[k].raidId == raidId && damages[k].riderId == rider
  }

  /** A rider is ranked exactly when the rider has a damage row for the raid. */
  lemma RankedIffInLedger(raidId: int, damages: seq<DamageRow>, rider: string)
    ensures rider in Map(BuildRanking(raidId, damages), RiderOf) <==> InLedger(damages, raidId, rider)
  {
    var rs := BuildRanking(raidId, damages);
    if rider in Map(rs, RiderOf) {
      var i :| 0 <= i < |rs| && RiderOf(rs[i]) == rider;
      var k := LedgerRowOfRank(raidId, damages, i);
    }
    if InLedger(damages, raidId, rider) {
      var k :| 0 <= k < |damages| && damages[k].raidId == raidId && damages[k].riderId == rider;
      var i := RankOfLedgerRow(raidId, damages, k);
      assert Map(rs, RiderOf)[i] == rider;
    }
  }

  /** Each ranked total is the sum of the rider's damage rows for the raid. */
  lemma RankedTotalsAreSums(raidId: int, damages: seq<DamageRow>)
    ensures forall i :: 0 <= i < |BuildRanking(raidId, damages)| ==>
      BuildRanking(raidId, damages)[i].totalDamage == SumFor(LedgerPairs(damages, raidId), BuildRanking(raidId, damages)[i].riderId)
  {
    forall i | 0 <= i < |BuildRanking(raidId, damages)|
      ensures BuildRanking(raidId, damages)[i].totalDamage == SumFor(LedgerPairs(damages, raidId), BuildRanking(raidId, damages)[i].riderId)
    {
      var k := LedgerRowOfRank(raidId, damages, i);
    }
  }

  /** The ranked totals add up to the raid's whole ledger. */
  lemma RankingKeepsSum(raidId: int, damages: seq<DamageRow>)
    ensures Sum(Map(BuildRanking(raidId, damages), RankedTotal)) == Sum(Map(Filter(damages, DamageOf(raidId)), TotalOf))
  {
    var pairs := LedgerPairs(damages, raidId);
    var totals := AggregateBy(pairs);
    var sorted := SortBy(totals, ByTotalDesc);
    AggregateKeepsSum(pairs);
    SortByKeepsSum(totals, ByTotalDesc, Snd);
    assert Map(BuildRanking(raidId, damages), RankedTotal) == Map(sorted, Snd);
    assert Map(pairs, Snd) == Map(Filter(damages, DamageOf(raidId)), TotalOf);
  }

  /**
   * Riders with equal totals keep the order in which they first appear in the
   * raid's ledger rows (the sort is stable and the grouping lists riders in
   * order of first appearance).
   */
  lemma RankingTieOrder(raidId: int, damages: seq<DamageRow>)
    ensures var rs := BuildRanking(raidId, damages);
      var pairs := LedgerPairs(damages, raidId);
      forall i, j :: 0 <= i < j < |rs| && rs[i].totalDamage == rs[j].totalDamage ==>
        Pos(pairs, rs[i].riderId) < Pos(pairs, rs[j].riderId)
  {
    var pairs := LedgerPairs(damages, raidId);
    var totals := AggregateBy(pairs);
    SortByTieOrdered(totals, ByTotalDesc, FirstSeenIn(pairs));
    var sorted := SortBy(totals, ByTotalDesc);
    assert forall i, j :: 0 <= i < j < |sorted| && ByTotalDesc(sorted[i]) == ByTotalDesc(sorted[j]) ==>
      FirstSeenIn(pairs)(sorted[i]) < FirstSeenIn(pairs)(sorted[j]);
  }

  /** `.in('status', ['active', 'completed'])`. */
  predicate IsRanked(raid: Raid) {
    raid.status == Active || raid.status == Completed
  }

  /** The ranking rows of one raid the store accepted. */
  function AcceptedRanking(damages: seq<DamageRow>, raid: Raid, accepted: RankingRow -> bool): seq<RankingRow> {
    Filter(BuildRanking(raid.id, damages), accepted)
  }

  /** Every ranking row the pass writes, in order. */
  function AllRankings(damages: seq<DamageRow>, snapshot: seq<Raid>, accepted: RankingRow -> bool): seq<RankingRow>
    decreases |snapshot|
  {
    if |snapshot| == 0 then []
    else
      var raid := snapshot[|snapshot| - 1];
      AllRankings(damages, snapshot[..|snapshot| - 1], accepted)
      + (if IsRanked(raid) then AcceptedRanking(damages, raid, accepted) else [])
  }

  /** The loop over the raids read at the start of the pass; only the rankings table is written. */
  function RankingPassFrom(s: Store, snapshot: seq<Raid>, w: WriteOutcomes): (t: Store)
    ensures t == s.(rankings := t.rankings)
    ensures |s.rankings| <= |t.rankings|
    decreases |snapshot|
  {
    if |snapshot| == 0 then s
    else
      var prev := RankingPassFrom(s, snapshot[..|snapshot| - 1], w);
      var raid := snapshot[|snapshot| - 1];
      if IsRanked(raid) then prev.(rankings := UpsertAll(prev.rankings, AcceptedRanking(prev.damages, raid, w.ranking), RankingKey))
      else prev
  }

  /** `updateRankings`. */
  function RankingPass(s: Store, w: WriteOutcomes): Store {
    RankingPassFrom(s, s.raids, w)
  }

  lemma {:induction false} RankingPassUpserts(s: Store, snapshot: seq<Raid>, w: WriteOutcomes)
    ensures RankingPassFrom(s, snapshot, w).rankings == UpsertAll(s.rankings, AllRankings(s.damages, snapshot, w.ranking), RankingKey)
    decreases |snapshot|
  {
    if |snapshot| > 0 {
      var init := snapshot[..|snapshot| - 1];
      var raid := snapshot[|snapshot| - 1];
      RankingPassUpserts(s, init, w);
      if IsRanked(raid) {
        UpsertAllConcat(s.rankings, AllRankings(s.damages, init, w.ranking), AcceptedRanking(s.damages, raid, w.ranking), RankingKey);
      } else {
        assert AllRankings(s.damages, init, w.ranking) + [] == AllRankings(s.damages, init, w.ranking);
      }
    }
  }

  /** The raid whose ranking produced `x`. */
  lemma RankerOf(damages: seq<DamageRow>, snapshot: seq<Raid>, accepted: RankingRow -> bool, x: RankingRow) returns (m: nat)
    requires x in AllRankings(damages, snapshot, accepted)
    ensures m < |snapshot| && IsRanked(snapshot[m]) && x in BuildRanking(snapshot[m].id, damages)
    ensures x.raidId == snapshot[m].id
    decreases |snapshot|
  {
    var init := snapshot[..|snapshot| - 1];
    var raid := snapshot[|snapshot| - 1];
    if x in AllRankings(damages, init, accepted) {
      m := RankerOf(damages, init, accepted, x);
      assert snapshot[m] == init[m];
    } else {
      m := |snapshot| - 1;
      var rows := AcceptedRanking(damages, raid, accepted);
      var i :| 0 <= i < |rows| && rows[i] == x;
      var rs := BuildRanking(raid.id, damages);
      var k :| 0 <= k < |rs| && rs[k] == x;
    }
  }

  /** Ranking rows with the same (raid, rider) key written in one pass are the same row. */
  lemma AllRankingsKeyFunctional(damages: seq<DamageRow>, raids: seq<Raid>, accepted: RankingRow -> bool)
    requires UniqueBy(raids, RaidId)
    ensures KeyFunctional(AllRankings(damages, raids, accepted), RankingKey)
  {
    var all := AllRankings(damages, raids, accepted);
    forall a, b | 0 <= a < |all| && 0 <= b < |all| && RankingKey(all[a]) == RankingKey(all[b])
      ensures all[a] == all[b]
    {
      var m1 := RankerOf(damages, raids, accepted, all[a]);
      var m2 := RankerOf(damages, raids, accepted, all[b]);
      assert m1 == m2;
      var rs := BuildRanking(raids[m1].id, damages);
      var i :| 0 <= i < |rs| && rs[i] == all[a];
      var j :| 0 <= j < |rs| && rs[j] == all[b];
      assert RiderOf(rs[i]) == RiderOf(rs[j]);
    }
  }

  /** Re-running the ranking pass on an unchanged ledger changes nothing. */
  lemma RankingPassRerun(s: Store, w: WriteOutcomes)
    requires UniqueBy(s.raids, RaidId)
    ensures RankingPass(RankingPass(s, w), w) == RankingPass(s, w)
  {
    var s1 := RankingPass(s, w);
    var all := AllRankings(s.damages, s.raids, w.ranking);
    RankingPassUpserts(s, s.raids, w);
    RankingPassUpserts(s1, s1.raids, w);
    AllRankingsKeyFunctional(s.damages, s.raids, w.ranking);
    UpsertAllIdempotent(s.rankings, all, RankingKey);
  }
}
