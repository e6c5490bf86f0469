/**
 * `processRaidCompletion`: the rewards issued when a raid is defeated. The
 * first-ranked rider gets the real prize, the riders in positions 2 and 3 get
 * a virtual rank badge, and every participant who is not in the ranking at all
 * gets a participation badge.
 */
module Rewards {
  import opened Wrappers
  import opened Seqs
  import opened Sorting
  import opened Store

  function RewardRider(r: Reward): string { r.riderId }

  function RankingOf(raidId: int): RankingRow -> bool {
    (r: RankingRow) => r.raidId == raidId
  }

  /** `rankings.some(r => r.rider_id === rider)`. */
  predicate InRanking(ranked: seq<RankingRow>, rider: string) {
    rider in Map(ranked, RiderOf)
  }

  function NotRanked(ranked: seq<RankingRow>): string -> bool {
    (rider: string) => !InRanking(ranked, rider)
  }

  function BadgeFor(raidId: int): string -> Reward {
    (rider: string) => Reward(raidId, rider, None, Badge, ParticipationBadge)
  }

  /** The real prize for position 1 and the virtual badges for positions 2 and 3. */
  function TopRewards(raidId: int, ranked: seq<RankingRow>): (rs: seq<Reward>)
    ensures |rs| == Min(3, |ranked|)
    ensures forall i :: 0 <= i < |rs| ==> rs[i].raidId == raidId && rs[i].riderId == ranked[i].riderId
    ensures forall i :: 0 <= i < |rs| ==> (rs[i].rewardType == Real <==> i == 0)
    ensures |rs| > 0 ==> rs[0].rank == Some(1) && rs[0].description == FirstPlacePrize
    ensures forall i :: 1 <= i < |rs| ==>
      rs[i].rewardType == Virtual && rs[i].rank == Some(ranked[i].rank) && rs[i].description == RankBadge(ranked[i].rank)
  {
    if |ranked| == 0 then []
    else
      [Reward(raidId, ranked[0].riderId, Some(1), Real, FirstPlacePrize)]
      + seq(Min(3, |ranked|) - 1, i requires 0 <= i < Min(3, |ranked|) - 1 =>
          Reward(raidId, ranked[i + 1].riderId, Some(ranked[i + 1].rank), Virtual, RankBadge(ranked[i + 1].rank)))
  }

  /** One participation badge per participant missing from the ranking, in participant order. */
  function Badges(raidId: int, ranked: seq<RankingRow>, participants: seq<string>): (rs: seq<Reward>)
    ensures forall i :: 0 <= i < |rs| ==>
      rs[i].raidId == raidId && rs[i].rewardType == Badge && rs[i].rank.None? && rs[i].description == ParticipationBadge
      && rs[i].riderId in participants && !InRanking(ranked, rs[i].riderId)
    ensures forall j :: 0 <= j < |participants| && !InRanking(ranked, participants[j]) ==>
      BadgeFor(raidId)(participants[j]) in rs
  {
    var unranked := Filter(participants, NotRanked(ranked));
    var rs := Map(unranked, BadgeFor(raidId));
    assert forall j :: 0 <= j < |participants| && !InRanking(ranked, participants[j]) ==> participants[j] in unranked;
    assert forall i :: 0 <= i < |rs| ==> rs[i] == BadgeFor(raidId)(unranked[i]);
    rs
  }

  /** Every reward one completion hands out, in the order the inserts are issued. */
  function Allocate(raidId: int, ranked: seq<RankingRow>, participants: seq<string>): (rs: seq<Reward>)
    ensures Min(3, |ranked|) <= |rs| <= Min(3, |ranked|) + |participants|
    ensures forall i :: 0 <= i < |rs| ==> rs[i].raidId == raidId
    ensures forall i :: 0 <= i < |rs| ==> (rs[i].rewardType == Real <==> i == 0 && |ranked| > 0)
    ensures |ranked| > 0 ==> rs[0] == Reward(raidId, ranked[0].riderId, Some(1), Real, FirstPlacePrize)
    ensures forall i :: 0 <= i < |rs| && rs[i].rewardType == Virtual ==>
      1 <= i < 3 && i < |ranked| && rs[i].riderId == ranked[i].riderId && rs[i].rank == Some(ranked[i].rank)
    ensures forall i :: 1 <= i < Min(3, |ranked|) ==> rs[i].rewardType == Virtual
    ensures forall i :: 0 <= i < |rs| && rs[i].rewardType == Badge ==>
      rs[i].riderId in participants && !InRanking(ranked, rs[i].riderId)
    ensures forall j :: 0 <= j < |participants| && !InRanking(ranked, participants[j]) ==>
      Reward(raidId, participants[j], None, Badge, ParticipationBadge) in rs
  {
    var top := TopRewards(raidId, ranked);
    var badges := Badges(raidId, ranked, participants);
    assert forall i :: 0 <= i < |badges| ==> (top + badges)[|top| + i] == badges[i];
    top + badges
  }

  /**
   * No rider is rewarded twice by one completion, provided the ranking and the
   * participant list each name a rider at most once.
   */
  lemma AllocateOneRewardPerRider(raidId: int, ranked: seq<RankingRow>, participants: seq<string>)
    requires UniqueBy(ranked, RiderOf)
    requires forall i, j :: 0 <= i < j < |participants| ==> participants[i] != participants[j]
    ensures UniqueBy(Allocate(raidId, ranked, participants), RewardRider)
  {
    var top := TopRewards(raidId, ranked);
    var unranked := Filter(participants, NotRanked(ranked));
    var badges := Badges(raidId, ranked, participants);
    var rs := top + badges;
    FilterKeepsUnique(participants, NotRanked(ranked), (p: string) => p);
    forall i, j | 0 <= i < j < |rs|
      ensures rs[i].riderId != rs[j].riderId
    {
      if j < |top| {
        assert RiderOf(ranked[i]) != RiderOf(ranked[j]);
      } else if i < |top| {
        assert rs[j] == badges[j - |top|];
        assert Map(ranked, RiderOf)[i] == ranked[i].riderId;
      } else {
        assert rs[i] == badges[i - |top|] && rs[j] == badges[j - |top|];
        assert unranked[i - |top|] != unranked[j - |top|];
      }
    }
  }

  /** A rider ranked 4th or lower gets nothing: not a top reward, and no badge either. */
  lemma RankFourOrLowerGetsNothing(raidId: int, ranked: seq<RankingRow>, participants: seq<string>, k: nat)
    requires UniqueBy(ranked, RiderOf)
    requires 3 <= k < |ranked|
    ensures forall i :: 0 <= i < |Allocate(raidId, ranked, participants)| ==>
      Allocate(raidId, ranked, participants)[i].riderId != ranked[k].riderId
  {
    var rs := Allocate(raidId, ranked, participants);
    assert Map(ranked, RiderOf)[k] == ranked[k].riderId;
    forall i | 0 <= i < |rs|
      ensures rs[i].riderId != ranked[k].riderId
    {
      if i < Min(3, |ranked|) {
        assert rs[i] == TopRewards(raidId, ranked)[i];
        assert RiderOf(ranked[i]) != RiderOf(ranked[k]);
      }
    }
  }

  /** With no ranking rows, every participant gets exactly a participation badge, in order. */
  lemma EmptyRankingOnlyBadges(raidId: int, participants: seq<string>)
    ensures Allocate(raidId, [], participants) == Map(participants, BadgeFor(raidId))
  {
    var unranked := Filter(participants, NotRanked([]));
    assert Map([], RiderOf) == [];
    FilterSamePredicate(participants, NotRanked([]), (p: string) => true);
    FilterAll(participants);
  }

  lemma {:induction false} FilterAll<T>(s: seq<T>)
    ensures Filter(s, (x: T) => true) == s
    decreases |s|
  {
    if |s| > 0 {
      FilterAll(s[1..]);
      assert s == [s[0]] + s[1..];
    }
  }

  /** The raid's ranking rows, ordered by rank (`order('rank', { ascending: true })`). */
  function RankedFor(rankings: seq<RankingRow>, raidId: int): (ranked: seq<RankingRow>)
    ensures SortedBy(ranked, RankOf)
    ensures forall i :: 0 <= i < |ranked| ==> ranked[i] in rankings && ranked[i].raidId == raidId
    ensures forall k :: 0 <= k < |rankings| && rankings[k].raidId == raidId ==> rankings[k] in ranked
  {
    var mine := Filter(rankings, RankingOf(raidId));
    var ranked := SortBy(mine, RankOf);
    assert forall x :: x in mine <==> x in ranked by {
      assert multiset(mine) == multiset(ranked);
      forall x ensures x in mine <==> x in ranked {
        assert x in mine <==> x in multiset(mine);
        assert x in ranked <==> x in multiset(ranked);
      }
    }
    ranked
  }

  /** One row per (raid, rider) means the raid's ranking names each rider once. */
  lemma RankedForDistinct(rankings: seq<RankingRow>, raidId: int)
    requires UniqueBy(rankings, RankingKey)
    ensures UniqueBy(RankedFor(rankings, raidId), RiderOf)
  {
    var mine := Filter(rankings, RankingOf(raidId));
    FilterKeepsUnique(rankings, RankingOf(raidId), RankingKey);
    forall i, j | 0 <= i < j < |mine|
      ensures RiderOf(mine[i]) != RiderOf(mine[j])
    {
      assert RankingKey(mine[i]) != RankingKey(mine[j]);
    }
    SortByKeepsUnique(mine, RankOf, RiderOf);
  }

  /**
   * `processRaidCompletion(raidId)`: reads the raid's rankings and participants as
   * they are now and issues the inserts; `accepted` says which inserts the store
   * took (a failed insert is not checked by the script and is simply lost).
   */
  function CompletionRewards(rankings: seq<RankingRow>, participants: seq<Participant>, raidId: int, accepted: Reward -> bool): (rs: seq<Reward>)
    ensures forall i :: 0 <= i < |rs| ==> rs[i].raidId == raidId
  {
    Filter(Allocate(raidId, RankedFor(rankings, raidId), ParticipantIds(participants, raidId)), accepted)
  }

  /** With the table constraints in place, one completion never rewards a rider twice. */
  lemma CompletionOneRewardPerRider(rankings: seq<RankingRow>, participants: seq<Participant>, raidId: int, accepted: Reward -> bool)
    requires UniqueBy(rankings, RankingKey)
    requires UniqueBy(participants, ParticipantKey)
    ensures UniqueBy(CompletionRewards(rankings, participants, raidId, accepted), RewardRider)
  {
    RankedForDistinct(rankings, raidId);
    ParticipantIdsDistinct(participants, raidId);
    AllocateOneRewardPerRider(raidId, RankedFor(rankings, raidId), ParticipantIds(participants, raidId));
    FilterKeepsUnique(Allocate(raidId, RankedFor(rankings, raidId), ParticipantIds(participants, raidId)), accepted, RewardRider);
  }

  /**
   * A raid with no ranking rows yet (no earlier run ranked it) hands out only
   * participation badges, even to the riders who dealt the damage.
   */
  lemma NoRankingsOnlyBadges(rankings: seq<RankingRow>, participants: seq<Participant>, raidId: int, accepted: Reward -> bool)
    requires forall k :: 0 <= k < |rankings| ==> rankings[k].raidId != raidId
    ensures forall i :: 0 <= i < |CompletionRewards(rankings, participants, raidId, accepted)| ==>
      CompletionRewards(rankings, participants, raidId, accepted)[i].rewardType == Badge
  {
    assert RankedFor(rankings, raidId) == [];
    EmptyRankingOnlyBadges(raidId, ParticipantIds(participants, raidId));
  }

  /** A prize or rank badge of one completion goes to a rider holding a ranking row for the raid. */
  lemma CompletionTopFromRankings(rankings: seq<RankingRow>, participants: seq<Participant>, raidId: int, accepted: Reward -> bool, x: Reward) returns (i: nat)
    requires x in CompletionRewards(rankings, participants, raidId, accepted) && x.rewardType != Badge
    ensures i < |rankings| && rankings[i].raidId == raidId && rankings[i].riderId == x.riderId
    ensures x.raidId == raidId
  {
    var ranked := RankedFor(rankings, raidId);
    var all := Allocate(raidId, ranked, ParticipantIds(participants, raidId));
    var c :| 0 <= c < |all| && all[c] == x;
    assert ranked[c] in rankings;
    i :| 0 <= i < |rankings| && rankings[i] == ranked[c];
  }
}
