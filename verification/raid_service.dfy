/**
 * The pure parts of the raid service used by the pages: the HP percentage,
 * rider-ID masking, the join rule, the per-date damage history and the two
 * lookup tables. The damage formula it exports is `Damage.Calculate`.
 */
module RaidService {
  import opened Wrappers
  import opened Seqs
  import opened Sorting
  import opened Aggregation
  import opened Ingest
  import opened Store
  import opened Ranking

  // ------------------------------------------------------------ HP percentage

  /** `calculateHpPercentage`: 0 for a zero maximum, else the ratio in percent clamped to [0, 100]. */
  function HpPercentage(currentHp: real, maxHp: real): (p: real)
    ensures maxHp == 0.0 ==> p == 0.0
    ensures 0.0 <= p <= 100.0
    ensures maxHp != 0.0 && 0.0 <= currentHp / maxHp * 100.0 <= 100.0 ==> p == currentHp / maxHp * 100.0
  {
    if maxHp == 0.0 then 0.0
    else MaxReal(0.0, MinReal(100.0, currentHp / maxHp * 100.0))
  }

  function MaxReal(a: real, b: real): real { if a >= b then a else b }

  function MinReal(a: real, b: real): real { if a <= b then a else b }

  /** With a positive maximum, more HP never shows a smaller percentage; full HP shows 100 and none shows 0. */
  lemma HpPercentageMonotone(h1: real, h2: real, maxHp: real)
    requires maxHp > 0.0 && h1 <= h2
    ensures HpPercentage(h1, maxHp) <= HpPercentage(h2, maxHp)
    ensures HpPercentage(maxHp, maxHp) == 100.0 && HpPercentage(0.0, maxHp) == 0.0
  {
    assert h1 / maxHp <= h2 / maxHp by {
      assert h1 / maxHp * maxHp == h1 && h2 / maxHp * maxHp == h2;
    }
  }

  // ------------------------------------------------------------ masking

  function Stars(n: nat): (s: string)
    ensures |s| == n && forall i :: 0 <= i < n ==> s[i] == '*'
  {
    seq(n, i => '*')
  }

  /**
   * `maskRiderId`: an absent, empty or short (under 6 characters) ID comes back
   * as it is; otherwise the first four characters are kept and the rest starred.
   */
  function MaskRiderId(riderId: Option<string>): (r: Option<string>)
    ensures riderId.None? || |riderId.value| < 6 ==> r == riderId
    ensures riderId.Some? && |riderId.value| >= 6 ==>
      && r.Some? && |r.value| == |riderId.value|
      && r.value[..4] == riderId.value[..4]
      && forall i :: 4 <= i < |r.value| ==> r.value[i] == '*'
  {
    match riderId
    case None => None
    case Some(id) => if |id| < 6 then riderId else Some(id[..4] + Stars(|id| - 4))
  }

  /** Masking a masked ID changes nothing, and two IDs that differ only after the fourth character mask alike. */
  lemma MaskRiderIdIdempotent(riderId: Option<string>)
    ensures MaskRiderId(MaskRiderId(riderId)) == MaskRiderId(riderId)
  {
    if riderId.Some? && |riderId.value| >= 6 {
      var m := MaskRiderId(riderId).value;
      assert m[..4] + Stars(|m| - 4) == m;
    }
  }

  lemma MaskRiderIdHidesTail(a: string, b: string)
    requires |a| == |b| >= 6 && a[..4] == b[..4]
    ensures MaskRiderId(Some(a)) == MaskRiderId(Some(b))
  {
  }

  lemma MaskRiderIdExample()
    ensures MaskRiderId(Some("BC123456")) == Some("BC12****")
    ensures MaskRiderId(Some("BC12")) == Some("BC12")
  {
    assert "BC123456"[..4] == "BC12";
    assert Stars(4) == "****";
    assert "BC12" + "****" == "BC12****";
  }

  // ------------------------------------------------------------ joining

  datatype JoinMessage = BadIdFormat | AlreadyJoined | Joined | InsertFailed

  datatype JoinResult = JoinResult(success: bool, message: JoinMessage, participants: seq<Participant>)

  predicate IsParticipant(participants: seq<Participant>, raidId: int, riderId: string) {
    Participant(raidId, riderId) in participants
  }

  /**
   * `joinRaid`: the ID must be "BC" and six digits, the (raid, rider) pair must
   * be new, and then the row is inserted; `inserted` is whether the store
   * accepted the insert.
   */
  function JoinRaid(participants: seq<Participant>, raidId: int, riderId: string, inserted: bool): (r: JoinResult)
    ensures r.success <==> IsRiderIdShape(riderId) && !IsParticipant(participants, raidId, riderId) && inserted
    ensures r.success ==> r.participants == participants + [Participant(raidId, riderId)] && r.message == Joined
    ensures !r.success ==> r.participants == participants
    ensures !IsRiderIdShape(riderId) ==> r.message == BadIdFormat
    ensures IsRiderIdShape(riderId) && IsParticipant(participants, raidId, riderId) ==> r.message == AlreadyJoined
  {
    if !IsRiderIdShape(riderId) then JoinResult(false, BadIdFormat, participants)
    else if IsParticipant(participants, raidId, riderId) then JoinResult(false, AlreadyJoined, participants)
    else if !inserted then JoinResult(false, InsertFailed, participants)
    else JoinResult(true, Joined, participants + [Participant(raidId, riderId)])
  }

  /** Joining keeps one participant row per (raid, rider); joining twice is refused the second time. */
  lemma JoinKeepsUnique(participants: seq<Participant>, raidId: int, riderId: string, inserted: bool)
    requires UniqueBy(participants, ParticipantKey)
    ensures UniqueBy(JoinRaid(participants, raidId, riderId, inserted).participants, ParticipantKey)
  {
    var r := JoinRaid(participants, raidId, riderId, inserted);
    if r.success {
      forall i | 0 <= i < |participants|
        ensures ParticipantKey(participants[i]) != (raidId, riderId)
      {
        assert participants[i] != Participant(raidId, riderId);
      }
    }
  }

  lemma JoinTwiceRefused(participants: seq<Participant>, raidId: int, riderId: string, again: bool)
    requires JoinRaid(participants, raidId, riderId, true).success
    ensures var second := JoinRaid(JoinRaid(participants, raidId, riderId, true).participants, raidId, riderId, again);
      !second.success && second.message == AlreadyJoined
  {
    var ps := JoinRaid(participants, raidId, riderId, true).participants;
    assert ps[|ps| - 1] == Participant(raidId, riderId);
  }

  // ------------------------------------------------------------ damage history

  function DateAmount(d: DamageRow): (Day, int) { (d.date, d.totalDamage) }

  /**
   * `select('damage_date, total_damage').eq('raid_id', raidId).order('damage_date')`:
   * the raid's (date, damage) rows, and nothing else, in ascending date order.
   */
  function DatedPairs(damages: seq<DamageRow>, raidId: int): (pairs: seq<(Day, int)>)
    ensures forall i, j :: 0 <= i < j < |pairs| ==> pairs[i].0 <= pairs[j].0
    ensures multiset(pairs) == multiset(Map(Filter(damages, DamageOf(raidId)), DateAmount))
  {
    var pairs := SortBy(Map(Filter(damages, DamageOf(raidId)), DateAmount), Fst);
    assert forall i :: 0 <= i < |pairs| ==> pairs[i].0 == Fst(pairs[i]);
    pairs
  }

  /**
   * `getRaidDamageHistory`: one entry per date holding the sum of that date's
   * damage, in the order dates first appear (ascending, as the rows are read).
   */
  function DamageHistory(damages: seq<DamageRow>, raidId: int): (h: seq<(Day, int)>)
    ensures IsAggregateOf(h, DatedPairs(damages, raidId))
  {
    AggregateBy(DatedPairs(damages, raidId))
  }

  /** Grouping date-ordered rows in order of first appearance lists the dates strictly ascending. */
  lemma {:induction false} GroupedAscending(agg: seq<(Day, int)>, pairs: seq<(Day, int)>)
    requires forall i, j :: 0 <= i < j < |pairs| ==> pairs[i].0 <= pairs[j].0
    requires FromPairs(agg, pairs) && InFirstAppearanceOrder(agg, pairs)
    ensures forall i, j :: 0 <= i < j < |agg| ==> agg[i].0 < agg[j].0
  {
    forall i, j | 0 <= i < j < |agg|
      ensures agg[i].0 < agg[j].0
    {
      PosFacts(pairs, agg[i].0);
      PosFacts(pairs, agg[j].0);
      assert Pos(pairs, agg[i].0) < Pos(pairs, agg[j].0) < |pairs|;
    }
  }

  /** The history's dates are strictly ascending. */
  lemma DamageHistoryAscending(damages: seq<DamageRow>, raidId: int)
    ensures var h := DamageHistory(damages, raidId);
      forall i, j :: 0 <= i < j < |h| ==> h[i].0 < h[j].0
  {
    GroupedAscending(DamageHistory(damages, raidId), DatedPairs(damages, raidId));
  }

  /** The history adds up to the raid's whole ledger. */
  lemma DamageHistoryKeepsSum(damages: seq<DamageRow>, raidId: int)
    ensures Sum(Map(DamageHistory(damages, raidId), Snd)) == Sum(Map(Filter(damages, DamageOf(raidId)), TotalOf))
  {
    var mine := Filter(damages, DamageOf(raidId));
    var read := Map(mine, DateAmount);
    AggregateKeepsSum(DatedPairs(damages, raidId));
    SortByKeepsSum(read, Fst, Snd);
    assert Map(read, Snd) == Map(mine, TotalOf);
  }

  // ------------------------------------------------------------ lookup tables

  /** `getStatusText`: the three known codes have Korean labels; any other code is shown as it is. */
  function StatusText(status: string): (t: string)
    ensures status == "active" ==> t == "진행중"
    ensures status == "completed" ==> t == "완료"
    ensures status == "failed" ==> t == "화속성"
    ensures t == status <==> status != "active" && status != "completed" && status != "failed"
  {
    if status == "active" then "진행중"
    else if status == "completed" then "완료"
    else if status == "failed" then "화속성"
    else status
  }

  /** `getRewardTypeText`: likewise for the three reward types. */
  function RewardTypeText(rewardType: string): (t: string)
    ensures rewardType == "real" ==> t == "실제 보상"
    ensures rewardType == "virtual" ==> t == "가상 보상"
    ensures rewardType == "badge" ==> t == "배지"
    ensures t == rewardType <==> rewardType != "real" && rewardType != "virtual" && rewardType != "badge"
  {
    if rewardType == "real" then "실제 보상"
    else if rewardType == "virtual" then "가상 보상"
    else if rewardType == "badge" then "배지"
    else rewardType
  }

  /** The status codes the store uses, and their labels. */
  function StatusCode(s: RaidStatus): string {
    match s
    case Active => "active"
    case Completed => "completed"
    case Failed => "failed"
  }

  function RewardTypeCode(t: RewardType): string {
    match t
    case Real => "real"
    case Virtual => "virtual"
    case Badge => "badge"
  }

  /** Every stored status and reward type gets its own label, different from the code. */
  lemma LabelsDistinct(a: RaidStatus, b: RaidStatus, x: RewardType, y: RewardType)
    ensures a != b ==> StatusText(StatusCode(a)) != StatusText(StatusCode(b))
    ensures StatusText(StatusCode(a)) != StatusCode(a)
    ensures x != y ==> RewardTypeText(RewardTypeCode(x)) != RewardTypeText(RewardTypeCode(y))
    ensures RewardTypeText(RewardTypeCode(x)) != RewardTypeCode(x)
  {
  }
}
