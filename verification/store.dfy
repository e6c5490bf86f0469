/**
 * The tables the raid sync reads and writes, each a sequence of rows in table
 * order, and the outcome of every write the sync attempts.
 */
module Store {
  import opened Wrappers
  import opened Seqs
  import opened JsText
  import opened Ingest

  datatype RaidStatus = Active | Completed | Failed

  /** A row of `boss_raids`; `buff` is `buff_multiplier` read with `parseFloat`. */
  datatype Raid = Raid(
    id: int,
    district: string,
    maxHp: int,
    currentHp: int,
    startDate: Day,
    endDate: Day,
    buff: real,
    status: RaidStatus)

  /** A row of `raid_participants`. */
  datatype Participant = Participant(raidId: int, riderId: string)

  /** A row of `raid_damages`, keyed by (raid, rider, date). */
  datatype DamageRow = DamageRow(
    raidId: int,
    riderId: string,
    date: Day,
    baseDamage: int,
    bonusMultiplier: real,
    totalDamage: int)

  /** A row of `raid_rankings`, keyed by (raid, rider). */
  datatype RankingRow = RankingRow(raidId: int, riderId: string, totalDamage: int, rank: int)

  datatype RewardType = Real | Virtual | Badge

  /** The three reward descriptions: the first-place prize, "<rank>등 달성 배지", and the participation badge. */
  datatype RewardText = FirstPlacePrize | RankBadge(rank: int) | ParticipationBadge

  /** A row of `raid_rewards`; `rank` is absent on participation badges. */
  datatype Reward = Reward(raidId: int, riderId: string, rank: Option<int>, rewardType: RewardType, description: RewardText)

  datatype Store = Store(
    logs: seq<DeliveryLog>,
    raids: seq<Raid>,
    participants: seq<Participant>,
    damages: seq<DamageRow>,
    rankings: seq<RankingRow>,
    rewards: seq<Reward>)

  /**
   * Which writes the store accepts. A write the store rejects is reported and
   * skipped by the script; the outcome depends only on the row written.
   */
  datatype WriteOutcomes = WriteOutcomes(
    log: DeliveryLog -> bool,
    damage: DamageRow -> bool,
    raid: Raid -> bool,
    ranking: RankingRow -> bool,
    reward: Reward -> bool)

  function RaidId(r: Raid): int { r.id }

  function DamageKey(d: DamageRow): (int, string, Day) { (d.raidId, d.riderId, d.date) }

  function RankingKey(r: RankingRow): (int, string) { (r.raidId, r.riderId) }

  function ParticipantKey(p: Participant): (int, string) { (p.raidId, p.riderId) }

  function TotalOf(d: DamageRow): int { d.totalDamage }

  function RiderOf(r: RankingRow): string { r.riderId }

  function RankOf(r: RankingRow): int { r.rank }

  function RankedTotal(r: RankingRow): int { r.totalDamage }

  /** The uniqueness constraints behind the `onConflict` keys and the join rule. */
  ghost predicate Consistent(s: Store) {
    && UniqueBy(s.raids, RaidId)
    && UniqueBy(s.logs, LogKey)
    && UniqueBy(s.damages, DamageKey)
    && UniqueBy(s.rankings, RankingKey)
    && UniqueBy(s.participants, ParticipantKey)
  }

  function ParticipantOf(raidId: int): Participant -> bool {
    (p: Participant) => p.raidId == raidId
  }

  function RiderOfParticipant(p: Participant): string { p.riderId }

  /** `select('rider_id').eq('raid_id', raidId)` on `raid_participants`, mapped to the IDs. */
  function ParticipantIds(participants: seq<Participant>, raidId: int): (ids: seq<string>)
    ensures |ids| <= |participants|
    ensures forall k :: 0 <= k < |participants| && participants[k].raidId == raidId ==> participants[k].riderId in ids
    ensures forall i :: 0 <= i < |ids| ==> Participant(raidId, ids[i]) in participants
  {
    var mine := Filter(participants, ParticipantOf(raidId));
    assert forall k :: 0 <= k < |participants| && participants[k].raidId == raidId ==> participants[k] in mine;
    Map(mine, RiderOfParticipant)
  }

  /** With one row per (raid, rider), a raid's participant list has no repeats. */
  lemma ParticipantIdsDistinct(participants: seq<Participant>, raidId: int)
    requires UniqueBy(participants, ParticipantKey)
    ensures forall i, j :: 0 <= i < j < |ParticipantIds(participants, raidId)| ==>
      ParticipantIds(participants, raidId)[i] != ParticipantIds(participants, raidId)[j]
  {
    var mine := Filter(participants, ParticipantOf(raidId));
    FilterKeepsUnique(participants, ParticipantOf(raidId), ParticipantKey);
    forall i, j | 0 <= i < j < |mine|
      ensures mine[i].riderId != mine[j].riderId
    {
      assert ParticipantKey(mine[i]) != ParticipantKey(mine[j]);
    }
  }

  /** The decimal digits of a non-negative number. */
  function DecimalString(n: nat): (s: string)
    ensures |s| > 0 && AllDigits(s)
    decreases n
  {
    var last := [DigitChar(n % 10)];
    if n < 10 then last else DecimalString(n / 10) + last
  }

  /** Reading the digits back gives the number. */
  lemma {:induction false} DecimalStringValue(n: nat)
    ensures DigitsValue(DecimalString(n)) == n
    decreases n
  {
    var s := DecimalString(n);
    if n >= 10 {
      DecimalStringValue(n / 10);
      assert s[..|s| - 1] == DecimalString(n / 10);
    } else {
      assert s[..0] == "";
    }
  }

  /** The `reward_description` text stored with a reward. */
  function DescriptionText(t: RewardText): string {
    match t
    case FirstPlacePrize => "1등 보상: 스타벅스 기프티콘 5만원권"
    case RankBadge(rank) => (if rank < 0 then "-" + DecimalString(-rank) else DecimalString(rank)) + "등 달성 배지"
    case ParticipationBadge => "레이드 참여 배지"
  }
}
