/**
 * `main`: check the environment, read the delivery sheet, upsert the logs,
 * run the damage pass and then the ranking pass, in that order.
 */
module SyncRun {
  import opened Wrappers
  import opened Seqs
  import opened Tables
  import opened Ingest
  import opened Store
  import opened Rewards
  import opened DamageRecording
  import opened Ranking

  /** The environment variables the run checks; `None` is an unset variable. */
  datatype Env = Env(
    supabaseUrl: Option<string>,
    serviceKey: Option<string>,
    raidSheetId: Option<string>,
    sheetId: Option<string>)

  /** A variable counts as set when it is present and not the empty string (JavaScript truthiness). */
  predicate IsSet(v: Option<string>) {
    v.Some? && |v.value| > 0
  }

  /** `GOOGLE_RAID_SHEET_ID || GOOGLE_SHEET_ID`. */
  function SheetId(env: Env): (id: Option<string>)
    ensures IsSet(id) <==> IsSet(env.raidSheetId) || IsSet(env.sheetId)
  {
    if IsSet(env.raidSheetId) then env.raidSheetId else env.sheetId
  }

  predicate Configured(env: Env) {
    IsSet(env.supabaseUrl) && IsSet(env.serviceKey) && IsSet(SheetId(env))
  }

  datatype RunOutcome = MissingEnv | Done(store: Store, report: SyncReport)

  /**
   * One run of the sync over the sheet's `rows`. Reads of the store are assumed to
   * succeed; `w` says which writes the store accepts.
   */
  function Run(s: Store, env: Env, rows: seq<SheetRow>, parsers: Parsers, w: WriteOutcomes): (r: RunOutcome)
    ensures r.MissingEnv? <==> !Configured(env)
    ensures r.Done? ==> r.report.successCount + r.report.errorCount == |ReadDeliveryLogs(rows, parsers)|
    ensures r.Done? ==> r.store.participants == s.participants && |r.store.raids| == |s.raids|
    ensures r.Done? ==> forall j :: 0 <= j < |s.raids| ==> SameRaid(r.store.raids[j], s.raids[j])
  {
    if !Configured(env) then MissingEnv
    else
      var report := SyncDeliveryLogs(s.logs, ReadDeliveryLogs(rows, parsers), w.log);
      var synced := s.(logs := report.table);
      Done(RankingPass(DamagePass(synced, w), w), report)
  }

  /** The store as it stands when the damage pass starts. */
  function Synced(s: Store, rows: seq<SheetRow>, parsers: Parsers, w: WriteOutcomes): Store {
    s.(logs := SyncDeliveryLogs(s.logs, ReadDeliveryLogs(rows, parsers), w.log).table)
  }

  lemma RunSteps(s: Store, env: Env, rows: seq<SheetRow>, parsers: Parsers, w: WriteOutcomes)
    requires Configured(env)
    ensures Run(s, env, rows, parsers, w).store == RankingPass(DamagePass(Synced(s, rows, parsers, w), w), w)
  {
  }

  /** The run's new rewards are exactly those of the damage pass, which saw the rankings as they were. */
  lemma RunRewards(s: Store, env: Env, rows: seq<SheetRow>, parsers: Parsers, w: WriteOutcomes)
    requires Configured(env) && UniqueBy(s.raids, RaidId)
    ensures Run(s, env, rows, parsers, w).store.rewards == s.rewards + AllRewards(Synced(s, rows, parsers, w), s.raids, w)
  {
    var s1 := Synced(s, rows, parsers, w);
    var s2 := DamagePass(s1, w);
    RunSteps(s, env, rows, parsers, w);
    DamagePassEffect(s1, w);
    assert RankingPass(s2, w).rewards == s2.rewards;
  }

  /** The defeated raid behind a reward of the damage pass, and the call that produced it. */
  lemma RewardOrigin(s: Store, w: WriteOutcomes, x: Reward) returns (m: nat)
    requires x in AllRewards(s, s.raids, w)
    ensures m < |s.raids| && s.raids[m].status == Active && Defeated(s.raids[m], s.logs, s.participants, w)
    ensures x in CompletionRewards(s.rankings, s.participants, s.raids[m].id, w.reward)
  {
    InGather(s.raids, RewardsFor(s, w), x);
    m :| 0 <= m < |s.raids| && s.raids[m].status == Active && x in RewardsFor(s, w)(s.raids[m]);
  }

  /** A reward the run adds, traced back to the completion call over the pre-run tables. */
  lemma NewRewardOrigin(s: Store, env: Env, rows: seq<SheetRow>, parsers: Parsers, w: WriteOutcomes, k: nat) returns (raidId: int)
    requires Configured(env) && UniqueBy(s.raids, RaidId)
    requires |s.rewards| <= k < |Run(s, env, rows, parsers, w).store.rewards|
    ensures Run(s, env, rows, parsers, w).store.rewards[k] in CompletionRewards(s.rankings, s.participants, raidId, w.reward)
  {
    var s1 := Synced(s, rows, parsers, w);
    var rewards := Run(s, env, rows, parsers, w).store.rewards;
    RunRewards(s, env, rows, parsers, w);
    InSuffix(s.rewards, AllRewards(s1, s.raids, w), rewards, k);
    raidId := PassRewardOrigin(s, s1, w, rewards[k]);
  }

  lemma PassRewardOrigin(s: Store, s1: Store, w: WriteOutcomes, x: Reward) returns (raidId: int)
    requires s1.raids == s.raids && s1.rankings == s.rankings && s1.participants == s.participants
    requires x in AllRewards(s1, s.raids, w)
    ensures x in CompletionRewards(s.rankings, s.participants, raidId, w.reward)
  {
    var m := RewardOrigin(s1, w, x);
    raidId := s.raids[m].id;
  }

  /**
   * The rewards of a run are chosen from the rankings as they stood BEFORE the
   * run: the ranking pass runs after the damage pass, so every prize or rank
   * badge goes to a rider who held a ranking row for that raid when the run began.
   */
  lemma RewardsUseEarlierRankings(s: Store, env: Env, rows: seq<SheetRow>, parsers: Parsers, w: WriteOutcomes, k: nat) returns (i: nat)
    requires Configured(env) && UniqueBy(s.raids, RaidId)
    requires |s.rewards| <= k < |Run(s, env, rows, parsers, w).store.rewards|
    requires Run(s, env, rows, parsers, w).store.rewards[k].rewardType != Badge
    ensures i < |s.rankings|
    ensures s.rankings[i].raidId == Run(s, env, rows, parsers, w).store.rewards[k].raidId
    ensures s.rankings[i].riderId == Run(s, env, rows, parsers, w).store.rewards[k].riderId
  {
    var x := Run(s, env, rows, parsers, w).store.rewards[k];
    var raidId := NewRewardOrigin(s, env, rows, parsers, w, k);
    i := CompletionTopFromRankings(s.rankings, s.participants, raidId, w.reward, x);
  }

  /**
   * A raid defeated on its first run (no ranking rows yet) pays out participation
   * badges only: not even the rider who dealt the most damage gets the prize.
   */
  lemma FirstDefeatOnlyBadges(s: Store, env: Env, rows: seq<SheetRow>, parsers: Parsers, w: WriteOutcomes, k: nat)
    requires Configured(env) && UniqueBy(s.raids, RaidId)
    requires |s.rewards| <= k < |Run(s, env, rows, parsers, w).store.rewards|
    requires forall i :: 0 <= i < |s.rankings| ==> s.rankings[i].raidId != Run(s, env, rows, parsers, w).store.rewards[k].raidId
    ensures Run(s, env, rows, parsers, w).store.rewards[k].rewardType == Badge
  {
    var x := Run(s, env, rows, parsers, w).store.rewards[k];
    if x.rewardType != Badge {
      var i := RewardsUseEarlierRankings(s, env, rows, parsers, w, k);
    }
  }

  /** A run keeps every table's natural key unique. */
  lemma RunKeepsConsistent(s: Store, env: Env, rows: seq<SheetRow>, parsers: Parsers, w: WriteOutcomes)
    requires Consistent(s) && Configured(env)
    ensures Consistent(Run(s, env, rows, parsers, w).store)
  {
    var s1 := Synced(s, rows, parsers, w);
    var logs := ReadDeliveryLogs(rows, parsers);
    SyncContents(s.logs, logs, w.log, ("", 0));
    var s2 := DamagePass(s1, w);
    DamagePassEffect(s1, w);
    DamagePassKeepsRaidIds(s1, w);
    UpsertAllKeepsUnique(s1.damages, AllWritten(s1, s1.raids, w), DamageKey);
    RankingPassUpserts(s2, s2.raids, w);
    UpsertAllKeepsUnique(s2.rankings, AllRankings(s2.damages, s2.raids, w.ranking), RankingKey);
    RunSteps(s, env, rows, parsers, w);
  }
}
