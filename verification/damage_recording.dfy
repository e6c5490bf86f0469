/**
 * `calculateAndRecordDamages`: for every raid that was active when the pass
 * started, score the in-window delivery logs of its participants, upsert one
 * damage row per log, and deduct the damage the store accepted from the boss's
 * HP, completing the raid (and issuing its rewards) when HP reaches zero.
 *
 * The deduction is the whole in-window sum, not what changed since the last
 * run, so a second pass over the same logs deducts it again.
 */
module DamageRecording {
  import opened Wrappers
  import opened Seqs
  import opened Tables
  import opened Ingest
  import opened Damage
  import opened Store
  import opened Rewards

  /** The delivery-log query: a participant's log, in the raid's district, dated inside the raid window. */
  predicate EligibleLog(raid: Raid, ids: seq<string>, l: DeliveryLog) {
    l.riderId in ids && l.district == raid.district && raid.startDate <= l.date <= raid.endDate
  }

  function Eligible(raid: Raid, ids: seq<string>): DeliveryLog -> bool {
    (l: DeliveryLog) => EligibleLog(raid, ids, l)
  }

  /** The damage row one log produces for one raid. */
  function DamageRowFor(raid: Raid, l: DeliveryLog): (d: DamageRow)
    ensures DamageKey(d) == (raid.id, l.riderId, l.date)
    ensures d.baseDamage == 10 * l.deliveryCount
    ensures d.bonusMultiplier == (if l.isRainy || l.hasSurge then 2.0 else 1.0) * raid.buff
    ensures d.totalDamage as real <= d.baseDamage as real * d.bonusMultiplier < d.totalDamage as real + 1.0
  {
    var c := Calculate(l.deliveryCount, l.isRainy, l.hasSurge, raid.buff);
    DamageRow(raid.id, l.riderId, l.date, c.baseDamage, c.bonusMultiplier, c.totalDamage)
  }

  function ScoreFor(raid: Raid): DeliveryLog -> DamageRow {
    (l: DeliveryLog) => DamageRowFor(raid, l)
  }

  /**
   * The damage rows the pass tries to upsert for one raid: none when the raid has
   * no participants, otherwise one per eligible log, in log order.
   */
  function Attempted(raid: Raid, logs: seq<DeliveryLog>, participants: seq<Participant>): (rows: seq<DamageRow>)
    ensures |rows| <= |logs|
    ensures forall i :: 0 <= i < |rows| ==> rows[i].raidId == raid.id
  {
    var ids := ParticipantIds(participants, raid.id);
    if |ids| == 0 then [] else Map(Filter(logs, Eligible(raid, ids)), ScoreFor(raid))
  }

  /** Exactly the eligible logs are scored: each row comes from one, and each one gives a row. */
  lemma AttemptedRows(raid: Raid, logs: seq<DeliveryLog>, participants: seq<Participant>)
    ensures var ids := ParticipantIds(participants, raid.id);
      forall i :: 0 <= i < |Attempted(raid, logs, participants)| ==>
        exists k :: 0 <= k < |logs| && EligibleLog(raid, ids, logs[k]) && Attempted(raid, logs, participants)[i] == DamageRowFor(raid, logs[k])
    ensures var ids := ParticipantIds(participants, raid.id);
      forall k :: 0 <= k < |logs| && EligibleLog(raid, ids, logs[k]) ==> DamageRowFor(raid, logs[k]) in Attempted(raid, logs, participants)
  {
    var ids := ParticipantIds(participants, raid.id);
    var rows := Attempted(raid, logs, participants);
    if |ids| > 0 {
      var eligible := Filter(logs, Eligible(raid, ids));
      assert forall i :: 0 <= i < |rows| ==> rows[i] == DamageRowFor(raid, eligible[i]) && eligible[i] in logs;
      assert forall k :: 0 <= k < |logs| && EligibleLog(raid, ids, logs[k]) ==> logs[k] in eligible;
    }
  }

  /** The rows the store accepted; only these count towards the HP deduction. */
  function Written(raid: Raid, logs: seq<DeliveryLog>, participants: seq<Participant>, accepted: DamageRow -> bool): seq<DamageRow> {
    Filter(Attempted(raid, logs, participants), accepted)
  }

  /** `totalDamageDealt`. */
  function Dealt(written: seq<DamageRow>): int {
    Sum(Map(written, TotalOf))
  }

  /** Two rows of the same raid that differ at most in HP and status. */
  predicate SameRaid(a: Raid, b: Raid) {
    a == b.(currentHp := a.currentHp, status := a.status)
  }

  /** The HP and status the update writes: HP floored at zero, completed exactly when it hits zero. */
  function AfterHit(raid: Raid, dealt: int): (r: Raid)
    ensures SameRaid(r, raid)
    ensures r.currentHp >= 0
    ensures dealt >= 0 && raid.currentHp >= 0 ==> r.currentHp <= raid.currentHp
    ensures r.currentHp == 0 <==> raid.currentHp <= dealt
    ensures r.currentHp > 0 ==> r.currentHp == raid.currentHp - dealt
    ensures r.currentHp == 0 ==> r.status == Completed
    ensures r.currentHp > 0 ==> r.status == raid.status
  {
    var hp := Max(0, raid.currentHp - dealt);
    raid.(currentHp := hp, status := if hp == 0 then Completed else raid.status)
  }

  /** The HP update is attempted only for a positive sum and then succeeds if the store accepts it. */
  predicate HpWritten(raid: Raid, logs: seq<DeliveryLog>, participants: seq<Participant>, w: WriteOutcomes) {
    var dealt := Dealt(Written(raid, logs, participants, w.damage));
    dealt > 0 && w.raid(AfterHit(raid, dealt))
  }

  /** The raid row as the pass leaves it. */
  function RaidAfter(raid: Raid, logs: seq<DeliveryLog>, participants: seq<Participant>, w: WriteOutcomes): (r: Raid)
    ensures SameRaid(r, raid)
    ensures !HpWritten(raid, logs, participants, w) ==> r == raid
    ensures HpWritten(raid, logs, participants, w) ==> r == AfterHit(raid, Dealt(Written(raid, logs, participants, w.damage)))
  {
    if HpWritten(raid, logs, participants, w) then AfterHit(raid, Dealt(Written(raid, logs, participants, w.damage))) else raid
  }

  /** The update succeeded and set the status to completed: the moment rewards are issued. */
  predicate Defeated(raid: Raid, logs: seq<DeliveryLog>, participants: seq<Participant>, w: WriteOutcomes) {
    HpWritten(raid, logs, participants, w) && RaidAfter(raid, logs, participants, w).status == Completed
  }

  function RewardsAfter(raid: Raid, rankings: seq<RankingRow>, logs: seq<DeliveryLog>, participants: seq<Participant>, w: WriteOutcomes): (rs: seq<Reward>)
    ensures !Defeated(raid, logs, participants, w) ==> rs == []
    ensures forall i :: 0 <= i < |rs| ==> rs[i].raidId == raid.id
  {
    if Defeated(raid, logs, participants, w) then CompletionRewards(rankings, participants, raid.id, w.reward) else []
  }

  function UpdateRow(r: Raid): Raid -> Raid {
    (x: Raid) => if x.id == r.id then x.(currentHp := r.currentHp, status := r.status) else x
  }

  /** `update({ current_hp, status }).eq('id', raid.id)`. */
  function SetRaidRow(raids: seq<Raid>, r: Raid): (t: seq<Raid>)
    ensures |t| == |raids|
    ensures forall j :: 0 <= j < |raids| ==> SameRaid(t[j], raids[j])
    ensures forall j :: 0 <= j < |raids| && raids[j].id != r.id ==> t[j] == raids[j]
    ensures forall j :: 0 <= j < |raids| && raids[j].id == r.id ==> t[j].currentHp == r.currentHp && t[j].status == r.status
  {
    Map(raids, UpdateRow(r))
  }

  /** One iteration of the loop over active raids, for the raid row `raid` as it was read. */
  function RaidStep(s: Store, raid: Raid, w: WriteOutcomes): (t: Store)
    ensures t.logs == s.logs && t.participants == s.participants && t.rankings == s.rankings
    ensures t.damages == UpsertAll(s.damages, Written(raid, s.logs, s.participants, w.damage), DamageKey)
    ensures |t.raids| == |s.raids|
    ensures forall j :: 0 <= j < |s.raids| ==> SameRaid(t.raids[j], s.raids[j])
    ensures forall j :: 0 <= j < |s.raids| && s.raids[j].id != raid.id ==> t.raids[j] == s.raids[j]
    ensures forall j :: 0 <= j < |s.raids| && s.raids[j] == raid ==> t.raids[j] == RaidAfter(raid, s.logs, s.participants, w)
    ensures t.rewards == s.rewards + RewardsAfter(raid, s.rankings, s.logs, s.participants, w)
  {
    var written := Written(raid, s.logs, s.participants, w.damage);
    var after := RaidAfter(raid, s.logs, s.participants, w);
    s.(damages := UpsertAll(s.damages, written, DamageKey),
       raids := if HpWritten(raid, s.logs, s.participants, w) then SetRaidRow(s.raids, after) else s.raids,
       rewards := s.rewards + RewardsAfter(raid, s.rankings, s.logs, s.participants, w))
  }

  /** A raid without participants causes no write at all. */
  lemma NoParticipantsNoWrites(s: Store, raid: Raid, w: WriteOutcomes)
    requires forall k :: 0 <= k < |s.participants| ==> s.participants[k].raidId != raid.id
    ensures RaidStep(s, raid, w) == s
  {
    FilterNone(s.participants, ParticipantOf(raid.id));
    assert Written(raid, s.logs, s.participants, w.damage) == [];
  }

  /**
   * The HP rules for one raid: nothing is written unless the accepted damage sums
   * to more than zero; the new HP lies between zero and the old HP; and the
   * raid completes exactly when the new HP is zero.
   */
  lemma HpRules(raid: Raid, logs: seq<DeliveryLog>, participants: seq<Participant>, w: WriteOutcomes)
    requires raid.currentHp >= 0 && raid.status == Active
    ensures var dealt := Dealt(Written(raid, logs, participants, w.damage));
      var r := RaidAfter(raid, logs, participants, w);
      && (dealt <= 0 ==> r == raid)
      && 0 <= r.currentHp <= raid.currentHp
      && (r.status == Completed <==> HpWritten(raid, logs, participants, w) && dealt >= raid.currentHp)
      && (r.status != Completed ==> r.status == Active)
      && (Defeated(raid, logs, participants, w) <==> HpWritten(raid, logs, participants, w) && r.currentHp == 0)
  {
  }

  /** Scoring depends on the raid's id, district, window and buff, not on its HP or status. */
  lemma WrittenSameRaid(a: Raid, b: Raid, logs: seq<DeliveryLog>, participants: seq<Participant>, accepted: DamageRow -> bool)
    requires SameRaid(a, b)
    ensures Attempted(a, logs, participants) == Attempted(b, logs, participants)
    ensures Written(a, logs, participants, accepted) == Written(b, logs, participants, accepted)
  {
    var ids := ParticipantIds(participants, a.id);
    assert a.id == b.id && a.district == b.district && a.startDate == b.startDate && a.endDate == b.endDate && a.buff == b.buff;
    if |ids| > 0 {
      FilterSamePredicate(logs, Eligible(a, ids), Eligible(b, ids));
      var eligible := Filter(logs, Eligible(a, ids));
      assert forall i :: 0 <= i < |eligible| ==> DamageRowFor(a, eligible[i]) == DamageRowFor(b, eligible[i]);
    }
  }

  /** Damage rows of one raid that share a key come from the same log, so they are equal. */
  lemma AttemptedKeyFunctional(raid: Raid, logs: seq<DeliveryLog>, participants: seq<Participant>)
    requires UniqueBy(logs, LogKey)
    ensures KeyFunctional(Attempted(raid, logs, participants), DamageKey)
  {
    var rows := Attempted(raid, logs, participants);
    AttemptedRows(raid, logs, participants);
    forall i, j | 0 <= i < |rows| && 0 <= j < |rows| && DamageKey(rows[i]) == DamageKey(rows[j])
      ensures rows[i] == rows[j]
    {
      var ki :| 0 <= ki < |logs| && rows[i] == DamageRowFor(raid, logs[ki]);
      var kj :| 0 <= kj < |logs| && rows[j] == DamageRowFor(raid, logs[kj]);
      assert LogKey(logs[ki]) == LogKey(logs[kj]);
    }
  }

  /** Running one raid's step a second time on the same logs leaves the damage ledger as the first run left it. */
  lemma RaidStepRerunLedger(s: Store, raid: Raid, w: WriteOutcomes)
    requires UniqueBy(s.logs, LogKey)
    ensures RaidStep(RaidStep(s, raid, w), RaidAfter(raid, s.logs, s.participants, w), w).damages == RaidStep(s, raid, w).damages
  {
    var written := Written(raid, s.logs, s.participants, w.damage);
    WrittenSameRaid(RaidAfter(raid, s.logs, s.participants, w), raid, s.logs, s.participants, w.damage);
    WrittenKeyFunctional(raid, s.logs, s.participants, w.damage);
    UpsertAllIdempotent(s.damages, written, DamageKey);
  }

  /**
   * ... and it deducts the same in-window sum from HP a second time: after two
   * accepted updates the boss has lost twice the damage (floored at zero).
   */
  lemma RaidStepRerunHp(raid: Raid, logs: seq<DeliveryLog>, participants: seq<Participant>, w: WriteOutcomes)
    requires HpWritten(raid, logs, participants, w)
    requires HpWritten(RaidAfter(raid, logs, participants, w), logs, participants, w)
    ensures RaidAfter(RaidAfter(raid, logs, participants, w), logs, participants, w).currentHp
         == Max(0, raid.currentHp - 2 * Dealt(Written(raid, logs, participants, w.damage)))
  {
    var raid1 := RaidAfter(raid, logs, participants, w);
    WrittenSameRaid(raid1, raid, logs, participants, w.damage);
  }

  lemma WrittenKeyFunctional(raid: Raid, logs: seq<DeliveryLog>, participants: seq<Participant>, accepted: DamageRow -> bool)
    requires UniqueBy(logs, LogKey)
    ensures KeyFunctional(Written(raid, logs, participants, accepted), DamageKey)
  {
    AttemptedKeyFunctional(raid, logs, participants);
    var rows := Attempted(raid, logs, participants);
    var written := Written(raid, logs, participants, accepted);
    forall i, j | 0 <= i < |written| && 0 <= j < |written| && DamageKey(written[i]) == DamageKey(written[j])
      ensures written[i] == written[j]
    {
      var a :| 0 <= a < |rows| && rows[a] == written[i];
      var b :| 0 <= b < |rows| && rows[b] == written[j];
    }
  }

  /**
   * The loop over the raids read at the start of the pass (`snapshot`): `step`
   * is applied, in order, to each raid that was active in that read.
   */
  function Fold(s: Store, snapshot: seq<Raid>, step: (Store, Raid) -> Store): Store
    decreases |snapshot|
  {
    if |snapshot| == 0 then s
    else
      var prev := Fold(s, snapshot[..|snapshot| - 1], step);
      var raid := snapshot[|snapshot| - 1];
      if raid.status == Active then step(prev, raid) else prev
  }

  function StepFn(w: WriteOutcomes): (Store, Raid) -> Store {
    (t: Store, raid: Raid) => RaidStep(t, raid, w)
  }

  /** The tables the pass only reads are unchanged, and no raid row is added, removed or re-keyed. */
  ghost predicate Framed(s: Store, t: Store) {
    && t.logs == s.logs && t.participants == s.participants && t.rankings == s.rankings
    && |t.raids| == |s.raids|
    && forall j :: 0 <= j < |s.raids| ==> SameRaid(t.raids[j], s.raids[j])
  }

  ghost predicate SameInputs(s: Store, t: Store) {
    t.logs == s.logs && t.participants == s.participants && t.rankings == s.rankings
  }

  ghost predicate StepFrames(step: (Store, Raid) -> Store) {
    forall t: Store, raid: Raid :: Framed(t, step(t, raid))
  }

  /** The step appends `g(raid)` to the rewards, whatever else it does. */
  ghost predicate StepAppends(s: Store, step: (Store, Raid) -> Store, g: Raid -> seq<Reward>) {
    forall t: Store, raid: Raid :: SameInputs(s, t) ==> step(t, raid).rewards == t.rewards + g(raid)
  }

  /** The step upserts `h(raid)` into the damage ledger. */
  ghost predicate StepUpserts(s: Store, step: (Store, Raid) -> Store, h: Raid -> seq<DamageRow>) {
    forall t: Store, raid: Raid :: SameInputs(s, t) ==> step(t, raid).damages == UpsertAll(t.damages, h(raid), DamageKey)
  }

  /** The step touches only the row of its own raid, and leaves that row as `f(raid)`. */
  ghost predicate StepOwnRow(s: Store, step: (Store, Raid) -> Store, f: Raid -> Raid) {
    forall t: Store, raid: Raid :: SameInputs(s, t) ==>
      && (forall j :: 0 <= j < |t.raids| && j < |step(t, raid).raids| && t.raids[j].id != raid.id ==> step(t, raid).raids[j] == t.raids[j])
      && (forall j :: 0 <= j < |t.raids| && j < |step(t, raid).raids| && t.raids[j] == raid ==> step(t, raid).raids[j] == f(raid))
  }

  lemma {:induction false} FoldFramed(s: Store, snapshot: seq<Raid>, step: (Store, Raid) -> Store)
    requires StepFrames(step)
    ensures Framed(s, Fold(s, snapshot, step))
    decreases |snapshot|
  {
    if |snapshot| > 0 {
      FoldFramed(s, snapshot[..|snapshot| - 1], step);
    }
  }

  lemma {:induction false} FoldRewards(s: Store, snapshot: seq<Raid>, step: (Store, Raid) -> Store, g: Raid -> seq<Reward>)
    requires StepFrames(step) && StepAppends(s, step, g)
    ensures Fold(s, snapshot, step).rewards == s.rewards + Gather(snapshot, g)
    decreases |snapshot|
  {
    if |snapshot| > 0 {
      var init := snapshot[..|snapshot| - 1];
      var raid := snapshot[|snapshot| - 1];
      FoldRewards(s, init, step, g);
      FoldFramed(s, init, step);
      var extra := if raid.status == Active then g(raid) else [];
      assert s.rewards + Gather(init, g) + extra == s.rewards + (Gather(init, g) + extra);
    }
  }

  lemma {:induction false} FoldDamages(s: Store, snapshot: seq<Raid>, step: (Store, Raid) -> Store, h: Raid -> seq<DamageRow>)
    requires StepFrames(step) && StepUpserts(s, step, h)
    ensures Fold(s, snapshot, step).damages == UpsertAll(s.damages, Gather(snapshot, h), DamageKey)
    decreases |snapshot|
  {
    if |snapshot| > 0 {
      var init := snapshot[..|snapshot| - 1];
      var raid := snapshot[|snapshot| - 1];
      FoldDamages(s, init, step, h);
      FoldFramed(s, init, step);
      if raid.status == Active {
        UpsertAllConcat(s.damages, Gather(init, h), h(raid), DamageKey);
      } else {
        assert Gather(init, h) + [] == Gather(init, h);
      }
    }
  }

  /** With distinct raid ids, the rows after the first `n` raids of the table have been processed. */
  lemma {:induction false} FoldRaids(s: Store, step: (Store, Raid) -> Store, f: Raid -> Raid, n: nat)
    requires UniqueBy(s.raids, RaidId)
    requires StepFrames(step) && StepOwnRow(s, step, f)
    requires n <= |s.raids|
    ensures |Fold(s, s.raids[..n], step).raids| == |s.raids|
    ensures forall j :: 0 <= j < |s.raids| ==>
      Fold(s, s.raids[..n], step).raids[j] == if j < n && s.raids[j].status == Active then f(s.raids[j]) else s.raids[j]
  {
    if n > 0 {
      FoldRaids(s, step, f, n - 1);
      FoldFramed(s, s.raids[..n - 1], step);
      assert s.raids[..n][..n - 1] == s.raids[..n - 1];
      var raid := s.raids[n - 1];
      assert s.raids[..n][n - 1] == raid;
      if raid.status == Active {
        forall j | 0 <= j < |s.raids| && j != n - 1
          ensures s.raids[j].id != raid.id
        {
          assert RaidId(s.raids[j]) != RaidId(s.raids[n - 1]);
        }
      }
    }
  }

  /** `calculateAndRecordDamages`. */
  function DamagePass(s: Store, w: WriteOutcomes): (t: Store)
    ensures t.logs == s.logs && t.participants == s.participants && t.rankings == s.rankings
    ensures |t.raids| == |s.raids|
    ensures forall j :: 0 <= j < |s.raids| ==> SameRaid(t.raids[j], s.raids[j])
  {
    StepFnFrames(w);
    FoldFramed(s, s.raids, StepFn(w));
    Fold(s, s.raids, StepFn(w))
  }

  /** The concatenation of `f` over the raids of the snapshot that were active. */
  function Gather<T>(snapshot: seq<Raid>, f: Raid -> seq<T>): seq<T>
    decreases |snapshot|
  {
    if |snapshot| == 0 then []
    else
      var raid := snapshot[|snapshot| - 1];
      Gather(snapshot[..|snapshot| - 1], f) + (if raid.status == Active then f(raid) else [])
  }

  lemma {:induction false} InGather<T>(snapshot: seq<Raid>, f: Raid -> seq<T>, x: T)
    ensures x in Gather(snapshot, f) <==> exists m :: 0 <= m < |snapshot| && snapshot[m].status == Active && x in f(snapshot[m])
    decreases |snapshot|
  {
    if |snapshot| > 0 {
      var n := |snapshot|;
      var init := snapshot[..n - 1];
      InGather(init, f, x);
      if exists m :: 0 <= m < n && snapshot[m].status == Active && x in f(snapshot[m]) {
        var m :| 0 <= m < n && snapshot[m].status == Active && x in f(snapshot[m]);
        if m < n - 1 {
          assert init[m] == snapshot[m];
        }
      }
      if x in Gather(init, f) {
        var m :| 0 <= m < |init| && init[m].status == Active && x in f(init[m]);
        assert snapshot[m] == init[m];
      }
    }
  }

  function WrittenFor(s: Store, w: WriteOutcomes): Raid -> seq<DamageRow> {
    (raid: Raid) => Written(raid, s.logs, s.participants, w.damage)
  }

  function RewardsFor(s: Store, w: WriteOutcomes): Raid -> seq<Reward> {
    (raid: Raid) => RewardsAfter(raid, s.rankings, s.logs, s.participants, w)
  }

  function AfterFor(s: Store, w: WriteOutcomes): Raid -> Raid {
    (raid: Raid) => RaidAfter(raid, s.logs, s.participants, w)
  }

  /** Every damage row the pass writes, in order. */
  function AllWritten(s: Store, snapshot: seq<Raid>, w: WriteOutcomes): seq<DamageRow> {
    Gather(snapshot, WrittenFor(s, w))
  }

  /** Every reward the pass issues, in order. */
  function AllRewards(s: Store, snapshot: seq<Raid>, w: WriteOutcomes): seq<Reward> {
    Gather(snapshot, RewardsFor(s, w))
  }

  lemma StepFnFrames(w: WriteOutcomes)
    ensures StepFrames(StepFn(w))
  {
  }

  lemma StepFnAppends(s: Store, w: WriteOutcomes)
    ensures StepAppends(s, StepFn(w), RewardsFor(s, w))
  {
  }

  lemma StepFnUpserts(s: Store, w: WriteOutcomes)
    ensures StepUpserts(s, StepFn(w), WrittenFor(s, w))
  {
  }

  lemma StepFnOwnRow(s: Store, w: WriteOutcomes)
    ensures StepOwnRow(s, StepFn(w), AfterFor(s, w))
  {
  }

  /**
   * The whole pass: each raid that was active is left as its own step leaves it
   * and every other raid is untouched; the ledger receives every accepted row;
   * the rewards of each defeated raid are appended.
   */
  lemma DamagePassEffect(s: Store, w: WriteOutcomes)
    requires UniqueBy(s.raids, RaidId)
    ensures var t := DamagePass(s, w);
      && (forall j :: 0 <= j < |s.raids| ==>
            t.raids[j] == if s.raids[j].status == Active then RaidAfter(s.raids[j], s.logs, s.participants, w) else s.raids[j])
      && t.damages == UpsertAll(s.damages, AllWritten(s, s.raids, w), DamageKey)
      && t.rewards == s.rewards + AllRewards(s, s.raids, w)
  {
    StepFnFrames(w);
    StepFnAppends(s, w);
    StepFnUpserts(s, w);
    StepFnOwnRow(s, w);
    FoldRaids(s, StepFn(w), AfterFor(s, w), |s.raids|);
    assert s.raids[..|s.raids|] == s.raids;
    FoldDamages(s, s.raids, StepFn(w), WrittenFor(s, w));
    FoldRewards(s, s.raids, StepFn(w), RewardsFor(s, w));
  }

  lemma InAllWritten(s: Store, snapshot: seq<Raid>, w: WriteOutcomes, x: DamageRow)
    ensures x in AllWritten(s, snapshot, w) <==>
      exists m :: 0 <= m < |snapshot| && snapshot[m].status == Active && x in Written(snapshot[m], s.logs, s.participants, w.damage)
  {
    InGather(snapshot, WrittenFor(s, w), x);
  }

  /** The defeated raid behind a reward of the pass. */
  lemma InAllRewards(s: Store, snapshot: seq<Raid>, w: WriteOutcomes, x: Reward) returns (m: nat)
    requires x in AllRewards(s, snapshot, w)
    ensures m < |snapshot| && snapshot[m].status == Active
    ensures Defeated(snapshot[m], s.logs, s.participants, w) && x.raidId == snapshot[m].id
  {
    InGather(snapshot, RewardsFor(s, w), x);
    m :| 0 <= m < |snapshot| && snapshot[m].status == Active && x in RewardsFor(s, w)(snapshot[m]);
  }

  /**
   * A raid that was not active when the pass started is never rescanned: its row
   * is untouched, no damage row is written for it and no reward is issued for it.
   */
  lemma CompletedNeverRescanned(s: Store, w: WriteOutcomes, j: nat)
    requires UniqueBy(s.raids, RaidId)
    requires j < |s.raids| && s.raids[j].status != Active
    ensures DamagePass(s, w).raids[j] == s.raids[j]
    ensures forall x :: x in AllWritten(s, s.raids, w) ==> x.raidId != s.raids[j].id
    ensures forall x :: x in AllRewards(s, s.raids, w) ==> x.raidId != s.raids[j].id
  {
    DamagePassEffect(s, w);
    forall x | x in AllWritten(s, s.raids, w)
      ensures x.raidId != s.raids[j].id
    {
      NotWrittenForInactive(s, w, j, x);
    }
    forall x | x in AllRewards(s, s.raids, w)
      ensures x.raidId != s.raids[j].id
    {
      NotRewardedForInactive(s, w, j, x);
    }
  }

  lemma NotWrittenForInactive(s: Store, w: WriteOutcomes, j: nat, x: DamageRow)
    requires UniqueBy(s.raids, RaidId)
    requires j < |s.raids| && s.raids[j].status != Active
    requires x in AllWritten(s, s.raids, w)
    ensures x.raidId != s.raids[j].id
  {
    var m := WriterOf(s, s.raids, w, x);
    DistinctRaidIds(s.raids, m, j);
  }

  lemma DistinctRaidIds(raids: seq<Raid>, a: nat, b: nat)
    requires UniqueBy(raids, RaidId)
    requires a < |raids| && b < |raids| && a != b
    ensures raids[a].id != raids[b].id
  {
    if a < b {
      assert RaidId(raids[a]) != RaidId(raids[b]);
    } else {
      assert RaidId(raids[b]) != RaidId(raids[a]);
    }
  }

  lemma WrittenRaidId(raid: Raid, logs: seq<DeliveryLog>, participants: seq<Participant>, accepted: DamageRow -> bool, x: DamageRow)
    requires x in Written(raid, logs, participants, accepted)
    ensures x.raidId == raid.id
  {
    var written := Written(raid, logs, participants, accepted);
    var i :| 0 <= i < |written| && written[i] == x;
    assert x in Attempted(raid, logs, participants);
  }

  lemma NotRewardedForInactive(s: Store, w: WriteOutcomes, j: nat, x: Reward)
    requires UniqueBy(s.raids, RaidId)
    requires j < |s.raids| && s.raids[j].status != Active
    requires x in AllRewards(s, s.raids, w)
    ensures x.raidId != s.raids[j].id
  {
    var m := InAllRewards(s, s.raids, w, x);
    DistinctRaidIds(s.raids, m, j);
  }

  /**
   * Rewards are issued only for a raid that was active and whose HP update was
   * accepted and brought it to zero; that raid is left completed with no HP.
   */
  lemma RewardsOnlyOnDefeat(s: Store, w: WriteOutcomes, k: nat)
    requires UniqueBy(s.raids, RaidId)
    requires |s.rewards| <= k < |DamagePass(s, w).rewards|
    ensures exists j :: (0 <= j < |s.raids| && s.raids[j].status == Active && s.raids[j].id == DamagePass(s, w).rewards[k].raidId
      && HpWritten(s.raids[j], s.logs, s.participants, w)
      && DamagePass(s, w).raids[j].status == Completed && DamagePass(s, w).raids[j].currentHp == 0)
  {
    DamagePassEffect(s, w);
    var t := DamagePass(s, w);
    var x := t.rewards[k];
    assert x == AllRewards(s, s.raids, w)[k - |s.rewards|];
    var m := InAllRewards(s, s.raids, w, x);
    assert t.raids[m] == RaidAfter(s.raids[m], s.logs, s.participants, w);
  }

  /** The pass never re-keys a raid, so distinct raid ids stay distinct. */
  lemma DamagePassKeepsRaidIds(s: Store, w: WriteOutcomes)
    requires UniqueBy(s.raids, RaidId)
    ensures UniqueBy(DamagePass(s, w).raids, RaidId)
  {
    var t := DamagePass(s, w);
    forall i, j | 0 <= i < j < |t.raids|
      ensures RaidId(t.raids[i]) != RaidId(t.raids[j])
    {
      assert RaidId(s.raids[i]) != RaidId(s.raids[j]);
    }
  }

  /** A row the second pass writes was already written by the first. */
  lemma RerunRowWrittenBefore(s: Store, w: WriteOutcomes, x: DamageRow)
    requires UniqueBy(s.raids, RaidId)
    requires x in AllWritten(DamagePass(s, w), DamagePass(s, w).raids, w)
    ensures x in AllWritten(s, s.raids, w)
  {
    var s1 := DamagePass(s, w);
    DamagePassEffect(s, w);
    var m := WriterOf(s1, s1.raids, w, x);
    WrittenSameRaid(s1.raids[m], s.raids[m], s.logs, s.participants, w.damage);
    InAllWritten(s, s.raids, w, x);
  }

  /** The raid whose step wrote `x`. */
  lemma WriterOf(s: Store, snapshot: seq<Raid>, w: WriteOutcomes, x: DamageRow) returns (m: nat)
    requires x in AllWritten(s, snapshot, w)
    ensures m < |snapshot| && snapshot[m].status == Active && x in Written(snapshot[m], s.logs, s.participants, w.damage)
    ensures x.raidId == snapshot[m].id
  {
    InAllWritten(s, snapshot, w, x);
    m :| 0 <= m < |snapshot| && snapshot[m].status == Active && x in Written(snapshot[m], s.logs, s.participants, w.damage);
    WrittenRaidId(snapshot[m], s.logs, s.participants, w.damage, x);
  }

  lemma WrittenDetermined(raid: Raid, logs: seq<DeliveryLog>, participants: seq<Participant>, accepted: DamageRow -> bool, x: DamageRow, y: DamageRow)
    requires UniqueBy(logs, LogKey)
    requires x in Written(raid, logs, participants, accepted) && y in Written(raid, logs, participants, accepted)
    requires DamageKey(x) == DamageKey(y)
    ensures x == y
  {
    var written := Written(raid, logs, participants, accepted);
    WrittenKeyFunctional(raid, logs, participants, accepted);
    var i :| 0 <= i < |written| && written[i] == x;
    var k :| 0 <= k < |written| && written[k] == y;
  }

  /** Within one pass, two written rows with the same (raid, rider, date) key are the same row. */
  lemma AllWrittenDetermined(s: Store, w: WriteOutcomes, x: DamageRow, y: DamageRow)
    requires UniqueBy(s.raids, RaidId) && UniqueBy(s.logs, LogKey)
    requires x in AllWritten(s, s.raids, w) && y in AllWritten(s, s.raids, w)
    requires DamageKey(x) == DamageKey(y)
    ensures x == y
  {
    var m1 := WriterOf(s, s.raids, w, x);
    var m2 := WriterOf(s, s.raids, w, y);
    assert m1 == m2;
    WrittenDetermined(s.raids[m1], s.logs, s.participants, w.damage, x, y);
  }

  /** After the first pass, the ledger holds every row the pass wrote, under its own key. */
  lemma LedgerHoldsWritten(s: Store, w: WriteOutcomes, x: DamageRow)
    requires UniqueBy(s.raids, RaidId) && UniqueBy(s.logs, LogKey)
    requires x in AllWritten(s, s.raids, w)
    ensures Lookup(DamagePass(s, w).damages, DamageKey, DamageKey(x)) == Some(x)
  {
    var all := AllWritten(s, s.raids, w);
    DamagePassEffect(s, w);
    LookupUpsertAll(s.damages, all, DamageKey, DamageKey(x));
    var y := LastWithKey(all, DamageKey, DamageKey(x)).value;
    AllWrittenDetermined(s, w, x, y);
  }

  /**
   * Re-running the damage pass on unchanged logs leaves the (raid, rider, date)
   * ledger exactly as the first run left it.
   */
  lemma DamagePassRerunLedger(s: Store, w: WriteOutcomes)
    requires UniqueBy(s.raids, RaidId) && UniqueBy(s.logs, LogKey)
    ensures DamagePass(DamagePass(s, w), w).damages == DamagePass(s, w).damages
  {
    var s1 := DamagePass(s, w);
    DamagePassKeepsRaidIds(s, w);
    DamagePassEffect(s1, w);
    var again := AllWritten(s1, s1.raids, w);
    forall j | 0 <= j < |again|
      ensures Lookup(s1.damages, DamageKey, DamageKey(again[j])) == Some(again[j])
    {
      RerunRowWrittenBefore(s, w, again[j]);
      LedgerHoldsWritten(s, w, again[j]);
    }
    UpsertAllPresent(s1.damages, again, DamageKey);
  }

  /**
   * ... but it deducts the raid's full in-window damage from HP a second time:
   * a raid the first run left active, with both HP updates accepted, ends with
   * twice the damage taken off (floored at zero).
   */
  lemma DamagePassRerunHp(s: Store, w: WriteOutcomes, j: nat)
    requires UniqueBy(s.raids, RaidId)
    requires j < |s.raids| && s.raids[j].status == Active
    requires DamagePass(s, w).raids[j].status == Active
    requires HpWritten(s.raids[j], s.logs, s.participants, w)
    requires HpWritten(DamagePass(s, w).raids[j], s.logs, s.participants, w)
    ensures DamagePass(DamagePass(s, w), w).raids[j].currentHp
         == Max(0, s.raids[j].currentHp - 2 * Dealt(Written(s.raids[j], s.logs, s.participants, w.damage)))
  {
    var s1 := DamagePass(s, w);
    DamagePassEffect(s, w);
    DamagePassKeepsRaidIds(s, w);
    DamagePassEffect(s1, w);
    RaidStepRerunHp(s.raids[j], s.logs, s.participants, w);
  }
}
