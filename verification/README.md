# Boss-raid sync: a Dafny model

This project models the scripts and service code behind a delivery-rider "boss raid" event. Riders deliver food during a raid. Each delivery in the raid's district and date window hits the raid's boss for damage. When the boss's HP reaches zero, the top riders get rewards and the other participants get a badge.

The main core is the sync script `scripts/raid-sync.js`. One run of it:

1. checks its environment;
2. reads the delivery-log sheet and upserts the accepted logs;
3. runs the **damage pass**: for every raid that is active when the pass starts, it scores the participants' in-window logs into the `raid_damages` ledger, deducts the accepted damage from the boss's HP and, on a kill, issues rewards;
4. runs the **ranking pass**: for every active or completed raid, it sums the ledger per rider, sorts by total (descending, stably) and upserts ranks 1..n.

Each table is a sequence of rows in table order (`Store`). An upsert keyed on the table's `onConflict` columns overwrites the row in place or appends it (`Tables`). Every write the script attempts succeeds or fails according to an outcome function supplied as a parameter (`WriteOutcomes`). The sync then becomes a pure function of the store, the sheet rows, the parsers and the write outcomes (`SyncRun.Run`).

Three behaviours of the script are modelled as written and stated as lemmas:

- **HP is deducted again on every run.** The damage pass subtracts the whole in-window sum each time, not a delta. Re-running it leaves the ledger unchanged but takes the HP off again (`DamageRecording.DamagePassRerunLedger`, `DamageRecording.DamagePassRerunHp`).
- **Badges exclude the whole ranking.** The participation badge goes only to riders absent from the entire ranking, so riders ranked 4th or lower get nothing (`Rewards.RankFourOrLowerGetsNothing`).
- **Rewards read the previous run's rankings.** They are issued during the damage pass, before this run's ranking pass. A prize therefore goes to a rider who was ranked before the run started. A raid killed on its first run pays out badges only (`SyncRun.RewardsUseEarlierRankings`, `SyncRun.FirstDefeatOnlyBadges`).

Ranking ties keep the order in which riders first appear in the ledger. The sort is stable, and the per-rider object lists its non-index keys in insertion order (`Ranking.RankingTieOrder`).

The secondary cores are modelled too:

- the pure parts of `src/services/raidService.js`: the damage formula, HP percentage, ID masking, the join rule, the per-date damage history and the label tables;
- the sheet-to-store logic of `scripts/counseling-sync.js`: date trimming, the row filter, the case index, the insert/update/skip decision, the counters and orphan detection;
- the threshold and string functions of `src/utils/bossImageOptimizer.js`.

Modules, in dependency order:

- **Generic building blocks:**
  - `Wrappers`: `Option`, `Max`/`Min`.
  - `JsText`: JavaScript values, truthiness, `trim`, and `toLowerCase`/`toUpperCase` restricted to ASCII letters.
  - `Seqs`: `filter`, `map`, `reduce`.
  - `Tables`: keyed upsert.
  - `Sorting`: stable insertion sort.
  - `Aggregation`: grouping into an object and reading it back with `Object.entries`.
- **The raid sync:**
  - `Ingest`: rider IDs, booleans, the sheet row loop, the log sync.
  - `Store`: the tables.
  - `Damage`: the formula.
  - `DamageRecording`: the damage pass.
  - `Ranking`: the ranking pass.
  - `Rewards`: `processRaidCompletion`.
  - `SyncRun`: `main`.
- **The other cores:**
  - `RaidService`;
  - `Counseling`;
  - `BossImage`.

## Model

| member | source | states |
|---|---|---|
| Ingest.RiderIdPatternShape | scripts/raid-sync.js:60-61 | `/^BC\d{6}$/` accepts a string iff it is "BC" followed by exactly six ASCII digits |
| Ingest.ValidateRiderId | scripts/raid-sync.js:56-62 | true exactly for a string of the form BC+6 digits; a missing, empty or non-string value is false |
| Ingest.RiderIdRoundTrip | scripts/raid-sync.js:56-62 | every number below 10^6, zero-padded after "BC", is a valid ID whose digits read back to the number; every valid ID is that rendering of its own digits |
| Ingest.RiderIdExamples | scripts/raid-sync.js:56-62 | BC123456 is valid; a digit short, a digit over, lower-case "bc", the empty string, undefined and a number are not |
| Ingest.ParseBoolean | scripts/raid-sync.js:79-86 | booleans pass through; a string is true iff its lower-cased, trimmed form is true/yes/1/o; any other value is false |
| Ingest.ParseBooleanIgnoresPadding | scripts/raid-sync.js:82-83 | whitespace around a cell never changes its boolean reading |
| Ingest.ParseBooleanIgnoresCase | scripts/raid-sync.js:82-83 | a cell upper-cased in its ASCII letters reads the same as the original |
| Ingest.ParseBooleanLetterO | scripts/raid-sync.js:83 | "o" and "O" read as true |
| Ingest.FormatDate | scripts/raid-sync.js:67-74 | an absent or empty cell gives no date; otherwise the date is whatever the date parser returns |
| Ingest.ParseCount | scripts/raid-sync.js:120 | a missing cell gives no count; otherwise the integer parser decides |
| Ingest.DistrictOf | scripts/raid-sync.js:132 | a missing district becomes the empty string |
| Ingest.ClassifyRow | scripts/raid-sync.js:101-135 | a row is blank iff neither its rider ID nor its date is truthy; an accepted row always yields a valid log |
| Ingest.ClassifyRowAccepts | scripts/raid-sync.js:103-133 | a row is accepted iff the rider ID validates, the date parses and the count parses to a value of at least 0; the log then carries those values, the two parsed flags and the district defaulted to '' |
| Ingest.ReadDeliveryLogs | scripts/raid-sync.js:101-136 | at most one log per row, and every log has a valid rider ID and a non-negative count |
| Ingest.ReadDeliveryLogsSubsequence | scripts/raid-sync.js:101-136 | the logs are exactly the accepted rows' logs, at strictly increasing row positions, and every row not listed is rejected |
| Ingest.BlankRowSkipped | scripts/raid-sync.js:103 | appending a row with neither rider ID nor date changes nothing, whatever its other cells hold |
| Ingest.SyncDeliveryLogs | scripts/raid-sync.js:150-175 | success and error counts add up to the number of logs; the success count is the number of accepted upserts; the table grows by at most that many rows |
| Ingest.SyncIsBatchUpsert | scripts/raid-sync.js:157-171 | the synced table is the old table with every accepted log upserted on (rider, date), in order |
| Ingest.SyncContents | scripts/raid-sync.js:157-171 | after the sync each (rider, date) holds the last accepted log for it and other keys are untouched; one row per key is preserved |
| JsText.TrimPadded | scripts/counseling-sync.js:81 | trimming removes exactly the surrounding whitespace of a string that starts and ends with non-whitespace |
| JsText.TrimEmpty | scripts/counseling-sync.js:81-82 | a string trims to empty iff it is all whitespace |
| JsText.ToLowerIgnoresCase | scripts/raid-sync.js:82 | with the ASCII case mapping, lower-casing an upper-cased string gives the lower-cased original |
| Damage.Calculate | src/services/raidService.js:25-43 | base damage is 10 per delivery; the returned multiplier is 2 (rain or surge) or 1, times the buff; the total is the product rounded down, and is non-negative for non-negative inputs |
| Damage.CalculateMonotone | src/services/raidService.js:26-36 | with a non-negative buff, more deliveries never deal less damage |
| Damage.RainOrSurgeAlike | src/services/raidService.js:28-32 | rain alone, surge alone and both together give identical results |
| Damage.DefaultsGiveTenPerDelivery | src/services/raidService.js:25-36 | with no rain, no surge and buff 1.0 the total is 10 per delivery |
| Damage.RainyBuffedExample | src/services/raidService.js:25-43 | 5 rainy deliveries under a 1.5 buff give 50 base, factor 3.0 and total 150 |
| Damage.RoundsDownExample | src/services/raidService.js:36 | 3 deliveries under a 1.25 buff give 37, not 37.5 |
| Store.ParticipantIds | scripts/raid-sync.js:203-210 | exactly the riders with a participant row for the raid |
| Store.ParticipantIdsDistinct | scripts/raid-sync.js:203-210 | with one participant row per (raid, rider), no rider is listed twice |
| Store.DecimalStringValue | scripts/raid-sync.js:423 | the rank written into a rank badge's text reads back as the rank |
| DamageRecording.DamageRowFor | scripts/raid-sync.js:232-260 | the row is keyed (raid, rider, date) and carries 10 per delivery, the weather factor times the buff, and the floored product |
| DamageRecording.AttemptedRows | scripts/raid-sync.js:213-246 | exactly the logs of a participant, in the raid's district, dated inside [start, end], are scored, each into its own row |
| DamageRecording.NoParticipantsNoWrites | scripts/raid-sync.js:210-213 | a raid without participants causes no write of any kind |
| DamageRecording.AfterHit | scripts/raid-sync.js:270-272 | the new HP is max(0, HP − damage), never above the old HP; the raid completes exactly when the new HP is 0 and otherwise keeps its status |
| DamageRecording.RaidAfter | scripts/raid-sync.js:262-287 | the raid row is unchanged unless the HP update is attempted and accepted, in which case it is the hit computed from the accepted rows only |
| DamageRecording.HpRules | scripts/raid-sync.js:262-281 | no HP write without positive accepted damage; 0 ≤ new HP ≤ old HP; status becomes completed iff the write succeeds and the damage covers the HP; rewards are triggered exactly then |
| DamageRecording.RewardsAfter | scripts/raid-sync.js:283-292 | a raid that was not defeated in this step issues no reward, and every reward is for that raid |
| DamageRecording.SetRaidRow | scripts/raid-sync.js:274-281 | the update by id changes the HP and status of the matching rows and nothing else |
| DamageRecording.RaidStep | scripts/raid-sync.js:199-294 | one raid's iteration upserts its accepted rows into the ledger, rewrites only that raid's row, appends only its rewards and leaves logs, participants and rankings alone |
| DamageRecording.WrittenSameRaid | scripts/raid-sync.js:215-246 | which rows are written depends on the raid's id, district, window and buff, not on its HP or status |
| DamageRecording.RaidStepRerunLedger | scripts/raid-sync.js:248-260 | running a raid's step a second time leaves the ledger as the first run left it |
| DamageRecording.RaidStepRerunHp | scripts/raid-sync.js:230-271 | after two accepted updates the boss has lost twice the same in-window damage, floored at zero |
| DamageRecording.DamagePass | scripts/raid-sync.js:185-303 | the pass writes only the ledger, raid rows and rewards, and never adds, removes or re-keys a raid |
| DamageRecording.DamagePassEffect | scripts/raid-sync.js:189-295 | each raid active at the start is left as its own step leaves it and every other raid row is untouched; the ledger receives every accepted row; every defeated raid's rewards are appended |
| DamageRecording.CompletedNeverRescanned | scripts/raid-sync.js:190-193 | a raid not active at the start keeps its row, gets no damage row and issues no reward |
| DamageRecording.RewardsOnlyOnDefeat | scripts/raid-sync.js:283-292 | every new reward belongs to a raid that was active, whose HP write succeeded, and which is now completed with 0 HP |
| DamageRecording.DamagePassKeepsRaidIds | scripts/raid-sync.js:274-281 | distinct raid ids stay distinct |
| DamageRecording.AllWrittenDetermined | scripts/raid-sync.js:248-260 | within one pass, two written rows with the same (raid, rider, date) key are the same row |
| DamageRecording.LedgerHoldsWritten | scripts/raid-sync.js:248-260 | after the pass the ledger holds every row it wrote, under that row's own key |
| DamageRecording.DamagePassRerunLedger | scripts/raid-sync.js:232-260 | re-running the damage pass on unchanged logs leaves the (raid, rider, date) ledger exactly as it was |
| DamageRecording.DamagePassRerunHp | scripts/raid-sync.js:230-271 | re-running it still deducts the raid's full in-window damage again: twice the damage is taken off in total, floored at zero |
| Aggregation.AggregateBy | scripts/raid-sync.js:332-338 | one entry per distinct key, none missing and none invented, each holding the sum of that key's amounts, listed in order of first appearance |
| Aggregation.AggregateKeepsSum | scripts/raid-sync.js:332-338 | grouping keeps the grand total |
| Sorting.SortBy | scripts/raid-sync.js:346 | the result is ascending by the key and is a permutation of the input |
| Sorting.SortByStable | scripts/raid-sync.js:346 | for every key value, the elements carrying it come out in the order they went in |
| Sorting.SortByKeepsSum | scripts/raid-sync.js:341-346 | sorting keeps any per-element total |
| Sorting.SortByTieOrdered | scripts/raid-sync.js:341-346 | elements with equal keys keep the input order, measured by any ranking that is increasing along the input |
| Ranking.Numbered | scripts/raid-sync.js:347-353 | row i gets rank i + 1 and the raid id, rider and total of sorted entry i |
| Ranking.SortedTotals | scripts/raid-sync.js:341-346 | the per-rider totals come out highest first, each rider once |
| Ranking.SortedTotalsSame | scripts/raid-sync.js:341-346 | the sorted list holds exactly the grouped per-rider totals |
| Ranking.BuildRanking | scripts/raid-sync.js:332-353 | ranks are exactly 1..n in order, totals never increase with rank, and no rider appears twice |
| Ranking.RankedIffInLedger | scripts/raid-sync.js:332-353 | a rider is ranked exactly when the rider has a damage row for the raid |
| Ranking.RankedTotalsAreSums | scripts/raid-sync.js:332-338 | each ranked total is the sum of that rider's damage rows for the raid |
| Ranking.RankingKeepsSum | scripts/raid-sync.js:332-353 | the ranked totals add up to the raid's whole ledger |
| Ranking.RankingTieOrder | scripts/raid-sync.js:341-346 | riders with equal totals are ranked in order of their first damage row |
| Ranking.RankingPassFrom | scripts/raid-sync.js:308-376 | the ranking pass writes only the rankings table, which never shrinks |
| Ranking.RankingPassUpserts | scripts/raid-sync.js:320-368 | the rankings table is the old one with each active or completed raid's accepted rows upserted on (raid, rider) |
| Ranking.AllRankingsKeyFunctional | scripts/raid-sync.js:358-363 | two ranking rows with the same (raid, rider) key written in one pass are the same row |
| Ranking.RankingPassRerun | scripts/raid-sync.js:308-376 | re-running the ranking pass on an unchanged ledger changes nothing |
| Rewards.TopRewards | scripts/raid-sync.js:402-425 | position 1 gets the real prize with rank 1; positions 2..min(3, n) get a virtual badge with their own rank; nobody else |
| Rewards.Badges | scripts/raid-sync.js:427-444 | exactly the participants absent from the ranking get a participation badge without a rank |
| Rewards.Allocate | scripts/raid-sync.js:402-444 | the prize tiers do not overlap: only the first reward is real, virtual ones sit at positions 2 and 3, badges go only to unranked participants, and every unranked participant gets one |
| Rewards.AllocateOneRewardPerRider | scripts/raid-sync.js:402-444 | no rider gets two rewards from one completion, given distinct ranking riders and participants |
| Rewards.RankFourOrLowerGetsNothing | scripts/raid-sync.js:433-443 | a rider ranked 4th or lower receives no reward at all |
| Rewards.EmptyRankingOnlyBadges | scripts/raid-sync.js:403-443 | with an empty ranking, every participant gets a badge and nothing else is issued |
| Rewards.RankedFor | scripts/raid-sync.js:394-398 | exactly the raid's ranking rows, ordered by rank |
| Rewards.RankedForDistinct | scripts/raid-sync.js:394-398 | one row per (raid, rider) means the raid's ranking names each rider once |
| Rewards.CompletionRewards | scripts/raid-sync.js:389-451 | every reward of a completion is for that raid |
| Rewards.CompletionOneRewardPerRider | scripts/raid-sync.js:389-451 | with the table keys unique, one completion never rewards a rider twice |
| Rewards.NoRankingsOnlyBadges | scripts/raid-sync.js:394-444 | a raid with no ranking rows yet hands out only participation badges |
| Rewards.CompletionTopFromRankings | scripts/raid-sync.js:394-425 | a prize or rank badge goes to a rider holding a ranking row for that raid |
| SyncRun.SheetId | scripts/raid-sync.js:22 | the sheet id is set iff either the raid sheet variable or the general sheet variable is set |
| SyncRun.Run | scripts/raid-sync.js:456-487 | missing configuration stops the run before any step; otherwise the log counters cover every read log, participants are untouched, and raids keep their identity |
| SyncRun.RunRewards | scripts/raid-sync.js:467-478 | the run's new rewards are exactly those of the damage pass, which runs before the ranking pass |
| SyncRun.RewardsUseEarlierRankings | scripts/raid-sync.js:291 | every prize or rank badge a run issues goes to a rider who held a ranking row for that raid before the run began |
| SyncRun.FirstDefeatOnlyBadges | scripts/raid-sync.js:475-478 | a raid defeated before it was ever ranked pays out participation badges only |
| SyncRun.RunKeepsConsistent | scripts/raid-sync.js:456-487 | a run keeps every table's natural key unique |
| RaidService.HpPercentage | src/services/raidService.js:398-401 | 0 for a zero maximum; always within [0, 100]; equal to the ratio in percent when that lies in range |
| RaidService.HpPercentageMonotone | src/services/raidService.js:398-401 | with a positive maximum, more HP never shows a smaller percentage; full HP shows 100 and none shows 0 |
| RaidService.MaskRiderId | src/services/raidService.js:436-439 | a missing or short (under 6) ID is returned as is; otherwise same length, first four characters kept, the rest '*' |
| RaidService.MaskRiderIdIdempotent | src/services/raidService.js:436-439 | masking a masked ID changes nothing |
| RaidService.MaskRiderIdHidesTail | src/services/raidService.js:436-439 | IDs of the same length that agree on the first four characters mask alike |
| RaidService.MaskRiderIdExample | src/services/raidService.js:433-438 | BC123456 masks to BC12****, and BC12 is left alone |
| RaidService.JoinRaid | src/services/raidService.js:136-172 | success iff the ID has the BC+6-digit shape, the pair is new and the insert succeeds; success adds exactly that pair; failure changes nothing and reports why |
| RaidService.JoinKeepsUnique | src/services/raidService.js:144-164 | joining keeps one participant row per (raid, rider) |
| RaidService.JoinTwiceRefused | src/services/raidService.js:144-154 | after a successful join, joining again is refused as already joined |
| RaidService.DatedPairs | src/services/raidService.js:256-260 | the pairs are exactly the raid's (date, damage) rows, as a multiset, in ascending date order |
| RaidService.DamageHistory | src/services/raidService.js:264-277 | one entry per distinct date, each holding the sum of that date's damage, in order of first appearance |
| RaidService.DamageHistoryAscending | src/services/raidService.js:254-277 | the history's dates are strictly ascending |
| RaidService.DamageHistoryKeepsSum | src/services/raidService.js:264-277 | the history adds up to the raid's whole ledger |
| RaidService.StatusText | src/services/raidService.js:408-415 | active, completed and failed read 진행중, 완료 and 화속성; any other status is returned unchanged, and only those are |
| RaidService.RewardTypeText | src/services/raidService.js:422-429 | real, virtual and badge read 실제 보상, 가상 보상 and 배지; any other type is returned unchanged, and only those are |
| RaidService.LabelsDistinct | src/services/raidService.js:408-429 | different stored codes get different labels, none equal to the code |
| Counseling.ParseDate | scripts/counseling-sync.js:76-98 | null for a non-string or all-whitespace value; a trimmed YYYY-MM-DD is returned verbatim |
| Counseling.ParseDateIsoPadded | scripts/counseling-sync.js:81-87 | an ISO date in surrounding whitespace parses to the bare date, whatever the general date parser would do |
| Counseling.OrNull | scripts/counseling-sync.js:131-146 | an empty or missing cell becomes null, any other cell is kept |
| Counseling.ToCase | scripts/counseling-sync.js:130-147 | no field of the case is the empty string; the row number, rider ID and content are the cells with empties nulled; the visit date is parsed |
| Counseling.SheetCases | scripts/counseling-sync.js:126-153 | every emitted case names a rider or has content, and has no empty text |
| Counseling.SheetCasesExactly | scripts/counseling-sync.js:126-153 | every non-blank row that names a rider or has content yields its case |
| Counseling.SheetCasesOnlyKept | scripts/counseling-sync.js:126-153 | conversely, every case is the case of a row that is not blank and names a rider or has content |
| Counseling.SheetCasesSnoc | scripts/counseling-sync.js:126-153 | one more row appends its case exactly when the row is not blank and names a rider or has content, and otherwise changes nothing |
| Counseling.SheetCasesBlankSkipped | scripts/counseling-sync.js:128 | a row with neither a row number nor a rider ID is skipped, whatever its other cells hold |
| Counseling.Index | scripts/counseling-sync.js:289-294 | only cases with a truthy row number are indexed, each under its row number as a string; every such case's key is present |
| Counseling.IndexIsLast | scripts/counseling-sync.js:289-294 | each key maps to the last case in the list carrying it |
| Counseling.OldestCaseWins | scripts/counseling-sync.js:172-175 | with the cases read newest first, a duplicated row number indexes the oldest case |
| Counseling.Decide | scripts/counseling-sync.js:303-325 | skip iff the case has no row number; update iff the row number is indexed, targeting the indexed case; insert otherwise |
| Counseling.Plan | scripts/counseling-sync.js:303-334 | one action per sheet case, in order, each the skip/update/insert decision for that case against the index of the existing cases |
| Counseling.Count | scripts/counseling-sync.js:298-334 | new + updated + skipped equals the number of sheet cases |
| Counseling.CountMeans | scripts/counseling-sync.js:298-334 | the new and update counters count exactly the successful inserts and updates; failures count as skips |
| Counseling.SkipsWithoutFailures | scripts/counseling-sync.js:305-311 | when every write succeeds, the skip count is the number of cases without a row number |
| Counseling.SheetRowIds | scripts/counseling-sync.js:337 | exactly the non-empty row numbers of the sheet cases |
| Counseling.Orphans | scripts/counseling-sync.js:338-340 | exactly the indexed existing cases whose row number no sheet case carries |
| Counseling.OrphansNeverUpdated | scripts/counseling-sync.js:313-340 | no update ever targets an orphan |
| Counseling.MatchedCaseUpdated | scripts/counseling-sync.js:313-317 | a sheet case whose row number is indexed updates that indexed case with its own data |
| BossImage.LookFor | src/utils/bossImageOptimizer.js:11-23 | healthy iff HP > 75, scratched iff 50 < HP ≤ 75, wounded iff 25 < HP ≤ 50, critical iff 0 < HP ≤ 25, defeated iff HP ≤ 0 |
| BossImage.ImageFilter | src/utils/bossImageOptimizer.js:11-23 | each of the five filter strings is returned exactly in its HP band (> 75, 50-75, 25-50, 0-25, ≤ 0) |
| BossImage.LookMonotone | src/utils/bossImageOptimizer.js:11-23 | less HP never looks healthier |
| BossImage.FilterCssDistinct | src/utils/bossImageOptimizer.js:12-22 | the five bands have five different filters |
| BossImage.ColourFor | src/utils/bossImageOptimizer.js:56-60 | green iff HP > 60, orange iff 30 < HP ≤ 60, red iff HP ≤ 30 |
| BossImage.ColourMonotone | src/utils/bossImageOptimizer.js:56-60 | less HP never shows a safer colour |
| BossImage.BaseSize | src/utils/bossImageOptimizer.js:33-39 | mobile 35/25, tablet 45/30, desktop 50/35 (active/inactive); no other screen has a base size |
| BossImage.ScaledSize | src/utils/bossImageOptimizer.js:41-48 | never above the base; the base from 50 HP up; 0.95·base rounded down from 25; 0.9·base rounded down below 25 |
| BossImage.IconSize | src/utils/bossImageOptimizer.js:32-49 | a size exists iff the screen is in the table; it is that screen's base size scaled for the HP, and never exceeds the base |
| BossImage.ScaledSizeMonotone | src/utils/bossImageOptimizer.js:41-48 | more HP never gives a smaller icon |
| BossImage.IconSizeExamples | src/utils/bossImageOptimizer.js:32-49 | desktop active at 10 HP is 45, mobile active at 30 HP is 33, tablet inactive at 80 HP is 30, and an unknown screen has no size |
| BossImage.OptimizedImageUrl | src/utils/bossImageOptimizer.js:84-96 | null iff the URL is missing or empty; otherwise the URL is a prefix, followed by '&' if it contains '?' (else '?') and then the size parameters |
| BossImage.OptimizedUrlHasQuery | src/utils/bossImageOptimizer.js:94-95 | the result always carries '?', so optimising it again appends with '&' |
| BossImage.AnimationClass | src/utils/bossImageOptimizer.js:104-110 | completed gives boss-defeated whatever the HP; then paused; then HP below 25 critical, below 50 wounded, otherwise healthy |
| BossImage.AnimationIgnoresHpWhenCompleted | src/utils/bossImageOptimizer.js:105 | a completed raid's class does not depend on its HP |
| BossImage.AnimationSameBand | src/utils/bossImageOptimizer.js:104-110 | two HP values in the same band give the same class for any status |
| BossImage.HpBarAnimation | src/utils/bossImageOptimizer.js:117-132 | the transition and the glow in the HP colour are always present; the blink is added iff HP < 10 |
| BossImage.BlinkingBarIsRed | src/utils/bossImageOptimizer.js:117-132 | a blinking bar always glows red |
| BossImage.FallbackEmoji | src/utils/bossImageOptimizer.js:151-160 | fire 🔥, water 💧, earth 🌍, wind 💨; any other type gets crossed swords |
| BossImage.FallbackEmojiDistinct | src/utils/bossImageOptimizer.js:152-159 | the four elements get four different emojis, none of them the default |
| Tables.LookupUpsertAll | scripts/raid-sync.js:159-163 | after a batch of upserts each key holds the last row written under it, or its old row when none was written |
| Tables.UpsertAllIdempotent | scripts/raid-sync.js:249-260 | upserting the same key-consistent batch twice is the same as once |
| Tables.UpsertAllKeepsUnique | scripts/raid-sync.js:359-363 | upserts keep one row per key |

## Left out

- The Google Sheets and Supabase clients, authentication, node-fetch, dotenv and the TLS setting are left out. Tables are sequences, reads always succeed, and each write's success is a parameter.
- A failed read in the damage or ranking pass aborts the whole run, and the process exits with status 1. The model has no abort outcome; it assumes reads succeed.
- `formatDate` and the non-ISO branch of `parseDate` go through JavaScript `Date` parsing and time zones. Both are oracle parameters (`Parsers.date` and the `other` argument of `Counseling.ParseDate`).
- Days are abstract integers. Comparing them in the window test stands for comparing ISO date strings.
- `parseInt` is an oracle parameter (`Parsers.integer`), because its leniency (leading digits, signs, whitespace) is not modelled.
- `buff_multiplier`, multipliers and HP percentages are exact reals. IEEE-754 rounding is not modelled, and neither are NaN or an infinite ratio.
- Damage.Calculate: `deliveryCount` is an integer. A fractional count, which JavaScript would multiply as a float, is not modelled.
- `rider_name` in `joinRaid` is not stored by the model.
- The `maybeSingle` error on a duplicated pair is read as "already joined". A thrown error is modelled only as a failed insert.
- MaskRiderId: lengths are in characters, not UTF-16 code units, and a non-string argument is not modelled.
- The status, reward-type and emoji tables are plain JavaScript objects. They also answer prototype keys such as "constructor"; the model treats every key outside the table as unknown.
- IconSize: an unknown screen size throws a TypeError in the source. The model returns `None`.
- The counseling sync: the payload columns written, timestamps, `Promise.all`, the 100 ms `setTimeout` throttle and the console report are left out. Only the decision per case, the counters and the orphan list are modelled.
- The counseling row number `No` is modelled as text. Its string form is used for both the index key and the case.
- `getBossTypeGradient`, `getBossTooltipText`, `calculateDaysRemaining`, `getRaidStats`, the dummy fallback data in `getActiveRaids`, and all React pages and components are outside the core and not modelled.
- Log messages, emoji output and `last_updated` / `updated_at` timestamps are not modelled.
- Case mapping is ASCII only: `ToLower`/`ToUpper` change just the letters A-Z and a-z. JavaScript's full Unicode mapping is not modelled (for example "ß" upper-cases to "SS", and "ſ" upper-cases to "S").
- ToLowerIgnoresCase: holds for the ASCII case mapping only; under JavaScript's Unicode mapping "ß".toUpperCase().toLowerCase() is "ss", not "ß".
- ParseBooleanIgnoresCase: holds for ASCII upper-casing only; under JavaScript's Unicode mapping "yeſ" reads false while its upper-casing "YES" reads true. `ParseBoolean` itself is unaffected, since no non-ASCII character lower-cases into true/yes/1/o.
- Reads without an `order` clause, such as the ledger read of the ranking pass, are modelled as returning rows in table order, and an upsert keeps an existing row's position. A database guarantees neither.
- Ranking.RankingTieOrder: the first-appearance tie order rests on that table-order read, so the real order of tied riders is whatever order the database returns.
- The per-rider object of the ranking pass is read back in first-appearance order. JavaScript lists integer-like keys first, in numeric order; valid rider IDs start with "BC" and are never such keys, but the model does not restrict the IDs stored in the damages table.
- The default arguments of `getBossIconSize` (`isActive = true`, `screenSize = 'desktop'`) and `getOptimizedBossImageUrl` (`size = 'medium'`) are not modelled; every argument is explicit.
- WriteOutcomes: a write's success depends only on the row written, so two identical writes in one run (for example two identical badge inserts for a participant listed twice) both succeed or both fail.
