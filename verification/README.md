# Quiz arena: a verified model

A Dafny model of the parts of the quiz backend where data has to stay consistent: payment reconciliation, the update-slot
leases of concurrent workers, the data migrations, batched retention, question selection, the question-bank tools, promo codes
with their reservations, and the text keys that carry offer attribution. `dafny verify dfyconfig.toml` checks all of it.

## How it is modelled

* Each SQL statement is one atomic step on a table. A table is a map or sequence of rows; where the repository changes rows in
  place, a class holds the table and its methods are proved against functions of the old table. Protocols are runs: arbitrary
  finite sequences of such steps, by any number of workers.
* Each method that changes a table states the new rows outright, in their columns, beside the function of the old table it is proved
  against; lemmas state in the columns of rows and cells, with the repository's own constants, what each definition amounts to.
* Times are integers (microseconds for the update slots, seconds for promo reservations) and every step carries the time its
  transaction sees. Only `PromoCapacity` assumes that time does not run backwards.
* sha256, HMAC, AES-GCM, `fuzz.ratio` and UUID parsing are function parameters. Where a property needs something of them it
  says so: a hex digest has 64 characters and no colon, `ratio(x, x)` is 100.
* Text is over Unicode characters with a finite set of whitespace, of letters with case (ASCII and the German umlauts), of
  dashes and of quotes.
* Loops of the tools are methods with invariants, proved equal to a specification function; the theorems are about the function.
  Where a loop's theory does not depend on how a row is read, that reading is a parameter (`BankOutput`, `AmbiguityScan`,
  `ImportRun`).
* SQL CHECK constraints of the promo CRUD migration are evaluated in three-valued logic (`PromoSchema`), because that decides
  which rows they admit.

| part | modules |
|---|---|
| shared | `Options`, `FiniteSets`, `Ordering`, `Sorting`, `Grouping`, `Folding`, `Text`, `Decimal` |
| payments | `Reconciliation`, `PurchaseKeys` |
| workers | `UpdateSlots`, `Retention` |
| migrations | `LegacyPromoSync`, `PromoSchema`, `DuelV2`, `PushEvents` |
| questions | `QuestionSelection` |
| question bank | `CueStripping`, `BankBuilder`, `BankOutput`, `BankLaws`, `GeneratedKeys`, `FamilyCheck`, `AmbiguityText`, `AmbiguityScan`, `FuzzyPairs`, `AmbiguityReport`, `QuizAudit`, `QuizImport`, `ImportRun`, `ImportSound`, `QuestionStore` |
| promo codes | `PromoCodes`, `PromoRuns`, `PromoRedemptions`, `PromoCapacity` |

## What turned out not to hold

Each of these is stated as an exact condition, with a lemma at a concrete input beside it.

* An OK from reconciliation does not mean agreement: it hides a disagreement exactly when nothing is stale and the purchases paid
  but not credited are matched, in number and in stars per product, by purchases credited but not paid
  (`HiddenDisagreementIff`, `OffsettingTwinsReconcile`).
* `set_status` is not fenced by the task id, so a worker that lost its lease can fail the row and the next claim follows at once
  (`LateFailureBreaksSeparation`). Claims of an update stay a lease apart in all runs whose status writes come from a given set if
  and only if neither FAILED nor PROCESSING is in it and the row is not deleted (`SeparationIff`).
* A push event whose tournament id is a JSON null is accepted every time: NULLs are distinct in the unique index
  (`OnceIffKeyedByText`, `NullTournamentWinsTwice`).
* The new payload CHECK of promo codes is undecided, hence passed, for a percentage code without any discount
  (`NewPayloadPassesIff`, `UndecidedCheckAdmitsNoDiscount`), the old schema does not take every new row back
  (`DowngradableIff`, `FixedDiscountBlocksDowngrade`), and the purchases CHECK swap refuses fully discounted purchases
  (`PurchaseCheckSwapIff`, `FullyDiscountedPurchaseBlocksUpgrade`).
* Upgrading and downgrading the duel tables changes ACTIVE games both players had finished (`UpDownIdentityIff`,
  `FinishedGameChanges`).
* The fast question selector can answer differently from the reference exactly when the recent ids are at least as many as the
  pool, meet it, and do not cover it (`RefinesIff`, `ManyRecentDiffer`), and it fails on repeated ids (`NoneIff`, `RepeatedIdFails`).
* A question signature is not idempotent when a separator hides a cue (`SignatureIdempotentIff`, `ColonHidesFirstCue`), nor is the
  scan's key family when a blank stands before the tags that end the key (`FamilyStableIff`, `UnstableFamilyExample`).
* The bank builder can end in "family duplicates" although all selected families are distinct: exactly when two of them are bare
  version tags (`DuplicateFamiliesIff`, `VersionTagsFail`). Its duplicate-key check cannot fire (`KeysNeverRepeat`).
* An exact conflict of the ambiguity scan is missing from the signature conflicts when a question cell is a falsy number
  (`ConflictWithinSignatureIff`, `ZeroEscapes`).
* The import is stricter than the audit for answers that differ from their option in dashes only (`StricterThanAuditIff`,
  `DashRowPassesAuditOnly`).
* Expiring promo reservations can change the capacity count as seen from an earlier time (`ExpiryKeepsCount`,
  `EarlierCountDrops`).
* Entering a promo code looks at the uses but not at the reservations. One entry too many, and while it lasts no reservation of the
  code can be invoiced or credited (`RedeemFitsIff`, `OneEntryTooMany`, `TwoUsersOnePlace`), not even one that is already paid
  (`PaidButRefused`); without such an entry every reservation is honoured (`ReservationsHonoured`).

## Model

| member | source | states |
|---|---|---|
| `Reconciliation.OkIff` | app/services/payments_reliability.py:4-36 | for arbitrary paid and credited sets, status OK means equal counts, no stale purchase and equal star sums for every product; the totals never decide |
| `Reconciliation.ReconcilesIff` | app/workers/tasks/payments_reliability_async.py:175-233 | when every credited purchase is paid, the job says OK exactly when the credited set equals the paid set and no paid-uncredited purchase is stale |
| `Reconciliation.HiddenDisagreementIff` | app/services/payments_reliability.py:4-36 | for arbitrary tables, OK hides a disagreement exactly when nothing is stale, some purchase is paid but not credited, and those credited but not paid are as many and worth as many stars for every product |
| `Reconciliation.NoMismatchEqualTotals` | app/services/payments_reliability.py:21-32 | zero product mismatches forces equal star totals, for any two sets |
| `Reconciliation.NoMismatchIff` | app/services/payments_reliability.py:21-32 | the mismatch count over the union of both dictionaries is zero exactly when every product's sums agree |
| `Reconciliation.MismatchBounded` | app/services/payments_reliability.py:21-32 | mismatched products number at most the symmetric difference of paid and credited ids |
| `Reconciliation.DiffBounded` | app/services/payments_reliability.py:4-18 | the diff lies between 0 and stale + 2·D + 1, D the size of the symmetric difference |
| `Reconciliation.GroupsDetermineTotal` | app/db/repo/purchases_repo_metrics.py:15-33 | equal grouped sums over a set of products give equal totals over those products |
| `Reconciliation.SumDisjoint` | app/db/repo/ledger_repo.py:61-82 | star sums add over disjoint sets of purchases |
| `Reconciliation.SumOfOne` | app/db/repo/purchases_repo_metrics.py:15-33 | a sum over one purchase is its stars, and nothing for an id that is not stored |
| `Reconciliation.OffsettingTwinsReconcile` | app/services/payments_reliability.py:4-36 | two purchases of one product and price, one paid and the other credited, reconcile to OK |
| `Reconciliation.Ledger.Create` | app/db/repo/ledger_repo.py:22-25 | appends or raises on a used idempotency key, changes nothing recorded, and adds exactly the entry's purchase to the credited set |
| `Reconciliation.RepeatedCreditInvisible` | app/db/repo/ledger_repo.py:51-110 | a second credit entry for a credited purchase never moves the verdict |
| `Reconciliation.FirstCreditCloses` | app/db/repo/ledger_repo.py:51-59 | crediting a paid, uncredited purchase shrinks the symmetric difference by exactly one |
| `Reconciliation.WaitingMeansDiff` | app/workers/tasks/payments_reliability_async.py:175-233 | a purchase in status PAID_UNCREDITED paid at or before the cutoff forces DIFF, whatever else the tables hold |
| `Reconciliation.SettledMeansOk` | app/workers/tasks/payments_reliability_async.py:175-233 | when exactly the purchases with a payment time have a PURCHASE_CREDIT entry in direction CREDIT, and every PAID_UNCREDITED one was paid after the cutoff, the answer is OK |
| `Reconciliation.MissingCreditMeansDiff` | app/workers/tasks/payments_reliability_async.py:175-233 | when every such entry is for a paid purchase and some paid purchase has none, the answer is DIFF |
| `Reconciliation.NothingCredited` | app/services/payments_reliability.py:4-32 | the diff itself, when nothing is credited and every purchase costs something: paid purchases + stale ones + one + products |
| `UpdateSlots.ClaimsSeparated` | app/db/repo/processed_updates_repo.py:26-137 | in any run that does not delete the row and writes only statuses other than PROCESSING and FAILED to it, successive claims with TTL at least T are stamped at least max(1, T) seconds apart, whatever the clocks |
| `UpdateSlots.SeparationIff` | app/db/repo/processed_updates_repo.py:26-137 | all runs whose status writes to the row come from a given set keep its claims a lease apart if and only if the set has neither PROCESSING nor FAILED and the row is not deleted |
| `UpdateSlots.ClaimsSpan` | app/db/repo/processed_updates_repo.py:26-137 | in such runs k claims span at least (k-1)·max(1, T) seconds |
| `UpdateSlots.LateFailureBreaksSeparation` | app/db/repo/processed_updates_repo.py:118-137 | a history of four statements: a worker that lost its lease fails the row, and two claims follow at the same instant |
| `UpdateSlots.InsertBalance` | app/db/repo/processed_updates_repo.py:26-45 | over every run inserts and deletions of an id balance exactly, so inserts are at most 1 + deletions |
| `UpdateSlots.FailedReclaimsBounded` | app/db/repo/processed_updates_repo.py:47-68 | over every run FAILED-reclaims are at most the FAILED writes (plus one if the row starts FAILED), less one if it ends FAILED |
| `UpdateSlots.ClaimAccounting` | app/db/repo/processed_updates_repo.py:26-137 | every claim is paid for by a free id, a deletion, a FAILED write or an expired lease |
| `UpdateSlots.TerminalRowFrozen` | app/db/repo/processed_updates_repo.py:26-137 | a row in any status but PROCESSING and FAILED admits no claim and stays unchanged until rewritten or deleted |
| `UpdateSlots.OnlyClaimsAndWrites` | app/db/repo/processed_updates_repo.py:26-137 | a row that survives a step changed is changed by a claim or a status write of that id |
| `UpdateSlots.SlotTable.TryCreateProcessingSlot` | app/db/repo/processed_updates_repo.py:26-45 | inserts a PROCESSING row exactly when the id is absent |
| `UpdateSlots.SlotTable.TryReclaimFailedProcessingSlot` | app/db/repo/processed_updates_repo.py:47-68 | takes over the row exactly when it is FAILED |
| `UpdateSlots.SlotTable.TryReclaimStaleProcessingSlot` | app/db/repo/processed_updates_repo.py:70-96 | takes over the row, stamped now with the given task, exactly when it is PROCESSING and at least max(1, ttl) seconds old |
| `UpdateSlots.SlotTable.SetSlotStatus` | app/db/repo/processed_updates_repo.py:118-137 | an existing row becomes exactly (status, given time or now, given task), with no fence; an absent one is left absent; the count says which |
| `UpdateSlots.SlotTable.Create` | app/db/repo/processed_updates_repo.py:98-116 | inserts exactly the row given when the id is absent |
| `UpdateSlots.ReleasedUntilClaimed` | app/workers/tasks/telegram_updates_processing.py:97-133 | after a worker's write the row names no task until the next claim, over every run in which no write names one |
| `UpdateSlots.HolderNamed` | app/db/repo/processed_updates_repo.py:26-96 | from a claim until the next claim, write or deletion the row is PROCESSING, stamped by the claim and naming its task |
| `UpdateSlots.SlotTable.DeleteProcessedBefore` | app/db/repo/processed_updates_repo.py:209-229 | every row gone is older than the cutoff and precedes every row kept in (processed_at, id); at most max(1, limit) go, fewer only if no kept row is older; the count is theirs |
| `UpdateSlots.SlotTable.AcquireProcessingSlot` | app/workers/tasks/telegram_updates_processing.py:22-54 | exactly which of created, reclaimed failed, reclaimed stale, duplicate comes out, and the row afterwards |
| `Retention.CallsConverge` | app/db/repo/outbox_events_repo.py:86-104 | after c calls exactly the rows at or after the cutoff are left if and only if c·max(1, limit) covers the expired rows |
| `Retention.CallsAdd` | app/db/repo/analytics_mutations.py:93-113 | c calls delete what one call with their summed limit deletes: the oldest expired rows |
| `Retention.ExpiredIsPrefix` | app/db/repo/processed_updates_repo.py:209-229 | in (time, id) order the rows before the cutoff are exactly a prefix |
| `Retention.Table.DeleteBefore` | app/db/repo/outbox_events_repo.py:86-104 | in columns: the rows gone are older than the cutoff and precede the kept ones in (time, id), at most max(1, limit), fewer only if no expired row is kept; the number is returned; kept rows are as they were |
| `Retention.BatchIsOldest` | app/db/repo/analytics_mutations.py:93-113 | that is what deleting the first min(max(1, limit), expired) rows of the ordered view amounts to, for any timestamp column |
| `Retention.Table.Cleanup` | app/workers/tasks/retention_cleanup.py:62-113 | the cleanup loop: its three counters and the rows left, for every batch size, budget and clock reading |
| `Retention.CleanupIsSound` | app/workers/tasks/retention_cleanup.py:62-113 | whatever stops the loop it deleted only the oldest expired rows and counted them; unless guard or budget stopped it exactly the live rows are left |
| `Retention.CleanupCounts` | app/workers/tasks/retention_cleanup.py:62-113 | the loop's counters depend on the number of expired rows only |
| `Ordering.SortedUnique` | app/db/repo/outbox_events_repo.py:86-104 | `ORDER BY time, id` has one answer: sorted sequences of the same keys are equal |
| `Ordering.ViewWithoutPrefix` | app/db/repo/outbox_events_repo.py:86-104 | deleting the first n rows of the ordered view drops exactly them from it |
| `LegacyPromoSync.SyncInsertsEarliest` | alembic/versions/c7d8e9f0a1b2_m39_sync_legacy_admin_promo_codes.py:100-187 | the sync keeps every runtime row; each row it appends has the next id after the maximum and converts a legacy row that is first in (created_at, id) among those with its new hash |
| `LegacyPromoSync.EarliestIsInserted` | alembic/versions/c7d8e9f0a1b2_m39_sync_legacy_admin_promo_codes.py:100-187 | each such earliest convertible row is inserted |
| `LegacyPromoSync.SyncKeepsKeysUnique` | alembic/versions/c7d8e9f0a1b2_m39_sync_legacy_admin_promo_codes.py:113-185 | ids and hashes stay unique |
| `LegacyPromoSync.SyncTwiceInsertsNothing` | alembic/versions/c7d8e9f0a1b2_m39_sync_legacy_admin_promo_codes.py:100-187 | a second sync changes nothing |
| `LegacyPromoSync.SyncIsInserted` | alembic/versions/c7d8e9f0a1b2_m39_sync_legacy_admin_promo_codes.py:113-185 | the loop with its growing hash set and counter appends exactly the first candidate per new hash, and its hash set holds what was in the table or seen |
| `LegacyPromoSync.HashesTracked` | alembic/versions/c7d8e9f0a1b2_m39_sync_legacy_admin_promo_codes.py:113-185 | `existing_hashes` is the set of stored hashes after every row |
| `LegacyPromoSync.ReadingOrder` | alembic/versions/c7d8e9f0a1b2_m39_sync_legacy_admin_promo_codes.py:104-111 | every legacy row is read exactly once, in (created_at, id) order |
| `LegacyPromoSync.ConvertedMeetsChecksIff` | alembic/versions/c7d8e9f0a1b2_m39_sync_legacy_admin_promo_codes.py:134-182 | a converted row meets every CHECK of promo_codes unless a negative limit meets no recorded use |
| `LegacyPromoSync.SyncMeetsChecks` | alembic/versions/8b7c6d5e4f32_m2_core_data_model_part2.py:117-145 | every row the sync adds meets all CHECKs when the legacy rows meet theirs |
| `LegacyPromoSync.ConversionKeepsAllowance` | alembic/versions/c7d8e9f0a1b2_m39_sync_legacy_admin_promo_codes.py:134-182 | the remaining uses of a code are kept, also for one used beyond its limit |
| `LegacyPromoSync.InsertCandidates` | alembic/versions/c7d8e9f0a1b2_m39_sync_legacy_admin_promo_codes.py:113-185 | the insert loop completes exactly when all rows to insert meet the CHECKs, and then has inserted them |
| `LegacyPromoSync.PromoTable.Upgrade` | alembic/versions/c7d8e9f0a1b2_m39_sync_legacy_admin_promo_codes.py:100-189 | commits exactly when all rows to insert meet the CHECKs and otherwise changes nothing; every row added says, column by column, what the first legacy row of its code says; every code with a known status and a convertible value is in the table afterwards |
| `LegacyPromoSync.ConvertsIff` | alembic/versions/c7d8e9f0a1b2_m39_sync_legacy_admin_promo_codes.py:115-150 | a row converts exactly when its status is active, paused, expired or archived and its value is a whole percentage from 1 to 90, or 7, 30 or 90 days, as its type says |
| `LegacyPromoSync.ConvertSays` | alembic/versions/c7d8e9f0a1b2_m39_sync_legacy_admin_promo_codes.py:115-182 | and the converted row then has ACTIVE, PAUSED or EXPIRED for active, paused, and expired or archived; its percentage or days are the value, its scope, dates, uses, limit, name, prefix and hash those of the legacy row |
| `LegacyPromoSync.AddedTold` | alembic/versions/c7d8e9f0a1b2_m39_sync_legacy_admin_promo_codes.py:100-187 | so does every row the sync adds, of a legacy row no other row with its hash precedes in (created_at, id) |
| `LegacyPromoSync.CodesPresent` | alembic/versions/c7d8e9f0a1b2_m39_sync_legacy_admin_promo_codes.py:113-185 | afterwards the hash of every convertible code is in the table |
| `LegacyPromoSync.ChecksAdmit` | alembic/versions/8b7c6d5e4f32_m2_core_data_model_part2.py:117-145 | which rows the CHECKs of promo_codes admit |
| `LegacyPromoSync.OneByOne` | app/services/promo_codes.py:10-12 | taking out whitespace and hyphens works character by character |
| `LegacyPromoSync.SingleCharacter` | app/services/promo_codes.py:10-12 | and takes out a character exactly when it is one of them |
| `PromoSchema.BackfillMeetsNewChecks` | alembic/versions/d1e2f3a4b5c6_m40_admin_promo_crud_contract.py:29-78 | the backfill turns a row meeting the old constraints into one meeting the new ones, with the payload check decided |
| `PromoSchema.BackfilledPassesIff` | alembic/versions/d1e2f3a4b5c6_m40_admin_promo_crud_contract.py:29-78 | which rows pass the new payload check after a backfill, whatever they were |
| `PromoSchema.BackfillColumns` | alembic/versions/d1e2f3a4b5c6_m40_admin_promo_crud_contract.py:29-47 | a percentage code gets type PERCENT, its percentage as value, and its target scope as the one applicable product unless that is ANY, MICRO_ANY or PREMIUM_ANY; other codes get nothing |
| `PromoSchema.OldChecksIff` | alembic/versions/d1e2f3a4b5c6_m40_admin_promo_crud_contract.py:154-178 | which rows the constraints before the migration admit, evaluated in three-valued logic |
| `PromoSchema.NewChecksIff` | alembic/versions/d1e2f3a4b5c6_m40_admin_promo_crud_contract.py:53-78 | which rows the constraints it creates admit |
| `PromoSchema.NewPayloadPassesIff` | alembic/versions/d1e2f3a4b5c6_m40_admin_promo_crud_contract.py:68-78 | exactly which column values the new payload check admits, NULLs included |
| `PromoSchema.UndecidedCheckAdmitsNoDiscount` | alembic/versions/d1e2f3a4b5c6_m40_admin_promo_crud_contract.py:68-78 | it admits a percentage code without discount, which the old one refused |
| `PromoSchema.DowngradableIff` | alembic/versions/d1e2f3a4b5c6_m40_admin_promo_crud_contract.py:154-178 | which rows meeting the new constraints meet the old ones again: one use per user, and a percentage of at most 90 if it is a discount |
| `PromoSchema.FixedDiscountBlocksDowngrade` | alembic/versions/d1e2f3a4b5c6_m40_admin_promo_crud_contract.py:154-178 | a fixed discount is not taken back |
| `PromoSchema.DowngradeUndoesUpgrade` | alembic/versions/d1e2f3a4b5c6_m40_admin_promo_crud_contract.py:21-178 | over any table meeting the old constraints, upgrade then downgrade succeeds and leaves the table as it was |
| `PromoSchema.PromoTable.Upgrade` | alembic/versions/d1e2f3a4b5c6_m40_admin_promo_crud_contract.py:21-78 | over the whole table, from the old constraints to the new, each row keeping its columns and getting the backfilled ones |
| `PromoSchema.PromoTable.Downgrade` | alembic/versions/d1e2f3a4b5c6_m40_admin_promo_crud_contract.py:154-178 | succeeds exactly when every row meets the old constraints, and then restores the old columns |
| `PromoSchema.PurchaseCheckSwapIff` | alembic/versions/d1e2f3a4b5c6_m40_admin_promo_crud_contract.py:82-93 | a stored purchase survives the swap from 1 to 0 stars minimum exactly when it was not fully discounted |
| `PromoSchema.PurchaseCheckSwapBackIff` | alembic/versions/d1e2f3a4b5c6_m40_admin_promo_crud_contract.py:135-146 | and the swap back exactly when it is not free |
| `PromoSchema.PurchaseChecksIff` | alembic/versions/d1e2f3a4b5c6_m40_admin_promo_crud_contract.py:82-93 | which amounts the two CHECKs admit: base less discount, at least one star before and at least none after |
| `PromoSchema.FullyDiscountedPurchaseBlocksUpgrade` | alembic/versions/d1e2f3a4b5c6_m40_admin_promo_crud_contract.py:82-93 | a fully discounted purchase stored at one star is refused by the swap |
| `DuelV2.UpdatesAreCases` | alembic/versions/d9e0f1a2b3c4_m31_duel_v2_foundation.py:70-140 | the eight ordered UPDATEs equal one case function |
| `DuelV2.UpgradedRowMeaning` | alembic/versions/d9e0f1a2b3c4_m31_duel_v2_foundation.py:70-140 | no ACTIVE is left; finished_at is set exactly when answered >= total; done statuses of formerly ACTIVE joined rows agree with it, both ways |
| `DuelV2.UpgradedColumns` | alembic/versions/d9e0f1a2b3c4_m31_duel_v2_foundation.py:70-140 | column by column: a player who has answered every round gets completed_at if it is set and else updated_at as finish time, others none; the new status by cases; all other columns as they were |
| `DuelV2.DowngradedColumns` | alembic/versions/d9e0f1a2b3c4_m31_duel_v2_foundation.py:158-174 | column by column: the four in-play statuses go back to ACTIVE, WALKOVER to EXPIRED, the others and all other columns stay |
| `DuelV2.StatusSets` | alembic/versions/d9e0f1a2b3c4_m31_duel_v2_foundation.py:146-154 | the new status CHECK allows the four statuses of a game in play and the walkover beside all the old ones |
| `DuelV2.DownUpIdentityIff` | alembic/versions/d9e0f1a2b3c4_m31_duel_v2_foundation.py:158-192 | downgrade then upgrade restores a row if and only if an upgrade could have produced it |
| `DuelV2.UpDownIdentityIff` | alembic/versions/d9e0f1a2b3c4_m31_duel_v2_foundation.py:21-192 | upgrade then downgrade restores an old row unless it was an ACTIVE joined game both had finished |
| `DuelV2.FinishedGameChanges` | alembic/versions/d9e0f1a2b3c4_m31_duel_v2_foundation.py:21-192 | a one-round game both have answered comes back COMPLETED instead of ACTIVE |
| `DuelV2.ChallengeTable.Upgrade` | alembic/versions/d9e0f1a2b3c4_m31_duel_v2_foundation.py:21-155 | the whole upgrade: no statement breaks a constraint in force, and every row ends as the columns above say |
| `DuelV2.ChallengeTable.Downgrade` | alembic/versions/d9e0f1a2b3c4_m31_duel_v2_foundation.py:158-192 | the whole downgrade: ends with the old CHECK in force and every row as the columns above say |
| `DuelV2.DowngradeThenUpgrade` | alembic/versions/d9e0f1a2b3c4_m31_duel_v2_foundation.py:21-192 | downgrade followed by upgrade is the identity on every upgraded table |
| `DuelV2.UpgradeAndBack` | alembic/versions/d9e0f1a2b3c4_m31_duel_v2_foundation.py:21-192 | every table the upgrade produces survives a downgrade and another upgrade unchanged |
| `PushEvents.DedupeLeavesEarliest` | alembic/versions/c3d4e5f6a7b8_m44_daily_cup_push_dedupe_unique_index.py:20-53 | the ranked DELETE leaves exactly the earliest (happened_at, id) row of each partition, touches nothing else, and the unique index then holds |
| `PushEvents.RankOneIsEarliest` | alembic/versions/c3d4e5f6a7b8_m44_daily_cup_push_dedupe_unique_index.py:21-41 | row number one is the row none of its partition precedes |
| `PushEvents.EveryPartitionKept` | alembic/versions/c3d4e5f6a7b8_m44_daily_cup_push_dedupe_unique_index.py:21-41 | no key disappears |
| `PushEvents.RunKeepsIndex` | app/db/repo/analytics_mutations.py:21-113 | every run of inserts, insert-onces and deletions keeps the index |
| `PushEvents.WinsPaidByDeletions` | app/db/repo/analytics_mutations.py:44-80 | over every run, insert-once returns True for a key at most once more often than the key was freed by a deletion, and no more often if it was there |
| `PushEvents.OnceIffKeyedByText` | app/db/repo/analytics_mutations.py:44-80 | an insert is refused exactly when its key is a covered text key already stored |
| `PushEvents.NullTournamentWinsTwice` | app/db/repo/analytics_mutations.py:44-80 | a JSON-null tournament wins twice |
| `PushEvents.EventTable.CreatePushEventOnce` | app/db/repo/analytics_mutations.py:44-80 | False exactly when the same push for a tournament given as text is on record; otherwise the row is added; the index is kept |
| `PushEvents.EventTable.CreateEvent` | app/db/repo/analytics_mutations.py:21-41 | the plain insert: raises exactly when the same push for a text tournament is on record, and otherwise adds the row |
| `PushEvents.SurvivesIff` | alembic/versions/c3d4e5f6a7b8_m44_daily_cup_push_dedupe_unique_index.py:20-41 | a row survives the ranked DELETE exactly when the same push is not on record earlier or under a smaller id |
| `PushEvents.RefusedIff` | app/db/repo/analytics_mutations.py:44-80 | an insert is refused exactly when the same push for a text tournament is on record |
| `PushEvents.EventTable.DeleteEventsCreatedBefore` | app/db/repo/analytics_mutations.py:93-113 | the oldest rows by (created_at, id) below the cutoff go, at most max(1, limit) |
| `PushEvents.EventTable.Upgrade` | alembic/versions/c3d4e5f6a7b8_m44_daily_cup_push_dedupe_unique_index.py:20-53 | keeps exactly the rows whose push (one of the two reminders, to this user, for this tournament) is not on record before them in (happened_at, id), and establishes the index |
| `QuestionSelection.NewSelectQuestionId` | scripts/benchmark_question_selection_hotpath.py:30-46 | for every seed the loop returns the first entry not excluded in circular order from the one the digest points at modulo the pool size, and counts its probes |
| `QuestionSelection.AnswerOfSeed` | scripts/benchmark_question_selection_hotpath.py:30-46 | over seeds: the answer is pool[(digest + places) % size] for the least number of places at which the entry is not excluded, and None only if all are |
| `QuestionSelection.EveryEntryAnswered` | scripts/benchmark_question_selection_hotpath.py:30-46 | every entry not excluded is the answer for some digest |
| `QuestionSelection.ReferenceOfSeed` | scripts/benchmark_question_selection_hotpath.py:15-27 | the reference answers entry digest % size of what is left of the pool without the recent ids, or of the whole pool if nothing is |
| `QuestionSelection.EveryEntryLeftAnswered` | scripts/benchmark_question_selection_hotpath.py:15-27 | and every entry left for some digest |
| `QuestionSelection.AlwaysFound` | scripts/benchmark_question_selection_hotpath.py:30-46 | on distinct ids a question is always found, within one probe more than there are recent ids |
| `QuestionSelection.NoneIff` | scripts/benchmark_question_selection_hotpath.py:30-46 | on any pool None comes out exactly when all its ids are recent yet the recent ids are fewer than the entries |
| `QuestionSelection.RepeatedIdFails` | scripts/benchmark_question_selection_hotpath.py:15-46 | a repeated id makes the fast version fail where the reference answers |
| `QuestionSelection.NeverRecent` | scripts/benchmark_question_selection_hotpath.py:30-46 | with fewer recent ids than entries the result is never recent |
| `QuestionSelection.ReachableIff` | scripts/benchmark_question_selection_hotpath.py:30-46 | over all start indices exactly the ids not excluded are reachable |
| `QuestionSelection.RefinesIff` | scripts/benchmark_question_selection_hotpath.py:15-46 | the reachable ids are the reference's candidates if and only if the recent ids are fewer than the pool, miss it, or cover it |
| `QuestionSelection.ManyRecentDiffer` | scripts/benchmark_question_selection_hotpath.py:15-46 | a pool of two with two recent ids: the fast version can answer a recent id the reference cannot |
| `QuestionSelection.CandidatesAre` | scripts/benchmark_question_selection_hotpath.py:15-27 | which ids the reference can answer |
| `QuestionSelection.ProbesBounded` | scripts/benchmark_question_selection_hotpath.py:30-46 | the hit comes after at most as many probes as there are excluded pool ids |
| `QuestionSelection.OldNeverRecent` | scripts/benchmark_question_selection_hotpath.py:15-27 | the reference never repeats either |
| `QuestionSelection.RunVariant` | scripts/benchmark_question_selection_hotpath.py:57-83 | on a non-empty pool of distinct ids neither of the benchmark's two checks fires, for either version, and pick k is what that version answers for seed k |
| `Text.NormalizersAgree` | tools/quizbank_audit_io.py:24-30 | the scan's and the audit's normal forms agree on every text and are the import's with dashes unified |
| `Text.NormalizeIsNormal` | tools/build_logik500_bank.py:77-81 | the normal form is trimmed, single-spaced, lower-cased and free of special dashes |
| `Text.StripTakesEnds` | tools/build_logik500_bank.py:77-81 | strip takes the whitespace off both ends of a text and nothing else |
| `Text.CollapseKeepsWord` | tools/build_logik500_bank.py:77-81 | collapsing keeps every word |
| `Text.CollapseGap` | tools/build_logik500_bank.py:77-81 | and makes every gap one blank |
| `Text.CaseByLetter` | tools/build_logik500_bank.py:77-81 | lower and upper exchange the letters of the two alphabets in order and leave everything else alone |
| `Text.BlanksAndDashes` | tools/build_logik500_bank.py:77-81 | which characters are whitespace, and which become a hyphen |
| `CueStripping.ComputeSignature` | tools/build_logik500_bank.py:84-97 | the cue loop terminates and computes the signature function |
| `CueStripping.PassShrinks` | tools/build_logik500_bank.py:87-95 | a pass shortens the text exactly when it strips a cue and otherwise leaves a text no cue starts |
| `CueStripping.StackComesOff` | tools/build_logik500_bank.py:84-97 | with a prefix-free cue list, any number of cues and separators in front of a settled text, a cue outermost, come off and leave exactly that text |
| `CueStripping.SignatureOfStack` | tools/build_logik500_bank.py:84-97 | so that text is the signature of every question that normalizes to such a stack |
| `CueStripping.BuilderCueComesOff` | tools/build_logik500_bank.py:18-97 | for each of the builder's own cues, which are prefix-free: behind the cue and a blank a settled question is its own signature |
| `CueStripping.SignatureTwiceIsFixpoint` | tools/build_logik500_bank.py:84-97 | two applications always reach a fixpoint with no cue or separator in front |
| `CueStripping.SignatureIdempotentIff` | tools/build_logik500_bank.py:84-97 | one application is a fixpoint exactly when no cue hides behind leading separators, and then no cue is left in front |
| `CueStripping.HiddenCueExample` | tools/build_logik500_bank.py:84-97 | any normal cue behind a colon is such a text |
| `CueStripping.ColonHidesFirstCue` | tools/build_logik500_bank.py:18-97 | with the builder's own cue list, its first cue behind a colon takes two applications |
| `BankBuilder.RepresentativeAt` | tools/build_logik500_bank.py:119-127 | each representative is the least item of its family by source and row |
| `BankBuilder.FamilyRepresented` | tools/build_logik500_bank.py:119-127 | every family has a representative |
| `BankBuilder.UniqueFamiliesDistinct` | tools/build_logik500_bank.py:119-127 | representatives have distinct families |
| `BankBuilder.BaseItemAt` | tools/build_logik500_bank.py:129-144 | base signatures are the distinct group keys, each base item the least representative with its signature |
| `BankBuilder.StagesPartition` | tools/build_logik500_bank.py:129-144 | each representative is a base item or an extra candidate and never both |
| `BankBuilder.SelectedFamiliesDistinct` | tools/build_logik500_bank.py:145-157 | the selected families are pairwise distinct |
| `BankBuilder.OutputKeyInjective` | tools/build_logik500_bank.py:174-179 | generated keys determine number and family, whatever the families |
| `BankOutput.FamilyStage` | tools/build_logik500_bank.py:119-127 | the first stage as loops computes the representatives in family order |
| `BankOutput.SignatureStage` | tools/build_logik500_bank.py:129-144 | the second stage as loops computes base items and extra candidates, and counts the signatures more than one representative has |
| `BankOutput.Curate` | tools/build_logik500_bank.py:145-155 | the curated items, or the first marker that is no candidate |
| `BankOutput.Build` | tools/build_logik500_bank.py:104-196 | the outcome of the whole routine for any input: the first missing marker, wrong count, signature or family repeats, or the numbered rows |
| `BankLaws.PublishedIs` | tools/build_logik500_bank.py:157-196 | what the last part ends with: wrong count, two selected questions of one signature, two written keys of one family, or the rows: a permutation of the selected items ordered by stripped level, stripped category, source and row, numbered from 1 in quiz id and key, all other columns kept |
| `BankLaws.OutputOrderIff` | tools/build_logik500_bank.py:163-172 | that order, by the first differing character of level and category |
| `BankLaws.LoadedIff` | tools/build_logik500_bank.py:104-114 | an item is loaded exactly when it is row i of file f, numbered i + 2, with the family of its key |
| `BankLaws.FamiliesInOrder` | tools/build_logik500_bank.py:124-127 | the families are taken in strictly increasing order |
| `BankLaws.CuratedIs` | tools/build_logik500_bank.py:145-155 | a curated item is the representative of its marker, no base item, with the new stem and every other column as it was |
| `BankLaws.TagsComeOff` | tools/build_logik500_bank.py:70-74 | a number behind an underscore or hyphen is cut off, and so is a version |
| `BankLaws.OnlyTagsComeOff` | tools/build_logik500_bank.py:70-74 | nothing else is cut off |
| `BankOutput.KeysNeverRepeat` | tools/build_logik500_bank.py:174-184 | the duplicate-key check can never fire |
| `BankOutput.OutputFamiliesDistinct` | tools/build_logik500_bank.py:104-172 | in every routine that gets that far the sorted selection has pairwise distinct families |
| `BankOutput.SignatureClashIsCurated` | tools/build_logik500_bank.py:129-157 | a repeated signature in the selection involves a curated stem |
| `GeneratedKeys.FamilyOfOutputKey` | tools/build_logik500_bank.py:70-74 | what key_family makes of a generated key |
| `GeneratedKeys.FamilyClashIff` | tools/build_logik500_bank.py:70-74 | generated keys of different items have the same family exactly when both items' families are bare version tags |
| `GeneratedKeys.FamilyCheckFiresIff` | tools/build_logik500_bank.py:186-196 | over items of any families key_family can give, the check on the numbered rows fires exactly when two families are bare version tags |
| `GeneratedKeys.KeyFamilyShaped` | tools/build_logik500_bank.py:70-74 | what key_family can give: lower-cased, no leading whitespace |
| `FamilyCheck.BuildBank` | tools/build_logik500_bank.py:104-196 | the routine with its own key_family ends in "family duplicates" exactly when every marker is found, the count is right, no signature repeats and two selected families are bare version tags |
| `FamilyCheck.DuplicateFamiliesIff` | tools/build_logik500_bank.py:157-196 | the selected items carry the family of their keys, and the last part fails on families exactly then |
| `FamilyCheck.VersionTagsFail` | tools/build_logik500_bank.py:104-196 | one file of two rows with the keys v1 and v2 and different signatures ends so |
| `Decimal.PaddedInjective` | tools/build_logik500_bank.py:177-178 | zero-padded numbers are distinct |
| `Decimal.PadLeftIs` | tools/build_logik500_bank.py:177-178 | padding puts zeros in front until the width is reached and nothing else |
| `Decimal.NoLeadingZero` | tools/build_logik500_bank.py:177-178 | a numeral has no leading zero but that of 0 |
| `Sorting.SortIsStable` | tools/quizbank_ambiguity_scan_core.py:102-127 | the sort is stable: elements that tie with each other keep their order |
| `Sorting.StringLeqIff` | tools/build_logik500_bank.py:125-126 | texts are compared by their first difference, a beginning before the whole |
| `AmbiguityText.NormOrEmptyIff` | tools/quizbank_ambiguity_scan_core.py:39-42 | `or ""` is invisible to normalization except for falsy values that print something |
| `AmbiguityText.ComputeQuestionSignature` | tools/quizbank_ambiguity_text.py:20-38 | the signature is that of every question with the same normal form, trimmed, single-spaced, without quotes and parenthesized parts |
| `AmbiguityText.SignatureIsBare` | tools/quizbank_ambiguity_text.py:20-38 | a signature is trimmed and single-spaced, without quotes and without a parenthesized part |
| `AmbiguityText.RemoveShortensRuns` | tools/quizbank_ambiguity_text.py:33-34 | removing blanks of k underscores, k three or five, leaves of every run of underscores its length modulo k, and everything else |
| `AmbiguityText.UnblankedShortensRuns` | tools/quizbank_ambiguity_text.py:33-34 | the two removals in a row cut every run modulo five and then modulo three |
| `AmbiguityText.ParensRemoved` | tools/quizbank_ambiguity_text.py:35 | a parenthesized part goes, up to the first closing parenthesis, and the text around it stays |
| `AmbiguityText.QuotesRemoved` | tools/quizbank_ambiguity_text.py:36 | exactly the five quotation marks go |
| `AmbiguityText.BareFixed` | tools/quizbank_ambiguity_text.py:33-38 | a text without blanks, parenthesized parts, quotation marks and stray whitespace stays as it is |
| `AmbiguityText.RemoveLeavesNoBlank` | tools/quizbank_ambiguity_text.py:34 | so no three underscores in a row are left |
| `AmbiguityText.ComputeFamily` | tools/quizbank_ambiguity_text.py:41-48 | the key family loop terminates in the fixpoint |
| `AmbiguityText.FamilyStableIff` | tools/quizbank_ambiguity_text.py:41-48 | a family read again is the same exactly when no whitespace stands before the run of tags (joiner, perhaps v, digits) that ends the normalized key |
| `AmbiguityText.CutAllTakesTags` | tools/quizbank_ambiguity_text.py:41-48 | the loop takes off such tags and nothing else |
| `AmbiguityText.CutAllStopsAtBlank` | tools/quizbank_ambiguity_text.py:41-48 | and takes all of them when whitespace stands before them |
| `AmbiguityText.UnstableFamilyExample` | tools/quizbank_ambiguity_text.py:41-48 | "a _3" has a family that is not its own family |
| `AmbiguityScan.ConflictIff` | tools/quizbank_ambiguity_scan_core.py:59-71 | a question is an exact conflict exactly when two rows with it have different answers |
| `AmbiguityScan.SignatureConflictIff` | tools/quizbank_ambiguity_scan_core.py:73-85 | the same for non-empty signatures |
| `AmbiguityScan.AnswersSorted` | tools/quizbank_ambiguity_scan_core.py:59-100 | the answers of a group are listed in strictly increasing order |
| `AmbiguityReport.CellConflictIff` | tools/quizbank_ambiguity_scan_core.py:36-71 | for cells: a non-empty normal form is an exact conflict exactly when two rows with it have answers of different normal forms |
| `AmbiguityReport.CellTemplatesAre` | tools/quizbank_ambiguity_scan_core.py:43-46 | a template group holds exactly the rows whose key loses its tags down to one non-empty family, two and more, and their answers |
| `AmbiguityReport.TemplatesAre` | tools/quizbank_ambiguity_scan_core.py:87-102 | the template groups are exactly those of two rows and more, largest first, and none without a key column |
| `AmbiguityReport.TemplatesKeepOrder` | tools/quizbank_ambiguity_scan_core.py:102 | groups of one size keep the order in which they first occur |
| `Grouping.KeysInOrder` | tools/quizbank_ambiguity_scan_core.py:59-87 | groups are listed in the order in which their keys first occur |
| `AmbiguityReport.CellSameRowIff` | tools/quizbank_ambiguity_scan_core.py:48-57 | a row is reported on its own exactly when two of its option cells have one normal form |
| `AmbiguityReport.ReportCapped` | tools/quizbank_ambiguity_scan_core.py:129-138 | the signature conflicts and the rows reported on their own stop at one hundred, the exact lists do not |
| `AmbiguityReport.RepeatedQuestionReported` | tools/quizbank_ambiguity_scan_core.py:59-71 | a question is reported as duplicate or conflict exactly when it occurs twice, and never as both |
| `AmbiguityScan.ConflictFound` | tools/quizbank_ambiguity_scan_core.py:59-71 | a reported conflict holds all rows of its question in table order and the sorted set of their answers |
| `AmbiguityScan.ConflictWithinIff` | tools/quizbank_ambiguity_scan_core.py:59-85 | an exact conflict lies within one signature conflict exactly when its rows share a non-empty signature |
| `AmbiguityReport.Scan` | tools/quizbank_ambiguity_scan_core.py:16-138 | the scan's loops compute the report, also for a table without a question or key column |
| `AmbiguityReport.ConflictWithinSignatureIff` | tools/quizbank_ambiguity_scan_core.py:38-85 | for cells: exactly when the question has a signature and no question cell of the group is falsy |
| `AmbiguityReport.FalsyQuestionEscapes` | tools/quizbank_ambiguity_scan_core.py:39-42 | a falsy question cell that clashes with another row gives a conflict no signature conflict contains |
| `AmbiguityReport.ZeroEscapes` | tools/quizbank_ambiguity_scan_core.py:39-85 | a table of two rows asking 0, once as a number: an exact conflict that no signature conflict contains, though its question has a signature |
| `AmbiguityReport.ConflictPairsAreFuzzy` | tools/quizbank_ambiguity_scan_core.py:104-126 | every pair of an exact conflict's rows with different answers is a fuzzy pair with score 100 |
| `AmbiguityReport.ConflictPairDroppedOnlyBehindEquals` | tools/quizbank_ambiguity_scan_core.py:127 | the cap drops such a pair only behind one hundred that score as high |
| `FuzzyPairs.PairLoop` | tools/quizbank_ambiguity_scan_core.py:104-126 | the nested loop computes the pair list |
| `FuzzyPairs.EachPairOnce` | tools/quizbank_ambiguity_scan_core.py:104-126 | the list holds each pair of later positions with two questions, different answers and a score of at least 96 exactly once, in order of positions, and nothing else |
| `FuzzyPairs.BestListedFirst` | tools/quizbank_ambiguity_scan_core.py:127 | the report lists better scores first and pairs of one score in table order |
| `FuzzyPairs.CapKeepsBest` | tools/quizbank_ambiguity_scan_core.py:127 | what the cap drops scores no better than anything it keeps, and it drops only from a full list |
| `QuizAudit.Audit` | tools/quizbank_audit_analysis.py:90-120 | the three sample lists of the audit's loop: the first fifty rows with each finding |
| `QuizAudit.FindingsIff` | tools/quizbank_audit_analysis.py:90-120 | the three findings in the columns of a row: an id that reads neither 0, 1, 2 nor 3; an answer that differs from the option counted to; an answer that differs from all four |
| `QuizAudit.DeclaredIff` | tools/quizbank_audit_analysis.py:90-100 | a row declares option 1 to 4 exactly when its id cell reads 0 to 3 once stripped, for every kind of cell |
| `QuizAudit.NumbersAre` | tools/quizbank_audit_analysis.py:90-120 | a list names exactly the rows with the finding, and stops at fifty |
| `QuizAudit.NoneReportedIff` | tools/quizbank_audit_analysis.py:90-120 | a finding is absent from the report exactly when no row has it |
| `QuizAudit.CleanIff` | tools/quizbank_audit_analysis.py:90-120 | no finding means a valid id and an answer that normalizes like the option it names |
| `QuizImport.ReadRow` | scripts/quizbank_import_tool.py:119-189 | a record for exactly the sound rows with a new id; otherwise the fault is a check that fails while none before it does |
| `QuizImport.ReportedIff` | scripts/quizbank_import_tool.py:119-160 | the fault reported is the one check that fails first |
| `QuizImport.FaultlessIff` | scripts/quizbank_import_tool.py:119-160 | no fault means a sound row with a new id |
| `QuizImport.CheckedRow` | scripts/quizbank_import_tool.py:119-189 | a record exists exactly for sound rows with new ids, and its answer is the option its id names |
| `QuizImport.RecordColumns` | scripts/quizbank_import_tool.py:119-189 | every column of a record in terms of the row's cells: stripped question, explanation and options, the option id read, level raised or A1, category or General, key or the id |
| `QuizImport.RecordAnswer` | scripts/quizbank_import_tool.py:138-176 | the answer recorded is the option counted to, and the answer cell has its import normal form |
| `QuizImport.ReadyIff` | scripts/quizbank_import_tool.py:114-117 | a row is ready exactly when it has no status or one that reads ready, active or nothing |
| `QuizImport.AuditCleanIff` | tools/quizbank_audit_analysis.py:90-120 | on a file's row the audit finds nothing exactly when the id is valid and answer and option agree up to dashes |
| `QuizImport.SoundIsClean` | scripts/quizbank_import_tool.py:130-152 | no row the import accepts gives an audit finding |
| `QuizImport.StricterThanAuditIff` | scripts/quizbank_import_tool.py:146-152 | a row in order otherwise passes the audit but not the import exactly when answer and option differ in dashes only |
| `QuizImport.DashRowPassesAuditOnly` | scripts/quizbank_import_tool.py:146-152 | a row with a hyphen for its option and a dash for its answer passes the audit and fails the import |
| `ImportRun.BuildRecords` | scripts/quizbank_import_tool.py:84-192 | the loops over files and rows compute the import: tally or first error |
| `ImportSound.ImportSucceedsIff` | scripts/quizbank_import_tool.py:84-192 | the import succeeds exactly when every file is fine, every ready row sound and no two ready rows share an id; the records are then the ready rows in reading order under distinct ids |
| `ImportSound.ImportQuestions` | scripts/quizbank_import_tool.py:84-192 | the import with the tool's own row checks, made one after the other: when it succeeds, its records, its counts, and otherwise the first thing wrong |
| `ImportSound.FirstError` | scripts/quizbank_import_tool.py:84-189 | a failed import ends at the first thing wrong: all files and rows before it were in order, and the error names the file, and line i + 2 for its i-th row |
| `ImportSound.RefusedRow` | scripts/quizbank_import_tool.py:113-160 | for the tool's own checks the fault named is the first one that row fails, given the ids of the ready rows before it |
| `ImportSound.ImportBalances` | scripts/quizbank_import_tool.py:84-192 | rows read = imported + skipped, each mode's count is that of its records, and the counts sum to the imported |
| `ImportSound.ImportedRowsAreClean` | scripts/quizbank_import_tool.py:84-192 | no row a successful import has taken in gives an audit finding |
| `ImportSound.QuizImporterImplements` | scripts/quizbank_import_tool.py:113-189 | the tool's own row check is one the import theorems apply to |
| `QuestionStore.Chunks` | scripts/quizbank_import_tool.py:195-196 | nothing lost or reordered, no chunk empty or too large, every chunk full but the last |
| `QuestionStore.UpsertAt` | scripts/quizbank_import_tool.py:258-281 | what storing distinct ids does to each row: replaced with its creation time kept, inserted, or untouched |
| `QuestionStore.UpsertJoins` | scripts/quizbank_import_tool.py:258-281 | storing in chunks is storing at once |
| `QuestionStore.Questions.Persist` | scripts/quizbank_import_tool.py:250-281 | exactly when it fails: nothing to import, or two rows of one id within the same thousand; a failure changes nothing; otherwise the chunks do what one statement would |
| `PromoCodes.FiltersCover` | app/db/repo/promo_repo_admin_runtime.py:21-40 | every code passes a filter, only paused codes that are over pass two, and the displayed status agrees with the filters but for those |
| `PromoCodes.FilterCountsAddUp` | app/db/repo/promo_repo_admin_runtime.py:105-121 | the three filtered counts add up to all codes plus the paused ones that are over |
| `PromoCodes.MaintainedAgrees` | app/db/repo/promo_repo_codes.py:49-73 | after expire and deplete at one time stored ACTIVE equals the active filter; nothing else changes filter or display |
| `PromoCodes.MaintenanceOrder` | app/db/repo/promo_repo_codes.py:49-73 | the order of the two statements decides only the finished status of codes both past their time and used up |
| `PromoCodes.MaintenanceSettles` | app/db/repo/promo_repo_codes.py:49-73 | a second rollover at that time changes nothing |
| `PromoCodes.CodeTable.ExpireActive` | app/db/repo/promo_repo_codes.py:49-59 | exactly the ACTIVE codes past their time, and how many |
| `PromoCodes.CodeTable.DepleteActive` | app/db/repo/promo_repo_codes.py:62-73 | exactly the ACTIVE codes used up, and how many |
| `PromoCodes.CodeTable.PauseByHashes` | app/db/repo/promo_repo_codes.py:95-113 | exactly the listed ACTIVE codes, and how many |
| `PromoCodes.CodeTable.UpdateStatus` | app/api/routes/internal_promo_campaigns.py:56-102 | the route's guards amount to one decision; when it goes ahead, desired and expected text name the new and the old status, ACTIVE or PAUSED, and only status and time of that code change |
| `PromoCodes.StatusNames` | app/api/routes/internal_promo_campaigns.py:63-72 | a status is read from its own name and no other text, case and surrounding whitespace aside |
| `PromoCodes.RoutedIff` | app/api/routes/internal_promo_campaigns.py:63-91 | when the route refuses as invalid, as not found, and when it goes ahead: between ACTIVE and PAUSED, from the status expected if one is given |
| `PromoCodes.CodeTable.Rollover` | app/db/repo/promo_repo_codes.py:49-73 | the rollover and its two counts |
| `PromoCodes.CodeTable.Toggle` | app/api/routes/admin/promo_writes_status.py:15-32 | the switch between ACTIVE and PAUSED, refused for finished codes |
| `PromoRuns.FinishedStays` | app/db/repo/promo_repo_codes.py:49-113 | over every run of the steps codes are never deleted and EXPIRED and DEPLETED never left |
| `PromoRuns.UsesCounted` | app/db/repo/promo_repo_codes.py:49-113 | over every run each use counts one, hashes stay, and only the admin form changes a code's end and limit |
| `PromoRuns.Perform` | app/db/repo/promo_repo_codes.py:49-113 | each step of these runs is what the table's own operation does |
| `PromoRuns.FinishedWasDue` | app/db/repo/promo_repo_codes.py:49-73 | a code a run has finished was finished by the statement of that status, while ACTIVE and due |
| `PromoRuns.OnlySwitchesReactivate` | app/api/routes/internal_promo_campaigns.py:63-93 | a paused code comes back only by the status route or the switch |
| `PromoRedemptions.ExpiryKeepsCount` | app/db/repo/promo_repo_redemptions.py:170-201 | expiring reservations changes no code's capacity count at that time or later; seen from an earlier time it keeps it exactly when no reservation holding then has run out |
| `PromoRedemptions.EarlierCountDrops` | app/db/repo/promo_repo_redemptions.py:170-201 | one reservation until 5, expired at 5: the count as of 4 drops from one to zero |
| `PromoRedemptions.RevokeClears` | app/db/repo/promo_repo_admin_runtime_redemptions.py:32-107 | after an admin revoke the code's count is zero from then on and other codes' counts are what they were at all times |
| `PromoRedemptions.RevokeThenExpire` | app/db/repo/promo_repo_redemptions.py:190-201 | revoking a code and expiring at one time, in either order, leave it without reservations from then on |
| `PromoRedemptions.RefundRevokeSettles` | app/db/repo/promo_repo_redemptions.py:42-84 | revoking after a refund takes exactly that purchase off the pending list, and once more does nothing |
| `PromoRedemptions.RedemptionTable.RevokeReserved` | app/db/repo/promo_repo_admin_runtime_redemptions.py:85-107 | the loop revokes exactly the code's active reservations, each once, and returns them |
| `PromoRedemptions.RedemptionTable.ExpireReserved` | app/db/repo/promo_repo_redemptions.py:190-201 | exactly the reservations that have run out, and how many |
| `PromoRedemptions.RedemptionTable.RevokeForRefund` | app/db/repo/promo_repo_redemptions.py:42-63 | finds the purchase's redemption and revokes it unless it is revoked |
| `PromoCapacity.LimitNeverPassed` | app/economy/purchases/service/validation.py:24-41 | over every run the uses never exceed the limit and grow by exactly one per credited purchase |
| `PromoCapacity.ClosedStaysClosed` | app/economy/purchases/service/validation.py:63-147 | over every run a redemption once applied, lapsed or revoked is never invoiced or credited again |
| `PromoCapacity.Campaign.Enter` | app/economy/promo/redeem_effects.py:64-84 | when entering is accepted, and the reservation of 15 minutes it makes; reservations of others are not looked at |
| `PromoCapacity.Campaign.OpenInvoice` | app/economy/purchases/service/validation.py:63-108 | when an invoice is made, and the reservation renewed for 15 minutes |
| `PromoCapacity.Campaign.CreditPurchase` | app/economy/purchases/service/credit_assets.py:62-73 | when a linked purchase is credited, and the use it counts |
| `PromoCapacity.Campaign.AbandonInvoice` | app/economy/purchases/service/init.py:81-97 | a replaced invoice ends its reservation now |
| `PromoCapacity.Campaign.RefundPurchase` | app/db/repo/promo_repo_redemptions.py:42-63 | a refund revokes the redemption and leaves the use counted |
| `PromoCapacity.RoomIff` | app/economy/purchases/service/validation.py:24-41 | a reservation passes the capacity check exactly when uses and all reservations together fit the limit |
| `PromoCapacity.StepKeepsFit` | app/economy/purchases/service/validation.py:63-147 | every step but entering the code keeps them fitting |
| `PromoCapacity.RedeemFitsIff` | app/economy/promo/service.py:99-197 | entering the code keeps them fitting exactly when there was a place beside the reservations |
| `PromoCapacity.ReservationsHonoured` | app/economy/purchases/service/validation.py:63-147 | if codes were only entered while there was a place, whoever holds a reservation can have an invoice opened and then pay, and a linked purchase can be credited, until the reservation runs out |
| `PromoCapacity.OpenedCanBePaid` | app/economy/purchases/service/validation.py:63-147 | an invoice just opened can be paid until the renewed reservation runs out |
| `PromoCapacity.OneEntryTooMany` | app/economy/promo/redeem_validation.py:49-76 | after an entry beyond the last place no reservation of the code can be invoiced or credited at that time |
| `PromoCapacity.TwoUsersOnePlace` | app/economy/promo/redeem_effects.py:64-84 | with a limit of one, two users who entered the code are both refused an invoice |
| `PromoCapacity.PaidButRefused` | app/economy/purchases/service/credit_assets.py:62-73 | the second user enters after the first one's invoice is opened: the first one's payment is refused |
| `PurchaseKeys.OfferCallbackParsesIff` | app/bot/keyboards/offers.py:9-25 | the printed buy callback is read back exactly when the product code has no colon, and refused otherwise |
| `PurchaseKeys.PlainCallbackParses` | app/bot/handlers/payments_helpers.py:38-46 | two parts name a product and nothing else, whatever stands first |
| `PurchaseKeys.FourPartsParse` | app/bot/handlers/payments_helpers.py:38-46 | of four parts the third says what the fourth is: promo a redemption id, offer an impression id; anything else is refused |
| `PurchaseKeys.ParsedCallbackShape` | app/bot/handlers/payments_helpers.py:38-46 | whatever is read has one of these two forms |
| `PurchaseKeys.OfferCallbackIs` | app/bot/keyboards/offers.py:19-24 | the text the offer keyboard sends |
| `PurchaseKeys.ExtractUndoesBuild` | app/bot/handlers/payments_helpers.py:11-35 | the key gives back the offer it was built with, and none if built without |
| `PurchaseKeys.OfferSurvivesChain` | app/bot/handlers/payments_helpers.py:11-46 | parsing the callback, building the key and extracting gives the same impression id |
| `PurchaseKeys.KeysEqualIff` | app/bot/handlers/payments_helpers.py:11-21 | two keys are equal exactly when both tokens and the offer agree |
| `PurchaseKeys.PurchaseKeyIs` | app/bot/handlers/payments_helpers.py:11-21 | the text of a key: the first 8 and 10 digits of the two hashes, and the impression id if there is one |
| `PurchaseKeys.ExtractedIff` | app/bot/handlers/payments_helpers.py:24-35 | an impression id is read from exactly the keys of five parts with buy first, offer third and a fourth part that reads as it |
| `PurchaseKeys.KeyFits` | app/bot/handlers/payments_helpers.py:11-21 | the key of any 64-bit impression id fits the 64-character column |
| `PurchaseKeys.PrintedParses` | app/bot/handlers/payments_helpers.py:32-35 | `int` reads every printed integer back |
| `PurchaseKeys.SignedParses` | app/bot/handlers/payments_helpers.py:32-35 | a numeral with single underscores between digits reads as its digits do, after a plus too, and negated after a minus |
| `PurchaseKeys.SpacesAround` | app/bot/handlers/payments_helpers.py:32-35 | whitespace around it does not matter |
| `PurchaseKeys.ParsesIff` | app/bot/handlers/payments_helpers.py:32-35 | nothing else is an integer |
| `PurchaseKeys.SplitJoin` | app/bot/handlers/payments_helpers.py:27 | splitting at colons undoes joining pieces without colons |
| `PurchaseKeys.JoinSplit` | app/bot/handlers/payments_helpers.py:27 | the pieces of a split have no colon and join to the text |

## Left out

- Streaks, energy, tournaments, friend-challenge play, entitlements and most worker task bodies: only the steps listed above are modelled.
- Of redeeming a promo code, the idempotent replay, the rate limit, the retry rule per user and the new-user rules; of opening an invoice, the replay by idempotency key and the premium rank rule. `PromoCapacity` sees them as steps that do not happen.
- Grants of premium days: they use a code up at once and hold no reservation, so `PromoCapacity` is about discount codes; changing a code's limit while it is in use is not among its steps.
- Statements of one transaction interleaved with those of another: each statement is atomic, and a worker's acquisition is also proved alone as one transaction.
- Reading CSV and XLSX files, header mismatches, file listing and file order, report files, Markdown and dashboards.
- Of the audit, everything but the answer columns; a table without those columns is not audited here.
- Unicode beyond the finite sets named above: case mappings that change a string's length, further whitespace, dashes and digits.
- The regular expressions' `$` before a final newline: suffixes are taken at the very end of the text.
- Column lengths, timestamps' time zones, and columns that no modelled statement reads or writes.
- `_cleanup_table_batched`'s pauses between batches and its logging; the clock is given as its readings.
- `compute_reconciliation_diff` for negative counts passed by hand is in the function; the job never passes any.
- FastAPI authentication, Telegram handlers, keyboards other than the offer callback, Celery, Redis and logging.
- Cryptography: hashes and ciphers are parameters.
