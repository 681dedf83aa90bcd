# CATHERINE backend: verification

A Dafny model of the parts of the CATHERINE backend that promise something over a whole run, a whole
table or a whole protocol, with proofs of those promises. Where a promise does not hold as documented,
the project proves exactly when it does and gives a run or an input on which it fails.

`dafny verify dfyconfig.toml` checks everything.

| component | files |
|---|---|
| Refresh-token ledger: rotation, revocation, purge, in-memory form against SQL form | `SessionLedger.dfy`, `LedgerRuns.dfy` |
| Access-token revocation: in-memory set, boots, and the reload from the ledger | `AccessRevocation.dfy`, `AccessRuns.dfy`, `AccessRefusal.dfy` |
| Changelog file store: lockfile shared by several processes, migration, operations | `ChangelogStore.dfy`, `ChangelogLock.dfy` |
| Admin accounts: signed rows, the last-SUPER_ADMIN guard, interleaved calls | `AdminAccounts.dfy`, `AdminRuns.dfy` |
| Purge: registry, delete order, transaction, referential integrity of every step | `PurgeRegistry.dfy`, `PurgeEngine.dfy`, `PurgeIntegrity.dfy` |
| Backup and restore: paged read, type-restoring insert, round trip | `BackupStream.dfy`, `RestoreBatch.dfy`, `BackupRoundTrip.dfy` |
| Stop of a server process: budgets, failsafe, crash during a stop | `Shutdown.dfy`, `ShutdownRuns.dfy` |
| Tamper sweep in descending key batches while rows are appended | `IntegritySweep.dfy` |
| Audit log: grouped against single-pass statistics, line file, storage fallback | `AuditAggregate.dfy`, `AuditFile.dfy`, `AuditStorage.dfy` |
| Majority vote on deleting a backup archive | `BackupVotes.dfy`, `VoteRuns.dfy` |

Operations that update state in place are classes and methods, each tied to a function of the old
state. Protocols are state machines: a run is a list of states and a list of steps, and the theorems
speak of every state of every run.

## Where the code and its documentation part

- `purgeTables.js` asks that no two tables joined by a foreign key share a tier, but its load-time
  self-check does not look at tiers. `PurgeSafeExact` gives the exact condition; a shared tier is safe
  when the child is declared first.
- A backup keeps the microseconds of signed timestamps so that its archive can be checked against the row
  hashes (`data-purge.model.js:468-477`). A restore reads every timestamp through a JavaScript date and
  signs what it stored, so the restored value has whole milliseconds (`CellRoundTrip`).
- A number passes a restore as text: what counts is whether its nearest double prints as the same decimal,
  not whether it is a double (`DoubleIsNotTheTest`).
- The comments in `server.js:655-662` say that a reload at boot keeps a signed-out token refused. The server
  listens before the pools are up and the reload has finished, so until then the token is accepted, and for
  its whole life when the reload fails, as `loadRecent` itself admits (`BootWindowExact`, `RefusedExactly`).
- The clock skew added to the retention pays for a user's revocation that takes effect after its stamp; for
  a single family, which is vetoed here first, the lifetime alone would do (`RefusalExact`, `SkewNotNeeded`).
- A refresh row can be purged one day after it expires. An access-token lifetime beyond the refresh
  lifetime and that day, which the settings allow, leaves tokens that a reload cannot find (`EarlyPurgeRun`).
- `TeardownSequence.js` says request grace and drain both end by the start plus the phase budget. The
  grace is counted from the moment the wait starts, so it can end later (`GraceEndsInPhaseExact`).
- `audit.log.model.js` says nothing is lost by the silent downgrade. A write that is in flight when
  another one triggers the downgrade, and then fails, is thrown (`LostExact`). The batching caller tries
  again and then succeeds (`RetryLands`); a direct insert (`DataPurgeService.js:1167`,
  `DataRestoreService.js:1106`) and the final flush do not, so their record is in neither store.
- The unique-user query replaces any condition on `USER_ID` and drops `$or`, so it can report users the
  filter excludes (`UniqueUsersExact`).
- The data-management guide asks for a strict majority of active SUPER_ADMINs. Votes of admins who have
  lost the role since still count (`DeletionMajorityExact`, `DemotedVoterCounts`).
- The last-SUPER_ADMIN guard compares ids while the write goes by username, and it is skipped when the
  earlier read was not an active SUPER_ADMIN (`CommitExact`).
- A stale changelog lock is judged from an earlier `stat`; a waiter that is slow between the two can
  remove a lock created since (`ExclusionExact`).
- A read of the changelog creates or migrates the store without the lock, and an update may clear a message
  above a leftover summary, which makes a migrated entry need migration again. Either can erase an entry
  another process reported as created (`NoLostUpdateExact`).
- The tamper sweep's cursor condition replaces a filter on the key column (`AlwaysCorrectExact`). The defect
  is latent: it takes a batch of one, the only caller (`IntegrityService.js:136`) keeps the default batch,
  and no table is registered yet.
- The in-memory ledger consumes a row before its insert fails; the SQL transaction rolls back
  (`InMemoryRefinesSql`).
- `allowAbsent` accepts a token without a row in a family that has been revoked (`AbsentBranchRevives`).

## Model

| member | source | states |
|---|---|---|
| SessionLedger.LatestIsMax | Backend/src/models/auth.refresh.token.model.js:61-65 | MAX(REVOKED_AT) per family: present exactly when the family has a row revoked at or after the bound, never below any of them, and attained by one of them |
| SessionLedger.LatestExact | Backend/src/models/auth.refresh.token.model.js:61-65 | the same from the columns alone: none exactly when every revocation of the family lies before the bound, else the family's maximum, at or after the bound |
| SessionLedger.InMemoryRefinesSql | Backend/src/models/auth.refresh.token.model.js:145-189 | the in-memory rotate gives the rows and outcome of the SQL transaction if and only if no winning rotation brings a successor hash already in the ledger |
| SessionLedger.RotateOutcomes | Backend/src/models/auth.refresh.token.model.js:145-189 | every outcome of either form from the rows alone: revoked iff the hash's row is revoked; reused iff it is used and not revoked; absent iff there is no row and no voucher; conflict iff an insert is due and the successor hash is there; ok iff it is due and free |
| SessionLedger.RotateColumns | Backend/src/models/auth.refresh.token.model.js:145-189 | what a successful rotation writes, column by column: use and successor on the presented row, a fresh row with the recorded columns, nothing else |
| SessionLedger.RevokeColumns | Backend/src/models/auth.refresh.token.model.js:199-248 | what a revocation writes, column by column: time and reason on the named rows that have none yet, nothing else |
| SessionLedger.LedgerStore.Insert | Backend/src/models/auth.refresh.token.model.js:111-117 | a record is added exactly when its hash is new; a duplicate leaves the ledger as it was |
| SessionLedger.LedgerStore.Rotate | Backend/src/models/auth.refresh.token.model.js:145-161 | the in-place rotate gives the rows and outcome of the in-memory form, and those of the SQL transaction on unique hashes with a fresh successor; what these are is `RotateOutcomes` and `RotateColumns` |
| SessionLedger.LedgerStore.RevokeFamily | Backend/src/models/auth.refresh.token.model.js:199-215 | stamps exactly the unrevoked rows of the family, in place, and returns how many |
| SessionLedger.LedgerStore.RevokeUser | Backend/src/models/auth.refresh.token.model.js:225-248 | stamps exactly the user's unrevoked rows and names exactly the families it touched |
| SessionLedger.LedgerStore.LatestByFamily | Backend/src/models/auth.refresh.token.model.js:257-268 | the map it fills holds each family's latest revocation time and no other family |
| SessionLedger.LedgerStore.FindRevokedSince | Backend/src/models/auth.refresh.token.model.js:257-279 | one entry per family with a recent revocation, each with that family's latest time |
| SessionLedger.LedgerStore.PurgeExpired | Backend/src/models/auth.refresh.token.model.js:288-305 | the backward splice loop removes exactly min(limit, expired) expired rows and keeps the rest in order |
| SessionLedger.PurgeQuotaExact | Backend/src/models/auth.refresh.token.model.js:288-305 | how many rows a purge takes: none without a limit, the limit where more are expired, all expired ones where the limit allows |
| SessionLedger.PurgedEmbeds | Backend/src/models/auth.refresh.token.model.js:288-305 | what a purge keeps is an order-preserving selection of the old rows |
| SessionLedger.PurgedKeepsUnexpired | Backend/src/models/auth.refresh.token.model.js:288-305 | no unexpired row is ever purged |
| LedgerRuns.RotateOkExactly | Backend/src/models/auth.refresh.token.model.js:163-189 | without allowAbsent a rotation wins exactly on a live row with a fresh successor, and then only that row is consumed and linked to the one appended row; every other outcome leaves the ledger as it was |
| LedgerRuns.RunKeepsInv | Backend/src/models/auth.refresh.token.model.js:39-55 | over every run: unique hashes, USED_AT/REPLACED_BY and REVOKED_AT/REVOKE_REASON paired, at most one unused row per family, REPLACED_BY links forward and injective |
| LedgerRuns.LinksAcyclic | Backend/src/models/auth.refresh.token.model.js:39-41 | following REPLACED_BY never meets a token twice, in every reachable ledger |
| LedgerRuns.HistoryIsFinal | Backend/src/models/auth.refresh.token.model.js:45-55 | between any two states of a run a row never becomes unused or unrevoked, and its first use, revocation time and reason stay |
| LedgerRuns.SingleUse | Backend/src/models/auth.refresh.token.model.js:145-189 | in every run one token hash gets at most one "ok" rotation |
| LedgerRuns.ReuseDetected | Backend/src/models/auth.refresh.token.model.js:145-189 | over every run, presenting a hash again after its winning rotation answers reused iff its row is there and unrevoked, revoked iff it is revoked, absent iff it is gone |
| LedgerRuns.RevocationFinal | Backend/src/models/auth.refresh.token.model.js:199-248 | after a revocation covers a family every later rotation in it fails and all its rows stay revoked |
| LedgerRuns.AbsentBranchRevives | Backend/src/models/auth.refresh.token.model.js:145-189 | in an ended family an enabled rotation succeeds exactly when allowAbsent is set and the presented hash has no row: that branch never looks at the family |
| AccessRevocation.RetentionExact | Backend/src/services/AccessRevocationService.js:52-63 | remembering a family for the retention refuses every token minted before the revocation until it expires if and only if the lifetime is within the retention; with the lifetime parsed as configured, exactly up to the longest supported one |
| AccessRevocation.RevokedSessionSet.SweepExpired | Backend/src/utils/auth/RevokedSessionSet.js:118-138 | drops exactly the entries that no longer refuse anything at the given time |
| AccessRevocation.RevokedSessionSet.MakeRoom | Backend/src/utils/auth/RevokedSessionSet.js:118-138 | below the cap afterwards; a live entry is dropped only when the set was still at its cap after the expired ones left, and then the soonest-expiring one |
| AccessRevocation.RevokedSessionSet.Revoke | Backend/src/utils/auth/RevokedSessionSet.js:61-75 | keeps the later of two expiries for a family |
| AccessRevocation.RevokedSessionSet.Has | Backend/src/utils/auth/RevokedSessionSet.js:81-90 | refused while the remembered time lies ahead, forgotten in place once it has passed |
| AccessRevocation.Chunks | Backend/src/services/AccessRevocationService.js:147-156 | broadcast chunks concatenate to the list and respect the size limit |
| AccessRevocation.AccessRevocationService.ApplyLocal | Backend/src/services/AccessRevocationService.js:134-145 | every well-formed entry is remembered with its expiry, below the cap |
| AccessRevocation.AccessRevocationService.Revoke | Backend/src/services/AccessRevocationService.js:73-83 | remembers the named well-formed families for one retention from now, and broadcasts just these |
| AccessRevocation.AccessRevocationService.LoadRecent | Backend/src/services/AccessRevocationService.js:113-130 | a reload from the ledger merges the recently revoked families, each until its latest revocation plus the retention, into whatever the set holds, the later time winning; a failed query is swallowed and adds nothing |
| AccessRevocation.LoadedIsRemembered | Backend/src/services/AccessRevocationService.js:113-130 | remembering the reload list one by one gives the declared map, whatever its order |
| AccessRevocation.RememberAllMerges | Backend/src/services/AccessRevocationService.js:113-130 | remembering a list into a filled set is remembering it alone and merging |
| AccessRuns.RunKeepsInv | Backend/src/services/RefreshTokenService.js:60-155 | over every run in a configuration that covers: live tokens keep a ledger row, all rows of an ended family carry one stamp, no token is signed later than that stamp and the delay of its revocation, and what memory holds, or a reload has read, lasts as long as the tokens of its families |
| AccessRuns.Configured | Backend/src/constants/authTokens.js:100-103 | with the retention the process derives: covered exactly when a revocation takes no longer than the clock skew from stamp to commit, lifetime plus that delay is within the longest timer, and the lifetime within refresh lifetime plus one day of grace |
| AccessRuns.NamedAreChanged | Backend/src/services/RefreshTokenService.js:140-155 | the families a user's revocation names are those of the rows its update changes |
| AccessRefusal.RefusedExactly | Backend/src/middleware/authentication/AuthMiddleware.js:342 | in a configuration that covers, over every run: a live token is refused if and only if the process has been told of its family since its boot, by ending it itself, by the ledger's answer to a user's revocation, or by a reload that read the ledger after the family was ended there |
| AccessRefusal.OverExact | Backend/src/services/RefreshTokenService.js:112-153 | a family is over in a state if and only if an earlier step of the run ended it in the ledger |
| AccessRefusal.KnownWasShown | Backend/src/utils/auth/RefreshTokenRegistry.js:75-103 | the families that ending a user here covers were each signed in or presented here, with that user, since the boot |
| AccessRefusal.UserRevocationProceeds | Backend/src/services/RefreshTokenService.js:140-155 | a user's revocation begun here can reach the ledger, is answered with the families named there, and tells the process of all of them |
| AccessRefusal.RefusedUntilExpiry | Backend/src/services/AccessRevocationService.js:113-130 | a family ended in the ledger, then read and remembered by a reload after the last boot: its tokens are refused until they expire, whatever refreshes, purges and lookups lie between |
| AccessRefusal.EndHereRefuses | Backend/src/services/RefreshTokenService.js:106-155 | ending a family on this process refuses its tokens until they expire as long as the process lives, those of refreshes under way included |
| AccessRefusal.OnlyEndedRefused | Backend/src/services/AccessRevocationService.js:90-92 | no family is refused that no earlier step ended, here or in the ledger |
| AccessRefusal.RefusalExact | Backend/src/services/AccessRevocationService.js:52-130 | the told are refused in all runs if and only if lifetime plus the delay of a revocation is within the retention and the lifetime is at most refresh lifetime plus purge grace (plus the one millisecond a purge compares away), or no token lives at all |
| AccessRefusal.SkewNotNeeded | Backend/src/services/RefreshTokenService.js:106-128 | in runs that end families one by one, vetoed here before the ledger is called, the same equivalence holds with a retention of the lifetime alone, whatever the delay |
| AccessRefusal.BootWindowExact | Backend/server.js:655-667 | that tokens of families ended in the ledger are refused from then on, with no word of boots, holds in all runs only if no token lives at all |
| AccessRefusal.BootWindowRun | Backend/server.js:519-667 | after a boot, before a reload, the live token of a family ended in the ledger is accepted, in every configuration |
| AccessRefusal.FailedReloadRun | Backend/src/services/AccessRevocationService.js:126-129 | when the reload fails it is accepted up to the last millisecond of its life |
| AccessRefusal.BriefRetentionRun | Backend/src/services/RefreshTokenService.js:140-155 | with a retention below lifetime plus delay: a refresh of a session this process does not know succeeds between the stamp of a user's revocation and its commit, and after a boot the reload forgets the family before the new token expires |
| AccessRefusal.EarlyPurgeRun | Backend/src/services/AuthService.js:764-812 | with a lifetime beyond refresh lifetime and grace: the row is purged, and a reload finds nothing that names the family of a token that is still good |
| ChangelogStore.MigrateOnce | Backend/src/models/changelog.model.js:235-245 | migration is idempotent and changes exactly the entries that need it |
| ChangelogStore.MigrateKeepsText | Backend/src/models/changelog.model.js:235-245 | migration keeps every field but the three of the legacy form, keeps a message that says anything, and otherwise makes the summary the message |
| ChangelogStore.ApplyOpSettled | Backend/src/models/changelog.model.js:337-445 | no operation brings back the legacy form |
| ChangelogStore.ApplyOpSteady | Backend/src/models/changelog.model.js:337-445 | a store in which no entry needs migration and no entry an update can reach keeps a summary stays such a store under every operation |
| ChangelogStore.DeleteExact | Backend/src/models/changelog.model.js:404-414 | a delete fails exactly for an unknown id and otherwise removes that id and nothing else |
| ChangelogStore.UpdateExact | Backend/src/models/changelog.model.js:373-398 | an update fails exactly for an unknown id; else, at the first entry of the id, each of the eight fields is the given value or the old one, updatedAt is the given time, id, createdAt and summary stay, and so does every other entry |
| ChangelogStore.Store.ReadStore | Backend/src/models/changelog.model.js:254-284 | migrates every entry and rewrites exactly when one needed it |
| ChangelogStore.Store.Run | Backend/src/models/changelog.model.js:337-445 | create, update, delete and reset leave the entries that `ApplyOp` gives, or report the missing id; what it gives is `UpdateExact`, `DeleteExact` and, for create and reset, the added entry last and the seeded entries |
| ChangelogLock.MutualExclusion | Backend/src/models/changelog.model.js:144-221 | with hold time plus stat-to-verdict gap within LOCK_STALE_MS: at most one process between acquire and release, no steal, and the lockfile exists exactly then |
| ChangelogLock.NoLostUpdate | Backend/src/models/changelog.model.js:337-414 | within the timing bound and from a steady store, the stored entries equal the finished operations applied one by one in commit order, with the same outcomes |
| ChangelogLock.ExclusionExact | Backend/src/models/changelog.model.js:158-175 | mutual exclusion holds in every run from every start if and only if hold time plus stat-to-verdict gap is at most LOCK_STALE_MS |
| ChangelogLock.GivesUpLate | Backend/src/models/changelog.model.js:144-185 | over every run a waiter gives up no sooner than five seconds after it began, and only on a lockfile it saw no older than ten seconds |
| ChangelogLock.LockSteps | Backend/src/models/changelog.model.js:144-221 | the lockfile is made by an open that finds none, dated only by the process that made it, and goes with a release or a steal |
| ChangelogLock.FileSteps | Backend/src/models/changelog.model.js:254-284 | the store file changes only by a read under the lock, by a commit that found its entry, and by an unlocked migration |
| ChangelogLock.StealingRun | Backend/src/models/changelog.model.js:158-175 | beyond that bound a concrete run puts two processes in the critical section, whatever steady store they share |
| ChangelogLock.UnlockedMigrationLoses | Backend/src/models/changelog.model.js:254-284 | from any start that is not a steady store a reader that creates or migrates it without the lock can erase a created entry: at once, or after an update that clears a message above a leftover summary |
| ChangelogLock.OverwritingRun | Backend/src/models/changelog.model.js:158-175 | beyond the timing bound one of three finished creates is overwritten |
| ChangelogLock.NoLostUpdateExact | Backend/src/models/changelog.model.js:144-445 | from a given start no run loses an update if and only if the timing bound holds and the store file exists and is steady; otherwise a run stores fewer entries than its finished operations call for |
| AdminAccounts.AdminService.Fetch | Backend/src/services/AdminManagementService.js:978-1002 | finds the account by username |
| AdminAccounts.AdminService.Set | Backend/src/models/admin.model.js:585-613 | writes, or removes, the row of that username only |
| AdminAccounts.AdminService.IsLast | Backend/src/models/admin.model.js:335-367 | true exactly when the active SUPER_ADMIN ids include the target id and no other |
| AdminAccounts.AdminService.Run | Backend/src/services/AdminManagementService.js:373-850 | the in-place call gives the table and outcome of `Perform`; what these are is `OutcomeExact`, `DoneColumns` and `AddedColumns` |
| AdminAccounts.OutcomeExact | Backend/src/services/AdminManagementService.js:203-850 | the outcome of every call from the caller, the arguments and the rows alone, in the order in which the service looks; every outcome but Done leaves the table as it was |
| AdminAccounts.DoneColumns | Backend/src/services/AdminManagementService.js:466-850 | what a finished call leaves in the account's row, column by column: role, active flag, password, typed email and each notification flag as the call says, everything else as before; a delete removes that row alone |
| AdminAccounts.AddedColumns | Backend/src/services/AdminManagementService.js:373-451 | a new account has the given columns, a signature of its four signed ones, and stands behind the others |
| AdminAccounts.CallKeepsSignatures | Backend/src/models/admin.model.js:81-88 | every row that verified still verifies after any call, and the row a finished call wrote verifies |
| AdminAccounts.AppendOrNothing | Backend/src/services/AdminManagementService.js:373-451 | a refused call changes nothing; a new account is signed and its username was free |
| AdminAccounts.RunKeepsSignatures | Backend/src/models/admin.model.js:459-613 | over every sequential run a table of verified rows stays one, with unique usernames |
| AdminAccounts.StaleWriteExact | Backend/src/models/admin.model.js:540-583 | a write computed from an earlier read leaves a verified row if and only if the signed columns it does not write are still those it read |
| AdminAccounts.AdminCallerBounded | Backend/src/services/AdminManagementService.js:203-230 | a plain ADMIN's calls add only USER accounts and change only another USER's password |
| AdminRuns.CommitExact | Backend/src/models/admin.model.js:335-367 | a write transaction removes the last active SUPER_ADMIN if and only if it demotes the only one and its earlier read was not that very active SUPER_ADMIN |
| AdminRuns.RunKeepsSuper | Backend/src/services/AdminManagementService.js:525-567 | every interleaved run keeps an active SUPER_ADMIN as long as no target becomes one behind its call's back |
| AdminRuns.SequentialKeepsSuper | Backend/src/services/AdminManagementService.js:933-938 | calls executed one at a time keep an active SUPER_ADMIN without any such assumption |
| AdminRuns.PromotedBetween | Backend/src/services/AdminManagementService.js:933-938 | a run over signed rows: a target promoted between a call's read and write skips the guard, and the last SUPER_ADMIN is demoted |
| AdminRuns.ReaddedBetween | Backend/src/models/admin.model.js:335-367 | a run over signed rows: the guard compares ids, the write goes by username, so an account deleted and added again in between slips through |
| PurgeRegistry.AssertRegistryIntegrity | Backend/src/constants/purgeTables.js:227-264 | accepts exactly the registries with unique tables, allowed entries and edges to registered tables |
| PurgeRegistry.SortByTierCorrect | Backend/src/constants/purgeTables.js:206-211 | the order is sorted by tier, a permutation of the input, and stable within a tier |
| PurgeRegistry.DeleteOrderCorrect | Backend/src/constants/purgeTables.js:206-211 | the delete order visits exactly the registered tables of the selection, each once, by tier |
| PurgeRegistry.ComputeChildClosure | Backend/src/services/DataPurgeService.js:126-140 | the rounds end in the least set that contains the selection and every table referencing it |
| PurgeEngine.Database.CountRows | Backend/src/models/data-purge.model.js:149-159 | refused exactly for an unregistered name; otherwise each listed table's count is the number of its rows at or below the mark, or of all its rows where no mark applies |
| PurgeEngine.HitExact | Backend/src/models/data-purge.model.js:128-131 | a count and a delete are of the rows whose key is a number at or below the mark, for an append-only log with a mark, and of all rows otherwise |
| PurgeEngine.Database.DeleteTable | Backend/src/models/data-purge.model.js:544-548 | removes exactly the rows within the bound and returns their number |
| PurgeEngine.Database.DeleteInOrder | Backend/src/models/data-purge.model.js:578-596 | the table steps reach the purged database and report, per table and in total, what was counted before the purge |
| PurgeEngine.Database.PurgeTables | Backend/src/models/data-purge.model.js:578-596 | all or nothing: a failure at any table step restores every table; success reports per-table counts and their sum |
| PurgeEngine.PurgeOutcome | Backend/src/models/data-purge.model.js:128-131 | after the purge a row of a selected append-only log with a mark has multiplicity 0 if its key is a number at or below the mark and its old one otherwise; an ordinary table ends empty |
| PurgeEngine.UnselectedUntouched | Backend/src/models/data-purge.model.js:578-596 | a table outside the selection or the registry is untouched |
| PurgeEngine.ReportIsLoss | Backend/src/models/data-purge.model.js:587-595 | the reported deletions equal the loss in row count over the selected tables |
| PurgeIntegrity.OrderSafeExact | Backend/src/models/data-purge.model.js:550-560 | an order keeps every intact database intact after every table step, for all marks, if and only if every referencing table is emptied before the table it references |
| PurgeIntegrity.PurgeSafeExact | Backend/src/constants/purgeTables.js:199-211 | no purge of any child-closed selection can meet a dangling reference at any step if and only if children come before parents in tier (or registry order within a tier) and no append-only log references a table |
| PurgeIntegrity.SortKeepsBefore | Backend/src/constants/purgeTables.js:198-211 | an earlier entry with no higher tier stays earlier in the delete order |
| PurgeIntegrity.SelfCheckMissesTiers | Backend/src/constants/purgeTables.js:227-264 | a registry that passes the load-time self-check and whose purge still deletes a parent first |
| BackupStream.IdentifierExact | Backend/src/models/data-purge.model.js:468-477 | an identifier of any length survives as a digit string |
| BackupStream.ArchiveTellsApart | Backend/src/models/data-purge.model.js:466-500 | what the archive tells apart: texts, identifiers and microsecond stamps always, other times by their millisecond, other numbers by their double, and nothing passes for NULL |
| BackupStream.RowExact | Backend/src/models/data-purge.model.js:466-500 | an archive line has exactly the catalog's columns, each from the row's own value |
| BackupStream.QueryExact | Backend/src/models/data-purge.model.js:486-505 | the query delivers each matching row exactly as often as the table holds it, in strictly increasing key order, and no other row |
| BackupStream.StreamRows | Backend/src/models/data-purge.model.js:429-517 | the batches concatenate to the filtered table in key order, the total is their length, every page but the last is full, and an empty catalog or an unknown filter column is refused before a row is read |
| BackupStream.StreamTableFiltered | Backend/src/models/data-purge.model.js:236-241 | an empty filter list is refused before anything else; otherwise the filtered table is delivered |
| BackupStream.StreamAllTables | Backend/src/models/data-purge.model.js:324-356 | a bad name at any position reads nothing; otherwise every listed table's archive and total |
| BackupStream.ArchiveExact | Backend/src/models/data-purge.model.js:324-356 | a table's archive is its own rows, all of them in key order, under its own catalog and settings |
| RestoreBatch.Backfill | Backend/src/models/data-purge.model.js:710-718 | every row gets the union of all keys, with null where it had none and its own values otherwise |
| RestoreBatch.FirstDocumentExact | Backend/src/utils/oracle-mongo-wrapper/core/OracleCollection.js:805-935 | `insertMany` takes its columns from the first document: it stores what the documents hold, whatever the column defaults, if and only if the first document has every column any of them has; a column it lacks is lost from all rows, which the backfill prevents |
| RestoreBatch.AcceptsExact | Backend/src/utils/oracle-mongo-wrapper/core/OracleCollection.js:805-935 | an insert is refused iff there is no document, no column, or a value its column cannot hold |
| RestoreBatch.TextBound | Backend/src/models/data-purge.model.js:694-705 | identifier digits and texts are bound as archived; a text in any other NUMBER column becomes the number JavaScript makes of it |
| RestoreBatch.Table.InsertRestoreBatch | Backend/src/models/data-purge.model.js:657-727 | empty batch, missing catalog, refusal and success; on success the batch's rows are appended in order and the generated keys come back in row order |
| RestoreBatch.Table.RestoreInBatches | Backend/src/services/DataRestoreService.js:380-404 | goes through exactly when every batch is accepted and the restored natural keys are distinct, and then adds the rows of the batches in order; refused otherwise, also for archives that lack catalog columns |
| RestoreBatch.CompleteBatch | Backend/src/models/data-purge.model.js:681-718 | for rows that carry every catalog column, padding and column list change nothing |
| RestoreBatch.CompleteChunks | Backend/src/services/DataRestoreService.js:380-404 | for rows that carry every catalog column any batch size adds the same rows, and a restorable archive is accepted batch by batch |
| RestoreBatch.BatchSizeExact | Backend/src/services/DataRestoreService.js:380-404 | batch boundaries leave no trace, whatever the column defaults, if and only if all rows bring the same columns; where only some rows lack a column, a missing value is null or the default depending on its batch |
| BackupRoundTrip.CellRoundTrip | Backend/src/models/data-purge.model.js:688-705 | one value comes back unchanged if and only if it is a time in whole milliseconds, or an identifier, or a number that is the decimal its nearest double prints as, or neither time nor number; a canonical microsecond stamp is no exception |
| BackupRoundTrip.DoubleIsNotTheTest | Backend/src/models/data-purge.model.js:688-705 | 0.1 is no double and comes back; 2^60 is a double and comes back as 1152921504606847000, unless its column is an identifier |
| BackupRoundTrip.FifteenDigitsSurvive | Backend/src/models/data-purge.model.js:688-705 | every number of at most 15 significant digits within a NUMBER's range comes back, in any column, given that doubles tell such decimals apart, print with the fewest digits, and read back |
| BackupRoundTrip.AmountsSurvive | Backend/src/models/data-purge.model.js:688-705 | so every amount of up to 15 digits, four of them decimals, comes back |
| BackupRoundTrip.OneTripSettles | Backend/src/models/data-purge.model.js:688-705 | what one trip brings back survives every further one unchanged, and a second backup holds the same value, except for the microseconds of a canonical stamp |
| BackupRoundTrip.RoundTrip | Backend/src/models/data-purge.model.js:681-708 | every inserted column of every row comes back in place, unchanged exactly when faithful; the identity column takes the generated keys |
| BackupRoundTrip.IdentityBijection | Backend/src/models/data-purge.model.js:719-726 | old and new identity keys correspond one to one and in the same order |
| BackupRoundTrip.NaturalKeysDistinct | Backend/src/models/data-purge.model.js:681-708 | natural keys that survive stay distinct |
| BackupRoundTrip.BackupThenRestore | Backend/src/models/data-purge.model.js:429-727 | streaming a table and restoring it into an empty one goes through and returns the rows in key order, each column the source's exactly when its value is faithful, for every page and batch size |
| Shutdown.Configured | Backend/server.js:174-210 | both settings end up within their limits, and a legal setting is taken as it is |
| Shutdown.ComputeShutdownBudget | Backend/src/utils/shutdown/TeardownSequence.js:70-83 | phase, reserve and margin add up to the forced exit; grace and reserved drain fit the phase, the floor never binds, and the default setting gives the full request wait |
| Shutdown.StopHandlers.CrashShortens | Backend/server.js:1204-1215 | a crash during a stop pulls wait, phase deadline and failsafe in, never out |
| Shutdown.ShortenExact | Backend/src/utils/shutdown/TeardownSequence.js:273-286 | a shortened wait is cut within the given time from now, or when it would have been anyway, or at once if that is past |
| Shutdown.StopHandlers.GracefulShutdown | Backend/server.js:902-1063 | first call, re-entry with and without a crash, and a first call that dies before its budget is set |
| ShutdownRuns.BudgetHolds | Backend/server.js:125-148 | in every reachable state with a budget the reserve and margin fit between phase deadline and failsafe |
| ShutdownRuns.BudgetHoldsForEnvironment | Backend/server.js:174-210 | the same for every pair of environment settings |
| ShutdownRuns.OnlyTightens | Backend/server.js:881-1215 | over every run the failsafe and the phase deadline never move later and the exit code never drops |
| ShutdownRuns.FailsafeExact | Backend/server.js:921-929 | over every run the failsafe fires exactly at the forced exit counted from the first stop call, or 44 s after the first crash call if that is sooner |
| ShutdownRuns.CleanStopBound | Backend/server.js:921-929 | with a stop under way the failsafe fires no later than the forced exit after its start, and exactly then while no stop call with a positive exit code has come |
| ShutdownRuns.PhaseExact | Backend/server.js:125-148 | the phase ends exactly 19 s before the forced exit, or 10 s and the drain after the first crash call if that is sooner |
| ShutdownRuns.DrainTime | Backend/src/utils/shutdown/TeardownSequence.js:85-94 | a drain gets its whole time where the phase has room, what is left of the phase where not, and none once it is over |
| ShutdownRuns.WaitStaysOver | Backend/src/utils/shutdown/TeardownSequence.js:125-300 | a wait that has ended, or had nothing to wait for, stays over |
| ShutdownRuns.CrashMakesExitNonZero | Backend/server.js:854-859 | once a crash handler has run every later exit is non-zero |
| ShutdownRuns.CrashBoundsHold | Backend/server.js:139-143 | from the first crash call at c on: failsafe by c + 44 s, phase deadline by c + 10 s + drain, requests cut within 10 s |
| ShutdownRuns.DrainEndsInPhase | Backend/src/utils/shutdown/TeardownSequence.js:85-94 | a drain begun before the phase deadline ends by every later phase deadline, even when a crash pulls it in meanwhile |
| ShutdownRuns.GraceEndsInPhaseExact | Backend/src/utils/shutdown/TeardownSequence.js:48-83 | the request cut falls within the phase if and only if the steps between trigger and wait took no longer than a closed-form slack; otherwise it is late by no more than those steps |
| IntegritySweep.SweepTampered | Backend/src/models/integrity.model.js:203-245 | the batch loop ends on every table and computes the specified sweep |
| IntegritySweep.BatchSize | Backend/src/models/integrity.model.js:207 | a positive batch option is used, a negative one gives 1, and none or zero gives 5000 |
| IntegritySweep.RowCap | Backend/src/models/integrity.model.js:208 | a cap option above the batch is used, a smaller one is raised to one batch, and none or zero gives 200000 |
| IntegritySweep.FilterBelow | Backend/src/models/integrity.model.js:217-238 | below the key of its m-th row an ordered slice is its first m rows |
| IntegritySweep.AppendedUnseen | Backend/src/models/integrity.model.js:217-238 | rows appended with larger keys are seen by no later query |
| IntegritySweep.SweepCorrect | Backend/src/models/integrity.model.js:203-245 | without a key filter: the failing rows of the slice in descending key order if not truncated, otherwise of its top rowsScanned rows with cap <= rowsScanned < cap + batch, while rows are appended |
| IntegritySweep.KeyFilterForgotten | Backend/src/models/integrity.model.js:218-227 | with batches of one the second query drops the filter on the key column and scans a row outside the slice |
| IntegritySweep.AlwaysCorrectExact | Backend/src/models/integrity.model.js:169-245 | the sweep is right on every table if and only if there is no key filter, or the batch is at least 2, or the cap is 1 |
| AuditAggregate.SinglePass | Backend/src/models/audit.log.file.model.js:593-604 | one pass computes total, response time and the four counts by definition |
| AuditAggregate.StatsExtend | Backend/src/models/audit.log.model.js:268-278 | one more record counts once, adds its response time if it has one, and falls in the bucket of its trimmed category |
| AuditAggregate.ReduceCategoryGroups | Backend/src/models/audit.log.model.js:280-298 | the reduction sums counts, response times and trimmed categories |
| AuditAggregate.ReducedExtend | Backend/src/models/audit.log.model.js:280-298 | one more group row counts its records, adds its sum if it has one, and falls in the bucket of its trimmed category |
| AuditAggregate.GroupsCountParts | Backend/src/models/audit.log.model.js:200-262 | summing group rows counts the records they stand for |
| AuditAggregate.OrderIrrelevant | Backend/src/models/audit.log.model.js:200-262 | the statistics do not depend on the order of the records |
| AuditAggregate.GroupingAgrees | Backend/src/models/audit.log.model.js:200-298 | every grouping of the records reduces to the single pass's statistics |
| AuditAggregate.TotalReconciles | Backend/src/models/audit.log.model.js:268-278 | the total is the four buckets plus the uncategorised rest |
| AuditAggregate.RoundedAverage | Backend/src/models/audit.log.model.js:259-262 | the mean response time rounded to the nearest whole number, halves upwards, and 0 for no records |
| AuditAggregate.UniqueUsersExact | Backend/src/models/audit.log.model.js:206-208 | the query never reports fewer users than the file, and they agree on every list if and only if the dropped clauses are implied by the rest |
| AuditAggregate.PlainFilterAgrees | Backend/src/models/audit.log.model.js:206-208 | without $or and without a USER_ID condition the two counts agree on every list |
| AuditAggregate.UserConditionExact | Backend/src/models/audit.log.model.js:206-208 | without $or and with the other clauses on other columns: the counts agree on every list if and only if the USER_ID condition turns no user away or the other clauses match nothing |
| AuditAggregate.UserFilterParts | Backend/src/models/audit.log.model.js:206-208 | a filter on USER_ID parts the two counts even without $or |
| AuditFile.LogFile.InsertBatch | Backend/src/models/audit.log.file.model.js:436-453 | one append adds the batch's lines and nothing else |
| AuditFile.LogFile.ReadJsonLines | Backend/src/models/audit.log.file.model.js:264-285 | the loop returns what splitting, trimming and parsing yield, and nothing from a file over the cap |
| AuditFile.TrimExact | Backend/src/models/audit.log.file.model.js:264-285 | trimming takes the blanks off both ends of a line, all of them and nothing else |
| AuditFile.SplitAtNewline | Backend/src/models/audit.log.file.model.js:271 | splitting is compositional at newlines |
| AuditFile.AppendsReadBack | Backend/src/models/audit.log.file.model.js:146-173 | any sequence of appends reads back as exactly the concatenated records |
| AuditFile.ReadBackExact | Backend/src/models/audit.log.file.model.js:264-285 | with the cap: the records come back if and only if the file is within it or holds none |
| AuditFile.TornLine | Backend/src/models/audit.log.file.model.js:259-285 | a torn line harms no earlier record and none after the next newline; only the record glued to it depends on whether the glued text parses |
| AuditStorage.OnePlace | Backend/src/models/audit.log.model.js:82-94 | each write begun is in exactly one of database, file, in flight or thrown |
| AuditStorage.DowngradeExact | Backend/src/models/audit.log.model.js:82-94 | the mode is the file fallback if and only if a database write has failed |
| AuditStorage.LostExact | Backend/src/models/audit.log.model.js:82-94 | in auto mode a failing write throws, and its record is stored nowhere unless its caller tries again, if and only if another write failed before it |
| AuditStorage.RetryLands | Backend/src/services/AuditLogService.js:277-295 | a caller that puts a thrown write back and tries again only delays it: the second attempt is in the file at once, for good, and is not thrown again |
| AuditStorage.SequentialLosesNothing | Backend/src/models/audit.log.model.js:82-94 | with one write in flight at a time auto mode loses nothing |
| AuditStorage.OverlapLoses | Backend/src/models/audit.log.model.js:82-94 | a run in which the second of two overlapping refused writes is thrown, so that it is in neither store |
| AuditStorage.FixedModesStay | Backend/src/models/audit.log.model.js:47-69 | database mode never touches the file, file mode never the database, and neither changes |
| AuditStorage.SettingDecides | Backend/src/models/audit.log.model.js:47-94 | over every run: "file" writes nothing to the database, "db" nothing to the file and throws what fails, any other setting sends the first failure and every write after it to the file |
| AuditStorage.Storage.WriteWithFallback | Backend/src/models/audit.log.model.js:82-94 | where one write lands, what it throws, and the permanent downgrade |
| BackupVotes.VoteStore.Cast | Backend/src/models/backup-vote.model.js:110-150 | a vote is added exactly when this admin has none on the archive |
| BackupVotes.VoteStore.CancelRequest | Backend/src/models/backup-vote.model.js:158-172 | the backward splice removes exactly the archive's votes, in order, and counts them |
| BackupVotes.VoteStore.RequestDelete | Backend/src/controllers/DataPurgeController.js:403-471 | the request handler with all its replies |
| BackupVotes.VoteStore.VoteDelete | Backend/src/controllers/DataPurgeController.js:481-562 | the vote handler with all its replies |
| BackupVotes.VoteStore.CancelDelete | Backend/src/controllers/DataPurgeController.js:572-602 | the cancel handler with all its replies |
| BackupVotes.RequestExact | Backend/src/controllers/DataPurgeController.js:403-471 | each reply of the request handler and the state it leaves, from the archives and votes alone |
| BackupVotes.VoteExact | Backend/src/controllers/DataPurgeController.js:481-562 | the same for the vote handler: one vote with the request's own requester is added, all votes are counted, and the least majority decides |
| BackupVotes.CancelExact | Backend/src/controllers/DataPurgeController.js:572-602 | the same for the cancel handler: the archive's votes are gone, every other vote and every archive stays |
| BackupVotes.FindAllPendingVotes | Backend/src/models/backup-vote.model.js:76-98 | one group per archive with pending votes, holding exactly that archive's votes in order and its requester |
| VoteRuns.RunKeepsInv | Backend/src/models/backup-vote.model.js:110-150 | over every run no admin has two votes on an archive, and a request's votes name the admin who cast its first vote |
| VoteRuns.CountIsDistinct | Backend/src/models/backup-vote.model.js:180-185 | the row count is the number of distinct voters |
| VoteRuns.DeleteExact | Backend/src/controllers/DataPurgeController.js:481-541 | a handler deletes if and only if it is admitted, nothing depends on the archive, and twice the distinct voters exceed the active SUPER_ADMINs it read; only that archive and its votes go |
| VoteRuns.OnlyDeletionRemoves | Backend/src/services/BackupStoreService.js:1572-1612 | an archive leaves only by retention or by a handler that met the quorum |
| VoteRuns.VotersHaveCast | Backend/src/models/backup-vote.model.js:110-150 | every counted voter's own handler ran since the request was opened |
| VoteRuns.MajorityExact | Backend/src/controllers/DataPurgeController.js:515-541 | for every set of voters and every active set that leaves the given ones stale: a count above half the active SUPER_ADMINs is a strict majority of them if and only if no voter is stale |
| VoteRuns.DeletionMajorityExact | Backend/src/controllers/DataPurgeController.js:481-562 | over runs: every deletion the run can go on with at this call, whatever active set leaves the given counted voters stale, has a strict majority of those active if and only if none is stale |
| VoteRuns.DeletionByMajority | Backend/src/controllers/DataPurgeController.js:515-541 | with every counted voter still active a deletion is backed by a strict majority |
| VoteRuns.DemotedVoterCounts | Backend/src/controllers/DataPurgeController.js:515-541 | a run that deletes with one vote of two active SUPER_ADMINs, because a demoted requester still counts |

## Left out

- Oracle's statement-level read consistency between a rotation and a concurrent revocation: each ledger call is one atomic step.
- Clocks, generated ids, hashes, passwords and signatures: parameters, with signing an arbitrary function of the signed columns.
- Other cluster workers and the delivery of revocation broadcasts: the runs are those of one process, with revocations left over from processes that died.
- AccessRefusal.RefusedExactly: assumes sets below their caps, one clock, and access and refresh token signed together for fixed lifetimes; the lifetimes it needs are exact (`AccessRefusal.RefusalExact`).
- ChangelogLock.NoLostUpdate: assumes the timing bound and a steady store; `ChangelogLock.NoLostUpdateExact` shows that it fails without either.
- Which of several live entries leaves a full revocation set first: the runs stay below the caps.
- A sign-in is one step; of the refresh registry only its vetoes and the families it knows are kept, and its own finding of a reused token is a step that ends the family.
- How long a revocation takes from its stamp to its commit: at most a bound, the `delay` of a configuration.
- AccessRevocation.AccessRevocationService.ApplyLocal: live event streams of an ended family are not modelled.
- The encryption of the changelog file, its directory, sorting for display, and the length of a waiter's sleep.
- Liveness and fairness of the changelog lock, a holder that dies, and a torn file write.
- Email delivery, backup tokens and session ending around admin calls: one flag says whether they let a call through.
- Role checks made by the routes rather than by the services, and the tables' NOT NULL constraints: taken as given.
- Oracle's handling of statements, constraints other than keys, and values it converts by itself beyond what a backup holds: uninterpreted.
- ORA-01555 during a multi-table read, and the per-table read that is not read-consistent: reads are of one snapshot.
- Foreign-key remapping and re-signing after a restore, virtual columns' own values, and identifier columns that hold fractions.
- How JavaScript rounds to a double and prints one: `round` and `decimal` are any two functions on the reals.
- RestoreBatch.Table.InsertMany: the bind type the driver infers from the first non-null value of a column is not modelled.
- Texts of timestamps: an archived time is its number of milliseconds or microseconds; time zones are left aside.
- What runs inside a teardown step, the emails, and the timers' own delay: the model has the times the steps are given.
- Whether a wait for requests ended by its last request or by its cut: one event.
- ShutdownRuns.DrainEndsInPhase: assumes a clock that does not go back between events; every other shutdown theorem does without.
- IntegritySweep.SweepTampered: batch sizes and caps are whole numbers; the building of the filter is a predicate on rows and at most one key.
- Keys beyond the range in which JavaScript numbers are exact, in the tamper sweep.
- AuditFile.LogFile.InsertBatch: a failed append is logged and swallowed; one file, without day directories and rollover.
- The audit queue's own limits: its cap, which drops the oldest records, and its timers; a batch stays one write.
- The list, live-tail and delete operations of the audit and integrity models.
- BackupVotes.VoteStore.VoteDelete: vote times; votes stand in the order they were cast.
- The archive store's files, signatures and retention schedule: an archive is an id and the ids it takes tables from.
- The frontend, routes, Express wiring, logging and server-sent events.
