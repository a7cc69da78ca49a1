# A verified model of the gateway's stateful logic

The gateway (a Python service in front of an upstream tool server) keeps its accounts, tool flags and
audit rows in a primary store, copies them into an append-only snapshot store, applies its schema
migrations from several instances at once without a database lock, and paces its callers. This
project models that logic in Dafny and proves what it is for. `dafny verify dfyconfig.toml` checks
everything.

| file | models |
|---|---|
| `SqlScanner.dfy` | the SQL scanner, and an independent grammar of the chunk lists it accepts |
| `SqlRewrite.dfy` | `?` to `$n` for Postgres, `?` to `%s` for MySQL, and what each binds |
| `SqlSplit.dfy` | splitting on `;`, stripping, and splitting the result again |
| `MigrationTable.dfy` | `schema_migrations` and its guarded statements |
| `MigrationProtocol.dfy` | any number of runners, statement by statement, with lost acknowledgements, DDL failures, crashes and a clock |
| `MigrationRunner.dfy` | the claim loop and the runner as methods, for a runner that is alone |
| `IsoTime.dfy` | UTC datetimes, `isoformat()`, byte order, and the ids one manager issues |
| `SnapshotStore.dfy` | the snapshot tables and their statements |
| `BackupManager.dfy` | run, discard and prune as methods under an arbitrary schedule of faults and one crash |
| `SnapshotLog.dfy` | runs, prunes and explicit deletes interleaved on one store: orphans and half snapshots |
| `Restore.dfy` | restoring a snapshot into the primary, and the backup/restore round trip |
| `SessionMonitor.dfy` | the session check: which credential is used, and what may be written |
| `RateLimiter.dfy` | the sliding-window limiter over whole call histories |
| `Pacing.dfy` | in-flight slots per (caller, tool) over any interleaving of calls |
| `ConnectRetry.dfy` | the bounded connect retry and its total sleep |
| `Decimals.dfy`, `Collections.dfy`, `Wrappers.dfy` | decimal numerals; sequences and finite sets; `Option` and `Result` |

Code that works in place in the source is a class or a method with a loop here, proved against a
function on values; what the source promises is then proved about that function, or about all runs of
a transition system whose steps are single SQL statements or single stretches between two suspension
points.

## Where the code differs from what is written about it

The model follows the code; each point is a proved statement.

- A take-over does not only hit dead owners. After one, two runners execute the same version, and the
  old owner returns normally although the version is not applied
  (`MigrationProtocol.TakeOverFromSlowOwner`); two executors come about exactly when the owner was
  still at it (`MigrationProtocol.TakeOverMakesTwo`). At most one runner executes a version, plus one per take-over
  (`MigrationProtocol.DdlConcurrency`).
- An unsettled row whose `name` is NULL can never be claimed or taken over, since `name = NULL` matches
  nothing; `MigrationRunner.ObstructionFreedom` shows that these rows are the only obstacle.
- `$n` placeholders are not always `$1` to `$n`: a code `?` or `$` directly before a digit spoils it, and
  nothing else does (`SqlRewrite.PgPlaceholdersInOrder`).
- `_mysql_prepare` also replaces a `?` inside a literal or a comment, so the two dialects expect the same
  number of arguments exactly when every `?` is code (`SqlRewrite.DialectsCountAlike`,
  `SqlRewrite.DialectsBindAlike`).
- `_mysql_prepare` leaves `%` alone when there are no parameters, because nothing is interpolated then.
  The callers turn its None into an empty tuple (app/db.py:1100 and 1124); under a driver that formats
  with an empty tuple, a statement without parameters is sent as written exactly if it holds no `%`
  (`SqlRewrite.MySqlBindsInOrder`).
- Statements joined with a plain `;` do not always split back: a line comment at the end of one swallows
  the joint, and nothing else goes wrong (`SqlSplit.PlainJointExact`). With a newline before the `;`
  they always split back.
- The backup guide says a half snapshot never exists for the fallback to pick up. One does whenever a
  run is cut short between its index insert and its last row, or a delete after its first row:
  `SnapshotLog.CrashLeavesHalfSnapshot` is an instance, `SnapshotLog.HalfSnapshotExactly` the exact
  condition. Not only a crash does it. A run also returns with a half snapshot left when the index
  insert works but its acknowledgement is lost, for no discard follows
  (`BackupManager.EndedRunKeepsComplete`); when its discard fails (`BackupManager.HalfSnapshotShows`);
  and when its prune stops midway (`BackupManager.HalfPrunedShows`).
- `account_from_newest_snapshot` is described as reading the newest snapshot. It reads the newest row of
  the label in any snapshot, which is an older one exactly when the newest snapshot has no row of it
  (`SessionMonitor.OlderRowIsPicked`, `SessionMonitor.NewestRowOfNewestSnapshot`).
- The limiter's window is half-open. A cleanup drops a bucket whose last hit is exactly 60 seconds old
  although that hit would still count (`RateLimiter.CleanupForgetsAtSixty`). For closed windows the bound
  fails after `RateLimiter.FloodBreaksTheClosedBound`, holds while no cleanup runs
  (`RateLimiter.NoCleanupNoOverfill`), and `RateLimiter.ClosedWindowBound` is the exact condition.
- An overlapping call is not always delayed: the gap drawn can be zero when the minimum gap is
  (`Pacing.AdmissionIsExact`).

## Model

| member | source | states |
|---|---|---|
| SqlScanner.ScanSql | app/db.py:89-143 | the scanning loop yields the chunk list of the recursive scanner, and refuses the same inputs with the same error |
| SqlScanner.ScanAgreesWithGrammar | app/db.py:89-143 | scanning gives `cs` if and only if `cs` is a well-formed chunk list (an independent grammar of quotes, escapes, comments and lookahead) whose texts concatenate to the input |
| SqlScanner.ScanIsLexed | app/db.py:89-143 | the chunks of an accepted text are well formed and concatenate to it |
| SqlScanner.LexedIsScan | app/db.py:104-143 | a well-formed chunk list is recovered by scanning its text |
| SqlScanner.DialectsAgree | app/db.py:92-109 | on a text without a backslash the two literal dialects scan alike |
| SqlScanner.RefusalsAreExact | app/db.py:134-143 | a text is refused for an unterminated literal if and only if its chunks end inside a quote, and for an unterminated comment if and only if they lead up to a block comment that nothing ends |
| SqlScanner.QuotedIsNoCode | app/db.py:108-126 | any text in single, double or back quotes that holds neither that quote nor a backslash is no code |
| SqlScanner.CommentIsNoCode | app/db.py:127-139 | a line comment without a newline, and a block comment without an earlier end, is one chunk that is no code |
| SqlScanner.PlainIsCode | app/db.py:140-141 | a text without quotes, `-` and `/` is code, one chunk a character |
| SqlScanner.BackslashTellsDialectsApart | app/db.py:99-112 | a backslash before the closing quote escapes it in the one dialect and not in the other, and in back quotes never |
| SqlRewrite.PgRewrite | app/db.py:1042-1055 | the numbering loop gives the rewritten text of the scanned chunks, or the scanner's error |
| SqlRewrite.PgRefusesTheUnscannable | app/db.py:1042-1055 | exactly the texts the scanner refuses are refused, with its error |
| SqlRewrite.PgPreservesLexing | app/db.py:1042-1055 | scanning the rewritten statement gives the input's chunks with only the code `?` replaced, by code `$` and digits |
| SqlRewrite.PgIsIdempotent | app/db.py:1042-1055 | literals, identifiers and comments survive byte for byte, no code `?` is left, and rewriting again changes nothing |
| SqlRewrite.PgPlaceholdersInOrder | app/db.py:1042-1055 | the placeholders a server reads off the output are `$1` to `$n` in order, n the number of code `?`, if and only if no code `?` or `$` is directly followed by a code digit |
| SqlRewrite.MySqlBindsInOrder | app/db.py:1057-1063 | for every text: with arguments, %-formatting succeeds exactly when there is one per `?`, and then the i-th `?` is the i-th argument and every `%` is intact; without arguments the text is sent untouched if and only if the driver does not format an empty tuple or the text holds no `%` |
| SqlRewrite.DialectsBindAlike | app/db.py:1042-1063 | Postgres and MySQL end up with the same bound text for every list of arguments if and only if no code `?` or `$` touches a digit and every `?` is code; without a code `?` the latter is not needed, but no `%` may occur if the driver formats the text |
| SqlRewrite.DialectsCountAlike | app/db.py:1042-1063 | both dialects expect the same number of arguments if and only if every `?` is code |
| SqlSplit.StripAll | app/db.py:1078 | the non-empty stripped pieces, in order |
| SqlSplit.StripIsExact | app/db.py:1078 | stripping takes away the white space around a text and nothing else |
| SqlSplit.PieceAccounted | app/db.py:1078 | every piece appears stripped in its place, or is left out if nothing remains of it |
| SqlSplit.SplitStatements | app/db.py:1065-1085 | the splitting loop gives the stripped pieces between code `;`, or refuses unscannable text, and parameters for several statements |
| SqlSplit.ParametersNeedOneStatement | app/db.py:1079-1084 | two or more statements joined with newline and `;` are refused with their number if there are parameters, and split back otherwise |
| SqlSplit.ParametersOnlyRefuse | app/db.py:1079-1085 | for every text: an accepted split with parameters has at most one statement and is the split without parameters; the refusal for n statements means exactly that it splits into n >= 2 |
| SqlSplit.SplitRebuildsInput | app/db.py:1070-1077 | before stripping, the pieces joined by `;` are the input |
| SqlSplit.SplitGivesStatements | app/db.py:1065-1085 | every returned statement is non-empty, stripped, scans cleanly alone, and holds no code `;` |
| SqlSplit.StatementSplitsToItself | app/db.py:1065-1085 | splitting a statement gives just that statement, with or without parameters |
| SqlSplit.SplitJoinSplit | app/db.py:1065-1085 | splitting, joining with newline and `;`, and splitting again gives the same statements |
| SqlSplit.PlainJointExact | app/db.py:1065-1085 | statements joined with a plain `;` split back to themselves if and only if none but the last has a line comment as its last chunk |
| SqlSplit.PlainJointLosesStatements | app/db.py:1065-1085 | a family of inputs on which a plain `;` joint loses a statement: the comment takes in the joint and the next statement |
| SqlSplit.DialectsSplitAlike | app/db.py:1073 | both dialects split a text without a backslash alike |
| MigrationTable.MigrationIO.InsertClaim | app/db.py:595-600 | the claim is inserted only if the version has no row |
| MigrationTable.MigrationIO.Finalise | app/db.py:611-616 | only the unsettled row that carries the caller's claim is settled |
| MigrationTable.MigrationIO.Release | app/db.py:618-623 | only the unsettled row that carries the caller's claim is deleted |
| MigrationTable.MigrationIO.TakeOver | app/db.py:625-630 | compare-and-swap on the stale name of an unsettled row; a NULL stale name matches nothing |
| MigrationProtocol.SettledForever | app/db.py:611-630 | in every continuation of every run, a row with `applied_at` set neither changes nor disappears |
| MigrationProtocol.OnlyTheHolderSettles | app/db.py:946-961 | the one step that settles a row is the finalise of a runner that holds it and has run all its statements in order |
| MigrationProtocol.AppliedBySomeRunner | app/db.py:946-1000 | in every run, a version that became applied was settled by exactly such a runner, and the row it holds now is that runner's |
| MigrationProtocol.InvOfRun | app/db.py:946-1000 | the protocol invariant holds after every run from a table with foreign claims only |
| MigrationProtocol.DdlConcurrency | app/db.py:969-1000 | at most 1 + (take-overs of the version) runners are between claim and settle of a version |
| MigrationProtocol.MutualExclusion | app/db.py:946-1000 | without a take-over of the version, a runner that executes it holds its unsettled row and is the only one, so no statement of an applied version runs |
| MigrationProtocol.AppliedInOrder | app/db.py:946-1000 | a version that was never taken over is applied as soon as a later one is claimed or a runner has gone past it |
| MigrationProtocol.PastMeansCompleted | app/db.py:946-1000 | in every run, take-overs included, a runner past version k, or one that returned, means that k was applied at the start or some runner ran all its statements |
| MigrationProtocol.DeadlineIsAMinute | app/db.py:78-79 | in every run, the deadline of a runner claiming a version is 60000 ms after it began the version, and one about to take over is past it |
| MigrationProtocol.TakeOverWaitsAMinute | app/db.py:976-988 | every take-over in a run comes at least 60000 ms after the same runner began the version |
| MigrationProtocol.FailureReleasesTheClaim | app/db.py:957-966 | a runner whose statement failed ends with an error and, once the release gets through, without its claim, no other row being touched |
| MigrationProtocol.TakeOverFromSlowOwner | app/db.py:984-996 | a reachable run in which two runners execute one version and the first returns with the version not applied |
| MigrationProtocol.TakeOverMakesTwo | app/db.py:984-996 | a take-over dispossesses the owner, and leads to both executing the version, if and only if the owner is live: executing it, or about to after reading its own claim |
| MigrationRunner.ClaimVersion | app/db.py:969-1000 | alone, the loop owns every version that is neither applied nor unclaimable and touches no other row, in at most 241 insert/read rounds, 250 ms of sleep being asked for between two, and at most one take-over; it takes over or gives up only after 60000 ms |
| MigrationRunner.RunStatements | app/db.py:952-955 | statements run in order up to the first failure |
| MigrationRunner.RunOwned | app/db.py:952-966 | a claimed version ends settled with all its statements run in order, or, after the first failure, with its row gone |
| MigrationRunner.ApplyMigrations | app/db.py:946-967 | the runner's table, executed statements and outcome are those of the recursive specification, with at most 241 rounds and one take-over for each version |
| MigrationRunner.MigrateSqlite | app/db.py:927-944 | the file has every version applied when the run finishes and the COMMIT succeeds; after any other ending, a failing COMMIT included, the whole table is as it was |
| MigrationRunner.RunKeepsOthers | app/db.py:946-967 | versions before the stopping point are applied, settled and unrelated rows are untouched, a version whose statements failed has no row left |
| MigrationRunner.AppliedRows | app/db.py:946-956 | the row of each newly applied version carries that version's name and its stamp |
| MigrationRunner.AppliedInFull | app/db.py:952-956 | every statement of a newly applied version has been executed |
| MigrationRunner.ExecutesOnlyUnapplied | app/db.py:949-955 | a run executes nothing of a version that was applied before |
| MigrationRunner.ObstructionFreedom | app/db.py:946-1000 | from any table, a lone run whose DDL succeeds ends with every version applied if and only if no listed version has an unsettled row with a NULL name |
| MigrationRunner.SecondRunIsIdle | app/db.py:946-951 | a run over applied versions executes nothing and changes nothing |
| IsoTime.IsoSortsAsTime | app/backup.py:65-78 | byte order of printed UTC datetimes is chronological order, although the fraction is left out at microsecond 0 |
| IsoTime.ParseUndoesPrint | app/backup.py:73-77 | reading back what `isoformat()` printed gives the same datetime |
| IsoTime.IsoText | app/backup.py:77-78 | the printed form, with its widths, separators, the fraction left out at zero, and the offset |
| IsoTime.NextMicroIsNext | app/backup.py:75-76 | adding one microsecond gives a valid later datetime with nothing in between |
| IsoTime.DaysBeforeIsExact | app/backup.py:204-205 | subtracting n days goes back exactly n days of the calendar at the same time of day, and overflows exactly when the calendar does not go back that far |
| IsoTime.BeforeYearIsGregorian | app/backup.py:204-205 | the days before a year, counted year by year, are those of the closed form of the Gregorian calendar |
| IsoTime.KnownLeapDays | app/backup.py:204-205 | 29 February exists in 2028 and 2000, and not in 2027 or 2100 |
| IsoTime.KnownOrdinals | app/backup.py:204-205 | the day numbers of 1 January 1970, 29 February 2024 and 31 December 2000 |
| IsoTime.NextDayUndoesPrevious | app/backup.py:204-205 | the calendar step back is the inverse of the step forward |
| IsoTime.NextIdNotBefore | app/backup.py:65-78 | an id is later than the previous one and never earlier than the clock reading |
| IsoTime.NextIdIsLeast | app/backup.py:72-78 | the id is the earliest datetime that is later than the previous id and not before the clock |
| IsoTime.IdsIncrease | app/backup.py:65-78 | for any sequence of clock readings, backward steps included, the ids one manager issues strictly increase in byte order |
| BackupManager.BackupManager.NextSnapshotAt | app/backup.py:65-78 | the id is the print of the next id of the clock sequence, parsed from the previous one |
| BackupManager.BackupManager.DeleteSnapshotRows | app/backup.py:228-233 | wherever it stops, a prefix of the five deletes has been applied, child rows first; all of them when it succeeds; it stops only at a statement whose fault explains it |
| BackupManager.BackupManager.WriteSnapshot | app/backup.py:153-192 | wherever it stops, a prefix of each dump has been inserted and nothing else changed; with a fresh id it stops only at a statement whose fault explains it |
| BackupManager.PurgeAnywhere | app/backup.py:228-233 | stopping the deletes anywhere leaves no orphan and no other snapshot changed, and finishing later gives the store of one complete delete |
| BackupManager.WrittenAnywhere | app/backup.py:153-192 | stopping the inserts anywhere leaves no orphan and no other snapshot changed, and discarding gives back the store |
| BackupManager.PruneIsComplete | app/backup.py:195-222 | from any store, orphans and half-deleted snapshots included, a prune leaves no row older than the cutoff in any of the five tables and every other snapshot as it was; pruning again changes nothing |
| BackupManager.PruneResumesLater | app/backup.py:195-222 | after a prune that stopped anywhere, a prune with the same or a later cutoff gives the store it would have given without it |
| BackupManager.BackupManager.Prune | app/backup.py:195-226 | every exit is a resumable partial prune that has removed some expired snapshots and the first deletes of at most one more; success means complete, with the exact number of expired ids and the oldest id left; with no fault it succeeds; it never raises |
| BackupManager.CutoffIsDaysAgo | app/backup.py:204-205 | the cutoff is the print of the moment exactly that many days ago, and there is none only before year 1 |
| BackupManager.BackupManager.DiscardSnapshot | app/backup.py:235-240 | a discard that works has applied all five deletes; one that does not had a delete that faulted |
| BackupManager.BackupManager.ClaimAndWrite | app/backup.py:104-117 | index row first, then the rows; a failure among the rows is followed by the five deletes of the discard, up to one that faults; the run dies only if a statement's fault is the death of the process |
| BackupManager.BackupManager.RunLocked | app/backup.py:88-151 | every exit of a run meets the run contract, which names the store each one leaves, under any faults and a crash anywhere; with a fresh id, one failed row insert and no other fault end in a discard that leaves the whole store as it was; a half-written snapshot is left only if a delete of its discard faulted or the process died; an id that is taken leaves the whole store as it was; with no fault and a fresh id the run is ok |
| BackupManager.OneRowFaultIsDiscarded | app/backup.py:111-117 | by the statements sent: if only one of them faults, a row insert, and the process lives, the run has failed with a discard that worked |
| BackupManager.OkRunHoldsTheDumps | app/backup.py:100-144 | after an ok run the snapshot's rows are exactly the four dumps, and the index counts are their lengths |
| BackupManager.FailedRunLeavesNothing | app/backup.py:111-117 | a run that failed while writing rows, with a working discard, leaves the whole store as it was |
| BackupManager.HalfSnapshotShows | app/backup.py:100-117 | a run that stopped among its inserts or in its discard leaves every indexed snapshot complete if and only if it had written all rows and its discard had taken none out, or the discard was complete |
| BackupManager.HalfPrunedShows | app/backup.py:195-233 | a prune that stopped leaves at most one half snapshot, an expired one, exactly if its deletes had taken rows out but not yet the index row |
| BackupManager.EndedRunKeepsComplete | app/backup.py:88-151 | a run that succeeded and pruned, or whose discard worked, keeps every indexed snapshot complete; one that failed at the index insert does so if and only if the insert had no effect or there was nothing to write |
| BackupManager.OwnSnapshotIsKept | app/backup.py:54-56 | a run shorter than the retention window never prunes its own snapshot |
| BackupManager.ZeroDaysWouldPruneItself | app/backup.py:54-56 | with a window of zero days it would, which is why the floor is one day |
| SnapshotLog.StepTouchesOnly | app/backup.py:153-240 | no statement of a job alters the rows of another snapshot |
| SnapshotLog.NoOrphansEver | app/backup.py:195-249 | from a clean store, through any interleaving of runs, discards, prunes and deletes with a crash between any two statements, every child row has its index row at every instant |
| SnapshotLog.HalfSnapshotExactly | app/backup.py:100-117 | in every interleaving from a complete store, an indexed snapshot is a half one if and only if its run is before, or was cut short before, its last row, or a delete of it is past, or was cut short after, taking rows out |
| SnapshotLog.CrashLeavesHalfSnapshot | app/backup.py:100-117 | a run from an empty store that dies right after its index insert leaves an indexed snapshot without any of its rows |
| Restore.PrimaryStore.RestoreSnapshot | app/backup.py:315-352 | the primary is the result of a prefix of the restore's statements, all of them unless the process dies, and the reported number is that of the audit rows inserted |
| Restore.RestoreDoes | app/backup.py:315-352 | a complete restore puts every captured account and flag back, leaves all others as they were, deletes nothing, and adds exactly the missing audit rows |
| Restore.RestoreColumns | app/backup.py:325-352 | column by column: a captured account has every column back, disabled ones disabled, existing ones under their row id; flags too; each added audit row is a captured one, detail included, and every captured row with a new key is there, the first of each key |
| Restore.SameAuditKey | app/backup.py:340-345 | audit rows are told apart by time, action and request |
| Restore.RestoreIsResumable | app/backup.py:291-352 | dying after any statement and restoring again gives the primary of one undisturbed restore, up to row ids and the flags' `updated_at` |
| Restore.RestoreIsIdempotent | app/backup.py:299-303 | a second restore changes nothing captured and inserts no audit row |
| Restore.BackupThenRestore | app/backup.py:153-352 | after an ok run and any later edits of the primary, restoring that snapshot brings back every account column by column and every flag, disabled ones disabled, keeps all current accounts and flags, and makes the audit keys the current and the captured ones, adding captured rows in full and nothing else |
| SessionMonitor.AggregateIsWorst | app/session_monitor.py:26-43 | the aggregate is a status some account has: connected if and only if one is, otherwise the worst present in the order invalid session, rate limited, unavailable, configuration error, not configured; not configured for none |
| SessionMonitor.LatestIsLatest | app/backup.py:252-255 | no indexed id is newer than the one picked |
| SessionMonitor.NewestRowIsNewest | app/backup.py:283-288 | no backup row of the label, in any snapshot, is newer than the one picked |
| SessionMonitor.NewestRowOfNewestSnapshot | app/backup.py:283-288 | the row picked is of the newest snapshot if and only if that snapshot holds a row of the label |
| SessionMonitor.OlderRowIsPicked | app/backup.py:283-288 | otherwise the row of an older snapshot is picked |
| SessionMonitor.FallbackIsNarrow | app/session_monitor.py:135-180 | a snapshot is served if and only if the primary raised or holds no row and the newest snapshot has an enabled account; then exactly its enabled rows, otherwise exactly the primary's |
| SessionMonitor.TotalsAreOfTheSource | app/session_monitor.py:154-180 | how many accounts are reported as configured, and when the store counts as readable |
| SessionMonitor.SessionMonitor.Serve | app/session_monitor.py:248-295 | one pass of the loop makes at most one sync and one status write, those of the account's turn |
| SessionMonitor.SessionMonitor.CheckOnce | app/session_monitor.py:225-318 | a check's effect on the pool, the status writes and the reported state is that of its trace; without a decryption key, or when an enabled-read raises, every state field is untouched |
| SessionMonitor.CheckSays | app/session_monitor.py:244-297 | for each account that had its turn: without a usable credential the result is CONFIG_ERROR, after a failed sync X_UNAVAILABLE, with validation the verdict, without it the stored status; that status is what is aggregated and, for the primary's own row or credential, recorded; a row that decrypts is synced with its own credential; nothing else is reported, aggregated or recorded; the check raises if and only if an enabled-read does |
| SessionMonitor.ServedAreDistinct | app/session_monitor.py:135-180 | by the primary keys of the stores, the accounts served have different labels |
| SessionMonitor.CheckFillsPool | app/session_monitor.py:273-281 | the pool holds, for every account whose sync worked, the credential that was synced |
| SessionMonitor.CheckReportsRestored | app/session_monitor.py:264-267 | the labels reported as restored are those whose credential came from a backup row, in order, with the snapshot of the last one |
| SessionMonitor.CredentialProvenance | app/session_monitor.py:201-296 | each synced credential belongs to a served account and is that account's decrypted primary row, found still enabled in its own turn; or, only if that row does not decrypt, the newest backup row of the same label; or that account's row in the newest snapshot, only when the primary raised or held no row |
| SessionMonitor.WritesAreNarrow | app/session_monitor.py:248-296 | in whole-snapshot mode the primary is unchanged; otherwise only status columns of accounts the primary listed as enabled change, and nothing of a label served from a snapshot |
| SessionMonitor.OnlyStatusColumns | app/db.py:1197-1202 | a sequence of status updates keeps the set of accounts and every credential, switch and metadata column |
| SessionMonitor.StatusLands | app/db.py:1197-1202 | the last status sent for a label is what its row shows, with the check marked ok exactly if connected |
| SessionMonitor.PoolKeepsOthers | app/session_monitor.py:276-283 | a label that was not synced keeps its pool entry |
| RateLimiter.RateLimiter.Allow | app/rate_limit.py:21-36 | popping, refusing, appending and cleaning up in place equal the one-call function |
| RateLimiter.HistoryInv | app/rate_limit.py:21-36 | after any history, each bucket is the recent end of the key's accepted calls and all it lost is at least 60 seconds old |
| RateLimiter.WindowBound | app/rate_limit.py:21-36 | for every key and every history with a non-decreasing clock, cleanups included, at most `per_minute` calls are accepted in any half-open 60-second window |
| RateLimiter.ClosedWindowBound | app/rate_limit.py:21-36 | the bound holds for every closed window if and only if no cleanup forgets hits of exactly 60 seconds ago which, with the calls of the key that follow at the same instant, exceed the limit |
| RateLimiter.NoCleanupNoOverfill | app/rate_limit.py:21-36 | a history in which no cleanup runs keeps the bound for closed windows, for every key |
| RateLimiter.FewKeysKeepTheClosedBound | app/rate_limit.py:33-35 | so does every history of at most 10000 keys |
| RateLimiter.FloodBreaksTheClosedBound | app/rate_limit.py:21-36 | from an empty limiter, for every limit, a sequence of calls after which a closed window holds more accepted calls than the limit |
| RateLimiter.RefusalIsJustified | app/rate_limit.py:25-29 | a refused caller has had `per_minute` calls accepted within the last 60 seconds |
| RateLimiter.AdvertisedWaitSuffices | app/middleware.py:266-275 | a refused caller who waits the advertised seconds is accepted if no call of that key was accepted meanwhile, whatever other keys did |
| RateLimiter.RetryAfterIsExact | app/rate_limit.py:25-29 | asking again is refused up to and including the moment answered and accepted after it; the answer is what is left of the 60 seconds since the oldest of the last `per_minute` accepted calls |
| RateLimiter.CleanupForgetsAtSixty | app/rate_limit.py:25-35 | a full bucket refuses at exactly 60 seconds, and accepts there if a cleanup came first |
| Pacing.UsageAndFlagsMiddleware.AdmitCall | app/tool_middleware.py:448-470 | a slot is taken or the call is refused as specified, and refusals are counted |
| Pacing.UsageAndFlagsMiddleware.ReleaseSlot | app/tool_middleware.py:472-480 | one slot is given back, and the key goes with its last slot |
| Pacing.UsageAndFlagsMiddleware.ConcurrencySnapshot | app/tool_middleware.py:503-510 | the reported total is the number of calls that hold a slot |
| Pacing.SlotsAreConserved | app/tool_middleware.py:448-587 | over any interleaving and any exit path, each pair's counter is the number of its admitted and unreleased calls, at most the cap, and a pair without any has no entry |
| Pacing.AdmissionIsExact | app/tool_middleware.py:448-470 | a call is refused if and only if exactly `cap` of its pair are in flight; its delay is zero if none overlaps and otherwise the gap plus the random share of the jitter; it is zero if and only if none overlaps or that gap is zero |
| Pacing.PolicyComesFirst | app/tool_middleware.py:532-556 | a call the policy refuses takes no slot, is not counted as rejected, and hands over its one row |
| Pacing.AdmittedCallRuns | app/tool_middleware.py:569-587 | an undisturbed call waits, runs the tool while it holds its slot, gives the slot back and hands over one row |
| Pacing.RaisingCallRecords | app/tool_middleware.py:571-582 | a call that raises records one row while it still holds its slot, and then gives it back |
| Pacing.OneRowPerCall | app/tool_middleware.py:532-587 | a call that ended on its own has handed over exactly one usage row, a cancelled one at most one, and a refused call holds no slot |
| ConnectRetry.PolicyOf | app/db_resilience.py:314-322 | for all settings, 1 to 10 attempts and delays between 0 and 60 seconds |
| ConnectRetry.PolicyIsTheSettings | app/db_resilience.py:314-322 | settings within range are the policy, each in its place; others are clamped, empty ones mean one attempt or no delay |
| ConnectRetry.DelayBound | app/db_resilience.py:325-333 | a delay never exceeds the doubled base nor the cap |
| ConnectRetry.DelayIsExact | app/db_resilience.py:325-333 | the delay for every jitter: min(base * 2^(failed-1), cap) times the jitter, and 0 without a base or a cap |
| ConnectRetry.TryOnce | app/db_resilience.py:362-396 | a failed attempt is closed, and the database is created only if it is missing or creation was denied, and not twice |
| ConnectRetry.CreationIsForAMissingDatabase | app/db_resilience.py:376-394 | creation is tried if and only if some attempt failed with an unknown database, or with creation denied and a supported address |
| ConnectRetry.ConnectAndInit | app/db_resilience.py:344-423 | for all settings and failure sequences: how many connects, closes and creations there are, when the outcome is ok, which error it carries, which sleeps are requested, one by one, and that they add up to at most the bound and 540 seconds |
| ConnectRetry.BoundIsGeometric | app/db_resilience.py:325-333 | the bound after n attempts is min(base * (2^(n-1) - 1), (n-1) * cap) |
| ConnectRetry.BoundCeiling | app/db_resilience.py:286-287 | no settings can make the bound exceed 540 seconds |
| ConnectRetry.BoundIsReached | app/db_resilience.py:325-333 | with full jitter and no cap in the way the bound is met exactly |

## Left out

- Database drivers, pools, TLS, DSN rewriting and the text of the DDL: every SQL statement is one atomic step on maps and sequences, and a DDL statement is an event that may fail.
- Versions are the positions in the migration list; the claim marker's random token is the pair of runner and version, which no other runner uses, and claims left by earlier processes carry tokens of no runner of the run.
- A retried version runs its statements again after a take-over or a failure; that each DDL statement is harmless to repeat is the DDL's business and is not modelled.
- Encryption is an arbitrary partial decrypt function; error classification is a given kind per attempt; switching to the dedicated database name before CREATE DATABASE is not modelled.
- What Postgres itself lexes differently from the scanner (dollar quotes, nested comments, `$` inside identifiers) is not part of this model: the placeholder results are about the scanner's own view of the output.
- Python's `%` formatting is modelled for `%s` and `%%`, the only directives the rewrite produces; any other directive in a statement without parameters is an error. Whether the MySQL driver formats a text with an empty tuple is a parameter.
- Times are real numbers or microseconds, not floats; the monotonic clock and `asyncio.sleep` are given a lower bound only.
- Lock bodies are atomic steps, since none of them suspends; one manager is assumed to issue the ids of a store in `SnapshotLog`, and deleting a snapshot that is still being written is excluded there, because `delete_snapshot` does not take the lock.
- SQL comparison and ordering of ids are byte order; a collation that orders ASCII differently is not covered.
- Row order inside a snapshot, which no result depends on, is insertion order instead of `ORDER BY`.
- The newest id and its account rows are two reads in the session check and one reading here; every other read of a check is separate for each account.
- The session check's `last_error` text, `last_checked_at` and log lines are not modelled.
- The file-path, blocked-tool and administrator-flag policies, and the refresh of the flags, are one arbitrary choice per call to refuse or proceed; result enrichment only adds a point at which a call may be cancelled.
- Whether a restore starts at all (no store, no such snapshot) is not modelled; what it does then is.
- HTTP routes, authentication, origin checks, the admin console, metrics, the client registry and the capture buffer are left out: plumbing, or invariants visible in one body.
- BackupManager.BackupManager.RunLocked: whether the run is allowed to start (no store, or a run in progress) and the dashboard's state fields are not modelled.
- ConnectRetry.ConnectAndInit: elapsed time, hints and message texts are not modelled.
