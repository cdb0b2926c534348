# MediaFlick, modelled and proved

A Dafny model of the parts of MediaFlick, a desktop client for Jellyfin, whose correctness is hard to see from any one
function. Code that updates fields is modelled by classes whose methods are proved against specification functions;
the properties are lemmas about those functions, over every input, every run or every reachable state.

| module | what it is about |
|---|---|
| `AccountSession`, `SessionRuns`, `SessionGenerations` | the account session: scopes, sealed answers, generations, and who owns the cached rows |
| `PlaystateReporter` | the worker that coalesces playback reports and acknowledges flushes |
| `SegmentSkip`, `SegmentTraces` | skipping intros and credits, with prompts, countdowns and automatic skips |
| `Calendar`, `Cadence` | day numbers and dates, and when a collection is due for a refresh |
| `JsonFile`, `AccountDocuments` | crash-safe documents with a backup, and the documents that list accounts |
| `AccountDeletion`, `DeletionRuns` | the journalled deletion of an account, and what any number of its attempts leave |
| `ChangeBatch`, `Catalog`, `LibraryPush`, `Facets` | the catalog index, its change reports, pushed changes, and the trigger-kept lookup tables |
| `Shuffle`, `NaturalOrder` | the random sort and the natural order of names |
| `PlaybackPreference` | saving a viewer's track choice, finding it again, and handing it to the player |
| `Urls` | the query codec and the removal of access tokens |
| `HomeSettings`, `CollectionOrder` | repairing a saved home page list, and reordering collection profiles |
| `Basics` | options, results, trimming, and the order of strings |

`dafny verify dfyconfig.toml` checks everything.

Some results are exact conditions, because the plain property is false of the code:

- A deletion that no write stops takes more than its own account's data if and only if the account is the signed-in one
  and its artwork ids are well formed: then the movie franchise memberships of every account, and all other catalog rows,
  go with it. The documents and snapshot rows of other accounts are never touched (`MembershipsSurviveExactly`,
  `ResumptionClears`, `AttemptsSpareOthers`, `OrphanedRowsAreInherited`).
- An account that the journal lists is deleted on a disk that refuses nothing if and only if one of its entries has only
  well-formed artwork ids. The id "x", which a profile may carry, stops every start at the same place
  (`LeftoversAreMalformed`, `JournalEmptiesExactly`, `MalformedIdStaysListed`); asking again while signed in gets past it
  (`RequestTwice`).
- Cached items are always the signed-in account's. The rows of all catalog tables are, if and only if no sign-in on the
  way saves to a store that names no owner and holds no items, but rows of somebody else in another table; such a store
  takes an earlier sign-in that cleared the cache and then failed to save (`StepIsolatesUnlessInherits`,
  `AllTablesIsolatedExactly`, `AllTablesIsolation`, `OrphanedRowsAreInherited`).
- An answer opens exactly while no generation step happened, and only as long as fewer than 2^64 - 1 steps happen: after
  one period of the counter an old answer opens again (`OpensAgainAfterOnePeriod`, `OnePeriodOfSignIns`).
- A second identical reconciliation reports nothing exactly when the answer does not contradict itself about one id
  (`SecondReconcileReportsNothing`, `ContradictionReportsAgain`).
- A token can still be found after its removal exactly when the query was missing, or held nothing but empty pairs and
  pairs that are removed, and the fragment carries a token behind its own '?' (`RemovalHidesTheToken`, `ApiKeySurvives`).
- Removing query parameters also drops empty pairs, although the code's comment says that other pairs are kept; the
  non-empty ones are (`OtherPairsSurvive`, `EmptyPairsVanish`).
- A captured media source comes back exactly when it has no id, or a trimmed id that no earlier source has
  (`CapturedSourceComesBack`).
- A recovered document stays readable, except that a backup of another version, which recovery does not look at, is
  rejected from then on (`RecoveryIsStable`).
- An order of collection profiles is accepted exactly when it names distinct profiles once each; a repeated id is refused
  as unknown, although the code has a message about duplicates (`CollectionOrder.Account.ReorderProfiles`).
- A refresh clears the due state except at the last representable second (`RefreshClearsDue`).

## Model

| member | source | states |
|---|---|---|
| AccountSession.Library.SaveCredentials | src/library/session_store.rs:35-58 | One transaction: the credentials row, and the owner keys when both ids are known; a failure changes nothing |
| AccountSession.Library.ClearSession | src/library/session_store.rs:71-101 | One transaction: signing out remembers the owner of the rows, or forgets the owner and empties every catalog table, the memberships of all accounts included |
| AccountSession.Session.Restore | src/jellyfin/session.rs:169-194 | A process starts from the stored credentials, at generation 1 when they are complete and 0 otherwise |
| AccountSession.Session.CommitCredentials | src/jellyfin/session.rs:435-485 | Sign-in: rows of another or of no known owner are cleared first; each of the two writes may fail and memory changes only after both |
| AccountSession.Session.ClearLocal | src/jellyfin/session.rs:497-514 | Memory is emptied, with a new generation, only after the store was |
| AccountSession.Session.BeginAccountDeletion | src/jellyfin/session.rs:516-530 | Only the account in memory can be marked, and marking moves the generation |
| AccountSession.Session.ScopedError | src/jellyfin/session.rs:549-576 | A failure belongs to its account or is reported as a changed account; the first rejected token expires the session and is announced |
| AccountSession.Session.CommitIfCurrent | src/jellyfin/session.rs:292-309 | Whatever work is passed in is done, on the store and with its own answer, exactly when the scope is current |
| AccountSession.UpsertAnswerIsTyped | src/jellyfin/session.rs:149-156 | Work that writes only what a `Live` proof opened adds rows of the live account only |
| SessionRuns.SignInKeepsIsolation | src/jellyfin/session.rs:435-485 | A sign-in with any of its writes failing leaves no row of another account under the account in memory |
| SessionRuns.ClearKeepsIsolation | src/jellyfin/session.rs:497-514 | So does a sign-out or an expiry clean-up that keeps or forgets the library |
| SessionRuns.CommitKeepsIsolation | src/jellyfin/session.rs:292-309 | So does a commit under any scope, of any work that the `Live` proof types |
| SessionRuns.StepKeepsIsolation | src/library/session_store.rs:35-101 | The invariant on the stored owner, the stored account and the account in memory survives every step, restarts included |
| SessionRuns.CacheIsolation | src/jellyfin/session.rs:435-514 | In every run every cached row was written for the account the session holds |
| SessionRuns.OwnerKeepsTheCache | src/jellyfin/session.rs:445-461 | A sign-in as the account the rows belong to keeps every row of every table, and answers that nothing switched |
| SessionRuns.SwitchExactly | src/jellyfin/session.rs:445-485 | It answers a switch exactly when the rows are another's, or nobody's is known and there are items; every table is empty then, and memory moves only with an answer that is no error |
| SessionRuns.SignOutAndBackKeepsTheCache | src/library/session_store.rs:71-101 | Signing out without forgetting, restarting, and signing in again as the same account loses no row |
| SessionRuns.SignedInStaysIn | src/jellyfin/session.rs:169-194 | A finished sign-in is usable at once and after a restart, with the server, ids and token it brought |
| SessionRuns.SignedOutStaysOut | src/library/session_store.rs:88-93 | After a sign-out neither memory nor the store knows user or token, a restart included; the server stays known |
| SessionRuns.ScopeIssuedExactly | src/jellyfin/session.rs:259-282 | A scope is issued exactly to a complete session that is neither expired nor being deleted, and is its own |
| SessionRuns.DeletionEndsScopes | src/jellyfin/session.rs:516-530 | An account that is being deleted gets no scope any more |
| SessionRuns.CommittedAnswerHolds | src/jellyfin/session.rs:292-309 | After a current commit of an answer its rows are there with their content, dropped ones are gone, others untouched |
| SessionRuns.StepIsolatesUnlessInherits | src/jellyfin/session.rs:435-485 | A step keeps the rows of all catalog tables the account's if and only if it is not a sign-in that saves to a store without owner and items but with rows of another |
| SessionRuns.AllTablesIsolatedExactly | src/jellyfin/session.rs:435-514 | In every run all tables stay isolated if and only if no step is such a sign-in |
| SessionRuns.AllTablesIsolation | src/jellyfin/session.rs:445-461 | So they do in every run without a sign-in that cleared the cache and did not save |
| SessionRuns.OrphanedRowsAreInherited | src/library/session_store.rs:71-101 | A run from the empty store that ends with such a sign-in: other rows and memberships of the first account end up under the second, whose forgetting sign-out wipes them |
| SessionRuns.ClearedThenUnsavedOrphansRows | src/jellyfin/session.rs:435-485 | The state that only the test for unowned rows recognises is reachable: cleared, not saved, and written to again |
| SessionGenerations.SessionFollowsEvents | src/jellyfin/session.rs:497-576 | The session of any one-process run of the whole system is the session of its events, and the announcement counter follows them |
| SessionGenerations.GenerationAfter | src/jellyfin/session.rs:628-630 | The generation after k steps, with the wrap-around that skips zero |
| SessionGenerations.OpensExactlyWhenNothingHappened | src/jellyfin/session.rs:316-329 | An answer opens if and only if no generation step happened since its scope was issued |
| SessionGenerations.OpensAgainAfterOnePeriod | src/jellyfin/session.rs:628-630 | After exactly one period the old answer opens again for the same live account |
| SessionGenerations.OnePeriodOfSignIns | src/jellyfin/session.rs:628-630 | Such a run exists: the same sign-in, one period of times |
| SessionGenerations.RefusalIsFinal | src/jellyfin/session.rs:604-610 | Once refused, an answer is refused forever |
| SessionGenerations.LiveOpensWhatConfirmOpens | src/jellyfin/session.rs:149-156 | Inside a commit, `Live::open` opens exactly what `confirm` would |
| SessionGenerations.OneStepExpires | src/jellyfin/session.rs:620-626 | One generation step expires the session exactly when it is the rejected token of the current scope |
| SessionGenerations.ExpiryIsClassifiedExactly | src/jellyfin/session.rs:316-329 | `confirm` answers `Unauthorized` if and only if the single step since the answer's scope is that scope's own rejected token |
| SessionGenerations.FailureIsRoutedExactly | src/jellyfin/session.rs:549-576 | A failure reaches its caller as it is exactly when nothing happened since its scope, or that scope's own rejected token did; else it is a changed account |
| SessionGenerations.AnnouncedOncePerSignIn | src/jellyfin/session.rs:549-576 | Between two announced expiries of one process there is a successful sign-in |
| PlaystateReporter.RunPlaystateReporter | src/jellyfin/playback_reporter.rs:143-168 | For every batching the worker's log is the received messages without the superseded progress reports |
| PlaystateReporter.CollectBatch | src/jellyfin/playback_reporter.rs:143-159 | One batch: a blocking receive, then what is ready, up to the first flush |
| PlaystateReporter.Worker.Collect | src/jellyfin/playback_reporter.rs:170-179 | A report is queued, a flush is remembered |
| PlaystateReporter.Worker.Enqueue | src/jellyfin/playback_reporter.rs:181-186 | Queued progress of the same session gives way to a newer progress or stop, and nothing else does |
| PlaystateReporter.Worker.Drain | src/jellyfin/playback_reporter.rs:161-163 | The queue is sent first in, first out |
| PlaystateReporter.LogIsSubsequence | src/jellyfin/playback_reporter.rs:143-200 | Nothing is invented, repeated or reordered, and exactly the superseded reports are missing |
| PlaystateReporter.EssentialsAreKept | src/jellyfin/playback_reporter.rs:181-200 | No start or stop is lost or reordered, and each flush is acknowledged once, in its place |
| PlaystateReporter.ObservedExactly | src/jellyfin/playback_reporter.rs:181-200 | A message is observed unless it is a progress report and a progress or stop report with its item id and its play session id follows in its batch |
| PlaystateReporter.DroppedProgressHasSuccessor | src/jellyfin/playback_reporter.rs:181-200 | A dropped progress report is followed, in its batch, by a sent report with its item id and its play session id |
| PlaystateReporter.LastReportOfSessionIsLastSent | src/jellyfin/playback_reporter.rs:181-200 | The last report received with an item id and a play session id is sent, and is the last sent with them |
| PlaystateReporter.FlushWaitsForEarlierReports | src/jellyfin/playback_reporter.rs:143-168 | Before an acknowledgement every report queued before the flush was sent, or one that supersedes it |
| SegmentSkip.ActiveSegmentAt | src/playback/segments.rs:84-95 | The first active segment, or none if there is none |
| SegmentSkip.SegmentSkipState.Update | src/playback/segments.rs:143-172 | The new state and the action, by what is active and its mode |
| SegmentSkip.SegmentSkipState.Tick | src/playback/segments.rs:174-212 | The pending skip is dropped, fires, waits, or counts down |
| SegmentSkip.SegmentSkipState.StartAutoSkip | src/playback/segments.rs:224-246 | A countdown starts unless this segment's is already running |
| SegmentSkip.SegmentSkipState.CancelPending | src/playback/segments.rs:139-141 | Only the pending skip goes |
| SegmentSkip.SegmentSkipState.Clear | src/playback/segments.rs:135-137 | Everything goes |
| SegmentSkip.SegmentSkipState.FinishSkip | src/playback/segments.rs:218-222 | The skip is over and counts as a prompt just shown |
| SegmentSkip.SegmentSkipState.MarkPromptShown | src/playback/segments.rs:214-216 | Only the time of the last prompt moves |
| SegmentTraces.ArmedIsPending | src/playback/segments.rs:143-246 | An announced skip that every call kept is pending with the deadline of its announcement |
| SegmentTraces.PendingWasArmed | src/playback/segments.rs:143-246 | Whatever is pending was announced once and kept by every call since |
| SegmentTraces.SkipExactly | src/playback/segments.rs:174-212 | A tick skips a segment if and only if it is still valid and was announced at least three seconds before and kept since |
| SegmentTraces.ActiveIsFirstVisible | src/playback/segments.rs:71-95 | The active segment is the first that holds the position, was not skipped and has a type whose own setting is not hidden |
| SegmentTraces.PromptExactly | src/playback/segments.rs:143-169 | A call prompts for a segment if and only if it is an update that finds it first, its type's setting asks for prompts, and it was not seen last or no prompt or finished skip was recorded within three seconds |
| SegmentTraces.AnnouncedExactly | src/playback/segments.rs:170-246 | An update announces a countdown from three if and only if the first visible segment is to be skipped automatically and no announcement of it is kept |
| SegmentTraces.TickCountsDownExactly | src/playback/segments.rs:174-212 | A tick shows a number if and only if the announced skip is valid, not due, and a second has passed since the last number |
| SegmentTraces.RemainingSecondsRoundUp | src/playback/segments.rs:197-202 | The number is the milliseconds left, rounded up to seconds, at least one |
| SegmentTraces.SkipDisarms | src/playback/segments.rs:174-212 | A skip is answered once |
| SegmentTraces.CountdownIsShort | src/playback/segments.rs:174-246 | After an announcement at most two more numbers are shown, each one or two, never rising, however time passes |
| SegmentTraces.CountdownWasArmed | src/playback/segments.rs:174-212 | No tick shows a number without an announcement |
| Calendar.YearOfEraExact | src/library/mod.rs:557-570 | The year formula names the one year of its era that holds the day |
| Calendar.DateToDaysAndBack | src/collections/scheduler.rs:456-464 | Every valid date maps to a day number and back |
| Calendar.DaysToDateAndBack | src/library/mod.rs:557-570 | Every integer day maps to a valid date and back |
| Calendar.MonthSuccessor | src/collections/scheduler.rs:442-464 | The first of the next month is one month length later, by the leap rule of the month lengths |
| Calendar.DayNumberIsDaysFromCivil | src/collections/scheduler.rs:456-464 | The division formula counts years and months as the calendar does |
| Calendar.DayNumberSuccessor | src/library/mod.rs:557-570 | Consecutive day numbers are consecutive calendar dates, for every integer |
| Calendar.DayZero | src/library/mod.rs:557-570 | Day zero is January 1, 1970 |
| Calendar.StepsFitI64 | src/library/mod.rs:557-570 | No 64-bit step of `civil_from_days` overflows for a day taken from a 64-bit timestamp, and none of the way back |
| Cadence.NextMonthStepsFit | src/collections/scheduler.rs:427-464 | Nor does any step of `days_from_civil` on the one date the code gives it, the same day of the next month |
| Cadence.NextMonthMeaning | src/collections/scheduler.rs:427-440 | The same time of day on the same day of the next month, or on its last day, a whole 28 to 31 days later, saturating only upward |
| Cadence.MonthlyWindow | src/collections/scheduler.rs:405-419 | A refreshed monthly profile is not due within 28 days and is due after 31 |
| Cadence.DueExactly | src/collections/scheduler.rs:405-419 | Never if manual, at once if never refreshed, else 86,400 or 604,800 seconds after the last success, or from the month step on |
| Cadence.DueIsStable | src/collections/scheduler.rs:414-419 | Once due, always due |
| Cadence.RefreshClearsDue | src/collections/scheduler.rs:414-419 | A refresh leaves a profile due exactly at the last representable second |
| JsonFile.FileSystem.SaveWithBackup | src/preferences/json_file.rs:157-178 | A readable primary becomes the backup before it is replaced; wherever the save is cut off the files are those after some of its writes |
| JsonFile.FileSystem.ReplaceBackupWithPrimary | src/preferences/json_file.rs:180-185 | The backup becomes the primary's content |
| JsonFile.FileSystem.Load | src/preferences/json_file.rs:31-155 | What is answered and what is moved, restored or left alone, for a missing, readable, foreign or damaged primary, and what a refused write leaves |
| JsonFile.InterruptedSaveIsOldOrNew | src/preferences/json_file.rs:157-178 | Wherever a save is cut off, the next load answers the new document or exactly what it would have answered before |
| JsonFile.LastFinishedSaveIsLoaded | src/preferences/json_file.rs:157-178 | Over any run of saves and loads, each perhaps cut short, the next load answers the last document whose save was finished |
| JsonFile.OnlyKnownDocumentsAreLoaded | src/preferences/json_file.rs:92-178 | Over any run, damage and recoveries cut short included, a load answers only documents that were there, were saved or were put there |
| JsonFile.BackupStaysReadable | src/preferences/json_file.rs:92-178 | Over any run of saves, damage to the primary and loads, each perhaps cut short, a readable backup stays readable and no load falls back to defaults |
| JsonFile.FoundExactly | src/preferences/json_file.rs:31-155 | Which files are missing, answered, restored, defaulted or rejected, by version and by what is damaged |
| JsonFile.DamagedFilesAreKept | src/preferences/json_file.rs:117-135 | Over any run, every damaged primary a load moved aside is kept, in order |
| JsonFile.DamageCostsOneSave | src/preferences/json_file.rs:117-178 | After two saves, damage to the primary restores one of the two documents |
| JsonFile.RecoveryIsStable | src/preferences/json_file.rs:117-155 | A restored document is answered again without recovery, unless its backup records another version |
| JsonFile.ForeignDocumentsAreLeftAlone | src/preferences/json_file.rs:49-115 | A well-formed document of another version or schema is rejected and changes no file |
| AccountDocuments.OpenDocument | src/preferences/deletions.rs:46-62 | A document opens, recovered if it must be, only if its version is known and what it holds passes, and then it does unless a write is refused |
| AccountDocuments.OpenedPasses | src/preferences/accounts.rs:687-738 | What a start takes into memory is cleaned up and accepted, with no account twice |
| AccountDocuments.JournalStaysDistinct | src/preferences/deletions.rs:78-100 | Beginning and finishing deletions keep the journal's accounts distinct |
| AccountDocuments.RemovalPasses | src/preferences/accounts.rs:618-637 | A document without an account passes the check that runs before it is saved, unchanged |
| AccountDocuments.TrimmedHasSameGoal | src/preferences/accounts.rs:600-608 | A removal cut off anywhere does not change what a removal writes |
| AccountDocuments.TrimmedReads | src/preferences/accounts.rs:600-608 | Nor what other accounts read, and it brings no account back |
| AccountDocuments.FinishedIsScrubbed | src/preferences/collections.rs:239-247 | A finished removal leaves the account neither in the document nor in its backup |
| AccountDeletion.Start | src/app/services.rs:192-278 | A start opens the four documents, or fails because a write was refused or one of them cannot be opened; documents in order always open and stay as they are |
| AccountDeletion.Services.Replace | src/preferences/accounts.rs:618-637 | A document is checked, saved and only then swapped in, so memory mirrors the disk even when the save is cut off |
| AccountDeletion.Services.Begin | src/preferences/deletions.rs:78-90 | The journal lists the deletion once this returns; nothing else is touched |
| AccountDeletion.Services.RemoveAccount | src/preferences/accounts.rs:600-608 | Cut off anywhere the file holds only what it held and what is written; done, primary and backup are both the old document without the account |
| AccountDeletion.Services.RemoveLocalData | src/app/services.rs:422-434 | The rows of the account in all four tables go together, then its artwork; an id that is not opaque fails without any refused write |
| AccountDeletion.Services.EndSession | src/app/services.rs:435-444 | The session is cleared, and every catalog table with it, if and only if it is the account's and the write is not refused |
| AccountDeletion.Services.CompletePendingDeletion | src/app/services.rs:410-450 | Cut off anywhere, the journal keeps its entry until nothing else holds the account; unrefused, it finishes if and only if every artwork id is opaque |
| AccountDeletion.Services.DeleteLocalAccountData | src/app/services.rs:392-408 | Cut off anywhere, the signed-in account ends up listed or gone, or nothing but the journal's files changed; others are spared; unrefused, it is gone if and only if its artwork ids are opaque, and else listed with them |
| AccountDeletion.Services.Finish | src/preferences/deletions.rs:92-100 | Only the journal's files change; done, neither of them lists the account |
| AccountDeletion.Services.ResumePendingDeletions | src/app/services.rs:316-328 | Each recorded deletion is tried in order, whatever became of the ones before it; an empty journal changes nothing |
| AccountDeletion.ArtworkIdsArePosters | src/preferences/collections.rs:249-272 | The recorded ids are exactly the custom posters of the account's entry and of its first entry in a readable backup |
| AccountDeletion.RequestTakesPosters | src/app/services.rs:392-434 | A request that ends leaves none of them and no request touches other artwork; unrefused, it ends exactly if all are opaque, and else the journal lists exactly them |
| AccountDeletion.RequestTwice | src/app/services.rs:392-450 | A second request gets to its end whatever the artwork ids were, unless a write is refused |
| AccountDeletion.Lifetimes | src/app/services.rs:316-328 | Over any number of processes cut off anywhere, every account is listed, or gone, or has all it had at first, requests made on the way included, and once listed or gone it stays so; after a last one without a refused write it is listed with malformed artwork ids only |
| DeletionRuns.AttemptsKeepSettled | src/app/services.rs:410-450 | An attempt for one account neither unlists another that is not gone nor brings one back nor lists anything new |
| DeletionRuns.AttemptsSpareOthers | src/app/services.rs:410-450 | An attempt, cut off anywhere, leaves every other account's entries and its rows in the three snapshot tables as they were |
| DeletionRuns.MembershipsSurviveExactly | src/app/services.rs:410-450 | Unrefused, an attempt wipes everybody's memberships and the catalog if and only if the account is the signed-in one and its artwork ids are opaque; refused, at most then |
| DeletionRuns.InterruptedDeletionConverges | src/app/services.rs:410-450 | However often a deletion is cut off and resumed, finished it leaves the documents, backups and snapshot rows of an uninterrupted one |
| DeletionRuns.BegunThenAttempted | src/app/services.rs:392-408 | Once its journal entry is saved, a request leaves its account listed or gone however it is cut off, and spares all others, memberships excepted when it clears the session |
| DeletionRuns.RequestHandles | src/app/services.rs:392-408 | In a process where nothing is refused, a request ends, or lists its account with malformed ids only |
| DeletionRuns.ResumptionStaysSafe | src/app/services.rs:316-328 | Resuming leaves every account listed, or gone, or with all it had |
| DeletionRuns.ResumptionKeeps | src/app/services.rs:316-328 | Resuming loses track of no recorded account, spares the unlisted ones and keeps malformed entries listed, whatever is refused |
| DeletionRuns.ResumptionTries | src/app/services.rs:316-328 | Where nothing is refused, the accounts with well-formed artwork ids are gone and exactly the malformed rest stays listed |
| DeletionRuns.ResumptionClears | src/app/services.rs:435-444 | Where nothing is refused, the session is cleared if and only if its account was listed with well-formed artwork ids |
| DeletionRuns.ResumptionKeepsArtwork | src/app/services.rs:429-434 | Only artwork of recorded deletions goes |
| DeletionRuns.ResumptionTakesArtwork | src/app/services.rs:429-434 | Unrefused, all artwork of the deletions that end goes |
| DeletionRuns.LeftoversAreMalformed | src/collections/artwork.rs:46-59 | After an unrefused resume an account is listed if and only if all its entries are malformed |
| DeletionRuns.JournalEmptiesExactly | src/collections/artwork.rs:46-59 | A journal of distinct accounts empties if and only if every artwork id in it is opaque |
| DeletionRuns.MalformedIdStaysListed | src/app/ids.rs:30-32 | The poster id "x" keeps its account listed forever |
| ChangeBatch.NormalizedListsTheSet | src/library/mod.rs:98-101 | Normalizing keeps the set of ids and lists it strictly ascending |
| ChangeBatch.NormalFormIsUnique | src/library/mod.rs:98-101 | Two lists normalize alike if and only if they hold the same ids |
| ChangeBatch.MergeNamesBoth | src/library/mod.rs:80-85 | A merge names what either batch named, in whatever order, and keeps contexts beside items |
| ChangeBatch.UnnamedMembers | src/library/mod.rs:87-95 | Exactly the given ids the batch names neither as item nor as context |
| Catalog.CatalogIndex.UpsertItemIfChanged | src/library/catalog.rs:422-534 | A row is written, and reported, only when a column other than the time of writing differs |
| Catalog.CatalogIndex.UpsertUserData | src/library/catalog.rs:536-567 | The same for user data |
| Catalog.CatalogIndex.IngestPage | src/library/catalog.rs:38-63 | The tables after the answer, and a report of the ids and related ids that moved |
| Catalog.CatalogIndex.DeleteItems | src/library/catalog.rs:381-420 | Items and their user data go; those that existed are reported with their related ids |
| Catalog.CatalogIndex.ReconcileChildren | src/library/catalog.rs:133-165 | The answer is ingested and children it does not name are deleted |
| Catalog.CatalogIndex.Forget | src/library/catalog.rs:298-306 | One item goes |
| Catalog.NamedExactly | src/library/catalog.rs:38-63 | An answer names its movies, series, seasons and episodes that have an id |
| Catalog.IngestedRowReads | src/library/catalog.rs:422-567 | Field by field, what a title of a consistent answer leaves in the two tables |
| Catalog.RowsAreKeptOrNew | src/library/catalog.rs:422-567 | Every row is as it was, down to the time of its last write, or was written now |
| Catalog.MovedContextsAreRelated | src/library/catalog.rs:38-63 | The contexts of a report are exactly the parents, series and seasons of what moved |
| Catalog.DeletedContextsAreRelated | src/library/catalog.rs:381-420 | And of what was deleted |
| Catalog.IngestReportsEveryChange | src/library/catalog.rs:38-63 | Every changed row is reported, and only named rows are |
| Catalog.ConsistentIngestHolds | src/library/catalog.rs:38-63 | An answer that does not contradict itself ends up in the tables whole |
| Catalog.MovedWasNotHeld | src/library/catalog.rs:38-63 | Then each report stands for something the tables did not hold before |
| Catalog.ReconcileKeepsNamedChildrenOnly | src/library/catalog.rs:133-165 | Every row inside the parent, and every episode of it as a season, is named by the answer; rows that were neither inside nor named are untouched |
| Catalog.ReconcileReportsExactly | src/library/catalog.rs:133-165 | The report covers every changed row, and for a consistent answer is exactly those |
| Catalog.SecondReconcileReportsNothing | src/library/catalog.rs:133-165 | The same answer again reports nothing if and only if it is consistent, and then rewrites no row |
| Catalog.ContradictionReportsAgain | src/library/catalog.rs:133-165 | One title twice with different columns is reported again |
| Catalog.DistinctIdsAreConsistent | src/library/catalog.rs:133-165 | Answers with distinct ids are consistent |
| LibraryPush.CommitForget | src/jellyfin/socket.rs:471-481 | Under a session that moved on nothing is written; otherwise the eviction and its exact report |
| LibraryPush.CommitIngest | src/jellyfin/socket.rs:471-481 | The same for a fetched chunk |
| LibraryPush.ApplyRemovals | src/jellyfin/socket.rs:531-546 | The merged batch covers every item row the evictions changed; without a failed write all are evicted and the batch is exactly their reports |
| LibraryPush.ApplyChanged | src/jellyfin/socket.rs:548-577 | The same for the chunks ingested up to the first that cannot be fetched |
| LibraryPush.ApplyLibraryChange | src/jellyfin/socket.rs:523-603 | A push is announced whole unless the session moved on, is applied whole unless it did or a write failed, and every item row it changed is told as an item |
| LibraryPush.ChunkIsBounded | src/jellyfin/socket.rs:548-577 | What is left is asked for in order, at most a hundred ids at a time |
| LibraryPush.ChunksStopAtAFailure | src/jellyfin/socket.rs:548-577 | A fetched chunk is cached and the next one follows; one that cannot be fetched ends the loop |
| LibraryPush.RemovedAreGone | src/jellyfin/socket.rs:531-546 | After the evictions exactly the removed ids are missing |
| LibraryPush.ShellBridge.LibraryChanged | src/app/services.rs:118-126 | A batch without items is not announced |
| LibraryPush.ShellBridge.LiveChanged | src/app/services.rs:128-136 | Two empty lists are not announced |
| LibraryPush.PushIsConserved | src/jellyfin/socket.rs:579-603 | The batch is announced with items as items and contexts as contexts; of the ids a push mentions exactly the others are announced live, changed and removed ones as items, folders as folders |
| LibraryPush.LoneContextsWouldBeLost | src/library/mod.rs:75-95 | The conservation needs the invariant that contexts come beside items |
| Facets.Index.InsertFacets | src/library/db.rs:485-488 | The insert trigger adds the column's non-empty texts and nothing else |
| Facets.Index.Insert | src/library/db.rs:485-488 | After an item insert the table still agrees with the column |
| Facets.Index.Update | src/library/db.rs:490-496 | After an item update it does, with the trigger skipping equal columns |
| Facets.Index.Delete | src/library/db.rs:498-500 | After an item delete it does |
| Facets.Index.LeastAfter | src/library/query.rs:303-309 | The least value after the previous one, or none |
| Facets.Index.FacetValues | src/library/query.rs:293-328 | Each value that some item has, or some item of the library, exactly once, in an order that ignores case |
| Facets.Index.SkipScan | src/library/query.rs:293-312 | The skip scan lists each value that some item has exactly once, ascending |
| Facets.Index.ValuesIn | src/library/query.rs:313-328 | The join lists each value that some item of the library has exactly once |
| Facets.CaseIsIgnored | src/library/query.rs:302-318 | Values that differ in the case of letters alone take the same place among all others |
| Facets.SmallTextsCompareAsTheyAre | src/library/query.rs:302-318 | Values without capitals compare as they are |
| Shuffle.FoldInverts | src/library/query.rs:564-568 | Each xor-shift can be undone on 64 bits |
| Shuffle.MultipliersInvert | src/library/query.rs:564-568 | Each odd multiplication can be undone on 64 bits |
| Shuffle.KeyDeterminesId | src/library/query.rs:559-562 | Under a known seed the key gives the id back |
| Shuffle.KeyDeterminesSeed | src/library/query.rs:559-562 | The key of a known id gives the seed back |
| Shuffle.SeedsNeverTie | src/library/query.rs:559-562 | Different seeds give every row different keys |
| Shuffle.DistinctIdsNeverTie | src/library/query.rs:559-562 | Distinct ids never share a key |
| Shuffle.KeysOrderRows | src/library/mod.rs:349 | The id tiebreak is never consulted, and any two rows are ordered one way |
| Shuffle.OneSeedOneOrder | src/library/mod.rs:349 | One seed gives one order of the same rows |
| NaturalOrder.CompareNaturally | src/library/query.rs:696-734 | The loop over two chunk iterators ends and computes the order |
| NaturalOrder.DigitChunksCompareByValue | src/library/query.rs:710-718 | Digit runs compare as the numbers they spell, whatever their leading zeros |
| NaturalOrder.ComparesRunByRun | src/library/query.rs:696-734 | Run by run: digits by number, others in lower case, digits against others as texts; equal runs are passed over |
| NaturalOrder.EndingFirstIsLess | src/library/query.rs:722-732 | The name that ends first is less, and names equal throughout are told apart by their characters |
| NaturalOrder.WordsIgnoreCase | src/library/query.rs:708-732 | Names without digits compare in lower case first |
| NaturalOrder.NaturalOrderIsAntisymmetric | src/library/query.rs:696-734 | Swapping the arguments reverses the answer, and only identical strings are equal |
| NaturalOrder.NaturalOrderIsTransitive | src/library/query.rs:696-734 | The order is transitive across digit and text runs, leading zeros and letter case |
| PlaybackPreference.CapturedTrackMatches | src/library/model.rs:30-77 | A saved track matches the stream it was taken from |
| PlaybackPreference.CapturedTrackComesBack | src/library/model.rs:194-202 | A captured track's index is found again on the same source |
| PlaybackPreference.CapturedSourceComesBack | src/library/model.rs:179-192 | The captured source is found again if and only if it has no id, or a trimmed one no earlier source has |
| PlaybackPreference.ReplacedTrackIsRefused | src/library/model.rs:42-77 | Another stream under the saved index is taken only if it says the same wherever the saved one said anything |
| PlaybackPreference.EnrichedTrackMatches | src/library/model.rs:42-77 | And then it is: what was not said may be anything |
| PlaybackPreference.ReplacedSourceIsRefused | src/library/model.rs:179-192 | A source without an id is found again exactly at its place, under its name and in its container |
| PlaybackPreference.TypeIgnoresCase | src/jellyfin/api/model.rs:261-268 | A stream's type is told in any case |
| PlaybackPreference.DefaultSourceExactly | src/library/model.rs:136-144 | The first source that plays directly, else the first that can be transcoded, else the first |
| PlaybackPreference.DefaultAudioExactly | src/library/model.rs:204-219 | The audio the source names, else one flagged as default, else the first |
| PlaybackPreference.DefaultSubtitleExactly | src/library/model.rs:221-230 | Subtitles only where the source names a subtitle of its own |
| PlaybackPreference.DefaultsAreResolved | src/library/model.rs:132-177 | Without a saved choice these defaults are resolved |
| PlaybackPreference.CaptureThenResolve | src/library/model.rs:102-177 | On the same sources the source, the audio index and the subtitle choice, off included, come back |
| PlaybackPreference.GoneSourceCountsForNothing | src/library/model.rs:132-177 | When the saved source is gone the result is that of no preference |
| PlaybackPreference.PlaybackFollowsResolve | src/jellyfin/play.rs:137-180 | Wherever the server lists the resolved source in its second answer, the player is asked for it, its tracks, and off |
| PlaybackPreference.FoundAgainNamesItself | src/library/model.rs:179-192 | Where the server answers the same list twice, that is every source that is found again |
| PlaybackPreference.CaptureThenPlay | src/jellyfin/play.rs:365-396 | From the pick through both lists to the player: what was captured is what is played |
| PlaybackPreference.NegotiatedExactly | src/jellyfin/play.rs:365-396 | The source with the requested id is played, without an id the one at the position, and else the default, a lost id included |
| PlaybackPreference.UnrequestedTracks | src/jellyfin/play.rs:475-507 | Without a requested track the source's default is played |
| PlaybackPreference.EmbeddedOrdinalNamesATrack | src/jellyfin/play.rs:509-517 | A number names an embedded track of that index, and no number means there is none |
| PlaybackPreference.EmbeddedOrdinalsAreABijection | src/jellyfin/play.rs:509-517 | Embedded tracks are numbered 1, 2, 3, … without a clash if and only if their indices differ |
| PlaybackPreference.EmbeddedMembers | src/jellyfin/play.rs:509-517 | The numbered tracks are the internal ones of the kind |
| Urls.EncodeWith | src/app/urls.rs:12-22 | The loop escapes every byte outside the unreserved set of section 2.3 of RFC 3986 |
| Urls.PercentDecode | src/app/urls.rs:38-61 | The loop undoes escapes, turns '+' into a space and leaves malformed escapes alone |
| Urls.EscapedExactly | src/app/urls.rs:1-22 | Letters, digits and `-_.~` stay, every other byte is escaped in capitals |
| Urls.EscapeDecodes | src/app/urls.rs:38-70 | An escape in either case is its byte |
| Urls.OthersDecode | src/app/urls.rs:38-61 | A plus sign is a space, and a percent sign without two digits behind it stands for itself |
| Urls.DecodeInvertsEncode | src/app/urls.rs:12-61 | Decoding undoes encoding on every byte string |
| Urls.QueryRoundTrip | src/app/urls.rs:24-77 | Reading a built query gives the first value paired with the key, for all texts |
| Urls.RemoveQueryParams | src/app/urls.rs:79-107 | The URL with its query stripped, base and fragment kept |
| Urls.LowerByteByLetter | src/app/urls.rs:89-97 | The same of bytes, when parameter names are compared |
| Urls.ParsedText | src/app/urls.rs:81-88 | Taking a URL apart is the inverse of spelling it |
| Urls.OtherPairsSurvive | src/app/urls.rs:89-101 | The other non-empty pairs are kept byte for byte and in order |
| Urls.EmptyPairsVanish | src/app/urls.rs:89-101 | `a=1&&b=2` loses its empty pair although no key is removed |
| Urls.RemovalIsIdempotent | src/app/urls.rs:79-107 | Removing twice is removing once |
| Urls.OtherParametersReadAlike | src/app/urls.rs:72-107 | Every other parameter reads as before |
| Urls.TokenByParts | src/playback/model.rs:51-62 | Where the token is looked for: the query, or behind a '?' in the fragment of a URL without one |
| Urls.FirstTokenExactly | src/playback/model.rs:51-62 | The token found is the first non-blank one of the first key that has any, and one is found whenever any key has one |
| Urls.RemovalHidesTheToken | src/playback/model.rs:51-62 | After removal no token is found, unless the query held nothing else and the fragment has one |
| Urls.NoTokenWithoutFragmentQuery | src/playback/model.rs:51-62 | None in any URL whose fragment has no '?' |
| Urls.FragmentTokenSurvives | src/playback/model.rs:51-62 | The exception is real, for every key and value that need no escapes |
| Urls.ApiKeySurvives | src/playback/model.rs:40-62 | So the token survives in `#?api_key=` behind an empty query |
| HomeSettings.Settings.InsertMissingBuiltIns | src/preferences/accounts.rs:161-188 | The loop computes the repaired list |
| HomeSettings.Settings.Validate | src/preferences/accounts.rs:190-229 | The list is accepted if and only if it is short enough, without duplicates, well named and complete |
| HomeSettings.WellNamedExactly | src/preferences/accounts.rs:203-218 | A genre has at most a hundred characters, not all white space and none a control character; a collection has an opaque id |
| HomeSettings.RepairAddsTheMissing | src/preferences/accounts.rs:161-188 | Exactly the missing built-ins are added, each once |
| HomeSettings.RepairedLength | src/preferences/accounts.rs:161-188 | The list grows by their number |
| HomeSettings.OldListSurvives | src/preferences/accounts.rs:161-188 | The old list is what remains when the added elements are dropped |
| HomeSettings.AddedElementsAreEnabled | src/preferences/accounts.rs:180-186 | Added elements are enabled |
| HomeSettings.AddedStandsInPlace | src/preferences/accounts.rs:171-186 | Every added built-in stands right behind the one before it, whatever else the list holds |
| HomeSettings.RepairKeepsOrder | src/preferences/accounts.rs:171-179 | Canonical order is kept |
| HomeSettings.RepairIsIdempotent | src/preferences/accounts.rs:161-188 | Repairing twice is repairing once |
| HomeSettings.RepairedListValidates | src/preferences/accounts.rs:190-229 | The repaired list is valid if and only if the old one had no duplicate or ill-named element and leaves room |
| CollectionOrder.Account.ReorderProfiles | src/preferences/collections.rs:195-219 | Accepted if and only if the ids name distinct profiles once each; then the list has that order and the same profiles, otherwise it is unchanged, with the reason |
| CollectionOrder.ById | src/preferences/collections.rs:201-208 | The map holds the last profile of each id, and is as large as the list exactly when the ids are distinct |
| CollectionOrder.TakeInOrder | src/preferences/collections.rs:209-216 | Taking one entry per id succeeds exactly for distinct known ids, and then leaves none over |
| Basics.OpaqueIdByDigit | src/app/ids.rs:30-32 | An opaque id has 16 to 64 hexadecimal digits |
| Basics.TrimExactly | src/playback/model.rs:33-35 | Trimming takes white space off both ends, all of it and nothing else |
| Basics.LowerAsciiByLetter | src/library/model.rs:232-240 | The 26 letters lose their case, and nothing else changes |
| Basics.TextLessExactly | src/library/mod.rs:98-101 | Texts compare by their first different character, and a text that ends first is less |

## Left out

- HTTP, the WebSocket, TLS, CEF, mpv, threads, lock poisoning and file-system internals. Replacing a file atomically is one step.
- The SQL engine: tables are maps and sets, transactions are single steps, and only writes fail. Full-text ranking, collations other than the one of the facet lists, and the order a query finally sorts its rows in are not modelled.
- Failed reads of the session store, which the code answers with defaults.
- Which server a scope reaches: `connect` rewrites the URL without a generation step, so rows are tagged with accounts, not URLs.
- The restricted flag, user names and device id of a session, and the content of rows, columns and documents.
- AccountSession.Session.CommitIfCurrent: the `Live` type's discipline is the assumption `IsTyped` on the work passed in: new rows come from answers the proof opened, and neither credentials nor owner keys are touched. All catalog tables but `items`, the memberships and the owner keys are one map.
- SessionRuns.AllTablesIsolation: `external_profiles` and `legacy_item_playback_preferences`, which a migration writes for any account and no session, are outside its claim, although clearing empties them with the others.
- PlaystateReporter.RunPlaystateReporter: takes the whole stream of messages and which of them had arrived at each poll; the numbers messages carry exist only in the model, and a process that ends mid-batch is not modelled.
- SegmentSkip.SegmentSkipState.Update: time is a count of nanoseconds without the upper bound of an `Instant`.
- JsonFile.FileSystem.Load: a crash between moving a damaged primary away and restoring its backup leaves no primary; such runs are left out of the old-or-new claim.
- JsonFile.FileSystem.SaveWithBackup: the serializer is a function with a reader that inverts it, and reading a file does not fail.
- AccountDeletion.Services.RemoveAccount: a document is a list of entries by account, and the four documents share one format. What a service cleans up and refuses is a parameter, by entry, with account keys distinct as in the source; cleaning up twice is assumed to be cleaning up once.
- AccountDeletion.Services.DeleteLocalAccountData: artwork of an earlier request for the same account in one process is forgotten by the journal, artwork ids are removed in the order of the profiles, and other writers are assumed not to recreate the account's data. Collecting orphaned artwork is left out.
- AccountDeletion.Start: imports from older versions.
- AccountDeletion.Lifetimes: the documents are in order between processes, so a damaged journal that falls back to a backup older than a recorded deletion is covered by `Start` alone. Nobody signs in again as an account that is listed or gone, since that is meant to bring it back.
- LibraryPush.ApplyLibraryChange: the request for a sync cycle after a failed fetch; what the server answers to a chunk is a parameter, and it may answer items that were not asked for.
- Facets.Index.FacetValues: values that differ only in case may come in either order, as in SQL.
- Shuffle.KeyDeterminesId: the shifts and multipliers of the mix are the source's; nothing but that each stage can be undone is proved of them. 64-bit words are natural numbers, with exclusive or and shifts defined on their binary digits.
- NaturalOrder.CompareNaturally: Unicode lower-casing is a parameter of which one fact is assumed, that a run of non-digits lowers to one that is not empty and does not start with an ASCII digit.
- Cadence.NextMonthMeaning: due times are not monotone within a day: January 30, 23:00 falls due after January 31, 01:00, because both land on the last day of February.
- Urls.PercentDecode: UTF-8 is a parameter: which bytes are texts, and how any others are replaced.
- Stream URLs, language defaults and resume positions of playback; `prompt_segment_at`.
- `apply_user_data` and `retain_ids_setting_meta` of the catalog, which use the same upsert and delete steps, and the sync cycle that calls them.
- Appearance and browsing settings, Letterboxd, MDBList, Companion and Seerr, the updater, log redaction and templates: easy members or plumbing.
