# SES telemetry: verified model

This project models the parts of the SES telemetry service whose correctness depends on
state, order and arithmetic, and proves what they promise. Each Dafny module follows one
component:

* **Caches behind a revision.** The session cache and the assistant-settings cache share one
  pattern: note the revision, read the store without the lock, cache the result only if the
  revision has not moved; writers update the store first, then bump the revision and drop
  entries. `RevisionGuard` holds the pattern; `SessionProtocol` and `AssistantCache` are state
  machines in which every lock section and every store call is one atomic step, any number of
  operations are in flight, and the store may be written by anyone at any time. `SessionSafety`
  proves what every run guarantees, `SessionLogin` where sessions come from and what is written
  to the store, `SessionService` what a request, a login, a logout and a change do when nothing
  interferes, `SessionFreshness` when a change or a deletion of an account is seen by all later
  requests, `SessionLogout` when logout ends a session; `SessionCaching` is the cache as the
  object with its pruning loop, tied to the protocol.
* **Login throttle, chat gate, accounts.** `Throttling` (one window per account, with deletion
  and pruning, against a reference that forgets nothing), `ChatGate` (one turn per user, daily
  limit), `Grants` (roles, permissions and the normal form of grants), `UserAdmin` (the
  account handlers and their guard for the last administrator).
* **Shared strings of a BIFF8 workbook.** `Biff` is the meaning of the reader on a cursor over
  fragments, `BiffReader` the reader with its fields and loops, `BiffRoundTrip` the encoder and
  the round trip, `BiffText` what text survives the cuts, `BiffCuts` what becomes of a string
  that begins a fragment. The layout is that of [MS-XLS] sections 2.4.265 (SST), 2.4.58
  (Continue) and 2.5.293 (XLUnicodeRichExtendedString).
* **Alerts.** `AlertEvaluate` decides one tick, `AlertBatches` groups mails, `AlertCheck` is one
  stored tick with per-batch outcomes, `AlertRuns` what holds over all sequences of ticks.
* **Dispatch plans.** `DispatchModel` stores a plan as blocks and reads it back at another hour,
  next to the independent alignment of drafts; `DispatchHistory` answers which published plan
  was in force.
* **Counters.** `AskoeSamples` and `AskoeImport` turn hourly meters into five-minute lifetime
  counters day after day; `Bucketing`, `CounterDeltas` and `PeriodSummary` are the meaning of the
  window query, the period summary and its form on daily rows.
* **Healing.** `HealQueue` is the queue with its one-slot wake-up, `DayRanges` the merging of
  changed spans.

`Ordering` (string order and sorting) and `Wrappers` (optional values) are shared.

Times are integers (seconds, minutes or numbered days and hours), energies are exact reals, and
the store, the mail server, password hashing, time zones and other processes are parameters or
arbitrary steps. A `fault`, `written` or `delivered` argument says how an outside call ended.

Where the code and its comments differ, the model follows the code:

* `forgetUser` is described as making the next request reload, and the revision as keeping a
  racing lookup from putting a revoked session back. Both hold for requests; a login that read
  the account before the change caches it without looking at the revision
  (`FreshExactlyWithoutLogins`, `ThreatIsReal`). After a deletion that stands, only a login that
  had already opened its session can (`DeletionFreshExactly`).
* `logout` is described as ending the session. It forgets the cache entry before it deletes the
  row, so a request between the two can cache the session again (`LogoutLeavesWindow`). It ends
  the session if and only if at the delete nothing carries it any more: no fresh cache entry, and
  no request or login in flight that could still cache one (`LogoutEndsExactly`); 30 seconds
  later it is over in any case (`RevokedSessionExpires`).
* `RevertNotifications` is described as making the next check retry. It does exactly when the row
  from before the outage carried no stamp (`RetriedExactlyWhenClean`), and the rows that do are
  those left by a recovery on the tick before (`StampLeftByRecovery`).
* `NewThrottle` is described as allowing max failures within a window. That is so for the windows
  it opens (`WindowHoldsLimit`, `OpeningSpanHoldsLimit`); a span of the same length that straddles
  two of them can hold 2*max - 1 (`SpanHoldsFewFailures`, `SpanBoundIsReached`).
* The last administrator is described as protected. The check and the write are two steps, so two
  requests at once can remove the last two administrators; `RaceLosesAdminExactly` says exactly
  when.
* A cut between two strings of a workbook's table is allowed by the format. The reader takes the
  first byte of the next string's characters for an option byte (`FirstByteIsOption`), and
  `StringAfterCutExactly` says which strings survive. The same happens to what follows a character
  whose two bytes lie in two fragments (`SplitCharacterExactly`).
* A character above U+FFFF is two code units. The reader decodes each fragment's characters on
  their own, so a cut between the two turns it into two U+FFFD; `TextSurvivesCutsExactly` says
  that these are the only cuts that change a text.
* The delta chart is described as not showing a counter's return as energy. The rows it returns
  leave out those before `from`, and then a dropout that closes the last of them shows
  (`SeedDropoutIsShown`); `DropoutsKeepEnergy` says exactly when dropouts change the chart.
* The daily summary query is used whatever the period. It gives the totals of the readings if and
  only if the period starts and ends with a day (`DailyTotalsAgreeExactly`).

## Model

| member | source | states |
|---|---|---|
| `RevisionGuard.ForgetOwnerSettles` | internal/api/auth_session.go:113-122 | Forgetting an owner after the write leaves no entry of that owner from before it and disarms every reader that looked earlier |
| `RevisionGuard.PublishKeepsSettled` | internal/api/auth_session.go:60-65 | A guarded publication never puts a read from before a finished change back into the cache, whichever way the guard goes |
| `SessionSafety.InvStep` | internal/api/auth_session.go:21-122 | Every atomic step of every request, login, logout, account change or foreign write keeps the protocol's invariant |
| `SessionSafety.AnswersAreGenuine` | internal/api/auth_session.go:21-90 | In every interleaving a request's principal is built from one row of an enabled account and one grant list the store really held, read in that order, for a session that existed |
| `SessionSafety.StalenessIsBounded` | internal/api/auth_session.go:33-65 | On every path, guarded or not, a write at least 30 seconds before the request is reflected in its grants, and in its row and session too unless a login cached them; touching never extends this |
| `SessionSafety.RevokedSessionExpires` | internal/api/auth.go:237-241 | A session deleted for good answers no request begun 30 seconds or more after the deletion |
| `SessionLogin.AnswersAreOpened` | internal/api/auth.go:168-202 | In every run an answer whose principal goes back to a login is given for the user and under the key of a login that first passed its password check and then opened that very session, as the recorded write |
| `SessionLogin.FailedCheckEndsLogin` | internal/api/auth.go:178-180 | A login whose password check failed is over: it takes no further step in the run |
| `SessionLogin.WritesAreChecked` | internal/api/auth.go:178-201 | A login step that changes the store or the cache is one of a login whose password check succeeded earlier in the run |
| `SessionLogin.AnswersAreUnexpired` | internal/api/auth_session.go:42-59 | In every run no request is answered from a session that had expired when the request began, cached or not |
| `SessionLogin.StoreChangesOnlySo` | internal/api/auth_session.go:42-90 | Requests, logins and logouts leave accounts and grants alone, hand no session to another user, and only extend a session's row on a request for it, add it at a login, and remove it at its logout or once expired |
| `SessionService.RequestIsDecided` | internal/api/auth_session.go:21-90 | A request that nothing interferes with is answered from a cached entry younger than the TTL while that has not expired, and otherwise exactly if the store holds its session unexpired and the account enabled, with that account and its grants; the row's expiry moves at most once a minute, and a refusal leaves nothing cached |
| `SessionService.LoginIsServed` | internal/api/auth.go:168-202 | After a login with the right password a request at any later time is answered, as the account logged in to, if and only if less than 14 days have passed |
| `SessionService.LogoutIsObeyed` | internal/api/auth.go:237-241 | After a logout that nothing interferes with, the next request for the session gets nothing |
| `SessionService.ChangeIsObeyed` | internal/api/users_handlers.go:216-226 | After a change to an account and its forgetUser, the next request for one of its sessions is decided by the store as the change left it |
| `SessionFreshness.FreshAfterChange` | internal/api/users_handlers.go:216-226 | After a change to a user and its forgetUser, with no login of that user holding the older row, every later request gets nothing or a principal whose every part was read at or after the change |
| `SessionFreshness.FreshExactlyWithoutLogins` | internal/api/auth.go:168-202 | The exact condition for any finished change, update or deletion: all later requests are fresh, whatever happens, if and only if no login in flight holds a row from before the change within its lifetime |
| `SessionFreshness.DeletionFreshExactly` | internal/api/users_handlers.go:245-296 | For a deletion, as long as nothing re-adds the account: later requests are fresh if and only if no login that had already opened its session still holds the older row within its lifetime |
| `SessionFreshness.ThreatIsReal` | internal/api/auth.go:196-200 | From any state with such a login there is a continuation in which a request begun later gets the old account |
| `SessionLogout.LogoutEndsSession` | internal/api/auth.go:237-241 | When at the delete neither the cache nor anything in flight carries the session any more, every later request answered for its key got a session the store held again after the delete |
| `SessionLogout.LogoutEndsExactly` | internal/api/auth.go:237-241 | That is the exact condition: no continuation answers a later request from the session as it was before the delete if and only if at the delete nothing carries it, chains of touches by waiting requests included |
| `SessionLogout.LogoutLeavesWindow` | internal/api/auth.go:237-241 | From any state with a live session there is a run in which logout completes and a request begun afterwards is still answered from the cache |
| `SessionCaching.Sessions.Look` | internal/api/auth_session.go:33-41 | The lookup serves entries younger than the TTL and notes the revision |
| `SessionCaching.Sessions.StoreLocked` | internal/api/auth_session.go:93-102 | The pruning loop and the insertion have the effect of the protocol's unguarded publication |
| `SessionCaching.PruningIsInvisible` | internal/api/auth_session.go:93-102 | Pruning a full cache changes no later lookup and leaves no entry past its TTL |
| `SessionCaching.Sessions.StoreGuarded` | internal/api/auth_session.go:60-65 | The last section of authenticate has the effect of the guarded publication |
| `SessionCaching.Sessions.Forget` | internal/api/auth_session.go:104-109 | Bumps the revision and drops one key |
| `SessionCaching.Sessions.ForgetUser` | internal/api/auth_session.go:113-122 | Bumps the revision and drops exactly the user's entries |
| `AssistantCache.CachedIsCurrent` | internal/api/chat_handlers.go:126-166 | In every run, when no save is between its upsert and its forget, the cached assistant is the one the stored settings and key define, field by field, though the two are read in separate steps: on exactly when enabled with a model and a key |
| `AssistantCache.TurnsSeeFinishedSaves` | internal/api/ai_settings.go:225-232 | A turn that starts after a save finished uses settings and a key read at or after that save |
| `AssistantCache.LastSaveIsStored` | internal/api/ai_settings.go:220-224 | After any run the stored settings are those of the last save |
| `AssistantCache.LastKeyIsStored` | internal/api/ai_settings.go:197-224 | After any run the stored key is the last one a save brought: saves without a key keep it |
| `AssistantCache.OldIsReadAgain` | internal/api/chat_handlers.go:129-135 | Half a minute after the last publication the cached assistant is no longer served and the settings are read again |
| `AssistantCache.SavedIsServed` | internal/api/ai_settings.go:197-232 | After a save that nothing interferes with the next turn, by itself, gets exactly the saved settings and key, the stored key if none was sent, and caches them |
| `ChatGate.Gate.Begin` | internal/api/chat_handlers.go:182-190 | Takes the protocol's step into flight: the busy set becomes the protocol's, and the user is admitted exactly when the turn is in flight after it |
| `ChatGate.Gate.End` | internal/api/chat_handlers.go:192-196 | Takes the protocol's step out of flight: afterwards no turn of the user is in flight, and the busy users are exactly those with a turn in flight |
| `ChatGate.GateHolds` | internal/api/chat_handlers.go:310-326 | Over every interleaving each user has at most one turn in flight, and with limits up to max never more than max rows recorded in a civil day |
| `ChatGate.BusyExactlyInFlight` | internal/api/chat_handlers.go:182-196 | Over every interleaving a user is held busy if and only if one of their turns is in flight, so a turn that ended never keeps its user out |
| `ChatGate.RunsExactlyBelowLimit` | internal/api/chat_handlers.go:310-326 | Over every interleaving a turn past the gate goes on to the model if and only if its user has fewer turns recorded on that civil day than the limit |
| `ChatGate.TurnGoesThrough` | internal/api/chat_handlers.go:310-420 | From any state a user with no turn in flight and room under the limit can be answered: the turn runs to its end, is recorded once and leaves the user free |
| `ChatGate.AnsweredTurnsAreRecorded` | internal/api/chat_handlers.go:345-420 | Over every run a user's recorded turns are exactly the answered ones whose recording did not fail |
| `Throttling.Throttle.Blocked` | internal/auth/session.go:52-68 | Under a forward clock, the lockout and the waiting time are those of the full history, although ended windows have been deleted |
| `Throttling.Throttle.Fail` | internal/auth/session.go:71-87 | Records one failure, keeps the map faithful to the history, and leaves no ended window in a map of 1024 keys or more |
| `Throttling.Throttle.Reset` | internal/auth/session.go:90-94 | Forgets exactly that key |
| `Throttling.TallyIsOpenWindow` | internal/auth/session.go:44-49 | A window begins at a failure that found none open, counts every failure since, spans no reset, and counts nothing at or after its end |
| `Throttling.WindowHoldsLimit` | internal/auth/session.go:44-49 | After any sequence of checks no window counts more than max failures |
| `Throttling.OpeningSpanHoldsLimit` | internal/auth/session.go:44-49 | Any stretch of the history that begins with a window's opening failure, has no reset of the key and ends before that window does holds at most max failures |
| `Throttling.VerifyPassword` | internal/api/auth.go:208-223 | Accepted exactly when the password matched and the account was not locked out, bad credentials exactly when it did not match and was not, throttled exactly when locked out and for the time left; the history grows by that failure or that reset only |
| `Throttling.AcceptedStartsAfresh` | internal/api/auth.go:208-223 | In every sequence of checks, after an accepted password no attempt for the account is refused before max more wrong passwords |
| `Throttling.LockHoldsToTheEnd` | internal/auth/session.go:52-68 | Once max wrong passwords have been counted since a window opened, every attempt before its end is refused, right or wrong, for exactly the time left |
| `Throttling.SpanHoldsFewFailures` | internal/api/auth.go:208-223 | In every sequence of checks, no stretch without a reset of the key puts 2*max failures into one half-open span of a window |
| `Throttling.SpanBoundIsReached` | internal/auth/session.go:52-87 | For every limit there is a run with 2*max - 1 failures in one such span |
| `Biff.TakeTotal` | internal/askoe/biff.go:234-253 | A read of n bytes leaves exactly n fewer unread |
| `BiffReader.FragReader.Read` | internal/askoe/biff.go:226-253 | The cursor with its fields and loops reads what the cursor's meaning says, or fails when it does |
| `BiffReader.FragReader.ReadString` | internal/askoe/biff.go:255-336 | The character loop, with cuts, width changes and split characters, terminates on any fragments and reads what the meaning says |
| `BiffReader.FragReader.ReadEntry` | internal/askoe/biff.go:172-217 | One string with its optional run and extension sizes, read and skipped as the meaning says |
| `BiffReader.ReadSst` | internal/askoe/biff.go:149-217 | The whole table reader, from the first SST record and the Continue records after it, errors included |
| `BiffRoundTrip.TakeIsNextBytes` | internal/askoe/biff.go:234-253 | read(n) returns the next n bytes of the fragments put together and fails if and only if fewer remain |
| `BiffRoundTrip.ReadSegments` | internal/askoe/biff.go:255-336 | A character array cut anywhere at a character boundary, each piece in its own width, reads back as its text |
| `BiffRoundTrip.TableRoundTrip` | internal/askoe/biff.go:149-217 | For any strings, widths, rich-text runs, extensions and cuts of that kind, and any records around the table, readSST returns exactly the encoded strings |
| `BiffRoundTrip.PlainText` | internal/askoe/biff.go:255-336 | Without surrogates the text is the concatenated characters |
| `BiffText.TextReadsBack` | internal/askoe/biff.go:321-331 | Any Unicode text, characters above U+FFFF included, reads back from its code units |
| `BiffText.LoneIsReplaced` | internal/askoe/biff.go:321-331 | A code unit of a pair that stands alone reads as U+FFFD and takes no neighbour with it |
| `BiffText.TextSurvivesCutsExactly` | internal/askoe/biff.go:255-336 | However a text is cut into stretches and whatever their widths, it is read as that text if and only if no cut falls between the two code units of a character |
| `BiffRoundTrip.NextStringAfterCut` | internal/askoe/biff.go:226-232 | A narrow string of one character that starts a new fragment after a cut between strings is not read back |
| `BiffRoundTrip.CutBetweenStringsFails` | internal/askoe/biff.go:226-253 | Two strings in two fragments, the smallest such table, fail to read |
| `BiffCuts.FirstByteIsOption` | internal/askoe/biff.go:255-336 | With the edge flag set the first unread byte of any string with characters decides the width, whatever the header says, and is not read as text |
| `BiffCuts.StringAfterCutExactly` | internal/askoe/biff.go:172-336 | A string that begins a fragment is read back, with exactly the rest left, if and only if it has no characters before its first cut or that stretch is a single U+0000, wide or followed by a narrow one; undecided is only a string that is cut again, whose first byte is odd and whose first stretch, read wide from its second byte, is how its text begins |
| `BiffCuts.SplitCharacterExactly` | internal/askoe/biff.go:275-313 | A wide character whose two bytes lie in two fragments is put together, but the edge flag stays set: the array is read back if and only if it has no characters after it before the next cut, or just U+0000 |
| `BiffCuts.ThreeAreGarbled` | internal/askoe/biff.go:255-336 | Three narrow characters whose third is not U+0000 are never of that kind |
| `BiffCuts.OddByteByChance` | internal/askoe/biff.go:172-336 | With an odd first byte and a further cut a string of three stretches comes out right by chance, for every narrow last character |
| `AlertEvaluate.Result.Evaluate` | internal/alerts/evaluate.go:150-221 | The loop over observations produces the events and rows of its specification |
| `AlertEvaluate.Result.RevertNotifications` | internal/alerts/evaluate.go:231-245 | The loop over failed events takes back exactly their devices' stamps |
| `AlertEvaluate.RowsAreObserved` | internal/alerts/evaluate.go:150-221 | A row is produced for exactly the observed devices |
| `AlertEvaluate.RowIsOwnVerdict` | internal/alerts/evaluate.go:150-221 | With distinct devices a row depends only on the device's own observation and previous row |
| `AlertEvaluate.EventsAreVerdicts` | internal/alerts/evaluate.go:150-221 | The events are exactly the verdicts' events |
| `AlertRuns.OutageShape` | internal/alerts/evaluate.go:150-221 | Over any sequence of ticks and outcomes, the events of one outage are Down first, no Down after a Reminder, then at most one Recovered, all with the same start |
| `AlertRuns.AnnouncementsAreSpaced` | internal/alerts/evaluate.go:182-199 | Two delivered announcements of one outage are at least the repeat interval apart, and the later is a reminder |
| `AlertRuns.RemindedExactlyWhenDue` | internal/alerts/evaluate.go:182-199 | After the last recorded announcement of an outage a tick reminds if and only if reminders are on and a whole repeat interval has gone by, and is silent otherwise |
| `AlertRuns.OneAnnouncementWithoutReminders` | internal/alerts/evaluate.go:182-199 | With reminders off at most one announcement of an outage is delivered |
| `AlertRuns.RetriedExactlyWhenClean` | internal/alerts/evaluate.go:182-245 | When the first mail of a longer outage fails, the device is announced as Down on every tick until one succeeds if and only if the row before the outage carried no stamp |
| `AlertRuns.StampLeftByRecovery` | internal/alerts/evaluate.go:201-218 | The only rows that are up and carry a stamp are those the tick before left when it announced a recovery |
| `AlertRuns.RowIsItsStretch` | internal/alerts/evaluate.go:150-272 | Over any ticks and outcomes a device's row is down exactly when it has no sample or its last is older than `staleAfter`, holds that sample, and dates from the beginning of its stretch: an outage from the last sample before it or, without one, the tick that first missed it |
| `AlertRuns.EventsAreTrue` | internal/alerts/evaluate.go:150-272 | Over any ticks a Down or Reminder is emitted only for a stale device and a Recovered only for a fresh one after an outage, each with the sample there is and that outage's start |
| `AlertRuns.FreshIsNeverAnnounced` | internal/alerts/evaluate.go:140-148 | A device with a sample within `staleAfter` at every tick from its first is never announced |
| `AlertRuns.FresherIsNoWorse` | internal/alerts/evaluate.go:257-262 | A fresher sample never turns an up verdict into down |
| `AlertBatches.NormalizeRecipients` | internal/alerts/settings.go:330-346 | The loop with its map and sort computes the normal form |
| `AlertBatches.NormalizedIsCanonical` | internal/alerts/settings.go:330-346 | Lists of the same addresses, in any order, spelling of blanks or repetition, have one normal form |
| `AlertBatches.NormalizedAre` | internal/alerts/settings.go:330-346 | The normal form holds exactly the strings that begin and end with something and stand between blanks in one of the lines |
| `AlertBatches.GroupByRecipients` | internal/alerts/settings.go:297-325 | The grouping loop files every deliverable event under its recipients' key, keys sorted |
| `AlertBatches.BatchesPartition` | internal/alerts/settings.go:297-325 | With addresses without commas, batches have pairwise different recipients, every deliverable event is in one, and each holds exactly its events in order |
| `AlertBatches.MailedExactlyWhenAddressed` | internal/alerts/settings.go:297-325 | An event is in some batch if and only if its organization's list has a line that is not blank, and no batch goes to nobody |
| `AlertBatches.JoinInjective` | internal/alerts/settings.go:297-325 | The joined key tells lists without commas apart |
| `AlertBatches.OwnListExactly` | internal/alerts/settings.go:297-325 | Whatever the addresses hold, a deliverable event is mailed to its own list if and only if the first event of the tick with the same joined key has that list |
| `AlertBatches.CommaMergesLists` | internal/alerts/settings.go:297-325 | With a comma in an address the joined key can fail to tell lists apart; such an address gets in only through the unvalidated `smtp.to` of the configuration file, because settings saved in the dashboard are parsed as mail addresses |
| `AlertCheck.Check` | cmd/alert-watchdog/main.go:586-679 | One tick evaluates, sends per batch, takes back the undelivered batches' stamps and stores the rows; it sends and stores nothing when a freshness probe fails or there is mail and no mailer, and stores nothing when the write fails after the mails went out |
| `AlertCheck.PassIsTick` | cmd/alert-watchdog/main.go:619-678 | What a pass rolls back was emitted by it, so every stored pass is a tick of the fleet runs |
| `AlertCheck.FailedExactlyOwnKey` | cmd/alert-watchdog/main.go:619-678 | Whatever the addresses hold, an event is rolled back if and only if it was deliverable and the batch of its key failed |
| `AlertCheck.FailedExactlyOwnBatch` | cmd/alert-watchdog/main.go:619-678 | With addresses without commas that is the batch to its own recipients |
| `AlertCheck.DeviceSeesItsTick` | cmd/alert-watchdog/main.go:619-678 | A pass over the fleet gives each observed device the step of its own state machine and leaves every other row alone |
| `AlertCheck.DownInFleetExactly` | internal/alerts/evaluate.go:257-262 | After a pass over the fleet an observed device's row is down if and only if no sample of it was found or the last is older than `staleAfter`, whatever was mailed or lost |
| `AlertCheck.FleetIsDevices` | cmd/alert-watchdog/main.go:586-679 | Over whole runs a stored row is the one the device's own machine reaches |
| `AlertCheck.FleetEventsAreDevices` | cmd/alert-watchdog/main.go:586-679 | And the next pass emits about an observed device exactly what that machine emits next, so the run theorems hold for every device of the fleet |
| `DispatchModel.StoredFromModel` | internal/api/dispatch_model.go:37-60 | The index loops store the set loads and the maximal runs of equal manual commands |
| `DispatchModel.ModelFromStored` | internal/api/dispatch_model.go:64-83 | The in-place loops read every hour's load and last covering block |
| `DispatchModel.BlocksAreMaximalRuns` | internal/api/dispatch_model.go:37-60 | Stored blocks are in order, disjoint, never empty, and touching ones carry different commands |
| `DispatchModel.BlocksAreManualHours` | internal/api/dispatch_model.go:45-58 | An hour lies in a stored block exactly when it has a manual command, and the block carries it |
| `DispatchModel.StoreReadIsShift` | internal/api/dispatch_model.go:37-83 | Stored at one hour and read k hours later or earlier, by a clock off by less than half an hour, a plan comes back shifted by k: AUTO is no command, gone hours are dropped, the tail is empty |
| `DispatchModel.RestoringComposes` | internal/api/dispatch_model.go:37-83 | Storing again what was read and reading it again adds the shifts |
| `DispatchModel.AlignDraft` | internal/api/dispatch_model.go:137-158 | The draft loop computes the shift by its own rounding, refuses exactly the drafts that start half an hour or more in the future, and takes one without a start hour as it stands |
| `DispatchModel.RoundsToNearest` | internal/api/dispatch_model.go:137-143 | Rounding goes to the nearest hour, halves away from zero |
| `DispatchModel.DraftAgreesWithStored` | internal/api/dispatch_model.go:137-158 | The two independent alignments give the same plan |
| `DispatchHistory.PlansInForce` | internal/api/dispatch_history.go:76-106 | The nested loops with their early exits answer each asked hour as the specification does |
| `DispatchHistory.FindIs` | internal/api/dispatch_history.go:87-93 | A run's hour is its first planned hour of that very instant, and missing only when it plans none |
| `DispatchHistory.InForceIsAnswer` | internal/api/dispatch_history.go:76-106 | For any runs, the answer is the newest covering run all of whose newer published rivals start after the hour, if there is one |
| `DispatchHistory.InForceIsForHour` | internal/api/dispatch_history.go:76-106 | Whatever is in force at an hour is planned for that hour, by a run published by then |
| `DispatchHistory.NewestRunDecides` | internal/api/dispatch_history.go:76-106 | When runs start no later than they are issued, it is exactly what the newest run published by then says, or nothing |
| `AskoeSamples.BuildDaySamples` | internal/askoe/samples.go:54-91 | The two loops, with truncation at the day's end, store the readings of the day's slots |
| `AskoeSamples.WithinHour` | internal/askoe/samples.go:61-74 | Within an hour every counter rises by one twelfth of the hour per slot |
| `AskoeSamples.DayTimes` | internal/askoe/samples.go:75-86 | For a civil day of any length timestamps strictly increase inside the day, and a day of 24 hours or less closes five minutes before its end |
| `AskoeSamples.EndCounters` | internal/askoe/samples.go:99-114 | The loop returns each meter's last stored value |
| `AskoeSamples.DayConserves` | internal/askoe/samples.go:54-114 | Read back from the stored rows, PV, import and export have moved by exactly their 24 hourly sums on a day of any length, and consumption by its own as long as it is never negative |
| `AskoeSamples.DayGrows` | internal/askoe/samples.go:54-91 | With hourly values that are not negative the day's readings, opening snapshot included, never fall |
| `AskoeImport.Import` | internal/askoe/import.go:83-124 | The day loop writes the free days, skips the occupied ones, stops at a failure and counts what it did |
| `AskoeImport.FreeDaysAreWritten` | internal/askoe/import.go:94-101 | The written days are, in order, exactly the free days before the first failing one, the skipped days are the occupied ones before it, and the import succeeds if and only if every day is free or occupied |
| `AskoeImport.OnlyFreeDaysGetRows` | internal/askoe/import.go:94-101 | Over a calendar of days every stored row lies on a free day: none on a day that already holds live data |
| `AskoeImport.OneInsertionPerDay` | internal/askoe/import.go:14-124 | A day never exceeds one insertion batch, so it is stored as a whole or not at all |
| `AskoeImport.CountersContinue` | internal/askoe/import.go:83-124 | The first written day opens at zero and every other where the previous written day closed |
| `AskoeImport.ImportConserves` | internal/askoe/import.go:83-124 | After any import the counters hold exactly the energy of the written days |
| `AskoeImport.TimesIncrease` | internal/askoe/import.go:83-124 | Over a calendar of days the stored times strictly increase across the whole import |
| `AskoeImport.CountersNeverFall` | internal/askoe/import.go:83-124 | With hourly values that are not negative the three meters never fall over the whole import |
| `Bucketing.BucketsSummarize` | internal/api/queries.go:312-325 | There is a row for exactly the buckets that hold a reading, and each opens with the first and closes with the last reading of its bucket |
| `CounterDeltas.DeltaIsPlausible` | internal/api/queries.go:364-385 | For any readings no bar is negative, and none but the first or one after a dropout exceeds what the plant can produce |
| `CounterDeltas.DeltaIsGain` | internal/api/queries.go:323-390 | For a counter with dropouts, a dropout shows nothing and a good bucket the gain since the last good one |
| `CounterDeltas.DeltasTelescope` | internal/api/queries.go:323-390 | Over any stretch of rows the deltas add up to the gain of the counter |
| `CounterDeltas.RisingShowsGain` | internal/api/queries.go:364-386 | A counter that only rises within the plant's power, read from its first reading on, shows exactly its last reading less its first, and its first bar is the gain inside its own bucket |
| `CounterDeltas.MaskedShowsFrom` | internal/api/queries.go:323-390 | The energy of the returned rows with dropouts is that without them, less how far the closing value lags at the end, plus how far it lagged before `from` |
| `CounterDeltas.DropoutsKeepEnergy` | internal/api/queries.go:323-390 | Readings near zero inserted anywhere after the first bucket leave the energy of the returned rows unchanged if and only if the last bucket closing with a real reading lags as far behind the counter at the end as it did before `from` |
| `CounterDeltas.AlignedChartKeepsEnergy` | internal/api/queries.go:323-390 | On a chart that starts with a bucket: if and only if the last bucket that closes with a real reading closes with the counter's final value |
| `CounterDeltas.EnergyKeptAfterRecovery` | internal/api/queries.go:323-390 | In particular it is unchanged whenever the counter has come back by the end and did not lag before `from` |
| `CounterDeltas.SeedDropoutIsShown` | internal/api/queries.go:364-390 | Starting mid-bucket, closing values 100, 0, 120 show 20 where 100, 110, 120 show 10 |
| `CounterDeltas.LeadingDropoutsShown` | internal/api/queries.go:364-386 | When all buckets so far were dropouts the counter's return shows as energy, and then the whole of it, if and only if it is within the power ceiling of the bucket before |
| `PeriodSummary.LastBeforeIs` | internal/api/queries.go:654-675 | The descending lookup finds the last reading before an instant, or there is none |
| `PeriodSummary.FirstInIs` | internal/api/queries.go:676-685 | The ascending lookup finds the first reading of the period, or there is none |
| `PeriodSummary.ChangeAdds` | internal/api/queries.go:654-687 | Splitting a period splits its change, for any readings and in every case of missing seeds and empty halves |
| `PeriodSummary.TotalsAddExactly` | internal/api/queries.go:766-791 | The totals add up if and only if the halves do not move in opposite directions |
| `PeriodSummary.TotalsAdd` | internal/api/queries.go:766-791 | For a counter that never falls total[a,c) is total[a,b) plus total[b,c) |
| `PeriodSummary.DailyTotalsAgree` | internal/api/queries.go:698-726 | On periods of whole days the daily form gives the totals of the readings |
| `PeriodSummary.DailyTotalsAgreeExactly` | internal/api/queries.go:698-750 | On every meter the daily form gives the totals of the readings if and only if the period starts and ends with a day |
| `PeriodSummary.MidDayDiffers` | internal/api/queries.go:698-750 | For any other period a rising meter of two readings tells them apart |
| `PeriodSummary.DeploymentsDiffer` | internal/api/queries.go:745-753 | Which query runs follows the deployment: on any period that breaks a day one rising meter is answered 0 by one kind of deployment and 1 by the other, as the break decides |
| `PeriodSummary.ApplyApplianceConsumptionRule` | internal/api/queries.go:825-839 | Consumption, where asked for, is replaced by the energy balance, never below zero, and every other total stays |
| `PeriodSummary.BalanceCloses` | internal/api/queries.go:812-839 | With consumption by balance what came in is what went out and was used, unless more went out than came in, when nothing was used |
| `PeriodSummary.BalanceAddsExactly` | internal/api/queries.go:825-839 | Balances of a split period add up if and only if the halves' balances before the clamp do not have opposite signs |
| `PeriodSummary.EnergySummary` | internal/api/queries.go:739-839 | The request refuses an empty period and returns every asked metric, zero where there is nothing, from the query the deployment runs, with consumption by balance |
| `PeriodSummary.WholeDaysReadTheSame` | internal/api/queries.go:698-803 | Over whole days every total read is the same whichever of the two queries runs |
| `HealQueue.Healer.Enqueue` | cmd/economics-recompute/main.go:332-340 | Appends the spans and posts at most one token: the protocol's two steps, which nothing ever holds up |
| `HealQueue.Healer.Take` | cmd/economics-recompute/main.go:342-356 | Takes all spans of the pending organization that sorts first, and reports nothing exactly when nothing is pending |
| `HealQueue.InvStep` | cmd/economics-recompute/main.go:332-410 | Every step of enqueuers, worker and cancellation keeps the queue's invariant |
| `HealQueue.NoLostWakeUp` | cmd/economics-recompute/main.go:332-400 | In every reachable state with the worker asleep and no enqueuer mid-way, pending work means a token |
| `HealQueue.NoLostWork` | cmd/economics-recompute/main.go:332-410 | What an organization enqueued is, in order, what was handed over followed by what is pending |
| `HealQueue.RestsOnlyWhenDone` | cmd/economics-recompute/main.go:391-410 | With no enqueuer mid-way the worker can go on, was stopped, or has been handed everything |
| `HealQueue.WorkIsBounded` | cmd/economics-recompute/main.go:391-410 | No spinning: over every run the worker's steps are bounded by what was enqueued and posted |
| `HealQueue.PostingCounts` | cmd/economics-recompute/main.go:332-340 | Over every run the enqueuers mid-way are those that queued their spans and have not posted |
| `HealQueue.NothingTakenAfterCancel` | cmd/economics-recompute/main.go:391-410 | Once the context is done and no organization is being taken, nothing more is handed over |
| `DayRanges.Ranges` | cmd/economics-recompute/main.go:360-376 | One range per span with its lookahead, clipped at the last day |
| `DayRanges.DayRanges` | cmd/economics-recompute/main.go:360-389 | The ranges cover exactly the changed days with their lookahead up to the last day, in order, with an uncovered day between neighbours |
| `DayRanges.WantedIsChangedBack` | cmd/economics-recompute/main.go:309-376 | The changed days with their lookahead are those up to the last day with a change on them or on one of the two days before |
| `DayRanges.RangesAreCanonical` | cmd/economics-recompute/main.go:360-389 | Such ranges are determined by the days they cover, so the order or cutting of spans does not matter |
| `Grants.NormalizeGrants` | internal/auth/roles.go:107-134 | The loops with their maps and the sort compute the normal form: sorted, without repeats, exactly the grants not absorbed |
| `Grants.SameGrants` | internal/auth/roles.go:137-150 | Says whether two lists hold the same grants, counting by sets |
| `Grants.PermissionsOn` | internal/auth/roles.go:233-252 | Lists in order, without repeats, exactly the permissions Can allows on the organization |
| `Grants.AccessPreserved` | internal/auth/roles.go:107-229 | Normalizing preserves Can, CanAll, CanSome, Covers and IsGlobalAdmin for every permission and organization |
| `Grants.PermissionsPreserved` | internal/auth/roles.go:107-252 | And the listed permissions |
| `Grants.NormalizingIsIdempotent` | internal/auth/roles.go:107-134 | Normalizing twice is normalizing once |
| `Grants.SameGrantsSameForm` | internal/auth/roles.go:107-150 | Lists with the same grants have one normal form |
| `Grants.NormalFormIsComplete` | internal/auth/roles.go:88-134 | Two lists have the same normal form if and only if they give the same roles on every organization, present or future |
| `Grants.PermissionsNest` | internal/auth/roles.go:31-70 | Writing implies reading, administrators hold everything, the viewing roles change nothing |
| `Grants.GlobalAdminIsAdminEverywhere` | internal/auth/roles.go:203-216 | An administrator of every organization is one who holds the role on each organization, those no grant names included, and conversely |
| `Grants.CanAllIsCanEverywhere` | internal/auth/roles.go:175-187 | A permission on all organizations is the permission on each of them, and conversely |
| `Grants.CanSomeIsCanSomewhere` | internal/auth/roles.go:189-201 | A permission somewhere is the permission on some organization, and conversely |
| `Grants.CanIsRole` | internal/auth/roles.go:54-70 | A permission on an organization is held by exactly those with one of its roles there or everywhere, the roles listed permission by permission |
| `UserAdmin.Accounts.OtherGlobalAdmins` | internal/api/users_handlers.go:339-355 | Returns how many other enabled administrators of every organization there are |
| `UserAdmin.Accounts.CreateUser` | internal/api/users_handlers.go:85-131 | Creates the account with normalized grants, or refuses in the handler's order of checks |
| `UserAdmin.Accounts.UpdateUser` | internal/api/users_handlers.go:133-241 | Updates the account, keeping stored grants that are only reordered, or refuses in the handler's order of checks |
| `UserAdmin.Accounts.DeleteUser` | internal/api/users_handlers.go:245-296 | Deletes the account, or refuses: last administrator before own account |
| `UserAdmin.Accounts.Bootstrap` | internal/api/auth.go:135-165 | Creates the first administrator only in an empty table: the configured one, or the default one with a password change pending |
| `UserAdmin.AdminRemains` | internal/api/users_handlers.go:85-355 | Over every sequence of requests there remains an enabled account that is an administrator on each organization, emails stay distinct and stored grants in normal form |
| `UserAdmin.AdminMeansEverywhere` | internal/auth/roles.go:203-216 | The handlers' test for an administrator finds exactly the enabled accounts that are administrators on each organization |
| `UserAdmin.AdminAfterBootstrap` | internal/api/auth.go:135-165 | Starting from an empty table and a successful bootstrap that is always so |
| `UserAdmin.RefusedExactlyWhenLast` | internal/api/users_handlers.go:329-355 | An otherwise valid update or delete is refused for the last administrator if and only if it would leave none |
| `UserAdmin.RaceLosesAdminExactly` | internal/api/users_handlers.go:133-355 | Two updates or deletes both checked before either is written leave no administrator if and only if they demote or delete different accounts and nobody else administers |
| `UserAdmin.HandedOutIsTemporary` | internal/api/users_handlers.go:85-241 | A password someone else knows is pending a change: a new account, the default administrator and a reset by another account; only setting one's own clears it |
| `UserAdmin.ReorderingChangesNothing` | internal/api/users_handlers.go:170-185 | Sending the account's own grants in another order changes nothing and signs nobody out |
| `UserAdmin.CreatedAsAsked` | internal/api/users_handlers.go:85-131 | A created account is new, enabled, under the email asked for, and holds exactly the roles asked for on every organization |
| `UserAdmin.UpdatedAsAsked` | internal/api/users_handlers.go:133-241 | An updated account is disabled or enabled and holds roles as asked and otherwise as before, and is signed out if and only if its password was set, it was newly disabled, or its roles somewhere changed |
| `UserAdmin.RefusalsChangeNothing` | internal/api/users_handlers.go:85-296 | A refused request leaves the table as it was, and a successful one was valid, named an existing account other than the actor's own where it deletes, and was written |
| `UserAdmin.BootsAsConfigured` | internal/api/auth.go:135-165 | The first account is the configured one if and only if both its email and password are configured, and otherwise the default one with a password change pending |

## Left out

- StalenessIsBounded: the row a login cached is not bounded by the TTL, because `UserByEmail` is read before the password check and `loadedAt` is set after it.
- CachedIsCurrent: settings written by another API process, which no `forget` of this one reports, are not part of this model.
- SpanHoldsFewFailures: checks made one after the other; `Blocked` and `Fail` are two lock sections around a slow comparison, so checks running side by side can count more failures.
- GateHolds: one process; a turn whose recording fails is not counted, and turns after a lowered limit may exceed it by those recorded before.
- TableRoundTrip: cuts lie inside character arrays with at least one character after them; cuts between strings, in headers or inside a two-byte character are outside it (`CutBetweenStringsFails`, `StringAfterCutExactly` and `SplitCharacterExactly` say what becomes of those), and `Text` is what the reader makes of a stretch: `TextSurvivesCutsExactly` says when that is the text that was written.
- StringAfterCutExactly: no condition is stated for a string that is cut again, whose first byte is odd and whose first stretch read wide from its second byte is how its text begins (fewer than three narrow characters, U+0000 as the third, or one byte repeated); whether it survives depends on how its later stretches happen to fit the shifted characters (`OddByteByChance`).
- SplitCharacterExactly: covers a cut after which the array goes on wide, and leaves open what StringAfterCutExactly leaves open.
- BatchesPartition: addresses without commas; lists whose joined keys coincide share an email (`CommaMergesLists`, `OwnListExactly`).
- AnnouncementsAreSpaced: speaks of ticks whose rows were stored; after a write that failed once the mails were sent the next tick starts from the older rows and may repeat an announcement.
- DropoutsKeepEnergy: counter offsets are already applied to the readings, and each step between neighbouring buckets is within the power ceiling.
- DailyTotalsAgree: offsets are already applied to the readings; the daily query applies them at the day's end and start instead of at the sample's time, which differs when a correction falls in between.
- NormalizeGrants: roles are the six assignable ones; strings that name no role are refused before by `parseGrants`.
- RaceLosesAdminExactly: two requests at once; three or more are not stated.
- Import: labels, hosts and the per-metric counts are left out.
- EnergySummary: the error for missing instants is left out.
- DayRanges: civil days are numbered and `dayOf` is a parameter; time zones are not part of this model.
- Energies are exact reals: floating-point rounding, NaN and the conversions of JSON are not modelled.
- The delta chart on daily rows (`timeseriesDeltaFromDaily`) repeats the window rule on other rows and adds nothing new.
- The plan optimizer, the energy-flow allocator, the counter stitcher and the economics service: their results are arbitrary inputs here.
- `sanitizeConstraints`, the trimming of settings texts, default settings and message wording: field by field.
- HTTP routing and decoding, cookies, SMTP, Modbus, SQL execution, bcrypt and token randomness.
- The other records of a workbook (`decodeBIFF8`, `decodeRK`) and the classification of sheets.
