# Kloqra: models and proofs

Kloqra is a time tracker: a Next.js client, a NestJS API and shared packages. This project models its parts that
hold real state or arithmetic, in Dafny, and proves what they are for.

- **Requests.** `SingleFlight` is the API client's protocol as a step system: identical concurrent GETs share one
  request, finished timelog writes drop the shared timelog reads, callers abort one by one, and a 401 is retried
  once. `ReadSharing` says what that promises each caller: who joins whom, what is never shared, what an abort
  reaches. `ApiClient` is the same code as classes over a mutable map; each of its methods is one step of the protocol.
- **Refresh guard.** `RefreshGuard` has the generation counter and the bounded retries, per scope.
- **Download names.** `ExportFilename` builds the bounded, safe name with its date-range label, and `ExportNames`
  says what labels and names show of the dates as written; `ContentDisposition` prints the header and reads it back
  by leftmost regular-expression search, and `HeaderForms` says what it writes and what it reads from any header;
  `PercentEncoding` has `encodeURIComponent` and `decodeURIComponent` over UTF-8.
- **Calendar.** `Calendar` is the proleptic Gregorian calendar with JavaScript's `Date` at day granularity,
  `IsoWeek` the week number, `DateKeys` the `yyyy-mm-dd` keys and week bounds, `MonthGrid` the date picker's grid.
- **Time-log planning.** `Overlap` has the two overlap checks, `DayPlanning` the planned days.
- **Polling stores.** `Presence`, `TimerStore`, `Session` and `ActiveTimer`: subscriptions counted by key,
  intervals, shared requests, and what a change of session clears; `TimerPolling` says what each step leaves. How far
  a change reaches is `Session.LevelOf` (session-identity.ts, session-boundary.ts).
- **Tenant migration.** `TenantMigration` groups workspaces by a mapping file and reports users split over tenants.

`JsStrings` and `Text` hold strings, numerals, splitting and joining. Code that changes state is a class whose
methods state their whole new state as one step of the model (`Model() == Next(old(Model()), step)`); the lemmas are
about that function and about every run of steps. The table lists the methods that do more than one assignment. The
rest are `InflightRequests.Clear` and the two `ClearInflight...` methods (inflight-requests.ts); the resets, cancels,
staleness test and timeout callback of `RefreshGuard` (auth-refresh-guard.ts); `BeginRefresh`, `EndRefresh` and
`Clear` of `PresenceStore`; `TimerStore`'s three; and `OnInterval`, `UnsubscribeActive`, `InvalidateActive`, `Clear`
and `ClearSession` of `ActiveTimerSessionStore`. Timers, promises and intervals are numbered handles. Fields such as
`sentAs`, `evicted`, `subs`, `epoch`, `barrier` and `installer` are history that the code does not keep.

What the network answers, when timers fire, which user is signed in, which token is stored and when it expires, and
when callers abort is left open: a run is any sequence of steps.

## Where the code does less than it seems to

Each of these has a lemma with an input, or a run from the start, and a lemma that says when exactly it happens.

- A download name whose fallback spells the extended parameter's own key is read back wrongly
  (`ContentDisposition.SpoofedNameIsLost`; exactly when: `HeaderRoundTrip`). Generated names never do.
- A shared request is keyed by the user signed in, but goes out with whatever token is at hand, possibly after a
  refresh; if another user has signed in by then, its callers get that user's response
  (`SingleFlight.ExpiredTokenRun`, and after a 401 `RetriedResponseRun`; exactly when:
  `NoCrossTalk`, `OwnWhenUserStays`). A retry may also be made in the workspace that another token claims
  (`RetriedResponseRun`; exactly when: `RetriedWorkspaceExactly`).
- A 401 retry re-attaches the creator's abort signal, so a caller that passed no signal can see an abort
  (`RetriedAbortRun`; exactly when: `RetriedAbortExactly`).
- Releasing a presence subscription that is stale or already released stops the polling under a live one
  (`Presence.StaleReleaseRun`; exactly when: `PollingStopsExactly`, and when the counts go wrong: `CountedExactly`).
- Clearing the active-timer store while a request is out lets that request's end drop a newer one's entry
  (`ActiveTimer.OldEndDropsNewer`; exactly when requests are lost from the map: `TrackedExactly`).
- A failed request of a user who is gone clears the next user's timer (`ActiveTimer.FailureClearsAnothersTimer`;
  exactly when: `GoneUserExactly`).
- A request installs its timer after a change of workspace (`ActiveTimer.OtherWorkspaceInstalls`; exactly when:
  `PlacedExactly`).
- The neighbour check reports a clash with an empty row where the pairwise check sees none
  (`Overlap.EmptySpanParts`; exactly when: `FastCheckExactly`).
- Two-digit years are read as 19xx: week numbers (`IsoWeek.TwoDigitYearGoesWrong`; exactly when: `IsoWeekRight`) and
  moving by months (`MonthGrid.TwoDigitYearMoves`; exactly when: `AddMonthsUndone`).
- The month grid of an overflowing month number, or of a two-digit year, shows its days under keys that are not
  theirs (`MonthGrid.OverflowingMonthMisnamed`; exactly when: `ShowsOwnKeyExactly`).
- A tenant with an empty slug is overlooked by conflict detection (`TenantMigration.EmptySlugOverlooked`; exactly
  when: `NoConflictsExactly`).

## Model

| member | source | states |
|---|---|---|
| SingleFlight.KeyInjective | packages/web-shared/src/api/client.ts:18-25 | with colon-free user, method and workspace, and any path, the in-flight key determines all four |
| SingleFlight.ColonConfusesKeys | packages/web-shared/src/api/client.ts:18-25 | two different requests share a key once a workspace id holds a colon |
| SingleFlight.RunKeepsInv | packages/web-shared/src/api/client.ts:208-318 | in every run, whatever the ids: each map entry is the newest shared request of its key and not finalised; every shared request neither finalised nor evicted is in the map; every outcome comes from the request or its one retry; nothing is answered before it is sent |
| SingleFlight.RunMatched | packages/web-shared/src/api/client.ts:208-233 | in every run with colon-free user and workspace ids every caller waits on a request for its own user, method, path and workspace |
| SingleFlight.SingleFlightPerKey | packages/web-shared/src/api/client.ts:215-234 | in every run, of two shared requests of one key the older is not the map's entry, and if both are still out the older was dropped by an eviction |
| SingleFlight.OnlyEvictionsEvict | packages/web-shared/src/api/client.ts:310-314 | the only steps that evict are the two clears and the response of a request by another method than GET and HEAD whose path includes /timelogs or starts with /timer/ |
| SingleFlight.FinallyRemovesOnlyItself | packages/web-shared/src/api/client.ts:228-232 | in every run a settled request's finally removes exactly its own entry and keeps every other, newer ones of its key included |
| SingleFlight.NeverJoinsOlder | packages/web-shared/src/api/client.ts:310-314 | after the response of a request by another method than GET and HEAD, with a path that includes /timelogs or starts with /timer/, is handled, and in every continuation, a GET whose path includes /timelogs gets a request issued after that moment |
| SingleFlight.ReadYourWrites | packages/web-shared/src/api/client.ts:208-236 | in every run, once such a write has succeeded, a GET whose path includes /timelogs never joins a request issued before the write's response was handled |
| SingleFlight.AnswerDropsExactly | packages/web-shared/src/api/client.ts:310-314 | the response of such a write drops exactly the entries whose key includes /timelogs, and every other response leaves the map as it was |
| SingleFlight.ClearDropsExactly | packages/web-shared/src/api/inflight-requests.ts:8-19 | clearing a path drops exactly the keys that include a fragment that is not empty, and clearing drops all |
| ReadSharing.CallerIs | packages/web-shared/src/api/client.ts:27-38 | a caller is the session's user, or else the token's, and its workspace the token's claim, or else the trimmed option |
| ReadSharing.IssuedIs | packages/web-shared/src/api/client.ts:208-277 | a call issues at most one request, its caller's, sent at once with a good token or with none, and not yet when the token has expired |
| ReadSharing.SecondCallJoins | packages/web-shared/src/api/client.ts:210-234 | the same GET called twice in a row, for every state, user, token, path, workspace and signals: the second issues nothing, and both callers wait on one request |
| ReadSharing.LaterCallJoins | packages/web-shared/src/api/client.ts:210-234 | in every run, whatever happens after a GET was called: as long as its request is neither finalised nor evicted, the same GET by the same user in the same workspace issues nothing and waits on that request |
| ReadSharing.OnlyFinallyFinalises | packages/web-shared/src/api/client.ts:226-233 | a request is finalised by its own finally alone, after it settled |
| ReadSharing.UnsharedIsIssued | packages/web-shared/src/api/client.ts:40-45 | a call with a body or by another method than GET issues a request of its own, outside the map |
| ReadSharing.NeverShared | packages/web-shared/src/api/client.ts:40-45 | in every run and every continuation nobody else ever waits on the request of a call with a body or by another method than GET |
| SingleFlight.NoCrossTalk | packages/web-shared/src/api/client.ts:208-319 | in every run a caller's response is for its method and path, from the request it joined or that request's retry, and without a retry for its workspace; it is for its own user exactly when the request went out with the token of the user who was signed in when the request was issued |
| SingleFlight.RetriedWorkspaceExactly | packages/web-shared/src/auth/workspace-context.ts:17-26 | in every run a retried response is for the caller's workspace exactly when the token's claim at the retry equals that at the call, or one of them is absent and the other is what the workspace option names; so whenever every token stored in between claims the same workspace |
| SingleFlight.OwnWhenUserStays | packages/web-shared/src/api/client.ts:208-290 | wherever tokens are those of the user signed in: in every run a response, retried or not, is for its caller's own user exactly when the user at the send is the user at the call, so always when nobody else signs in between |
| SingleFlight.ExpiredTokenCrossesUsers | packages/web-shared/src/api/client.ts:259-277 | without any retry, a request that waits for the refresh of an expired token goes out as whoever the refresh brings, and every caller waiting on it gets that user's response |
| SingleFlight.ExpiredTokenRun | packages/web-shared/src/api/client.ts:259-277 | a run from the start in which the first user's read is answered for the second, without any retry |
| SingleFlight.AbortRejectsOnlyItsCallers | packages/web-shared/src/api/client.ts:185-206 | aborting a signal touches no request and no caller but those that passed that signal |
| ReadSharing.AbortExactly | packages/web-shared/src/api/client.ts:185-206 | an abort rejects exactly the waiting callers that passed its signal to a GET without a body, and touches no request |
| ReadSharing.AbortedCallRejected | packages/web-shared/src/api/client.ts:185-189 | a GET without a body is rejected at once exactly when its signal has been aborted; any other call waits |
| ReadSharing.FetchAbortsExactly | packages/web-shared/src/api/client.ts:222-277 | an abort ends the fetch of an unshared request whose own signal it is, and never that of a shared one |
| SingleFlight.SharedAbortNeedsRetry | packages/web-shared/src/api/client.ts:222-234 | a shared request ends in an abort only after a 401 retry whose creator's signal aborted; on runs without retries no caller sees another's abort |
| SingleFlight.RetriedAbortSpreads | packages/web-shared/src/api/client.ts:282-290 | after a retry the creator's abort reaches a caller that passed no signal |
| SingleFlight.RetriedAbortRun | packages/web-shared/src/api/client.ts:282-290 | a run from the start in which a caller without a signal sees another's abort |
| SingleFlight.RetriedAbortExactly | packages/web-shared/src/api/client.ts:282-290 | once a shared request is retried, whoever waits for it can see an abort exactly when its creator has aborted |
| SingleFlight.RetriedResponseCrosses | packages/web-shared/src/api/client.ts:282-290 | a retry under another token hands its owner's response, in the workspace it claims, to whoever waits for the request |
| SingleFlight.RetriedResponseRun | packages/web-shared/src/api/client.ts:282-290 | a run from the start in which the token changes between a read and its retry, and the response is for the other user and the other workspace |
| ApiClient.InflightRequests.ClearForPath | packages/web-shared/src/api/inflight-requests.ts:12-19 | deleting key by key leaves exactly the entries whose key does not include the fragment; an empty fragment deletes nothing |
| ApiClient.Client.Api | packages/web-shared/src/api/client.ts:208-277 | resolves user and workspace from session and token, joins the key's request, or issues one, shares it when eligible and guards only the caller; it is sent at once unless the token has expired |
| ApiClient.Client.AfterRefresh | packages/web-shared/src/api/client.ts:260-277 | the request goes out with the token that the refresh brought, if that is still good |
| ApiClient.Client.HandleResponse | packages/web-shared/src/api/client.ts:310-314 | a timelog write's response evicts the shared timelog reads and nothing else |
| ApiClient.Client.RetryAfterRefresh | packages/web-shared/src/api/client.ts:282-290 | a new unshared request with the creator's signal and the token now at hand |
| ApiClient.Client.OnFinally | packages/web-shared/src/api/client.ts:228-232 | removes the entry only when it is still this request's |
| RefreshGuard.RunKeepsInv | packages/web-shared/src/auth/auth-refresh-guard.ts:32-93 | in every run each scope has at most one live timeout, exactly the tracked one, and its count stays within the bound |
| RefreshGuard.InvalidationLeavesNonePending | packages/web-shared/src/auth/auth-refresh-guard.ts:15-21 | after every run an invalidation leaves no product retry live, tracked or counted |
| RefreshGuard.StaleIffInvalidated | packages/web-shared/src/auth/auth-refresh-guard.ts:28-30 | a captured generation is stale later exactly when an invalidation came in between |
| RefreshGuard.RetriesBounded | packages/web-shared/src/auth/auth-refresh-guard.ts:45-60 | between resets, cancels and (product scope) invalidations exactly the first schedules up to three are accepted and all later ones exhaust, whatever fires or happens in the other scope |
| RefreshGuard.ScopesIndependent | packages/web-shared/src/auth/auth-refresh-guard.ts:62-93 | steps of one scope never change the other scope's retry state, over whole runs |
| RefreshGuard.ScheduleExactly | packages/web-shared/src/auth/auth-refresh-guard.ts:45-60 | after every run, in a browser and below three retries, a schedule leaves its new timeout live, alone and tracked, and counts it; otherwise it changes nothing |
| RefreshGuard.CancelExactly | packages/web-shared/src/auth/auth-refresh-guard.ts:36-59 | after every run a cancel leaves no timeout and no count of its scope, whichever it is, and a timeout that fires leaves none live |
| RefreshGuard.SetBackGivesThree | packages/web-shared/src/auth/auth-refresh-guard.ts:15-60 | after every run and a reset, a cancel or (product scope) an invalidation, exactly the first three of the schedules that follow are accepted |
| RefreshGuard.AuthRefreshGuard.InvalidateAuthRefresh | packages/web-shared/src/auth/auth-refresh-guard.ts:15-21 | a new generation, and no product retry left pending; the platform scope untouched |
| RefreshGuard.AuthRefreshGuard.ScheduleRetry | packages/web-shared/src/auth/auth-refresh-guard.ts:45-60 | replaces the pending retry below the bound, and otherwise, in a browser, only reports exhaustion |
| PercentEncoding.Utf8Inverts | packages/contracts/src/export-filename.ts:181-193 | UTF-8 octets of a code point decode to it: shortest form, no surrogates, in range |
| PercentEncoding.OnlyShortestForms | packages/contracts/src/export-filename.ts:190-193 | the converse: an accepted octet sequence is the one shortest form of its code point |
| PercentEncoding.DecodeInvertsEncode | packages/contracts/src/export-filename.ts:181-193 | percent-encoding succeeds exactly on strings without lone surrogates, and percent-decoding gives the string back |
| PercentEncoding.EncodedUnits | packages/contracts/src/export-filename.ts:181 | an encoded string holds only units that neither end the extended value nor need quoting, and is not empty for a non-empty string |
| PercentEncoding.EncodedCharacter | packages/contracts/src/export-filename.ts:181 | a plain ASCII character is kept when it is a letter, a digit or one of - _ . ! ~ * ' ( ), and otherwise becomes % and two upper-case hexadecimal digits |
| PercentEncoding.EncodedCodePoint | packages/contracts/src/export-filename.ts:181 | any other code point becomes the triplets of its UTF-8 octets |
| PercentEncoding.HexValueExactly | packages/contracts/src/export-filename.ts:190-193 | hexadecimal digits are read in either case, and nothing else is |
| PercentEncoding.DecodedPlain | packages/contracts/src/export-filename.ts:190-193 | up to the first percent sign everything decodes to itself |
| PercentEncoding.MalformedTriplet | packages/contracts/src/export-filename.ts:190-196 | a percent sign without two hexadecimal digits behind it makes decoding fail |
| PercentEncoding.MalformedLead | packages/contracts/src/export-filename.ts:190-196 | so does an octet that starts no UTF-8 sequence |
| PercentEncoding.DecodeShrinks | packages/contracts/src/export-filename.ts:190-193 | decoding never makes a string longer |
| PercentEncoding.DecodedIsWellFormed | packages/contracts/src/export-filename.ts:190-193 | whatever decodes from ASCII has no lone surrogates, and encodes and decodes again to itself |
| ContentDisposition.Safe | packages/contracts/src/export-filename.ts:180 | the fallback is printable ASCII without quotes, no longer than the name, and is the name exactly when that already was |
| HeaderForms.SafeUnit | packages/contracts/src/export-filename.ts:180 | the fallback is made unit by unit: CR, LF and double quotes dropped, other printable ASCII kept, anything else an underscore |
| HeaderForms.Printed | packages/contracts/src/export-filename.ts:179-186 | the header in full: the name alone when it is printable without quotes, otherwise the fallback and the encoding; none exactly for a name that cannot be encoded |
| HeaderForms.ReadsExtended | packages/contracts/src/export-filename.ts:188-197 | from any header the first extended value is read, decoded, and nothing when its encoding is malformed |
| HeaderForms.ReadsQuoted | packages/contracts/src/export-filename.ts:198-199 | without an extended value, the first quoted value as it stands |
| HeaderForms.ReadsBare | packages/contracts/src/export-filename.ts:200-201 | without either, the first bare value, up to a semicolon or white space, less one quote mark in front and one behind |
| HeaderForms.ReadsNothing | packages/contracts/src/export-filename.ts:188-201 | without any value, or without a header, nothing |
| HeaderForms.MalformedReadsNothing | packages/contracts/src/export-filename.ts:190-196 | an extended value with a malformed triplet reads as nothing, whatever fallback stands beside it |
| ContentDisposition.HeaderRoundTrip | packages/contracts/src/export-filename.ts:179-202 | for every string: the printer throws exactly on lone surrogates; otherwise the parser returns the name exactly when its fallback does not spell the extended key followed by something capturable |
| ContentDisposition.SpoofedNameIsLost | packages/contracts/src/export-filename.ts:188-197 | a concrete name that is printed and not read back |
| ContentDisposition.PlainNameRoundTrip | packages/contracts/src/export-filename.ts:179-202 | names of lower-case letters, digits, dashes, underscores and dots are always read back |
| ExportFilename.SanitizeFilenameSegment | packages/contracts/src/export-filename.ts:7-16 | never empty, only lower-case letters, digits and dashes, no leading dash, within the length or the word export; whatever Unicode folding does |
| ExportFilename.SegmentIsWords | packages/contracts/src/export-filename.ts:7-16 | a segment is exactly the runs of letters and digits of the folded value, joined by single dashes and cut to its length, or the word export when there are none |
| ExportFilename.LabelsInjective | packages/contracts/src/export-filename.ts:18-62 | over all four formats, equal labels mean the same first and the same last parsed day |
| ExportFilename.BuildExportFilename | packages/contracts/src/export-filename.ts:83-104 | the name is the uncut base, a dot and a safe extension: pushing the parts one by one, dropping empty ones and cutting at 180 loses nothing |
| ExportFilename.ExtensionKept | packages/contracts/src/export-filename.ts:100-101 | an extension of letters and digits is kept in lower case, with or without its dot; any other becomes bin |
| ExportFilename.BaseBounded | packages/contracts/src/export-filename.ts:83-104 | the base has at most 155 characters, all lower-case letters, digits, dashes and underscores |
| ExportFilename.NameRoundTrip | packages/contracts/src/export-filename.ts:83-104 | every generated name is plain and survives its own header, with no precondition |
| ExportFilename.NamesTellRangesApart | packages/contracts/src/export-filename.ts:83-104 | exports that differ only in their dates share a name only if the parsed days are the same |
| ExportNames.LabelsTellDatesApart | packages/contracts/src/export-filename.ts:18-62 | equal labels mean the same first and the same last date as written, whatever form the labels have |
| ExportNames.NamesTellDatesApart | packages/contracts/src/export-filename.ts:83-104 | exports that differ only in their dates share a name only if the dates as written are the same |
| ExportNames.OneDayShown | packages/contracts/src/export-filename.ts:38-47 | a range of one day shows month name, day and year |
| ExportNames.WholeMonthShown | packages/contracts/src/export-filename.ts:25-53 | the first to the last day of a month, leap years included, shows month name and year |
| ExportNames.WithinMonthShown | packages/contracts/src/export-filename.ts:25-57 | any other days of one month show month name, first day, last day and year |
| ExportNames.DatesShown | packages/contracts/src/export-filename.ts:59-61 | days of different months show both dates as written |
| ExportNames.UnknownShown | packages/contracts/src/export-filename.ts:18-35 | a range with an end that has not four digits, a month 01 to 12 and a day 01 to 31 is shown as unknown-date |
| ExportNames.MarksDropped | packages/contracts/src/export-filename.ts:8-10 | combining marks are dropped one by one, and nothing else |
| ExportNames.SegmentKept | packages/contracts/src/export-filename.ts:7-16 | what is a segment already is kept |
| ExportNames.ExtensionShown | packages/contracts/src/export-filename.ts:100-101 | the extension in lower case when it is letters and digits only, bin otherwise, with or without its dot |
| ExportNames.NameHolds | packages/contracts/src/export-filename.ts:83-104 | the name in full: kloqra, the tenant if given, the workspace, the purpose (the one given, my-timesheet for a member, the report, or export), the hint if given and the range, joined by dashes, then a dot and the extension |
| ExportNames.NameCharacters | packages/contracts/src/export-filename.ts:83-104 | every generated name consists of lower-case letters, digits, dashes, underscores and dots |
| Calendar.DayFromYearClosed | packages/ui/src/lib/date-keys.ts:21-24 | the year-by-year day count is the closed Gregorian formula |
| Calendar.DayInverts | packages/ui/src/lib/date-keys.ts:17-24 | from a day to its date and back |
| Calendar.CivilInverts | packages/ui/src/lib/date-keys.ts:17-24 | from a valid date to its day and back |
| Calendar.MonthLengthIs | packages/ui/src/lib/date-keys.ts:17-24 | months have 31 days but for April, June, September and November, with 30, and February, with 29 in a year divisible by 4 and not by 100 or divisible by 400, else 28 |
| Calendar.MonthStarts | packages/ui/src/lib/date-keys.ts:17-24 | the first of a month follows the first of the month before by its length |
| Calendar.Epoch | packages/ui/src/lib/date-keys.ts:17-24 | 1 January 1970 is day 0, a Thursday |
| Calendar.NextDate | packages/ui/src/lib/date-keys.ts:17-24 | the next date has the next day number and weekday, across month and year ends |
| Calendar.DayOrder | packages/ui/src/lib/date-keys.ts:26-29 | valid dates are ordered by year, month, day exactly as their day numbers |
| Calendar.JsDate.AddDays | packages/ui/src/lib/date-keys.ts:92-99 | setDate(getDate() + k) moves exactly k days, across month and year ends |
| IsoWeek.GetIsoWeekNumber | packages/contracts/src/notification-templates.ts:343-350 | the result is the number of the ISO 8601 week holding the date exactly on the dates that RightWeek names |
| IsoWeek.FirstThursdayIsFirst | packages/contracts/src/notification-templates.ts:343-350 | the reference definition: week 1 is built on the first Thursday of the year |
| IsoWeek.IsoWeekExactly | packages/contracts/src/notification-templates.ts:343-350 | what the code computes for every date: the ISO week outside the years 0 to 99, the ISO week of the date 1900 years on inside them, and no week of the date at all when only its Thursday falls in them |
| IsoWeek.IsoWeekRight | packages/contracts/src/notification-templates.ts:343-350 | the number is the date's own week exactly when the years 0 to 99 stay out of it, or the date lies in them and: before March of year 0 it is a Monday to Friday; later, it is a Sunday of a Thursday's year that started on a Thursday and has not ended, or another day of one that did not start on a Thursday |
| IsoWeek.NumberInRange | packages/contracts/src/notification-templates.ts:343-350 | the number lies in 1..53 for every date except those of which only the Thursday falls in the years 0 to 99 |
| IsoWeek.IsoWeekUnique | packages/contracts/src/notification-templates.ts:343-350 | a day lies in one ISO week only, so the number is the week |
| IsoWeek.WeekNumbersRun | packages/contracts/src/notification-templates.ts:343-350 | wherever the number is right: constant from Monday to Sunday, 1 exactly in the week of the year's first Thursday, and otherwise one more than the week before |
| IsoWeek.TwoDigitYearGoesWrong | packages/contracts/src/notification-templates.ts:343-350 | 1 January of year 5 is in week 53 and the code answers 52 |
| DateKeys.KeyRoundTrip | packages/ui/src/lib/date-keys.ts:7-24 | key to date to key is the identity on a digit-shaped key exactly when it names a calendar date of a year from 1000 |
| DateKeys.DateRoundTrip | packages/ui/src/lib/date-keys.ts:7-24 | date to key to date is the identity on the years 1000 to 9999 |
| DateKeys.KeysOrderDays | packages/ui/src/lib/date-keys.ts:26-29 | comparing date keys as strings compares their days |
| DateKeys.RangeIsChronological | packages/ui/src/lib/date-keys.ts:31-35 | the string range test is the chronological one, whichever way round the range is given |
| DateKeys.WeekBoundDays | packages/ui/src/lib/date-keys.ts:91-99 | moving two dates in place finds the first and the last day of the week: the first on the week's start day, at most six days before |
| DateKeys.KeyWritten | packages/ui/src/lib/date-keys.ts:12-19 | a date's key is its year, and its month and day in at least two digits |
| DateKeys.WeekBoundsForDateKey | packages/ui/src/lib/date-keys.ts:86-101 | the keys of those days; an unreadable key gives unreadable bounds |
| DateKeys.WeeksPartition | packages/ui/src/lib/date-keys.ts:85-101 | a week starts on the requested weekday, holds its day, spans seven days, and another day has the same week exactly when it lies in it |
| DateKeys.KeyWeeksPartition | packages/ui/src/lib/date-keys.ts:85-101 | the same of keys: a key lies within its own bounds, and another lies within them exactly when it has the same bounds |
| MonthGrid.BuildMonthGrid | packages/ui/src/lib/date-keys.ts:112-134 | padding and cutting cells gives the grid of the month: rows of seven, each position showing its day or nothing |
| MonthGrid.MonthSpan | packages/ui/src/lib/date-keys.ts:107-109 | for any month number, overflowing ones too, the first day and the length are those of the month it names, by the written-out table |
| MonthGrid.MonthGridShape | packages/ui/src/lib/date-keys.ts:107-134 | four to six rows of seven cells, none all padding, for a month of 28 to 31 days |
| MonthGrid.DayPlace | packages/ui/src/lib/date-keys.ts:112-134 | each day of the month has exactly one cell, in day order, in the column of its weekday counted from the week start |
| MonthGrid.GridStart | packages/ui/src/lib/date-keys.ts:117-118 | position 0 is the first day of the week that holds the first of the month |
| MonthGrid.GridIsCalendar | packages/ui/src/lib/date-keys.ts:112-134 | for every year and month number: each position stands for one date, consecutive from the grid's start, and is filled exactly when the date is in the month named, with the numbers as given and the date's day |
| MonthGrid.ShowsOwnKeyExactly | packages/ui/src/lib/date-keys.ts:112-134 | what a filled position shows is its date's own key exactly when the month is 1 to 12 and the year not 0 to 99 |
| MonthGrid.OverflowingMonthMisnamed | packages/ui/src/lib/date-keys.ts:112-134 | the grid of month 13 of 2024 shows the days of January 2025 under other keys |
| MonthGrid.RowIsWeek | packages/ui/src/lib/date-keys.ts:86-134 | a day shown in a row of the grid has the week bounds that start at the row's first position |
| MonthGrid.AddMonthsCounts | packages/ui/src/lib/date-keys.ts:76-83 | the result is the calendar month delta months on |
| MonthGrid.AddMonthsUndone | packages/ui/src/lib/date-keys.ts:76-83 | moving back undoes moving forth exactly when neither the year nor the year reached, computed from the arguments, is 0 to 99 |
| MonthGrid.TwoDigitYearMoves | packages/ui/src/lib/date-keys.ts:76-83 | a month of year 50 moved by nothing is in 1950 |
| Overlap.EntriesHaveNoOverlap | apps/api/prisma/seed-member-rich-timelogs.util.ts:138-147 | true exactly when no pair of entries overlaps, ends exclusive |
| Overlap.FindOverlapsInBatch | apps/api/prisma/seed-member-rich-timelogs.util.ts:153-177 | the lines of the clashing neighbours of each user's sorted entries, users in order of appearance; for rows of positive length none exactly when every user's entries are pairwise free of overlap |
| Overlap.SortIsSorted | apps/api/prisma/seed-member-rich-timelogs.util.ts:165 | the sort orders by start and keeps the same entries |
| Overlap.SortIsStable | apps/api/prisma/seed-member-rich-timelogs.util.ts:165 | entries that start together keep their order |
| Overlap.ReportedExactly | apps/api/prisma/seed-member-rich-timelogs.util.ts:153-177 | a batch reports a pair exactly when the two are neighbours in the stable order of their user's entries and the second starts before the first ends |
| Overlap.ClashesAt | apps/api/prisma/seed-member-rich-timelogs.util.ts:163-175 | a user's clashes are those of the positions where that is so, one each and in order |
| Overlap.LineReads | apps/api/prisma/seed-member-rich-timelogs.util.ts:170-172 | the line of a clash, written out |
| Overlap.FastCheckExactly | apps/api/prisma/seed-member-rich-timelogs.util.ts:153-177 | for all rows: nothing is reported exactly when of every two entries of a user the one that starts first, the earlier listed on a tie, ends before the other starts |
| Overlap.FastCheckSound | apps/api/prisma/seed-member-rich-timelogs.util.ts:137-177 | for all rows: when nothing is reported, no user's entries overlap |
| Overlap.FastCheckRefinesSimple | apps/api/prisma/seed-member-rich-timelogs.util.ts:137-177 | for rows of positive length the neighbour check is empty exactly when the pairwise check passes for every user |
| Overlap.EmptySpanParts | apps/api/prisma/seed-member-rich-timelogs.util.ts:137-177 | an empty row on which the two checks disagree |
| DayPlanning.IterateCalendarDays | apps/api/prisma/seed-member-rich-timelogs.util.ts:99-110 | the cursor collects the dates of the day range |
| DayPlanning.RangeIsCalendar | apps/api/prisma/seed-member-rich-timelogs.util.ts:99-110 | exactly the valid dates between the two days named come out, in order, each once; for valid ends outside the years 0 to 99 these are the dates from the first to the last |
| DayPlanning.EntriesAre | apps/api/prisma/seed-member-rich-timelogs.util.ts:14-20 | a day has four entries of two hours, from 9:00, 11:30, 14:00 and 16:15 local time |
| DayPlanning.DaysClear | apps/api/prisma/seed-member-rich-timelogs.util.ts:14-20 | two days' slots keep clear of each other exactly when their midnights are at least 9h15m apart |
| DayPlanning.BatchExactly | apps/api/prisma/seed-member-rich-timelogs.util.ts:124-177 | the batch planned over any list of days is free of overlaps exactly when all their midnights are at least 33300000 ms (9h15m) apart, and totals eight hours a day |
| DayPlanning.CalendarBatch | apps/api/prisma/seed-member-rich-timelogs.util.ts:99-177 | over any choice of different calendar days, when consecutive midnights are at least 9h15m apart, the planned batch has no overlaps and totals eight hours a day |
| Presence.RunPolls | apps/client/src/stores/presence.store.ts:33-101 | in every run, stale and repeated releases and clears included: the timer is set iff something is counted iff a workspace is polled, the running intervals are exactly the tracked one, and counts are at least 1 |
| Presence.CountedExactly | apps/client/src/stores/presence.store.ts:61-101 | one step keeps the counts equal to the outstanding subscriptions exactly when it does not release a spent subscription whose workspace is counted |
| Presence.RunCounted | apps/client/src/stores/presence.store.ts:61-101 | in every run without such a release the counts are the outstanding subscriptions |
| Presence.SpentReleaseStopsPolling | apps/client/src/stores/presence.store.ts:79-94 | such a release stops the polling while one subscription is still outstanding |
| Presence.PollingStopsExactly | apps/client/src/stores/presence.store.ts:61-101 | from balanced counts, a step leaves someone subscribed with nobody polling exactly when it releases a spent subscription whose workspace is the only one counted, once |
| Presence.RunFeeds | apps/client/src/stores/presence.store.ts:61-101 | in every run that releases no spent subscription of a counted workspace, whoever is subscribed is polled for |
| Presence.SubscribedIsPolled | apps/client/src/stores/presence.store.ts:32-77 | after every run a subscribe leaves one interval refreshing its workspace, the old one if it already did, marks a workspace nothing is known of as loading, and counts it once more |
| Presence.ReleasedExactly | apps/client/src/stores/presence.store.ts:79-94 | after every run a release lowers its workspace's count, drops it at none, and stops the polling exactly when no count is left |
| Presence.TickExactly | apps/client/src/stores/presence.store.ts:32-42 | after every run a tick keeps the polled workspace's snapshot while asking again, loading exactly when there is none |
| Presence.ArrivedIsShown | apps/client/src/stores/presence.store.ts:43-58 | the snapshot that arrives is the one shown, none after a failure |
| Presence.ClearLeavesNothing | apps/client/src/stores/presence.store.ts:97-101 | after every run a clear leaves no entry, count or interval |
| Presence.StaleReleaseRun | apps/client/src/stores/presence.store.ts:79-94 | a run from the start in which a release after a clear stops the polling under a newer subscription |
| Presence.PresenceStore.Subscribe | apps/client/src/stores/presence.store.ts:61-77 | counts the workspace, replaces another workspace's interval, refreshes what is unknown and leaves one interval running |
| Presence.PresenceStore.Unsubscribe | apps/client/src/stores/presence.store.ts:79-94 | lowers the count of its workspace, and stops polling when nothing is counted |
| TimerStore.ElapsedExactly | apps/client/src/stores/timer.store.ts:24-36 | beyond the banked seconds, the whole seconds since the start and not one more; none before the start; a paused timer stands still |
| TimerStore.ShowsExactly | apps/client/src/stores/timer.store.ts:13-56 | setting shows the timer exactly when it has task, user, workspace and a start, with its pause flag; a tick changes the seconds alone; clearing leaves nothing |
| TimerStore.RunShowsTimer | apps/client/src/stores/timer.store.ts:38-56 | in every run the timer shown is well formed, the pause flag is its own, and the seconds shown are its elapsed seconds at the last look at the clock |
| TimerStore.TicksNeverGoBack | apps/client/src/stores/timer.store.ts:50-54 | under a clock that never runs back elapsed seconds never go back, and any number of ticks shows what the last alone would |
| ActiveTimer.KeyRoundTrip | apps/client/src/stores/member-store-cache-key.ts:2-18 | a key of colon-free ids gives its workspace back |
| ActiveTimer.KeyInjective | apps/client/src/stores/member-store-cache-key.ts:2-5 | with colon-free user ids a key determines user and workspace |
| ActiveTimer.OwnedExactly | apps/client/src/stores/active-timer-session.store.ts:32-70 | one step keeps the timer brought by a request the current user's own exactly when it does not carry one over at an explicit level below full |
| ActiveTimer.RunOwned | apps/client/src/stores/active-timer-session.store.ts:32-70 | in every run without such a step, a timer brought by a request was requested by the current user |
| ActiveTimer.ComparedLevelsSuffice | apps/client/src/lib/register-session-boundary.ts:8-24 | runs whose boundary levels are compared from the identities never carry a timer over |
| ActiveTimer.GoneUserExactly | apps/client/src/stores/active-timer-session.store.ts:44-55 | after every run the answer to a request of a user no longer signed in leaves the shown timer as it was, exactly unless it is a failure and a timer is shown |
| TimerPolling.AnswerShowsExactly | apps/client/src/stores/active-timer-session.store.ts:39-66 | in every state, an answer to a request of the user signed in shows a timer exactly when it is one with all its ids and a start, and then that one; auto-stopped, malformed, none and failed each leave no timer and no seconds |
| TimerPolling.AnswerEndsRequest | apps/client/src/stores/active-timer-session.store.ts:56-64 | any answer ends its request, lists its key as initialised and takes it off the map, and touches no count, interval, session or presence |
| TimerPolling.RefreshAsks | apps/client/src/stores/active-timer-session.store.ts:32-70 | in every run a refresh by a user with a colon-free id leaves one request on the map for that user and workspace, the one already out or a new one, and changes nothing else; without a user or a workspace it asks for nothing |
| TimerPolling.SubscribeExactly | apps/client/src/stores/active-timer-session.store.ts:72-88 | a subscribe counts the member once more, starts an interval, and leaves the member's timer asked for or initialised |
| TimerPolling.UnsubscribeExactly | apps/client/src/stores/active-timer-session.store.ts:90-100 | a release stops its interval and lowers the count, dropped at none |
| TimerPolling.IntervalExactly | apps/client/src/stores/active-timer-session.store.ts:84-88 | in every run the interval of an unreleased subscription refreshes its own workspace while its member is counted, and any other does nothing |
| TimerPolling.InvalidateExactly | apps/client/src/stores/active-timer-session.store.ts:103-115 | in every run invalidating forgets the member's timer and asks again while somebody is counted |
| TimerPolling.SameUserBoundary | apps/client/src/lib/register-session-boundary.ts:8-24 | a session of the same user, tenant and impersonator: everything stays, or, when workspace or setup flag differ, the timer, the presence and the old workspace's members go and the requests and intervals stay |
| Session.LevelExactly | packages/web-shared/src/auth/session-identity.ts:17-43 | with no explicit level a replaced session is met by no boundary exactly when nothing of the identity changed, and by one below full exactly when user, tenant and impersonator stay |
| Session.UserChangeIsFull | packages/web-shared/src/auth/session-identity.ts:31-43 | with no explicit level, replacing one user's session by another's is a full boundary |
| Session.ExplicitLevel | packages/web-shared/src/auth/session-boundary.ts:93-97 | an explicit level is honoured whatever the sessions |
| Session.ColdLoad | packages/web-shared/src/auth/session-boundary.ts:71-91 | a cold load reaches below full exactly as a plain update for the user the token names, and leaves everything exactly when the token names the workspace too |
| ActiveTimer.PlacedExactly | apps/client/src/stores/active-timer-session.store.ts:32-70 | one step keeps the timer brought by a request in the session's workspace exactly when it installs none requested for another and changes no workspace under one at an explicit level |
| ActiveTimer.RunPlaced | apps/client/src/stores/active-timer-session.store.ts:32-70 | in every run without such steps a timer brought by a request was requested for the session's workspace |
| ActiveTimer.RequestedHereInstallsHere | apps/client/src/stores/active-timer-session.store.ts:32-70 | a refresh for the session's workspace never installs its timer elsewhere while every session set until its answer is in that workspace |
| ActiveTimer.TrackedExactly | apps/client/src/stores/active-timer-session.store.ts:35-70 | one step keeps every outstanding request in the map exactly when it does not empty the map under one; the map always leads to outstanding requests of its keys |
| ActiveTimer.RunKeyed | apps/client/src/stores/active-timer-session.store.ts:35-70 | in every run the map leads only to outstanding requests of its keys: a settled one is never joined |
| ActiveTimer.OnePerKey | apps/client/src/stores/active-timer-session.store.ts:35-70 | in every run that never empties the map under a request, at most one request a key is outstanding |
| ActiveTimer.JoinsOwn | apps/client/src/stores/active-timer-session.store.ts:33-37 | a joined request is for the caller's own user and workspace, when user ids hold no colon |
| ActiveTimer.RunLive | apps/client/src/stores/active-timer-session.store.ts:72-101 | in every run, clears and removals included, the running intervals are exactly those of unreleased subscriptions |
| ActiveTimer.RunCovered | apps/client/src/stores/active-timer-session.store.ts:72-101 | in every run a listed count is at least 1 and never exceeds the unreleased subscriptions of its key |
| ActiveTimer.RunPresence | apps/client/src/lib/register-session-boundary.ts:8-24 | presence polling keeps its invariant through session boundaries |
| ActiveTimer.UserChangeClearsAll | apps/client/src/lib/register-session-boundary.ts:8-24 | after every run, a change or end of user leaves no timer, shared request, count or presence polling, and intervals still running ask for nothing |
| ActiveTimer.RemovesWorkspaceExactly | apps/client/src/stores/active-timer-session.store.ts:117-127 | removing a workspace drops exactly its initialised keys and their counts |
| ActiveTimer.OldEndDropsNewer | apps/client/src/stores/active-timer-session.store.ts:56-64 | after a clear, an old request's end lets two newer ones of one key be out at once |
| ActiveTimer.FailureClearsAnothersTimer | apps/client/src/stores/active-timer-session.store.ts:54-55 | a failed request of a user who is gone takes the next user's timer away |
| ActiveTimer.OtherWorkspaceInstalls | apps/client/src/stores/active-timer-session.store.ts:44-50 | a request installs its timer after the same user has moved to another workspace |
| ActiveTimer.ActiveTimerSessionStore.RefreshActive | apps/client/src/stores/active-timer-session.store.ts:32-37 | nothing without user or workspace; otherwise joins the key's request, or issues one and shares it |
| ActiveTimer.ActiveTimerSessionStore.AfterRequest | apps/client/src/stores/active-timer-session.store.ts:39-66 | installs for the same user only, clears on failure, and always drops the key's entry |
| ActiveTimer.ActiveTimerSessionStore.SubscribeActive | apps/client/src/stores/active-timer-session.store.ts:72-88 | counts the key, refreshes what is neither initialised nor in flight, and starts an interval |
| ActiveTimer.ActiveTimerSessionStore.RemoveWorkspace | apps/client/src/stores/active-timer-session.store.ts:117-127 | deletes the workspace's initialised keys one by one from both records |
| ActiveTimer.ActiveTimerSessionStore.OnBoundary | apps/client/src/lib/register-session-boundary.ts:8-24 | what a boundary of each level clears or trims |
| ActiveTimer.ActiveTimerSessionStore.ReplaceSession | packages/web-shared/src/stores/session.store.ts:77-96 | the boundary at its level first, then the session |
| TenantMigration.TakeIds | apps/api/scripts/migrate-pilots-to-tenants.util.ts:81-89 | takes one tenant's orphans off the map, or stops at the first slug it does not hold |
| TenantMigration.BuildGroupsFromMapping | apps/api/scripts/migrate-pilots-to-tenants.util.ts:74-92 | succeeds exactly when every listed slug is an orphan's and none is listed twice, over all tenants; then follows the mapping; otherwise names the first slug that is not |
| TenantMigration.AssignedOnce | apps/api/scripts/migrate-pilots-to-tenants.util.ts:74-92 | with unique orphan ids a successful mapping assigns no workspace twice, within a group or across groups |
| TenantMigration.AssignedExactly | apps/api/scripts/migrate-pilots-to-tenants.util.ts:74-92 | with unique slugs and ids an orphan is assigned exactly when its slug is listed |
| TenantMigration.BuildWorkspaceTenantMap | apps/api/scripts/migrate-pilots-to-tenants.util.ts:37-45 | each workspace goes to the last group listing it, and no other is mapped |
| TenantMigration.TenantIsLastListing | apps/api/scripts/migrate-pilots-to-tenants.util.ts:37-45 | a listed workspace's tenant is that of the last group listing it |
| TenantMigration.TenantIsItsGroup | apps/api/scripts/migrate-pilots-to-tenants.util.ts:37-45 | with no workspace assigned twice, a workspace's tenant is its one group's |
| TenantMigration.CollectTenants | apps/api/scripts/migrate-pilots-to-tenants.util.ts:53-60 | each user's tenants in order of first membership |
| TenantMigration.DetectCrossTenantConflicts | apps/api/scripts/migrate-pilots-to-tenants.util.ts:47-72 | the reported lines, in order of membership and without repetition |
| TenantMigration.TenantsAre | apps/api/scripts/migrate-pilots-to-tenants.util.ts:53-60 | a user's tenants are exactly the non-empty slugs of their mapped memberships, each once |
| TenantMigration.TenantsInOrder | apps/api/scripts/migrate-pilots-to-tenants.util.ts:53-60 | a user's tenants stand in order of first membership |
| TenantMigration.LinesInOrder | apps/api/scripts/migrate-pilots-to-tenants.util.ts:61-71 | the lines stand in order of the memberships |
| TenantMigration.ConflictsExactly | apps/api/scripts/migrate-pilots-to-tenants.util.ts:47-72 | a line is reported exactly when it is, in full, that of a membership whose user has another one in a different tenant, and it lists that user's tenants |
| TenantMigration.NoConflictsExactly | apps/api/scripts/migrate-pilots-to-tenants.util.ts:47-72 | nothing is reported exactly when every two memberships of a user that span two tenants have the empty slug for one of them |
| TenantMigration.NamedTenantsExactly | apps/api/scripts/migrate-pilots-to-tenants.util.ts:47-72 | when no group has an empty slug, nothing is reported exactly when no user's mapped memberships span two tenants |
| TenantMigration.EmptySlugOverlooked | apps/api/scripts/migrate-pilots-to-tenants.util.ts:56 | a user in a tenant with an empty slug and in one other is not reported |

## Left out

- IsoWeek.WeekNumbersRun: is about dates whose number is right; what is computed for the others is in `IsoWeekExactly`.
- DateKeys.KeyWeeksPartition: needs the week to stay within the years 1000 to 9999, where keys have four-digit years.
- DateKeys.KeyRoundTrip: is about keys shaped as four, two and two digits; other numeric spellings that `Number()` accepts (signs, exponents, spaces) are read as not a number.
- Overlap.FindOverlapsInBatch: takes the rendering of an instant (`toISOString()`) as an arbitrary function.
- DayPlanning.IterateCalendarDays: collects what the generator yields; lazy consumption is not modelled.
- DayPlanning.CalendarBatch: takes local midnight as an arbitrary function of the day; `Intl` time zones and `isWeekdayInZone` are not part of this model.
- ExportFilename.SanitizeFilenameSegment: takes Unicode normalisation and lower-casing as arbitrary functions, and strings without lone surrogates.
- SingleFlight.NoCrossTalk: needs colon-free user and workspace ids; `ColonConfusesKeys` shows why.
- TimerPolling.RefreshAsks: needs user ids without colons, as `ActiveTimer.KeyInjective` does.
- ActiveTimer.RunOwned: is by user, not by workspace, and about timers a request brought; the timer page's own settings are not claimed to belong to anyone.
- ActiveTimer.RunCovered: bounds the counts by the subscriptions instead of equating them, because clears, removals and repeated releases lower them.
- ActiveTimer.ActiveTimerSessionStore.AfterRequest: leaves out the timelog invalidation after an autostop.
- ActiveTimer.ActiveTimerSessionStore.ReplaceSession: leaves out token storage, broadcasting and the shared caches that a boundary also resets.
- ActiveTimer.ActiveTimerSessionStore.ClearSession: leaves out token clearing, broadcasting and the invalidation of refresh work.
- ActiveTimer.ActiveTimerSessionStore.OnBoundary: leaves out the two widget layouts that the handler also clears.
- RefreshGuard.AuthRefreshGuard.InvalidateAuthRefresh: leaves out the listeners it notifies.
- ApiClient.Client.Api: is about the product scope; the workspace id that resolving may write back to storage, other headers, body parsing and sign-out are not modelled, nor are cookies sent along with the token.
- JavaScript's `Date` is a day number: the limit of 8.64e15 ms and local clock changes within a day are not modelled.
- `deriveExportPurpose`, `buildExportScopeHint`, `slugifyWorkspaceName`, `buildGroupsPerWorkspace` and the label formatters are short, and would add only easy members.
- Notification templates, DTO schemas, React components, NestJS services and the database are data, user interface or I/O.
