# Verified model of the field-service backend

A Dafny model of the cores of a Rust backend for yard-care companies: signing and image parsing for
photo storage, completion reports, the notification outbox, customer visit messages and
recommendation decisions, memberships and invitations, dispatch, and portal authorization. Every
database transaction is one atomic step on explicit tables; every pure function is written as the
backend writes it. `dafny verify dfyconfig.toml` checks the whole project.

- `Numbers.dfy`, `Text.dfy`, `Options.dfy`, `Sets.dfy`: machine integers and casts, splitting,
  joining, trimming, string order, an option type, and a cardinality fact.
- `Doubles.dfy`: double-precision division, multiplication and rounding, for the progress percentage.
- `Calendar.dfy`: the closed-form days-to-date formula and the signer's timestamp, against an
  independent count of days and an independent reader.
- `PercentEncoding.dfy`: percent-encoding, paths, and the canonical query string with its in-place
  sort, against a decoder and a parser.
- `Jpeg.dfy`: the marker-scanning header parser, against a grammar of segments and a frame header.
- `DayPlanIds.dfy`: the day-plan id printer and parser.
- `CompletionReport.dfy`: building a report, the delivered snapshot, and the two customer
  projections, one over the typed report and one over its stored JSON.
- `ReportLifecycle.dfy`: the report table and its status history as a state machine.
- `QuietHours.dfy`: when a delivery notification becomes available.
- `Outbox.dfy`, `WorkerCycle.dfy`, `PhotoProcessing.dfy`: the outbox protocol over whole runs, and
  one cycle of each worker.
- `VisitThread.dfy`, `Recommendations.dfy`: versioned append-only logs with idempotent replay.
- `RecommendationSnapshot.dfy`: the snapshot published from a bid and the customer's reading of it.
- `Organization.dfy`, `Dispatch.dfy`, `Portal.dfy`: relational invariants and counting arguments.

Code that updates rows in place is a class whose methods assign its fields; each method is proved
equal to a step function on the contents. Such a method and its step say the same thing twice, once
with assignments; what the steps guarantee is in the lemmas about them and about whole runs.
A generated id, token, clock reading, provider outcome, the order of rows a query returns, and the
rows a locking query skips are parameters, so the results hold for every choice of them.

## What the model found

- Photo counts are cast from unsigned to signed 32 bits without a column check. A stored count that
  reads as 2^31 or more leaves its report ready but stuck in review: `ReviewedIsCandidateIff` is the
  exact condition, `OversizedCountIsStuck` an input. The backend itself only inserts jobs and adds
  one to these counts, so the input takes a write from outside it.
- Progress is computed in doubles, which lose the half of exactly four fractions: 29, 57, 113 and 115
  in 200 show one percent less (`ProgressIsHalfUpIff`, `ProgressCanLoseAHalf`). Whether it reaches 100
  is never affected (`PercentageIsHundredIff`).
- A manager's retry that took effect is answered "not found" when 100 newer notifications exist
  (`RetryAnswer`, `EffectiveRetryIsNotFound`).
- A jump of the clock, forward or back, can make a notification later than need be: when the quiet
  hours end at a reading that is skipped or shown twice, or when the clock goes back to before they
  began (`GapIsOverslept`, `RepeatedEndIsOverslept`, `RepeatedStartIsOverslept`).
  `AvailableInIsEarliestIff` is the exact condition.
- A replayed recommendation decision shows the current status of the series, not the recorded one
  (`ReplayedStatusAgreesIff`, `ReplayedStatusMayDiffer`).
- Bid validation does not look at service descriptions, but the customer's reader refuses blank or
  overlong ones, and one refused publication refuses the visit's whole list
  (`PublishedReadsBackIff`, `BlankDescriptionHidesTheVisit`).
- After a revocation the archived membership keeps its unique key, so inviting the same email again
  for that role and scope fails. A reissue brings the invitee back, and so does changing the archived
  membership's role, which frees the key (`InvitationAppliesIff`, `RoleChangeFreesTheKey`,
  `RevokedInviteeReturnsByRoleChange`).
- A flagged move at the very instant of a notification counts as notified (`NotifiedIff`,
  `SameInstantMoveIsLost`).
- The canonical text of no parameters is the one text that does not read back (`ParseEmptyQuery`).

## Model

| member | source | states |
|---|---|---|
| Calendar.CivilFromDaysIsTheCalendar | backend/src/photo_storage.rs:638-651 | day n+1 is the calendar successor of day n for every integer n, under the month lengths and leap rule of the service-date check (before the cast of the year) |
| Calendar.CivilFromDaysCounts | backend/src/photo_storage.rs:638-651 | every date produced is valid, and an independent count of days (years, months, days since 1970-01-01) takes it back to n |
| Calendar.CivilFromDaysInverse | backend/src/photo_storage.rs:638-651 | every valid date is the date of its own count, so the formula and the count undo each other |
| Calendar.DayZero | backend/src/photo_storage.rs:638-651 | day 0 is 1970-01-01 |
| Calendar.AwsDateTimeReadsBack | backend/src/photo_storage.rs:627-636 | before year 10000 the text has 16 characters with T and Z in their places, begins with the date the signer slices off, and an independent reader gets back the second it was printed from |
| Calendar.AwsDateTimeInOrder | backend/src/photo_storage.rs:627-636 | before year 10000 a later second prints to a lexicographically greater text |
| Calendar.ServiceDateIff | backend/src/day_plans.rs:1340-1386 | a date printed with four, two and two digits is a valid service date exactly when it is a date of the calendar from year 1 on |
| Calendar.ServiceDateShape | backend/src/day_plans.rs:1340-1386 | every valid service date has ten characters, hyphens in the fifth and eighth place and digits elsewhere |
| PercentEncoding.DecodeEncode | backend/src/photo_storage.rs:615-625 | percent-decoding undoes the encoding on every byte string (RFC 3986, sections 2.1 and 2.3) |
| PercentEncoding.EncodedAlphabet | backend/src/photo_storage.rs:615-625 | the encoded text consists of unreserved characters and of percent signs, each followed by two upper-case hexadecimal digits |
| PercentEncoding.UnreservedStays | backend/src/photo_storage.rs:615-625 | a byte stands for itself exactly when it is the code of a letter, digit, hyphen, period, underscore or tilde; any other becomes three characters |
| PercentEncoding.EncodedByteByByte | backend/src/photo_storage.rs:615-625 | a text is encoded byte by byte, so the law of one byte is the law of all |
| PercentEncoding.UriEncodePathKeepsSegments | backend/src/photo_storage.rs:584-589 | an encoded path has exactly the slashes of the path, and its segments decode to the original segments one by one |
| PercentEncoding.UriEncodePathInjective | backend/src/photo_storage.rs:584-589 | distinct object keys have distinct encoded paths |
| PercentEncoding.SortPairs | backend/src/photo_storage.rs:546-547 | the in-place sort leaves the array equal to the sorted listing of what it held |
| PercentEncoding.SortedIsSortedPermutation | backend/src/photo_storage.rs:546-547 | that listing is ordered and is a permutation of its input |
| PercentEncoding.PairLessIff | backend/src/photo_storage.rs:546-547 | the order of the listing is by key and then by value, each in lexicographic order: at the first place where two texts differ the smaller character comes first, and a prefix before what it begins |
| PercentEncoding.CanonicalQueryString | backend/src/photo_storage.rs:541-552 | the method computes the canonical text the lemmas below are about |
| PercentEncoding.CanonicalQueryIgnoresOrder | backend/src/photo_storage.rs:541-552 | any two listings of the same multiset of parameters give the same canonical text |
| PercentEncoding.ParseCanonicalQuery | backend/src/photo_storage.rs:541-552 | for one or more parameters, splitting the text on & and = and decoding gives back exactly the input multiset, in sorted order |
| PercentEncoding.ParseEmptyQuery | backend/src/photo_storage.rs:541-552 | the remaining case: no parameters give the empty text, which does not read back as a list of parameters |
| Jpeg.SeekMarker | backend/src/photo_storage.rs:695-703 | from any position the two inner loops stop in bounds, past the junk and the fill bytes and nothing else |
| Jpeg.JpegDimensions | backend/src/photo_storage.rs:688-733 | on any bytes the nested loop ends, stays in bounds and returns what the recursive scan returns |
| Jpeg.FirstFrameDecides | backend/src/photo_storage.rs:688-740 | after a start of image, any junk, fill, standalone markers and length-bearing segments that are no frame, the first frame header decides the result, whatever follows; the marker codes are those of ITU-T T.81, table B.1 (frames in section B.2.2) |
| Jpeg.DimensionsIffFrame | backend/src/photo_storage.rs:688-740 | a width and height are returned if and only if the stream has a first frame header with exactly those positive values |
| DayPlanIds.PartsOfDraftId | backend/src/day_plans.rs:1502-1558 | a printed id begins with day_plan_, and parsing it gives back the date and the crew for every valid service date and any crew id, underscores included |
| DayPlanIds.DraftIdInjective | backend/src/day_plans.rs:1502-1504 | two ids agree exactly when crew and date agree |
| DayPlanIds.DraftOfPartsIff | backend/src/day_plans.rs:1548-1558 | printing a successful parse gives the id back if and only if its three date segments hold no hyphen |
| CompletionReport.ProgressIsHundredIff | backend/src/completion_reports.rs:617-623 | with completed items among the items, the progress computed in doubles is at most 100, and is 100 exactly when the checklist is nonempty and at most one item in 200 is open |
| CompletionReport.ProgressIsHalfUpIff | backend/src/completion_reports.rs:617-623 | with completed items among a nonempty checklist, the progress computed in doubles is the exact percentage rounded half up if and only if the completed items are not 29, 57, 113 or 115 in 200; for these it is one less |
| CompletionReport.ProgressCanLoseAHalf | backend/src/completion_reports.rs:617-623 | a concrete one of the four: 57 of 200 items, 28.5 percent, is reported as 28 |
| Doubles.PercentageIsHalfUpIff | backend/src/completion_reports.rs:622 | for all 32-bit counts with the part among the whole, dividing, multiplying by 100 and rounding, each to the nearest double, gives the exact percentage rounded half up if and only if 200 times the part is not 29, 57, 113 or 115 times the whole; otherwise one less |
| Doubles.PercentageIsHundredIff | backend/src/completion_reports.rs:622 | so the percentage is at most 100, and 100 exactly when at most one in 200 is missing, the exact tie included |
| CompletionReport.BuiltReportIsReadyIff | backend/src/completion_reports.rs:415-468 | a report is built ready exactly when progress is at least 100, before and after photos are on record at the job or in the list, and every add-on is completed; its counts are the larger of the job's count and the number of such photos in the list |
| CompletionReport.OnlyCompletedAddOns | backend/src/completion_reports.rs:415-468 | the report lists each completed add-on as often as it occurs, and no other |
| CompletionReport.BlockersAreNamed | backend/src/completion_reports.rs:573-597 | each of the five blockers is named exactly when its requirement is not met |
| CompletionReport.RouteStopHoldsBack | backend/src/completion_reports.rs:599-615 | with a route stop a built report stays ready exactly when the stop is finished, is a draft otherwise, and keeps everything else |
| CompletionReport.OverlayTakesStored | backend/src/completion_reports.rs:536-571 | each stored value is taken where there is one, and a link to the token is shown exactly with a token and once delivered |
| CompletionReport.PersistableStatus | backend/src/completion_reports.rs:415-468 | a built, possibly route-attached report is submitted exactly when ready, and then has progress of at least 100 and photos of both kinds |
| CompletionReport.ReportCell.AttachRouteStop | backend/src/completion_reports.rs:599-615 | the field-by-field update of the report ends in the route-attached report and changes nothing else |
| CompletionReport.ReportCell.ApplyPersistence | backend/src/completion_reports.rs:536-571 | the field-by-field overlay ends in the report that takes each stored value where there is one and shows a share link only when delivered |
| CompletionReport.PreparedSnapshotIsValidIff | backend/src/completion_reports.rs:470-526 | a prepared snapshot is accepted if and only if the ids are its own and the report is persisted, ready, at 100 and has before and after photos; it carries the capture time and no link |
| CompletionReport.StoredViewRefinesTypedView | backend/src/completion_reports.rs:170-320 | for every report, the projection of its stored JSON succeeds if and only if the typed check accepts it under its own ids, the ids are not blank and the lists are shorter than 2^32; the result is then the typed projection |
| ReportLifecycle.ReportTables.Persist | backend/src/postgres_completion_reports.rs:12-154 | writes the upsert step: on a conflict of the job it freezes status and evidence once submitted and keeps the first token and submission time; it refuses a progress the column check refuses and an id taken by another job |
| ReportLifecycle.ConflictIsOwnRow | backend/src/postgres_completion_reports.rs:23-51 | in every state that keeps the run invariant, the row a built report conflicts with is the one under its own id, so the upsert never meets a foreign id |
| ReportLifecycle.PersistStoresOrKeeps | backend/src/postgres_completion_reports.rs:12-154 | in every state that keeps the run invariant, storing a built report writes its own row only: a new or draft row takes the report's values, any other keeps its own; the answer is the row, negative counts read as zero; only a progress the column refuses is refused |
| ReportLifecycle.TokenOnlyOnceDelivered | backend/src/postgres_completion_reports.rs:130-154 | the store never answers with a token before the report is delivered |
| ReportLifecycle.OverlayShowsRow | backend/src/completion_reports.rs:536-571 | a report overlaid with a stored row shows the row's status and evidence, blockers that match it, and a link only once delivered; what the row does not hold stays |
| ReportLifecycle.ReportTables.StartReview | backend/src/postgres_completion_reports.rs:156-239 | writes the review step: only on a submitted report, with reviewer and history link |
| ReportLifecycle.ReportTables.RequestChanges | backend/src/postgres_completion_reports.rs:241-314 | writes the changes step: only on a report in review, with its reason in the history link |
| ReportLifecycle.ReportTables.Resubmit | backend/src/postgres_completion_reports.rs:316-407 | writes the resubmission step: only on a changes-requested report with complete evidence, clearing the review |
| ReportLifecycle.ReportTables.Deliver | backend/src/postgres_completion_reports.rs:447-565 | writes the delivery step: only on a ready in-review report with a valid matching snapshot, storing snapshot, token and time; a token of another report is refused |
| ReportLifecycle.ReviewAnswers | backend/src/postgres_completion_reports.rs:156-314 | review starts exactly on a submitted report and changes are requested exactly in review; the answer is the new status, or says whether the report is missing or in another status, and then nothing changed |
| ReportLifecycle.EvidenceAnswers | backend/src/postgres_completion_reports.rs:316-565 | resubmission succeeds exactly on a changes-requested report with complete evidence; what is delivered has the ids and counts of the reviewed row; a report is offered for delivery exactly in review with a review time and complete evidence |
| ReportLifecycle.ActionIsRecorded | backend/src/postgres_completion_reports.rs:156-565 | an action that changes anything moves its own report one status on and appends one link from the old status to the new one with its user and reason; evidence and counts stay frozen and the time of the step is stored |
| ReportLifecycle.RunKeepsInvariant | backend/src/postgres_completion_reports.rs:51-565 | over every run, each report has one connected chain of allowed transitions starting at submitted and ending in its stored status; token, snapshot and delivery time exist exactly when delivered; past draft it is ready with progress 100 and nonzero photo counts; in review it has a review time |
| ReportLifecycle.DeliveryIsFinal | backend/src/postgres_completion_reports.rs:447-565 | whatever follows a delivery in a run, the row, its token, its snapshot and its history never change |
| ReportLifecycle.DeliveredLinkOpens | backend/src/postgres_completion_reports.rs:447-592 | over every run, a delivery answers the link of the proposed token; looking that token up finds the delivered snapshot and no other, whatever follows; and every later answer about the job carries the same token |
| ReportLifecycle.ReviewerIsOnRecord | backend/src/postgres_completion_reports.rs:156-407 | over every run a report names as reviewer the user of the last link into review in its history, and none while it is submitted |
| ReportLifecycle.GuardsHoldIffCountsFit | backend/src/postgres_completion_reports.rs:353-446 | over every run, a changes-requested report can be resubmitted if and only if neither stored photo count is negative, and a report in review is a delivery candidate if and only if neither is |
| ReportLifecycle.FittingReportHasFittingRow | backend/src/postgres_completion_reports.rs:51-154 | over every run, a report that was only ever stored with photo counts below 2^31 has no negative stored count |
| ReportLifecycle.ReviewedIsCandidateIff | backend/src/postgres_completion_reports.rs:51-154 | the exact condition, for one report: stored and put in review it is deliverable, and sent back it can be resubmitted, if and only if both photo counts are below 2^31 |
| ReportLifecycle.OversizedCountIsStuck | backend/src/postgres_completion_reports.rs:121-131 | any job with a photo count of 4294967295, which is how a negative stored count reads, and a finished checklist: its report is submitted and enters review, but is never a delivery candidate and cannot be resubmitted |
| ReportLifecycle.CandidateIsDelivered | backend/src/main.rs:8786-8826 | the delivery handler, run on a candidate in any reachable state, delivers it however the job changed since review, unless the rebuilt progress is one the column refuses or the token is already another report's |
| ReportLifecycle.DeliveredSnapshotIsShown | backend/src/postgres_completion_reports.rs:447-565 | over every run, the snapshot a delivery stores is shown to the customer, as the typed projection of it, if and only if the job id is not blank and the lists are shorter than 2^32 |
| QuietHours.AvailableInIsEarliestIff | backend/src/postgres_completion_reports.rs:749-769 | in a zone whose clock jumps at most once while the notification waits, by any amount in either direction, the result is the earliest instant not before now outside the half-open quiet window if and only if it is not quiet, or the jump is past, or the reading at which the quiet hours end is shown before the jump and not again after it, or is the one the jump leaves from, to one that is not quiet, or is skipped by a jump of whole days, or is first shown after a jump into the same quiet hours; the wait is shorter than a day plus the size of a backward jump |
| QuietHours.GapIsOverslept | backend/src/postgres_completion_reports.rs:749-769 | a concrete night whose quiet hours end in an hour the clock skips: the notification waits half an hour longer than it must |
| QuietHours.RepeatedEndIsOverslept | backend/src/postgres_completion_reports.rs:749-769 | a concrete night whose quiet hours end at a reading shown twice: the notification waits for the second |
| QuietHours.RepeatedStartIsOverslept | backend/src/postgres_completion_reports.rs:749-769 | a concrete night whose clock goes back to before the quiet hours began: the notification does not use the quarter of an hour that is open again |
| QuietHours.AvailableAtIsSearch | backend/src/postgres_completion_reports.rs:749-769 | in a zone of fixed offset the closed form equals trying one clock tick after another |
| Outbox.RetryDelayDoubles | backend/src/notifications.rs:797-800 | the delay is 60 seconds up to the first attempt and doubles with each further one, capped at 3600 |
| Outbox.OutboxTable.DeadLetterExhausted | backend/src/notifications.rs:127-140 | writes the sweep step: failed and stale rows out of attempts become dead letters (what sweeps and claims keep is in the run lemmas) |
| Outbox.OutboxTable.ClaimCandidates | backend/src/notifications.rs:142-193 | writes the claim step on the rows the query selects, and hands out each with its new attempt number |
| Outbox.OutboxTable.MarkSent | backend/src/notifications.rs:195-231 | writes the receipt step: only on a row being sent |
| Outbox.OutboxTable.MarkFailed | backend/src/notifications.rs:233-278 | writes the failure step: only on a row being sent, with the status and backoff of the attempt number passed |
| Outbox.OutboxTable.RetryFailed | backend/src/notifications.rs:360-440 | writes the retry step and looks the row up in the history |
| Outbox.OutboxTable.ResolveFailed | backend/src/notifications.rs:442-525 | writes the resolution step and looks the row up in the history |
| Outbox.SweepLeavesAttempts | backend/src/notifications.rs:127-140 | a sweep changes only failed and sending rows out of attempts, into dead letters; after it every failed or stale row that is due has attempts left |
| Outbox.ClaimTakesTheEarliest | backend/src/notifications.rs:142-193 | a claim takes only due rows with attempts left that no one else holds, at most the limit; a due row it leaves means a full batch of rows that come earlier by availability, creation and id; each taken row is sending with one more attempt |
| Outbox.FailureWaitsForBackoff | backend/src/notifications.rs:233-278 | after an applied failure the row is a dead letter exactly when the attempt was the last, keeps the code and at most 1000 characters of the error, and otherwise is claimable exactly from the end of that attempt's backoff on, while it has attempts left |
| Outbox.ReceiptIsKept | backend/src/notifications.rs:195-231 | the code, message id and time of an accepted delivery stay with its row through any further steps |
| Outbox.SkippedIsOver | backend/src/postgres_project_bids.rs:1147-1155 | skipping touches exactly queued, failed and sending rows, and such a row never changes again |
| Outbox.RunKeepsInvariant | backend/src/notifications.rs:118-525 | over every interleaving of workers, managers and other writers, the row invariants below hold after every step |
| Outbox.AttemptsAreBounded | backend/src/notifications.rs:118-278 | a row's attempt count is its claims since its last retry and never exceeds the maximum; its claims are at most the maximum times one more than its retries; applied write-backs never outnumber claims |
| Outbox.ClaimsAreSpaced | backend/src/notifications.rs:142-278 | two claims of one row with no retry of it between them are at least 60 seconds apart, even when stale workers write back late |
| Outbox.FinalIsAbsorbing | backend/src/notifications.rs:118-525 | a sent, resolved or skipped row never changes again in any interleaving |
| Outbox.RetryAnswer | backend/src/notifications.rs:360-440 | a retry takes effect exactly on a failed or dead-lettered row of the given organizations, which then starts over and is claimable at once; it is nevertheless answered not found exactly when 100 or more of the manager's rows are newer; a refusal names a missing or foreign row not found and any other an invalid status |
| Outbox.ResolveAnswer | backend/src/notifications.rs:442-525 | a resolution takes effect on the same rows with the same answers; the row is resolved for good, with the manager's trimmed reason or a stock note |
| Outbox.EffectiveRetryIsNotFound | backend/src/notifications.rs:422-437 | a table of 101 failed rows on which retrying the oldest queues it and is answered not found |
| WorkerCycle.DispatchOnce | backend/src/notifications.rs:680-761 | claims a batch and works through it while others write; a completed cycle counts every row it claimed once, as finalized exactly when the row was still being sent at its write-back, and as stale otherwise |
| WorkerCycle.ClaimIsFresh | backend/src/notifications.rs:142-193 | whatever a claim hands out are distinct rows that are being sent, each with one attempt more than it had |
| WorkerCycle.ExhaustedIsNotClaimed | backend/src/notifications.rs:118-193 | with no one between sweep and claim, a failed row out of attempts is a dead letter after the cycle's claim and was not claimed |
| WorkerCycle.UndisturbedCycle | backend/src/notifications.rs:680-761 | from any table, when no one else writes after the claim, finalized equals the number claimed, and each claimed row shows its provider outcome: the receipt, or the refusal's code or error, failed or dead-lettered by its attempt number |
| PhotoProcessing.ProcessOnce | backend/src/photo_processing.rs:105-213 | a loaded cycle satisfies claimed = finalized + stale over both queues with each count the number of such outcomes; it is unavailable exactly when a claim query or some write failed; each claim gets exactly the write its type and result call for |
| PhotoProcessing.ProcessThumbnails | backend/src/photo_processing.rs:127-176 | the loop over the thumbnail queue writes one outcome per claim, refusing unknown task types, and its counters tally the outcomes |
| PhotoProcessing.ProcessDeletions | backend/src/photo_processing.rs:178-206 | the loop over the deletion queue goes on from those counters and the earlier missed writes |
| PhotoProcessing.WritesTell | backend/src/photo_processing.rs:127-206 | a claim is completed exactly when its thumbnail was generated or its object deleted; anything else fails it with its attempt number and a reason that tells the cases apart |
| PhotoProcessing.Counters.RecordFinalization | backend/src/photo_processing.rs:215-237 | one outcome adds one to finalized or to stale, or is reported as unavailable |
| VisitThread.ThreadTables.InsertMessage | backend/src/customer_visit_communication.rs:850-892 | writes the insert step: the message and its thread's version together, or neither |
| VisitThread.ThreadTables.CreateCustomerQuestion | backend/src/customer_visit_communication.rs:894-965 | writes the question step: authority, replay, version check and insert in the source's order |
| VisitThread.ThreadTables.CreateProviderResponse | backend/src/customer_visit_communication.rs:967-1057 | writes the response step, with the question lookup and the single-answer check |
| VisitThread.UnchangedUnlessCreated | backend/src/customer_visit_communication.rs:850-1057 | only a created answer changes the store, and then by exactly one message and one version of its thread |
| VisitThread.WellFormedIff | backend/src/customer_visit_communication.rs:315-346 | which requests are well formed: topics, trimmed lengths and key characters |
| VisitThread.AuthorityAnswers | backend/src/customer_visit_communication.rs:894-990 | a well-formed question is answered unauthorized or invalid authorization exactly by its authorization, which a response does not have, and otherwise not found exactly when the thread is missing or not visible |
| VisitThread.CreatedIff | backend/src/customer_visit_communication.rs:894-1057 | over every run a well-formed, authorized request under an unused key and id creates its message, with exactly what it says, if and only if it expects the thread's version and, for a response, names a question of the thread no response names yet; otherwise it is a conflict |
| VisitThread.VersionsAreExact | backend/src/customer_visit_communication.rs:850-892 | over every run a thread's version is its number of messages, and a number is the version of one of them exactly when it lies between 1 and that |
| VisitThread.VersionsAreOrdered | backend/src/customer_visit_communication.rs:850-892 | versions of a thread strictly increase in the order of insertion |
| VisitThread.ResponsesAnswerQuestions | backend/src/customer_visit_communication.rs:1011-1055 | over every run each response answers an earlier question of its thread, on its topic, and no two answer the same |
| VisitThread.ResponsesNeverOutnumberQuestions | backend/src/customer_visit_communication.rs:1011-1055 | in every prefix of every run a thread has at most as many responses as questions |
| VisitThread.KeysAreUnique | backend/src/customer_visit_communication.rs:833-848 | ids and (author, key) pairs stay unique over all threads |
| VisitThread.WritesAreIdempotent | backend/src/customer_visit_communication.rs:925-1010 | once a request created a message, then after any further events every attempt under that actor and key changes nothing; it is replayed with that message if and only if it is the same request up to padding and passes the authority queries; a different one that passes is a conflict |
| Recommendations.RecommendationTables.ReconcileExpiration | backend/src/customer_visit_recommendations.rs:420-473 | the loop over the due rows expires each with one event |
| Recommendations.RecommendationTables.Decide | backend/src/customer_visit_recommendations.rs:605-780 | the imperative transaction computes the specified decision and rolls back everything unless it is recorded |
| Recommendations.RunKeepsInvariant | backend/src/customer_visit_recommendations.rs:420-780 | over every run, each version's event list is published, at most one outcome, then superseded when replaced; its decision list fits that outcome |
| Recommendations.VersionIsClosedOnce | backend/src/customer_visit_recommendations.rs:680-768 | each version has at most one decision and one outcome; a decision exists exactly behind a customer outcome, by the same user, key and time, and the outcome is approved, declined or revision requested exactly when its action is approve, decline or request_revision; a current version is pending exactly when it has no outcome |
| Recommendations.DecidedBeforeExpiry | backend/src/customer_visit_recommendations.rs:680-705 | every decision is on a published version and was made before it expired, a week after its publication, whatever the clock did |
| Recommendations.ReadExpiresTheDue | backend/src/customer_visit_recommendations.rs:420-473 | a committed read leaves no due version pending on its visit, expires exactly those, and leaves every other series as it was |
| Recommendations.WellFormedIff | backend/src/customer_visit_recommendations.rs:184-215 | which requests are well formed: version, key, lengths, and what each of the three actions must and must not bring |
| Recommendations.AuthorityAnswers | backend/src/customer_visit_recommendations.rs:605-628 | what a request is answered that is malformed, has no actor, no valid authorization, or no visit |
| Recommendations.RecordedIff | backend/src/customer_visit_recommendations.rs:605-720 | an admitted decision under an unused key is not found exactly when its recommendation is not on the visit or has expired, a conflict exactly when it is then not pending in the expected version, and recorded otherwise, unless another event has the key |
| Recommendations.RecordedDecision | backend/src/customer_visit_recommendations.rs:707-780 | a recorded decision appends one decision that repeats the request and one event of its kind, and series and receipt show the status its action asks for |
| Recommendations.DecisionsAreIdempotent | backend/src/customer_visit_recommendations.rs:630-678 | once recorded, after any further steps every attempt under that actor and key changes nothing; it is replayed with the recorded reference, version, action and time exactly when it is admitted and the same request; another admitted one is a conflict |
| Recommendations.ReplayedStatusAgreesIff | backend/src/customer_visit_recommendations.rs:664-677 | the lifecycle status in a replayed receipt is the current one: it equals the recorded one if and only if the decided version is still current or the current version is at revision requested again |
| Recommendations.ReplayedStatusMayDiffer | backend/src/customer_visit_recommendations.rs:664-677 | a concrete run in which the exact retry of a revision request is answered pending |
| RecommendationSnapshot.TotalCents | backend/src/postgres_project_bids.rs:883-896 | the totalling loop computes the 64-bit sum of quantity times price |
| RecommendationSnapshot.ReadTotalIsExact | backend/src/customer_visit_recommendations.rs:384-391 | whatever is stored, a publication the customer reads shows the exact sum of its items, and no 64-bit addition wrapped |
| RecommendationSnapshot.ReadIff | backend/src/customer_visit_recommendations.rs:356-401 | exactly which stored snapshots are read: of the row's version, in dollars, with one to 25 ordinary items and the exact sum as total |
| RecommendationSnapshot.ValidBidIff | backend/src/project_bids.rs:391-437 | exactly which bids are valid; their service descriptions are free |
| RecommendationSnapshot.PublishedReadsBackIff | backend/src/customer_visit_recommendations.rs:356-401 | a bid that passes validation, published at any version, reads back as published if and only if each service description is absent, or not blank and at most 2000 characters |
| RecommendationSnapshot.ListPublications | backend/src/customer_visit_recommendations.rs:518-537 | the loop that stops at the first unreadable publication computes the list |
| RecommendationSnapshot.ListIsLoadedIff | backend/src/customer_visit_recommendations.rs:518-537 | the visit list is loaded if and only if every current publication is readable, and then holds them in order |
| RecommendationSnapshot.BlankDescriptionHidesTheVisit | backend/src/customer_visit_recommendations.rs:518-530 | a concrete valid bid with a blank description, published among any others, makes the visit list be refused |
| Organization.OrganizationTables.Bootstrap | backend/src/organizations.rs:1041-1118 | writes the bootstrap step: an organization with its founder as active owner, for a user without an active membership |
| Organization.OrganizationTables.CreateInvitation | backend/src/organizations.rs:1617-1770 | writes the invitation step: invitation and invited membership together, under the source's guards |
| Organization.OrganizationTables.RevokeInvitation | backend/src/organizations.rs:1819-1880 | writes the revocation step: only on a live pending invitation, archiving its invited membership |
| Organization.OrganizationTables.ReissueInvitation | backend/src/organizations.rs:1882-2012 | writes the reissue step: only on a revoked or lapsed invitation with a future expiry, under a new token |
| Organization.OrganizationTables.AcceptInvitation | backend/src/organizations.rs:2014-2130 | writes the acceptance step on the one live pending invitation with the token and email |
| Organization.OrganizationTables.UpdateMembershipRole | backend/src/organizations.rs:2132-2229 | writes the role step: refused for the last active owner and for a taken key |
| Organization.OrganizationTables.UpdateMembershipStatus | backend/src/organizations.rs:2276-2374 | writes the status step: refused for the last active owner and for memberships neither active nor suspended |
| Organization.FoldedEmail | backend/src/organizations.rs:2599-2605 | an email is folded by trimming it and lower-casing its ASCII letters, and nothing else |
| Organization.BootstrapAnswer | backend/src/organizations.rs:1041-1118 | a bootstrap is answered already member exactly to a user with an active membership; applied, it adds the user as active owner of the whole new organization, who cannot bootstrap again |
| Organization.InvitationAnswer | backend/src/organizations.rs:1617-1770 | an invitation is invalid exactly for a malformed email and a conflict exactly with an open one of the email; applied, it adds one invitation and its membership with the role, scope, token and expiry asked for |
| Organization.AcceptanceMakesTheMember | backend/src/organizations.rs:2014-2130 | in every state that keeps the run invariant, an applied acceptance found an open invitation by token and email, and changes one membership row only, the invitation's: active, held by the accepting user, in the role it had; that user cannot bootstrap afterwards |
| Organization.RevocationAnswer | backend/src/organizations.rs:1819-1880 | a revocation applies exactly to an open invitation of the organization, archives its membership, and no one can accept it any more |
| Organization.RoleAnswer | backend/src/organizations.rs:2132-2229 | a role change is refused exactly for a foreign membership, for the only active owner unless the role stays, and for a key another membership holds; otherwise it changes the role only |
| Organization.StatusAnswer | backend/src/organizations.rs:2276-2374 | a status change is refused exactly for other statuses than active and suspended, for a foreign membership, and for suspending the only active owner; otherwise it changes the status only |
| Organization.NoStepTakesTheLastOwner | backend/src/organizations.rs:2132-2374 | from any state at all, no step leaves an organization that had an active owner without one |
| Organization.OrganizationsStayOwned | backend/src/organizations.rs:1041-2374 | over every run every organization has an active owner after every step |
| Organization.MembershipsFollowInvitations | backend/src/organizations.rs:1617-2130 | over every run a pending invitation's membership is invited, an accepted one's active or suspended, a revoked one's archived, and no two invitations share a membership or token |
| Organization.AcceptedMembershipIsTheUsers | backend/src/organizations.rs:2014-2130 | over every run an accepted invitation's membership is held by the one user who accepted it, in the invitation's organization and scope |
| Organization.TokensAreUsedOnce | backend/src/organizations.rs:1882-2071 | each token is accepted at most once, and never after a reissue replaced it |
| Organization.InvitationAppliesIff | backend/src/organizations.rs:1617-1734 | over every run, an invitation of a valid email to an existing organization, with no live pending one and new ids and token, applies if and only if no membership in any status holds the email, role and scope |
| Organization.ReissueAppliesIff | backend/src/organizations.rs:1882-1970 | over every run, a reissue under a new token applies if and only if the invitation is the organization's, neither accepted nor open, and the new expiry is in the future |
| Organization.ReissueOffersAgain | backend/src/organizations.rs:1882-2012 | a reissued invitation can be accepted exactly with the new token, by its email, before the new expiry; its membership is invited again in the role it has |
| Organization.AcceptanceAppliesIff | backend/src/organizations.rs:2014-2110 | over every run, an acceptance applies if and only if an open invitation has the token and the folded email, and the user holds no other membership with its role and scope; with no such invitation it is a conflict |
| Organization.UnacceptedInvitationHoldsItsKey | backend/src/organizations.rs:1617-1880 | over every run, while the membership of an unaccepted invitation keeps its role, inviting the email again for that role and scope never applies |
| Organization.RoleChangeFreesTheKey | backend/src/organizations.rs:2132-2207 | over every run, changing that membership's role, archived or not, makes an otherwise possible invitation for the old role and scope apply, with no reissue |
| Organization.RevokedInviteeReturnsByRoleChange | backend/src/organizations.rs:1041-2229 | the run bootstrap, invite, revoke, invite is answered unavailable, and with a role change before the last step it applies |
| Dispatch.DispatchTables.UpdateDispatchAssignment | backend/src/db.rs:445-563 | writes the move step, with its guards, projected count and audit row |
| Dispatch.DispatchTables.CompleteCustomerNotification | backend/src/db.rs:565-637 | writes the notification step for the latest flagged move |
| Dispatch.MoveAnswer | backend/src/db.rs:445-563 | a job moves exactly when it is scheduled, the crew is active in its organization, and the crew's other open jobs of the date leave room; the refusals name the failed guard, in order; a move changes the job's crew and date and appends one audit row with both old and new |
| Dispatch.AuditTellsWhereJobsAre | backend/src/db.rs:527-563 | over every run from an empty log, each job's audit rows chain from one crew and date to the next and end where the job is |
| Dispatch.MoveGrowsOnlyTheTarget | backend/src/db.rs:490-527 | no crew and date but the target gains an open job, and the target ends with exactly the job added and within capacity, whatever held before |
| Dispatch.RunKeepsCapacity | backend/src/db.rs:490-527 | every run that starts with each crew and date within capacity keeps them so |
| Dispatch.MovesAreNotifiedOnce | backend/src/db.rs:587-616 | with a clock that does not go back, each notification answers an earlier flagged move of its job and no two answer the same |
| Dispatch.NotificationsNeverOutnumberMoves | backend/src/db.rs:587-616 | in every prefix of the audit log a job has at most as many notifications as flagged moves |
| Dispatch.NotifiedIff | backend/src/db.rs:587-637 | a notification is written if and only if some flagged move of the job is strictly later than every notification of it, and it names the latest flagged move |
| Dispatch.SameInstantMoveIsLost | backend/src/db.rs:587-616 | two flagged moves and a notification between them at one instant: the second move is never notified |
| Portal.CountsDecide | backend/src/customer_portal_access.rs:86-187 | the two counts decide exactly: not authorized without an active grant, invalid as soon as one active grant has no active organization, relation, property or membership of its user, role and scope behind it |
| Portal.ListedIffCovered | backend/src/customer_portal_access.rs:134-266 | the list is loaded exactly under a valid authorization, and then holds exactly the non-archived properties some active grant of the same organization and account covers by the scope rule, with account scope exactly when one of these grants covers the whole account |
| Portal.ThreadVisibleIffListed | backend/src/customer_visit_communication.rs:401-469 | under a valid authorization a customer can lock a thread if and only if its relationship is active and its property, in the thread's organization and account, is listed |
| Portal.QuestionsStayOnListedProperties | backend/src/customer_visit_communication.rs:908-964 | a question is created or replayed only on a thread whose property is on that customer's property list |

## Left out

- QuietHours.AvailableInIsEarliestIff: at most one jump of the clock from now until the wait is over (a day, plus the size of a backward jump).
- CompletionReport.BuiltReportIsReadyIff: for lists shorter than 2^32, whose lengths the casts keep.
- Organization.AcceptanceAppliesIff: for a token that is not blank and a well-formed email; Organization.AcceptanceMakesTheMember gives the other answers.
- VisitThread.CreatedIff: for an unused key and message id; VisitThread.WritesAreIdempotent covers a used key.
- Recommendations.RecordedIff: for an unused key; Recommendations.DecisionsAreIdempotent covers a used one.
- QuietHours.AvailableAtIsSearch: for one fixed offset, as the search steps a clock without jumps; QuietHours.AvailableInIsEarliestIff covers jumps.
- PhotoProcessing.ProcessOnce: the store's answers are inputs, because the claim and finalization statements of the photo queues repeat the outbox pattern.
- ReportLifecycle.ReportTables.Persist: the snapshot column holds the report whose JSON it stores.
- Calendar.AwsDateTimeReadsBack: up to year 9999 only; later years print more digits and the fixed slices no longer apply.
- Organization.TokensAreUsedOnce: assumes a generated token was never issued before, which is what random identifiers are for.
- Dispatch.MovesAreNotifiedOnce: assumes transaction timestamps do not go back in commit order.
- Recommendations.RunKeepsInvariant: no user is the expiry job's own actor; the statuses draft, scheduled and completed, which no modelled code writes, are absent.
- SQL locks, isolation anomalies, connection failures: a transaction that fails leaves the tables unchanged, which every invariant allows at any point.
- Audit rows, display names, share links of bids, and the notification rows written beside an invitation or a delivery.
- The JSON encoding of recommendation snapshots and its unknown-field check; the model holds the deserialized value.
- Column checks on message and decision texts that trim only spaces: a text padded with other white space can fail there and roll back.
- Overflow of an expected version at the top of the signed 64-bit range; non-ASCII emails, whose length is counted in bytes and whose case the database folds.
- The syntax checks of roles, scope types and expiry texts, which the model receives parsed.
- The order of listed properties and the confirmed-visit list, which reads the same grants.
- Photo erasure, which rewrites delivered snapshots, and bid handling, which appears only as the steps that publish, revise and withdraw recommendations and skip notifications.
- HTTP routing, token verification, request signing and hashing, S3 calls, image resizing, and the other image formats.
- Accounts, leads, territories, route stops, operational exceptions, and other CRUD: easy members of the same patterns.
- At most one live pending invitation per email is not claimed: a reissue does not look for another one.
