/** The stored life of completion reports: the upsert that freezes submitted evidence, the
    guarded actions of the review, and the status history they append. */
module ReportLifecycle {
  import opened Numbers
  import opened Options
  import opened CompletionReport
  import opened Text

  /** `row.get::<i32>().max(0) as u32` */
  function FromI32(n: int): u32
    requires n < 0x8000_0000
  {
    if n < 0 then 0 else n
  }

  /** A stored report. The snapshot column holds the `ReportJson` of `deliveredSnapshot`. */
  datatype Row = Row(
    jobId: string, status: Status, readyForCustomer: bool, checklistProgress: i32, beforePhotos: i32,
    afterPhotos: i32, issuePhotos: i32, shareToken: Option<string>, submittedAt: Option<int>,
    reviewedBy: Option<string>, reviewedAt: Option<int>, deliveredAt: Option<int>, deliveredSnapshot: Option<Report>)

  datatype Link = Link(reportId: string, fromStatus: Status, toStatus: Status, changedBy: string,
                       reason: Option<string>)

  /** The report table by report id, and the status history in the order it was written. */
  datatype Store = Store(rows: map<string, Row>, history: seq<Link>)

  /** `Failed` stands for a constraint the database refuses to violate; nothing is committed. */
  datatype ActionResult = Updated(status: Status, shareUrl: Option<string>) | InvalidTransition | NotFound | Failed

  datatype Candidate = Ready(jobId: string) | NotReady | Unknown

  datatype PersistOutcome = Stored(persistence: Persistence) | Unavailable

  // ---- the transactions ---------------------------------------------------------------------------

  predicate Frozen(status: Status)
  {
    status in {Submitted, InReview, ChangesRequested, Delivered}
  }

  /** The column check `checklist_progress >= 0 AND checklist_progress <= 100`. */
  predicate ProgressColumnAccepts(progress: int)
  {
    0 <= progress <= 100
  }

  function FreshRow(report: Report, now: int, token: string): Row
  {
    Row(report.jobId, report.reportStatus, report.readyForCustomer, AsI32(report.checklistProgress),
        AsI32(report.beforePhotos), AsI32(report.afterPhotos), AsI32(report.issuePhotos),
        if report.reportStatus == Delivered then Some(token) else None,
        if report.reportStatus == Submitted then Some(now) else None, None, None, None, None)
  }

  /** `ON CONFLICT (job_id) DO UPDATE`: frozen columns keep their value. */
  function Merged(row: Row, proposed: Row): Row
  {
    var kept := if Frozen(row.status) then row else proposed;
    row.(status := kept.status, readyForCustomer := kept.readyForCustomer,
         checklistProgress := kept.checklistProgress, beforePhotos := kept.beforePhotos,
         afterPhotos := kept.afterPhotos, issuePhotos := kept.issuePhotos,
         shareToken := if row.shareToken.Some? then row.shareToken else proposed.shareToken,
         submittedAt := if row.submittedAt.Some? then row.submittedAt else proposed.submittedAt)
  }

  function PersistenceOf(row: Row): Persistence
  {
    Persistence(true, Some(row.status), Some(row.readyForCustomer), Some(FromI32(row.checklistProgress)),
                Some(FromI32(row.beforePhotos)), Some(FromI32(row.afterPhotos)), Some(FromI32(row.issuePhotos)),
                if row.status == Delivered && row.deliveredAt.Some? then row.shareToken else None)
  }

  /** `UNIQUE (job_id)` */
  predicate UniqueJobs(rows: map<string, Row>)
  {
    forall a, b :: a in rows && b in rows && rows[a].jobId == rows[b].jobId ==> a == b
  }

  /** The row an upsert of the job conflicts with. */
  function ConflictOf(rows: map<string, Row>, jobId: string): (found: Option<string>)
    requires UniqueJobs(rows)
    ensures found.Some? ==> found.value in rows && rows[found.value].jobId == jobId
    ensures found.None? ==> forall id :: id in rows ==> rows[id].jobId != jobId
  {
    if exists id :: id in rows && rows[id].jobId == jobId then
      var id :| id in rows && rows[id].jobId == jobId;
      Some(id)
    else None
  }

  /** `persist_completion_report`: the conflict is on the job; an id already taken by another job is
      refused by the primary key. */
  function PersistStep(store: Store, report: Report, now: int, token: string): (r: (Store, PersistOutcome))
    requires UniqueJobs(store.rows)
    ensures UniqueJobs(r.0.rows)
  {
    var proposed := FreshRow(report, now, token);
    var conflict := ConflictOf(store.rows, report.jobId);
    if !ProgressColumnAccepts(proposed.checklistProgress) then (store, Unavailable)
    else if conflict.Some? then
      var row := Merged(store.rows[conflict.value], proposed);
      (store.(rows := store.rows[conflict.value := row]), Stored(PersistenceOf(row)))
    else if report.reportId in store.rows then (store, Unavailable)
    else (store.(rows := store.rows[report.reportId := proposed]), Stored(PersistenceOf(proposed)))
  }

  function Appended(store: Store, id: string, row: Row, link: Link): (next: Store)
    requires id in store.rows && row.jobId == store.rows[id].jobId
    ensures UniqueJobs(store.rows) ==> UniqueJobs(next.rows)
  {
    Store(store.rows[id := row], store.history + [link])
  }

  function ReviewStarted(row: Row, user: string, now: int): Row
  {
    row.(status := InReview, reviewedBy := Some(user), reviewedAt := Some(now))
  }

  function Resubmitted(row: Row, now: int): Row
  {
    row.(status := Submitted, submittedAt := Some(now), reviewedBy := None, reviewedAt := None)
  }

  function DeliveredRow(row: Row, snapshot: Report, now: int, token: string): Row
  {
    row.(status := Delivered, shareToken := Some(row.shareToken.UnwrapOr(token)), deliveredAt := Some(now),
         deliveredSnapshot := Some(snapshot))
  }

  function StartReviewStep(store: Store, id: string, user: string, now: int): (Store, ActionResult)
  {
    if id !in store.rows then (store, NotFound)
    else if store.rows[id].status != Submitted then (store, InvalidTransition)
    else
      (Appended(store, id, ReviewStarted(store.rows[id], user, now), Link(id, Submitted, InReview, user, None)),
       Updated(InReview, None))
  }

  function RequestChangesStep(store: Store, id: string, user: string, reason: Option<string>): (Store, ActionResult)
  {
    if id !in store.rows then (store, NotFound)
    else if store.rows[id].status != InReview then (store, InvalidTransition)
    else
      var row := store.rows[id].(status := ChangesRequested);
      (Appended(store, id, row, Link(id, InReview, ChangesRequested, user, reason)), Updated(ChangesRequested, None))
  }

  /** The evidence guard shared by resubmission and delivery. */
  predicate EvidenceComplete(row: Row)
  {
    row.readyForCustomer && row.checklistProgress == 100 && row.beforePhotos > 0 && row.afterPhotos > 0
  }

  function ResubmitStep(store: Store, id: string, user: string, now: int): (Store, ActionResult)
  {
    if id !in store.rows then (store, NotFound)
    else if store.rows[id].status != ChangesRequested || !EvidenceComplete(store.rows[id])
        then (store, InvalidTransition)
    else
      (Appended(store, id, Resubmitted(store.rows[id], now), Link(id, ChangesRequested, Submitted, user, None)),
       Updated(Submitted, None))
  }

  predicate DeliveryReady(row: Row)
  {
    row.status == InReview && row.reviewedAt.Some? && EvidenceComplete(row)
  }

  /** `completion_report_delivery_candidate` */
  function DeliveryCandidate(store: Store, id: string): Candidate
  {
    if id !in store.rows then Unknown
    else if DeliveryReady(store.rows[id]) then Ready(store.rows[id].jobId)
    else NotReady
  }

  /** `UNIQUE (share_token)`, against all rows but `id`. */
  predicate TokenTaken(rows: map<string, Row>, id: string, token: string)
  {
    exists other :: other in rows && other != id && rows[other].shareToken == Some(token)
  }

  function DeliverStep(store: Store, id: string, user: string, snapshot: Report, now: int, token: string)
    : (Store, ActionResult)
  {
    if id !in store.rows then (store, NotFound)
    else
      var row := store.rows[id];
      if !DeliveryReady(row) then (store, InvalidTransition)
      else if !IsValidDeliveredSnapshot(id, row.jobId, snapshot)
              || snapshot.checklistProgress != row.checklistProgress
              || snapshot.beforePhotos != row.beforePhotos
              || snapshot.afterPhotos != row.afterPhotos then (store, InvalidTransition)
      else if TokenTaken(store.rows, id, row.shareToken.UnwrapOr(token)) then (store, Failed)
      else
        (Appended(store, id, DeliveredRow(row, snapshot, now, token), Link(id, InReview, Delivered, user, None)),
         Updated(Delivered, Some(SharedReportUrl(row.shareToken.UnwrapOr(token)))))
  }

  // ---- the tables, updated in place -------------------------------------------------------------------

  class ReportTables {
    var rows: map<string, Row>
    var history: seq<Link>

    ghost function Contents(): Store
      reads this
    {
      Store(rows, history)
    }

    constructor ()
      ensures Contents() == Store(map[], [])
    {
      rows, history := map[], [];
    }

    method Persist(report: Report, now: int, token: string) returns (outcome: PersistOutcome)
      requires UniqueJobs(rows)
      modifies this
      ensures (Contents(), outcome) == PersistStep(old(Contents()), report, now, token)
    {
      var proposed := FreshRow(report, now, token);
      if !(0 <= proposed.checklistProgress <= 100) {
        return Unavailable;
      }
      var conflict := ConflictOf(rows, report.jobId);
      if conflict.Some? {
        rows := rows[conflict.value := Merged(rows[conflict.value], proposed)];
        outcome := Stored(PersistenceOf(rows[conflict.value]));
      } else if report.reportId in rows {
        outcome := Unavailable;
      } else {
        rows := rows[report.reportId := proposed];
        outcome := Stored(PersistenceOf(proposed));
      }
    }

    method StartReview(id: string, user: string, now: int) returns (result: ActionResult)
      modifies this
      ensures (Contents(), result) == StartReviewStep(old(Contents()), id, user, now)
    {
      if id !in rows { return NotFound; }
      if rows[id].status != Submitted { return InvalidTransition; }
      rows := rows[id := rows[id].(status := InReview, reviewedBy := Some(user), reviewedAt := Some(now))];
      history := history + [Link(id, Submitted, InReview, user, None)];
      result := Updated(InReview, None);
    }

    method RequestChanges(id: string, user: string, reason: Option<string>) returns (result: ActionResult)
      modifies this
      ensures (Contents(), result) == RequestChangesStep(old(Contents()), id, user, reason)
    {
      if id !in rows { return NotFound; }
      if rows[id].status != InReview { return InvalidTransition; }
      rows := rows[id := rows[id].(status := ChangesRequested)];
      history := history + [Link(id, InReview, ChangesRequested, user, reason)];
      result := Updated(ChangesRequested, None);
    }

    method Resubmit(id: string, user: string, now: int) returns (result: ActionResult)
      modifies this
      ensures (Contents(), result) == ResubmitStep(old(Contents()), id, user, now)
    {
      if id !in rows { return NotFound; }
      var row := rows[id];
      if row.status != ChangesRequested || !row.readyForCustomer || row.checklistProgress != 100
         || row.beforePhotos <= 0 || row.afterPhotos <= 0 {
        return InvalidTransition;
      }
      rows := rows[id := row.(status := Submitted, submittedAt := Some(now), reviewedBy := None, reviewedAt := None)];
      history := history + [Link(id, ChangesRequested, Submitted, user, None)];
      result := Updated(Submitted, None);
    }

    method Deliver(id: string, user: string, snapshot: Report, now: int, token: string) returns (result: ActionResult)
      modifies this
      ensures (Contents(), result) == DeliverStep(old(Contents()), id, user, snapshot, now, token)
    {
      if id !in rows { return NotFound; }
      var row := rows[id];
      if row.status != InReview || row.reviewedAt.None? || !row.readyForCustomer || row.checklistProgress != 100
         || row.beforePhotos <= 0 || row.afterPhotos <= 0 {
        return InvalidTransition;
      }
      if !IsValidDeliveredSnapshot(id, row.jobId, snapshot) || snapshot.checklistProgress != row.checklistProgress
         || snapshot.beforePhotos != row.beforePhotos || snapshot.afterPhotos != row.afterPhotos {
        return InvalidTransition;
      }
      var shareToken := row.shareToken.UnwrapOr(token);
      if TokenTaken(rows, id, shareToken) { return Failed; }
      rows := rows[id := row.(status := Delivered, shareToken := Some(shareToken), deliveredAt := Some(now),
                              deliveredSnapshot := Some(snapshot))];
      history := history + [Link(id, InReview, Delivered, user, None)];
      result := Updated(Delivered, Some(SharedReportUrl(shareToken)));
    }
  }

  // ---- runs -----------------------------------------------------------------------------------------------

  datatype Event =
    | Persist(report: Report, now: int, token: string)
    | StartReview(id: string, user: string, now: int)
    | RequestChanges(id: string, user: string, reason: Option<string>)
    | Resubmit(id: string, user: string, now: int)
    | Deliver(id: string, user: string, snapshot: Report, now: int, token: string)

  function Next(store: Store, event: Event): (next: Store)
    requires UniqueJobs(store.rows)
    ensures UniqueJobs(next.rows)
  {
    match event
    case Persist(report, now, token) => PersistStep(store, report, now, token).0
    case StartReview(id, user, now) => StartReviewStep(store, id, user, now).0
    case RequestChanges(id, user, reason) => RequestChangesStep(store, id, user, reason).0
    case Resubmit(id, user, now) => ResubmitStep(store, id, user, now).0
    case Deliver(id, user, snapshot, now, token) => DeliverStep(store, id, user, snapshot, now, token).0
  }

  function Run(store: Store, events: seq<Event>): (end: Store)
    requires UniqueJobs(store.rows)
    ensures UniqueJobs(end.rows)
  {
    if events == [] then store else Next(Run(store, events[..|events| - 1]), events[|events| - 1])
  }

  const EMPTY := Store(map[], [])

  /** The store is only ever handed built and route-attached reports. */
  ghost predicate Admissible(events: seq<Event>)
  {
    forall i :: 0 <= i < |events| && events[i].Persist? ==> Persistable(events[i].report)
  }

  // ---- what every run keeps -----------------------------------------------------------------------------------

  /** `completion_report_lifecycle_transition_is_allowed` */
  predicate TransitionAllowed(fromStatus: Option<Status>, toStatus: Status)
  {
    match (fromStatus, toStatus)
    case (None, Draft) => true
    case (None, Submitted) => true
    case (Some(Draft), Submitted) => true
    case (Some(Submitted), InReview) => true
    case (Some(InReview), ChangesRequested) => true
    case (Some(InReview), Delivered) => true
    case (Some(ChangesRequested), Submitted) => true
    case _ => false
  }

  function HistoryOf(history: seq<Link>, id: string): (links: seq<Link>)
    ensures forall i :: 0 <= i < |links| ==> links[i].reportId == id
  {
    if history == [] then []
    else
      var last := history[|history| - 1];
      HistoryOf(history[..|history| - 1], id) + (if last.reportId == id then [last] else [])
  }

  /** The links form one chain of allowed transitions from submitted to `status`. */
  predicate Chain(links: seq<Link>, status: Status)
  {
    && (links == [] ==> status == Draft || status == Submitted)
    && (links != [] ==> links[0].fromStatus == Submitted && links[|links| - 1].toStatus == status)
    && (forall i :: 0 <= i < |links| ==> TransitionAllowed(Some(links[i].fromStatus), links[i].toStatus))
    && (forall i :: 0 <= i < |links| - 1 ==> links[i].toStatus == links[i + 1].fromStatus)
  }

  predicate RowInvariant(id: string, row: Row)
  {
    && id == CompletionReportId(row.jobId)
    && (row.shareToken.Some? <==> row.status == Delivered)
    && (row.deliveredSnapshot.Some? <==> row.status == Delivered)
    && (row.deliveredAt.Some? <==> row.status == Delivered)
    && (row.status == InReview ==> row.reviewedAt.Some?)
    && (row.status != Draft ==> row.readyForCustomer && row.checklistProgress == 100
                                && row.beforePhotos != 0 && row.afterPhotos != 0)
    && (row.status == Draft ==> !row.readyForCustomer)
    && (row.submittedAt.Some? <==> row.status != Draft)
  }

  predicate Consistent(store: Store, id: string)
    requires id in store.rows
  {
    RowInvariant(id, store.rows[id]) && Chain(HistoryOf(store.history, id), store.rows[id].status)
  }

  ghost predicate Invariant(store: Store)
  {
    && UniqueJobs(store.rows)
    && (forall id :: id in store.rows ==> Consistent(store, id))
    && (forall i :: 0 <= i < |store.history| ==> store.history[i].reportId in store.rows)
  }

  lemma {:induction false} NoHistory(history: seq<Link>, id: string)
    requires forall i :: 0 <= i < |history| ==> history[i].reportId != id
    ensures HistoryOf(history, id) == []
  {
    if history != [] {
      NoHistory(history[..|history| - 1], id);
    }
  }

  lemma HistoryOfAppended(history: seq<Link>, link: Link, id: string)
    ensures HistoryOf(history + [link], id) == HistoryOf(history, id) + (if link.reportId == id then [link] else [])
  {
    assert (history + [link])[..|history + [link]| - 1] == history;
  }

  /** A chain may be continued from its last status. */
  lemma ChainExtends(links: seq<Link>, link: Link)
    requires Chain(links, link.fromStatus) && TransitionAllowed(Some(link.fromStatus), link.toStatus)
    requires link.fromStatus != Draft
    ensures Chain(links + [link], link.toStatus)
  {
  }

  lemma AppendKeepsInvariant(store: Store, id: string, row: Row, link: Link)
    requires Invariant(store) && id in store.rows && link.reportId == id
    requires RowInvariant(id, row) && row.jobId == store.rows[id].jobId
    requires link.fromStatus == store.rows[id].status && link.toStatus == row.status
    requires link.fromStatus != Draft && TransitionAllowed(Some(link.fromStatus), link.toStatus)
    ensures Invariant(Appended(store, id, row, link))
  {
    forall other | other in store.rows ensures Consistent(Appended(store, id, row, link), other) {
      assert Consistent(store, other);
      AppendKeepsRow(store, id, row, link, other);
    }
    LinksKeepRows(store, id, row, link);
  }

  lemma LinksKeepRows(store: Store, id: string, row: Row, link: Link)
    requires id in store.rows && row.jobId == store.rows[id].jobId && link.reportId == id
    requires forall i :: 0 <= i < |store.history| ==> store.history[i].reportId in store.rows
    ensures var next := Appended(store, id, row, link);
      next.rows.Keys == store.rows.Keys
      && forall i :: 0 <= i < |next.history| ==> next.history[i].reportId in next.rows
  {
  }

  lemma AppendKeepsRow(store: Store, id: string, row: Row, link: Link, other: string)
    requires id in store.rows && row.jobId == store.rows[id].jobId && link.reportId == id
    requires RowInvariant(id, row) && link.fromStatus == store.rows[id].status && link.toStatus == row.status
    requires link.fromStatus != Draft && TransitionAllowed(Some(link.fromStatus), link.toStatus)
    requires other in store.rows && Consistent(store, other)
    ensures Consistent(Appended(store, id, row, link), other)
  {
    HistoryOfAppended(store.history, link, other);
    if other == id {
      ChainExtends(HistoryOf(store.history, id), link);
    } else {
      assert HistoryOf(store.history, other) + [] == HistoryOf(store.history, other);
    }
  }

  lemma ProposedRowInvariant(report: Report, now: int, token: string)
    requires Persistable(report) && ProgressColumnAccepts(AsI32(report.checklistProgress))
    ensures RowInvariant(report.reportId, FreshRow(report, now, token))
    ensures FreshRow(report, now, token).status in {Draft, Submitted}
  {
    PersistableStatus(report);
  }

  lemma MergedRowInvariant(id: string, row: Row, proposed: Row)
    requires RowInvariant(id, row) && RowInvariant(id, proposed) && proposed.status in {Draft, Submitted}
    ensures RowInvariant(id, Merged(row, proposed))
    ensures Merged(row, proposed).status == row.status
        || (row.status == Draft && Merged(row, proposed).status == Submitted)
  {
  }

  lemma PersistKeepsInvariant(store: Store, report: Report, now: int, token: string)
    requires Invariant(store) && Persistable(report)
    ensures Invariant(PersistStep(store, report, now, token).0)
  {
    var proposed := FreshRow(report, now, token);
    var conflict := ConflictOf(store.rows, report.jobId);
    if ProgressColumnAccepts(proposed.checklistProgress) {
      ProposedRowInvariant(report, now, token);
      if conflict.Some? {
        ConflictIsOwnRow(store, report);
        assert Consistent(store, conflict.value);
        MergedRowInvariant(conflict.value, store.rows[conflict.value], proposed);
        PutKeepsInvariant(store, conflict.value, Merged(store.rows[conflict.value], proposed));
      } else if report.reportId !in store.rows {
        NoHistory(store.history, report.reportId);
        PutKeepsInvariant(store, report.reportId, proposed);
      }
    }
  }

  /** In a reachable state the row a built report conflicts with is the one under its own id, and
      its id is never taken by another job. */
  lemma ConflictIsOwnRow(store: Store, report: Report)
    requires Invariant(store) && report.reportId == CompletionReportId(report.jobId)
    ensures ConflictOf(store.rows, report.jobId)
         == if report.reportId in store.rows then Some(report.reportId) else None
  {
    var conflict := ConflictOf(store.rows, report.jobId);
    if conflict.Some? {
      assert Consistent(store, conflict.value);
    }
    if report.reportId in store.rows {
      assert Consistent(store, report.reportId);
      ReportIdInjective(store.rows[report.reportId].jobId, report.jobId);
    }
  }

  /** A write without history must leave the status, or turn a draft into a submission. */
  lemma PutKeepsInvariant(store: Store, id: string, row: Row)
    requires Invariant(store) && RowInvariant(id, row)
    requires forall other :: other in store.rows && store.rows[other].jobId == row.jobId ==> other == id
    requires id !in store.rows ==> row.status in {Draft, Submitted} && HistoryOf(store.history, id) == []
    requires id in store.rows ==>
      row.status == store.rows[id].status || (store.rows[id].status == Draft && row.status == Submitted)
    ensures Invariant(store.(rows := store.rows[id := row]))
  {
    var next := store.(rows := store.rows[id := row]);
    forall other | other in next.rows ensures Consistent(next, other) {
      if other in store.rows {
        assert Consistent(store, other);
      }
      if other == id && id in store.rows && store.rows[id].status == Draft {
        LinksAvoidDraft(HistoryOf(store.history, id));
      }
    }
    PutKeepsJobs(store.rows, id, row);
  }

  lemma PutKeepsJobs(rows: map<string, Row>, id: string, row: Row)
    requires UniqueJobs(rows)
    requires forall other :: other in rows && rows[other].jobId == row.jobId ==> other == id
    ensures UniqueJobs(rows[id := row])
  {
  }

  lemma LinksAvoidDraft(links: seq<Link>)
    requires Chain(links, Draft)
    ensures links == []
  {
    assert links != [] ==> TransitionAllowed(Some(links[|links| - 1].fromStatus), links[|links| - 1].toStatus);
  }

  lemma RowStepsKeepInvariant(id: string, row: Row, user: string, now: int)
    requires RowInvariant(id, row)
    ensures row.status == Submitted ==> RowInvariant(id, ReviewStarted(row, user, now))
    ensures row.status == InReview ==> RowInvariant(id, row.(status := ChangesRequested))
    ensures row.status == ChangesRequested ==> RowInvariant(id, Resubmitted(row, now))
  {
  }

  lemma ReviewActionsKeepInvariant(store: Store, id: string, user: string, reason: Option<string>, now: int)
    requires Invariant(store) && id in store.rows
    ensures Invariant(StartReviewStep(store, id, user, now).0)
    ensures Invariant(RequestChangesStep(store, id, user, reason).0)
    ensures Invariant(ResubmitStep(store, id, user, now).0)
  {
    var row := store.rows[id];
    assert Consistent(store, id);
    RowStepsKeepInvariant(id, row, user, now);
    if row.status == Submitted {
      AppendKeepsInvariant(store, id, ReviewStarted(row, user, now), Link(id, Submitted, InReview, user, None));
    } else if row.status == InReview {
      AppendKeepsInvariant(store, id, row.(status := ChangesRequested),
                           Link(id, InReview, ChangesRequested, user, reason));
    } else if row.status == ChangesRequested {
      AppendKeepsInvariant(store, id, Resubmitted(row, now), Link(id, ChangesRequested, Submitted, user, None));
    }
  }

  lemma DeliverKeepsInvariant(store: Store, id: string, user: string, snapshot: Report, now: int, token: string)
    requires Invariant(store) && id in store.rows
    ensures Invariant(DeliverStep(store, id, user, snapshot, now, token).0)
  {
    if store.rows[id].status == InReview {
      assert Consistent(store, id);
      AppendKeepsInvariant(store, id, DeliveredRow(store.rows[id], snapshot, now, token),
                           Link(id, InReview, Delivered, user, None));
    }
  }

  /** What the store answers is the row: counts below zero read as zero, and the token only once
      delivered. */
  predicate AnswersRow(p: Persistence, row: Row)
  {
    && p.persisted && p.reportStatus == Some(row.status) && p.readyForCustomer == Some(row.readyForCustomer)
    && p.checklistProgress == Some(if row.checklistProgress < 0 then 0 else row.checklistProgress)
    && p.beforePhotos == Some(if row.beforePhotos < 0 then 0 else row.beforePhotos)
    && p.afterPhotos == Some(if row.afterPhotos < 0 then 0 else row.afterPhotos)
    && p.issuePhotos == Some(if row.issuePhotos < 0 then 0 else row.issuePhotos)
    && p.shareToken == (if row.status == Delivered && row.deliveredAt.Some? then row.shareToken else None)
  }

  /** The row holds what the report says, its counts as signed 32-bit numbers. */
  predicate HoldsReport(row: Row, report: Report, now: int)
  {
    && row.jobId == report.jobId && row.status == (if report.readyForCustomer then Submitted else Draft)
    && row.readyForCustomer == report.readyForCustomer && row.checklistProgress == AsI32(report.checklistProgress)
    && row.beforePhotos == AsI32(report.beforePhotos) && row.afterPhotos == AsI32(report.afterPhotos)
    && row.issuePhotos == AsI32(report.issuePhotos)
    && row.submittedAt == (if report.readyForCustomer then Some(now) else None)
    && row.shareToken.None? && row.deliveredAt.None? && row.deliveredSnapshot.None?
  }

  lemma KeptOrReplaced(row: Row, report: Report, now: int, token: string)
    requires RowInvariant(report.reportId, row) && row.jobId == report.jobId
    requires report.reportStatus == (if report.readyForCustomer then Submitted else Draft)
    ensures var merged := Merged(row, FreshRow(report, now, token));
      if row.status == Draft then HoldsReport(merged, report, now) else merged == row
  {
  }

  /** In a reachable state, storing a built report writes its own row only: a new or draft row takes
      the report's values, any other keeps its own. The answer is the row. Only a progress the column
      refuses is refused. */
  lemma PersistStoresOrKeeps(store: Store, report: Report, now: int, token: string)
    requires Invariant(store) && Persistable(report)
    ensures var (next, outcome) := PersistStep(store, report, now, token); var id := report.reportId;
      if AsI32(report.checklistProgress) < 0 || AsI32(report.checklistProgress) > 100 then
        next == store && outcome == Unavailable
      else
        && outcome.Stored? && id in next.rows && AnswersRow(outcome.persistence, next.rows[id])
        && next == store.(rows := store.rows[id := next.rows[id]])
        && (if id in store.rows && store.rows[id].status != Draft then next.rows[id] == store.rows[id]
            else HoldsReport(next.rows[id], report, now))
  {
    PersistableStatus(report);
    ConflictIsOwnRow(store, report);
    if report.reportId in store.rows {
      assert Consistent(store, report.reportId);
      KeptOrReplaced(store.rows[report.reportId], report, now, token);
    }
  }

  lemma StepKeepsInvariant(store: Store, event: Event)
    requires Invariant(store) && (event.Persist? ==> Persistable(event.report))
    ensures Invariant(Next(store, event))
  {
    if event.Persist? {
      PersistKeepsInvariant(store, event.report, event.now, event.token);
    } else if event.id in store.rows {
      match event
      case StartReview(id, user, now) => ReviewActionsKeepInvariant(store, id, user, None, now);
      case RequestChanges(id, user, reason) => ReviewActionsKeepInvariant(store, id, user, reason, 0);
      case Resubmit(id, user, now) => ReviewActionsKeepInvariant(store, id, user, None, now);
      case Deliver(id, user, snapshot, now, token) => DeliverKeepsInvariant(store, id, user, snapshot, now, token);
    }
  }

  /** Every run from the empty tables keeps, for each report: one connected history of allowed
      transitions ending in the stored status; a token, snapshot and delivery time exactly when
      delivered; complete evidence once past draft; a review time while in review. */
  lemma {:induction false} RunKeepsInvariant(events: seq<Event>)
    requires Admissible(events)
    ensures Invariant(Run(EMPTY, events))
  {
    if events != [] {
      RunKeepsInvariant(events[..|events| - 1]);
      StepKeepsInvariant(Run(EMPTY, events[..|events| - 1]), events[|events| - 1]);
    }
  }

  predicate Settled(store: Store, id: string)
  {
    id in store.rows && store.rows[id].status == Delivered
    && store.rows[id].shareToken.Some? && store.rows[id].submittedAt.Some?
  }

  lemma DeliveredPersist(store: Store, report: Report, now: int, token: string, id: string)
    requires UniqueJobs(store.rows) && Settled(store, id)
    ensures var next := PersistStep(store, report, now, token).0;
      id in next.rows && next.rows[id] == store.rows[id] && next.history == store.history
  {
  }

  lemma OtherAppended(store: Store, other: string, row: Row, link: Link, id: string)
    requires other in store.rows && row.jobId == store.rows[other].jobId && link.reportId == other != id
    ensures var next := Appended(store, other, row, link);
      && (id in store.rows ==> id in next.rows && next.rows[id] == store.rows[id])
      && HistoryOf(next.history, id) == HistoryOf(store.history, id)
  {
    HistoryOfAppended(store.history, link, id);
  }

  /** What an action does: nothing, or it moves its own report one status on and records, in one link
      at the end of the history, from where to where, by whom and why. The evidence stays frozen. */
  lemma ActionIsRecorded(store: Store, event: Event) returns (row: Row, link: Link)
    requires UniqueJobs(store.rows) && !event.Persist? && Next(store, event) != store
    ensures event.id in store.rows && row.jobId == store.rows[event.id].jobId
    ensures Next(store, event) == Appended(store, event.id, row, link)
    ensures link == Link(event.id, store.rows[event.id].status, row.status, event.user,
                         if event.RequestChanges? then event.reason else None)
    ensures var before := store.rows[event.id];
      && before.status != Delivered && before.status != Draft && row.status != Draft
      && row.readyForCustomer == before.readyForCustomer && row.checklistProgress == before.checklistProgress
      && row.beforePhotos == before.beforePhotos && row.afterPhotos == before.afterPhotos
      && row.issuePhotos == before.issuePhotos
    ensures row.status == InReview ==>
      event.StartReview? && row.reviewedBy == Some(event.user) && row.reviewedAt == Some(event.now)
    ensures row.status == Submitted ==>
      event.Resubmit? && row.submittedAt == Some(event.now) && row.reviewedBy.None? && row.reviewedAt.None?
    ensures row.status == Delivered ==> event.Deliver? && row.deliveredAt == Some(event.now)
    ensures row.status in {ChangesRequested, Delivered} ==>
      row.reviewedBy == store.rows[event.id].reviewedBy && row.reviewedAt == store.rows[event.id].reviewedAt
    ensures row.status != Delivered ==> row.shareToken == store.rows[event.id].shareToken
  {
    row, link := Next(store, event).rows[event.id], Next(store, event).history[|store.history|];
  }

  /** A refusal changes nothing, and says whether the report is missing or in the wrong status. */
  predicate Refused(store: Store, next: Store, id: string, answer: ActionResult)
  {
    next == store && answer == if id in store.rows then InvalidTransition else NotFound
  }

  /** Review starts on a submitted report only, and changes are requested in review only; the answer
      is the new status. */
  lemma ReviewAnswers(store: Store, id: string, user: string, reason: Option<string>, now: int)
    ensures var (next, answer) := StartReviewStep(store, id, user, now);
      if id in store.rows && store.rows[id].status == Submitted then
        answer == Updated(InReview, None) && id in next.rows && next.rows[id].status == InReview
      else Refused(store, next, id, answer)
    ensures var (next, answer) := RequestChangesStep(store, id, user, reason);
      if id in store.rows && store.rows[id].status == InReview then
        answer == Updated(ChangesRequested, None) && id in next.rows && next.rows[id].status == ChangesRequested
      else Refused(store, next, id, answer)
  {
  }

  predicate Complete(row: Row)
  {
    row.readyForCustomer && row.checklistProgress == 100 && row.beforePhotos >= 1 && row.afterPhotos >= 1
  }

  /** Resubmission and delivery need complete evidence. What is delivered shows the very counts that
      were reviewed, and a report is offered for delivery exactly when that can succeed. */
  lemma EvidenceAnswers(store: Store, id: string, user: string, snapshot: Report, now: int, token: string)
    ensures var (next, answer) := ResubmitStep(store, id, user, now);
      if id in store.rows && store.rows[id].status == ChangesRequested && Complete(store.rows[id]) then
        answer == Updated(Submitted, None) && id in next.rows && next.rows[id].status == Submitted
      else Refused(store, next, id, answer)
    ensures var (next, answer) := DeliverStep(store, id, user, snapshot, now, token);
      if answer.Updated? then
        && id in store.rows && DeliveryCandidate(store, id) == Ready(store.rows[id].jobId)
        && snapshot.checklistProgress == store.rows[id].checklistProgress == 100
        && snapshot.beforePhotos == store.rows[id].beforePhotos && snapshot.afterPhotos == store.rows[id].afterPhotos
        && snapshot.jobId == store.rows[id].jobId && snapshot.reportId == id && answer.status == Delivered
      else Refused(store, next, id, answer) || (next == store && answer == Failed)
    ensures DeliveryCandidate(store, id)
         == if id !in store.rows then Unknown
            else if store.rows[id].status == InReview && store.rows[id].reviewedAt.Some? && Complete(store.rows[id])
              then Ready(store.rows[id].jobId)
            else NotReady
  {
  }

  /** One step leaves a delivered report's row and history as they are. */
  lemma DeliveredStep(store: Store, event: Event, id: string)
    requires UniqueJobs(store.rows) && Settled(store, id)
    ensures id in Next(store, event).rows && Next(store, event).rows[id] == store.rows[id]
    ensures HistoryOf(Next(store, event).history, id) == HistoryOf(store.history, id)
  {
    if event.Persist? {
      DeliveredPersist(store, event.report, event.now, event.token, id);
    } else if Next(store, event) != store {
      var row, link := ActionIsRecorded(store, event);
      OtherAppended(store, event.id, row, link, id);
    }
  }

  /** Once delivered, a report's row and history never change again, whatever is done to it. */
  lemma {:induction false} DeliveredIsAbsorbing(store: Store, events: seq<Event>, id: string)
    requires UniqueJobs(store.rows) && Settled(store, id)
    ensures id in Run(store, events).rows && Run(store, events).rows[id] == store.rows[id]
    ensures HistoryOf(Run(store, events).history, id) == HistoryOf(store.history, id)
  {
    if events != [] {
      DeliveredIsAbsorbing(store, events[..|events| - 1], id);
      DeliveredStep(Run(store, events[..|events| - 1]), events[|events| - 1], id);
    }
  }

  /** In every run, whatever follows a delivery leaves the report, its share token, its snapshot and
      its history as they were. */
  lemma DeliveryIsFinal(before: seq<Event>, after: seq<Event>, id: string)
    requires Admissible(before)
    requires id in Run(EMPTY, before).rows && Run(EMPTY, before).rows[id].status == Delivered
    ensures var store := Run(EMPTY, before); var later := Run(store, after);
      && id in later.rows && later.rows[id] == store.rows[id]
      && store.rows[id].deliveredSnapshot.Some? && store.rows[id].shareToken.Some?
      && HistoryOf(later.history, id) == HistoryOf(store.history, id)
  {
    RunKeepsInvariant(before);
    assert Consistent(Run(EMPTY, before), id);
    DeliveredIsAbsorbing(Run(EMPTY, before), after, id);
  }

  // ---- the link of a delivered report ---------------------------------------------------------------------

  /** `delivered_snapshot_for_share_token` finds this snapshot. */
  ghost predicate Opens(store: Store, token: string, snapshot: Report)
  {
    exists id :: id in store.rows && store.rows[id].shareToken == Some(token) && store.rows[id].status == Delivered
      && store.rows[id].deliveredAt.Some? && store.rows[id].deliveredSnapshot == Some(snapshot)
  }

  predicate UniqueTokens(rows: map<string, Row>)
  {
    forall a, b :: a in rows && b in rows && rows[a].shareToken.Some? && rows[a].shareToken == rows[b].shareToken ==>
      a == b
  }

  lemma StepKeepsTokens(store: Store, event: Event)
    requires UniqueJobs(store.rows) && UniqueTokens(store.rows)
    requires event.Persist? ==> event.report.reportStatus != Delivered
    ensures UniqueTokens(Next(store, event).rows)
  {
    var next := Next(store, event);
    if event.Persist? {
      PersistKeepsTokens(store, event.report, event.now, event.token);
    } else if next != store {
      var row, link := ActionIsRecorded(store, event);
      if event.Deliver? {
        assert !TokenTaken(store.rows, event.id, store.rows[event.id].shareToken.UnwrapOr(event.token));
      }
    }
  }

  /** Storing a report sets neither token nor reviewer. */
  lemma PersistKeepsColumns(store: Store, report: Report, now: int, token: string, id: string)
    requires UniqueJobs(store.rows) && report.reportStatus != Delivered
    ensures var next := PersistStep(store, report, now, token).0;
      && next.history == store.history
      && (id in store.rows ==> id in next.rows)
      && (id in next.rows ==>
            && next.rows[id].shareToken == (if id in store.rows then store.rows[id].shareToken else None)
            && next.rows[id].reviewedBy == (if id in store.rows then store.rows[id].reviewedBy else None)
            && next.rows[id].reviewedAt == (if id in store.rows then store.rows[id].reviewedAt else None))
  {
  }

  lemma PersistKeepsTokens(store: Store, report: Report, now: int, token: string)
    requires UniqueJobs(store.rows) && UniqueTokens(store.rows) && report.reportStatus != Delivered
    ensures UniqueTokens(PersistStep(store, report, now, token).0.rows)
  {
    var next := PersistStep(store, report, now, token).0.rows;
    forall a, b | a in next && b in next && next[a].shareToken.Some? && next[a].shareToken == next[b].shareToken
      ensures a == b {
      PersistKeepsColumns(store, report, now, token, a);
      PersistKeepsColumns(store, report, now, token, b);
    }
  }

  lemma {:induction false} RunKeepsTokens(store: Store, events: seq<Event>)
    requires UniqueJobs(store.rows) && UniqueTokens(store.rows) && Admissible(events)
    ensures UniqueTokens(Run(store, events).rows)
  {
    if events != [] {
      var last := events[|events| - 1];
      RunKeepsTokens(store, events[..|events| - 1]);
      if last.Persist? {
        PersistableStatus(last.report);
      }
      StepKeepsTokens(Run(store, events[..|events| - 1]), last);
    }
  }

  lemma DeliveryStoresToken(store: Store, id: string, user: string, snapshot: Report, now: int, token: string)
    requires DeliverStep(store, id, user, snapshot, now, token).1.Updated? && store.rows[id].shareToken.None?
    ensures var (next, answer) := DeliverStep(store, id, user, snapshot, now, token);
      && answer == Updated(Delivered, Some("/report-view/" + token))
      && id in next.rows && next.rows[id].shareToken == Some(token) && next.rows[id].deliveredAt == Some(now)
      && next.rows[id].status == Delivered && next.rows[id].deliveredSnapshot == Some(snapshot)
      && (UniqueTokens(store.rows) ==> UniqueTokens(next.rows))
      && next.rows[id].submittedAt == store.rows[id].submittedAt
  {
  }

  /** The answer to a report of a delivered job: its token, whatever the report says. */
  lemma DeliveredAnswer(store: Store, report: Report, now: int, token: string, id: string)
    requires UniqueJobs(store.rows) && Settled(store, id) && store.rows[id].deliveredAt.Some?
    requires report.jobId == store.rows[id].jobId
    ensures var outcome := PersistStep(store, report, now, token).1;
      outcome.Stored? ==> outcome.persistence.shareToken == store.rows[id].shareToken
    ensures PersistStep(store, report, now, token).1.Stored? <==> ProgressColumnAccepts(AsI32(report.checklistProgress))
  {
  }

  /** In every run the link a delivery answers with opens the delivered snapshot and no other, for
      good; and every later answer about the job carries the same token. */
  lemma DeliveredLinkOpens(before: seq<Event>, id: string, user: string, snapshot: Report, now: int, token: string,
                           after: seq<Event>, report: Report, at: int, proposed: string)
    requires Admissible(before) && Admissible(after)
    requires DeliverStep(Run(EMPTY, before), id, user, snapshot, now, token).1.Updated?
    ensures var (next, answer) := DeliverStep(Run(EMPTY, before), id, user, snapshot, now, token);
      var later := Run(next, after); var outcome := PersistStep(later, report, at, proposed).1;
      && answer == Updated(Delivered, Some("/report-view/" + token))
      && (forall other :: Opens(later, token, other) <==> other == snapshot)
      && (id in later.rows && report.jobId == later.rows[id].jobId && outcome.Stored? ==>
            outcome.persistence.shareToken == Some(token))
  {
    var store := Run(EMPTY, before);
    RunKeepsInvariant(before);
    RunKeepsTokens(EMPTY, before);
    assert Consistent(store, id);
    DeliveryStoresToken(store, id, user, snapshot, now, token);
    var next := DeliverStep(store, id, user, snapshot, now, token).0;
    DeliveredIsAbsorbing(next, after, id);
    RunKeepsTokens(next, after);
    var later := Run(next, after);
    OpensOnly(later, id, token, snapshot);
    if report.jobId == later.rows[id].jobId {
      DeliveredAnswer(later, report, at, proposed, id);
    }
  }

  lemma OpensOnly(store: Store, id: string, token: string, snapshot: Report)
    requires UniqueTokens(store.rows) && id in store.rows && store.rows[id].shareToken == Some(token)
    requires store.rows[id].status == Delivered && store.rows[id].deliveredAt.Some?
    requires store.rows[id].deliveredSnapshot == Some(snapshot)
    ensures forall other :: Opens(store, token, other) <==> other == snapshot
  {
    forall other ensures Opens(store, token, other) <==> other == snapshot {
    }
  }

  // ---- who reviewed what --------------------------------------------------------------------------------------

  /** Who started the review a history is in, if it is in one or past it. */
  function Reviewer(links: seq<Link>): Option<string>
  {
    if links == [] then None
    else
      var last := links[|links| - 1];
      if last.toStatus == InReview then Some(last.changedBy)
      else if last.toStatus == Submitted then None
      else Reviewer(links[..|links| - 1])
  }

  predicate AttributedRow(row: Row, links: seq<Link>)
  {
    row.reviewedBy == Reviewer(links) && (row.reviewedBy.Some? <==> row.reviewedAt.Some?)
  }

  predicate Attributed(store: Store)
  {
    forall id :: id in store.rows ==> AttributedRow(store.rows[id], HistoryOf(store.history, id))
  }

  lemma ReviewerAppended(links: seq<Link>, link: Link)
    ensures Reviewer(links + [link])
         == if link.toStatus == InReview then Some(link.changedBy)
            else if link.toStatus == Submitted then None else Reviewer(links)
  {
    assert (links + [link])[..|links|] == links;
  }

  /** An action's link attributes its row, and no other. */
  lemma ActionKeepsAttribution(store: Store, event: Event, id: string)
    requires UniqueJobs(store.rows) && !event.Persist? && Next(store, event) != store && id in store.rows
    requires AttributedRow(store.rows[id], HistoryOf(store.history, id))
    ensures id in Next(store, event).rows
    ensures AttributedRow(Next(store, event).rows[id], HistoryOf(Next(store, event).history, id))
  {
    var row, link := ActionIsRecorded(store, event);
    var links := HistoryOf(store.history, id);
    HistoryOfAppended(store.history, link, id);
    if id == event.id {
      ReviewerAppended(links, link);
    } else {
      assert links + [] == links;
    }
  }

  lemma PersistKeepsAttribution(store: Store, report: Report, now: int, token: string, id: string)
    requires Invariant(store) && report.reportStatus != Delivered
    requires id in store.rows ==> AttributedRow(store.rows[id], HistoryOf(store.history, id))
    ensures var next := PersistStep(store, report, now, token).0;
      id in next.rows ==> AttributedRow(next.rows[id], HistoryOf(next.history, id))
  {
    PersistKeepsColumns(store, report, now, token, id);
    if id !in store.rows {
      NoHistory(store.history, id);
    }
  }

  lemma RowStaysAttributed(store: Store, event: Event, id: string)
    requires Invariant(store) && (event.Persist? ==> Persistable(event.report)) && Next(store, event) != store
    requires id in store.rows ==> AttributedRow(store.rows[id], HistoryOf(store.history, id))
    ensures id in Next(store, event).rows ==>
      AttributedRow(Next(store, event).rows[id], HistoryOf(Next(store, event).history, id))
  {
    if event.Persist? {
      PersistableStatus(event.report);
      PersistKeepsAttribution(store, event.report, event.now, event.token, id);
    } else if id in store.rows {
      ActionKeepsAttribution(store, event, id);
    } else {
      var row, link := ActionIsRecorded(store, event);
    }
  }

  lemma StepKeepsAttribution(store: Store, event: Event)
    requires Invariant(store) && Attributed(store) && (event.Persist? ==> Persistable(event.report))
    ensures Attributed(Next(store, event))
  {
    if Next(store, event) != store {
      forall id | id in Next(store, event).rows
        ensures AttributedRow(Next(store, event).rows[id], HistoryOf(Next(store, event).history, id)) {
        RowStaysAttributed(store, event, id);
      }
    }
  }

  /** In every run a report names as its reviewer the user who put it in review last, and none while
      it waits for one. */
  lemma {:induction false} ReviewerIsOnRecord(events: seq<Event>)
    requires Admissible(events)
    ensures Attributed(Run(EMPTY, events))
  {
    if events != [] {
      ReviewerIsOnRecord(events[..|events| - 1]);
      RunKeepsInvariant(events[..|events| - 1]);
      StepKeepsAttribution(Run(EMPTY, events[..|events| - 1]), events[|events| - 1]);
    }
  }

  // ---- when the evidence guards hold ---------------------------------------------------------------------------

  /** The photo counts of a report survive the narrowing to the signed column. */
  predicate CountsFitColumn(report: Report)
  {
    report.beforePhotos < 0x8000_0000 && report.afterPhotos < 0x8000_0000
  }

  predicate RowCountsFit(row: Row)
  {
    row.beforePhotos >= 0 && row.afterPhotos >= 0
  }

  /** In every run, a report with changes requested can be resubmitted, and a report in review is a
      delivery candidate, exactly when the photo counts of its row did not wrap around. */
  lemma GuardsHoldIffCountsFit(events: seq<Event>, id: string, user: string, now: int)
    requires Admissible(events) && id in Run(EMPTY, events).rows
    ensures var store := Run(EMPTY, events); var row := store.rows[id];
      && (row.status == ChangesRequested ==>
            (ResubmitStep(store, id, user, now).1 == Updated(Submitted, None) <==> RowCountsFit(row)))
      && (row.status == InReview ==> (DeliveryCandidate(store, id) == Ready(row.jobId) <==> RowCountsFit(row)))
  {
    RunKeepsInvariant(events);
    assert Consistent(Run(EMPTY, events), id);
  }

  /** Every time the run stored this report, its counts fitted the column. */
  predicate ReportFits(events: seq<Event>, id: string)
  {
    forall i :: 0 <= i < |events| && events[i].Persist? && events[i].report.reportId == id ==>
      CountsFitColumn(events[i].report)
  }

  lemma FittingPersist(store: Store, report: Report, now: int, token: string, id: string)
    requires UniqueJobs(store.rows) && (report.reportId == id ==> CountsFitColumn(report))
    requires ConflictOf(store.rows, report.jobId)
          == if report.reportId in store.rows then Some(report.reportId) else None
    requires id in store.rows ==> RowCountsFit(store.rows[id])
    ensures var next := PersistStep(store, report, now, token).0; id in next.rows ==> RowCountsFit(next.rows[id])
  {
  }

  lemma FittingStep(store: Store, event: Event, id: string)
    requires Invariant(store) && (id in store.rows ==> RowCountsFit(store.rows[id]))
    requires event.Persist? ==> Persistable(event.report)
    requires event.Persist? && event.report.reportId == id ==> CountsFitColumn(event.report)
    ensures id in Next(store, event).rows ==> RowCountsFit(Next(store, event).rows[id])
  {
    if event.Persist? {
      PersistableStatus(event.report);
      ConflictIsOwnRow(store, event.report);
      FittingPersist(store, event.report, event.now, event.token, id);
    } else if Next(store, event) != store {
      var row, link := ActionIsRecorded(store, event);
    }
  }

  /** In every run, the row of a report whose counts always fitted has counts that did not wrap. */
  lemma {:induction false} FittingReportHasFittingRow(events: seq<Event>, id: string)
    requires Admissible(events) && ReportFits(events, id)
    ensures id in Run(EMPTY, events).rows ==> RowCountsFit(Run(EMPTY, events).rows[id])
  {
    if events != [] {
      var earlier := events[..|events| - 1];
      FittingReportHasFittingRow(earlier, id);
      RunKeepsInvariant(earlier);
      FittingStep(Run(EMPTY, earlier), events[|events| - 1], id);
    }
  }

  /** The store after a report is stored and its review started. */
  function Reviewed(store: Store, report: Report, now: int, token: string, user: string): (Store, ActionResult)
    requires UniqueJobs(store.rows)
  {
    StartReviewStep(PersistStep(store, report, now, token).0, report.reportId, user, now)
  }

  /** The table has no row of the report's job, or a draft row of it under the report's id. */
  predicate AtMostDraft(store: Store, report: Report)
  {
    && (forall id :: id in store.rows && store.rows[id].jobId == report.jobId ==> id == report.reportId)
    && (report.reportId in store.rows ==>
          store.rows[report.reportId].status == Draft && store.rows[report.reportId].jobId == report.jobId)
  }

  /** The row such a report is stored in. */
  lemma ReadyReportIsStored(store: Store, report: Report, now: int, token: string)
    requires Persistable(report) && report.readyForCustomer && UniqueJobs(store.rows) && AtMostDraft(store, report)
    requires ProgressColumnAccepts(AsI32(report.checklistProgress))
    ensures var next := PersistStep(store, report, now, token).0;
      && report.reportId in next.rows
      && var row := next.rows[report.reportId];
         && row.jobId == report.jobId && row.status == Submitted && row.readyForCustomer && row.checklistProgress == 100
         && row.beforePhotos == AsI32(report.beforePhotos) && row.afterPhotos == AsI32(report.afterPhotos)
         && report.beforePhotos > 0 && report.afterPhotos > 0
  {
    PersistableStatus(report);
  }

  /** What review, and a request for changes after it, make of a submitted row. */
  lemma ReviewOfRow(store: Store, id: string, now: int, user: string)
    requires id in store.rows && store.rows[id].status == Submitted
    ensures var (reviewed, started) := StartReviewStep(store, id, user, now);
      && started == Updated(InReview, None) && reviewed == Appended(store, id, ReviewStarted(store.rows[id], user, now),
                                                                    Link(id, Submitted, InReview, user, None))
      && var sentBack := RequestChangesStep(reviewed, id, user, None).0;
         && id in sentBack.rows
         && sentBack.rows[id] == ReviewStarted(store.rows[id], user, now).(status := ChangesRequested)
  {
  }

  /** Storing a ready report and starting its review makes it a delivery candidate, and one whose
      requested changes can be resubmitted, exactly when both photo counts fit the column. */
  lemma ReviewedIsCandidateIff(store: Store, report: Report, now: int, token: string, user: string)
    requires Persistable(report) && report.readyForCustomer && UniqueJobs(store.rows) && AtMostDraft(store, report)
    requires ProgressColumnAccepts(AsI32(report.checklistProgress))
    ensures Reviewed(store, report, now, token, user).1 == Updated(InReview, None)
    ensures DeliveryCandidate(Reviewed(store, report, now, token, user).0, report.reportId) == Ready(report.jobId)
       <==> CountsFitColumn(report)
    ensures var sentBack := RequestChangesStep(Reviewed(store, report, now, token, user).0, report.reportId, user,
                                               None).0;
            ResubmitStep(sentBack, report.reportId, user, now).1 == Updated(Submitted, None)
            <==> CountsFitColumn(report)
  {
    ReadyReportIsStored(store, report, now, token);
    ReviewOfRow(PersistStep(store, report, now, token).0, report.reportId, now, user);
  }

  /** The report of a job whose stored photo count was negative: it reads as 4294967295 photos. */
  lemma OversizedReport(job: JobDetail, account: Account)
    requires job.checklistItems == job.completedChecklistItems == 1
    requires job.beforePhotos == 0xffff_ffff && job.afterPhotos == 1
    ensures var report := BuildCompletionReport(job, account, [], []);
      && Persistable(report) && report.readyForCustomer && report.reportStatus == Submitted
      && report.checklistProgress == 100 && !CountsFitColumn(report)
  {
    ProgressIsHundredIff(job);
    NoBlockersIff(100, 0xffff_ffff, 1, 0, None);
    assert CountPhotoType([], "before") == 0 && CountPhotoType([], "after") == 0 && CompletedAddOns([]) == [];
  }

  /** Such a report is ready and submitted, but once in review it can be neither delivered nor
      resubmitted. */
  lemma OversizedCountIsStuck(job: JobDetail, account: Account, now: int, token: string, user: string)
    requires job.checklistItems == job.completedChecklistItems == 1
    requires job.beforePhotos == 0xffff_ffff && job.afterPhotos == 1
    ensures var report := BuildCompletionReport(job, account, [], []);
      var (reviewed, started) := Reviewed(EMPTY, report, now, token, user);
      var sentBack := RequestChangesStep(reviewed, report.reportId, user, None).0;
      && report.reportStatus == Submitted && started == Updated(InReview, None)
      && DeliveryCandidate(reviewed, report.reportId) != Ready(report.jobId)
      && ResubmitStep(sentBack, report.reportId, user, now).1 != Updated(Submitted, None)
  {
    OversizedReport(job, account);
    ReviewedIsCandidateIff(EMPTY, BuildCompletionReport(job, account, [], []), now, token, user);
  }

  // ---- the delivery handler -----------------------------------------------------------------------------------------

  /** A report as the handlers build it from what the job looks like now. */
  function Rebuilt(job: JobDetail, account: Account, photos: seq<Photo>, addOns: seq<AddOn>,
                   stop: Option<RouteStop>): Report
  {
    var built := BuildCompletionReport(job, account, photos, addOns);
    if stop.Some? then RouteStopAttached(built, stop.value) else built
  }

  lemma RebuiltReport(job: JobDetail, account: Account, photos: seq<Photo>, addOns: seq<AddOn>,
                      stop: Option<RouteStop>)
    ensures var report := Rebuilt(job, account, photos, addOns, stop);
      && report.jobId == job.id && report.reportId == CompletionReportId(job.id) && report.reportStatus != Delivered
  {
  }

  /** The upsert leaves a row in review as it is, and returns it. */
  lemma UpsertOfReviewed(store: Store, id: string, report: Report, now: int, token: string)
    requires Invariant(store) && id in store.rows && store.rows[id].status == InReview
    requires report.jobId == store.rows[id].jobId && report.reportId == CompletionReportId(report.jobId)
    requires report.reportStatus != Delivered
    ensures PersistStep(store, report, now, token)
         == if !ProgressColumnAccepts(AsI32(report.checklistProgress)) then (store, Unavailable)
            else (store, Stored(PersistenceOf(store.rows[id])))
  {
    var row := store.rows[id];
    assert Consistent(store, id);
    ConflictIsOwnRow(store, report);
    assert Merged(row, FreshRow(report, now, token)) == row;
    assert store.rows[id := row] == store.rows;
  }

  /** A report overlaid with a stored row shows the row: its status and evidence, blockers that match
      it, and a link only once it is delivered. What the row does not hold stays. */
  lemma OverlayShowsRow(report: Report, row: Row)
    ensures var shown := PersistenceApplied(report, PersistenceOf(row));
      && shown.persisted && shown.reportStatus == row.status && shown.readyForCustomer == row.readyForCustomer
      && AnswersRow(Persistence(true, Some(row.status), Some(row.readyForCustomer), Some(shown.checklistProgress),
                                Some(shown.beforePhotos), Some(shown.afterPhotos), Some(shown.issuePhotos),
                                PersistenceOf(row).shareToken), row)
      && shown.shareUrl == (if row.status == Delivered && row.deliveredAt.Some? && row.shareToken.Some? then
                              Some("/report-view/" + row.shareToken.value) else None)
      && (shown.readinessBlockers == [] <==>
            row.checklistProgress >= 100 && row.beforePhotos > 0 && row.afterPhotos > 0 && report.pendingAddOns == 0
            && (report.routeStop.Some? ==> report.routeStop.value.stopStatus == "finished"))
      && shown == report.(persisted := true, reportStatus := shown.reportStatus,
                          readyForCustomer := shown.readyForCustomer, checklistProgress := shown.checklistProgress,
                          beforePhotos := shown.beforePhotos, afterPhotos := shown.afterPhotos,
                          issuePhotos := shown.issuePhotos, readinessBlockers := shown.readinessBlockers,
                          shareUrl := shown.shareUrl)
  {
    NoBlockersIff(FromI32(row.checklistProgress), FromI32(row.beforePhotos), FromI32(row.afterPhotos),
                  report.pendingAddOns, report.routeStop);
  }

  /** The snapshot of a report overlaid with what a deliverable row returns. */
  lemma OverlayOfReviewed(report: Report, row: Row, epoch: u64)
    requires DeliveryReady(row)
    ensures var snapshot := PrepareDeliveredSnapshot(PersistenceApplied(report, PersistenceOf(row)), epoch);
      && IsValidDeliveredSnapshot(report.reportId, report.jobId, snapshot)
      && snapshot.checklistProgress == row.checklistProgress
      && snapshot.beforePhotos == row.beforePhotos && snapshot.afterPhotos == row.afterPhotos
  {
    var applied := PersistenceApplied(report, PersistenceOf(row));
    assert applied.checklistProgress == 100 && applied.beforePhotos == row.beforePhotos
        && applied.afterPhotos == row.afterPhotos && applied.persisted && applied.readyForCustomer;
    PreparedSnapshotIsValidIff(applied, epoch, report.reportId, report.jobId);
  }

  /** The delivery guard on a row that holds no token yet. */
  lemma GuardLetsThrough(store: Store, id: string, snapshot: Report, user: string, now: int, token: string)
    requires id in store.rows && DeliveryReady(store.rows[id]) && store.rows[id].shareToken.None?
    requires IsValidDeliveredSnapshot(id, store.rows[id].jobId, snapshot)
    requires snapshot.checklistProgress == store.rows[id].checklistProgress
    requires snapshot.beforePhotos == store.rows[id].beforePhotos && snapshot.afterPhotos == store.rows[id].afterPhotos
    ensures DeliverStep(store, id, user, snapshot, now, token).1
         == if TokenTaken(store.rows, id, token) then Failed else Updated(Delivered, Some("/report-view/" + token))
  {
  }

  /** Delivering a candidate succeeds whatever the job's evidence has become since review: the
      rebuilt report takes its counts from the frozen row, so the snapshot matches it. Only a
      rebuilt progress the column refuses stops the handler, before anything changes, and a token that
      another report has. */
  lemma CandidateIsDelivered(store: Store, id: string, job: JobDetail, account: Account, photos: seq<Photo>,
                             addOns: seq<AddOn>, stop: Option<RouteStop>, user: string, now: int, token: string,
                             epoch: u64)
    requires Invariant(store) && DeliveryCandidate(store, id) == Ready(job.id)
    ensures var report := Rebuilt(job, account, photos, addOns, stop);
      var (persisted, outcome) := PersistStep(store, report, now, token);
      if !ProgressColumnAccepts(AsI32(report.checklistProgress)) then outcome == Unavailable && persisted == store
      else
        outcome.Stored?
        && var snapshot := PrepareDeliveredSnapshot(PersistenceApplied(report, outcome.persistence), epoch);
           DeliverStep(persisted, id, user, snapshot, now, token).1
           == if TokenTaken(store.rows, id, token) then Failed
              else Updated(Delivered, Some("/report-view/" + token))
  {
    var report := Rebuilt(job, account, photos, addOns, stop);
    RebuiltReport(job, account, photos, addOns, stop);
    assert Consistent(store, id);
    CandidateReportIsDelivered(store, id, report, user, now, token, epoch);
  }

  lemma CandidateReportIsDelivered(store: Store, id: string, report: Report, user: string, now: int, token: string,
                                   epoch: u64)
    requires Invariant(store) && DeliveryCandidate(store, id) == Ready(report.jobId)
    requires report.reportId == CompletionReportId(report.jobId) == id && report.reportStatus != Delivered
    ensures var (persisted, outcome) := PersistStep(store, report, now, token);
      if !ProgressColumnAccepts(AsI32(report.checklistProgress)) then outcome == Unavailable && persisted == store
      else
        outcome.Stored?
        && var snapshot := PrepareDeliveredSnapshot(PersistenceApplied(report, outcome.persistence), epoch);
           DeliverStep(persisted, id, user, snapshot, now, token).1
           == if TokenTaken(store.rows, id, token) then Failed
              else Updated(Delivered, Some("/report-view/" + token))
  {
    var row := store.rows[id];
    assert Consistent(store, id);
    UpsertOfReviewed(store, id, report, now, token);
    OverlayOfReviewed(report, row, epoch);
    GuardLetsThrough(store, id, PrepareDeliveredSnapshot(PersistenceApplied(report, PersistenceOf(row)), epoch), user,
                     now, token);
  }

  lemma DeliveryStoresSnapshot(store: Store, id: string, user: string, snapshot: Report, now: int, token: string)
    requires DeliverStep(store, id, user, snapshot, now, token).1.Updated?
    ensures var next := DeliverStep(store, id, user, snapshot, now, token).0;
      && id in store.rows && id in next.rows && next.rows[id].deliveredSnapshot == Some(snapshot)
      && next.rows[id].jobId == store.rows[id].jobId
      && IsValidDeliveredSnapshot(id, store.rows[id].jobId, snapshot)
  {
  }

  /** In every run, the snapshot a delivery stores is shown to the customer, as the typed view of
      it, if and only if the job's id is not blank and the lists are shorter than 2^32. */
  lemma DeliveredSnapshotIsShown(events: seq<Event>, id: string, user: string, snapshot: Report, now: int,
                                 token: string)
    requires Admissible(events)
    requires DeliverStep(Run(EMPTY, events), id, user, snapshot, now, token).1.Updated?
    ensures var next := DeliverStep(Run(EMPTY, events), id, user, snapshot, now, token).0;
      && id in next.rows && next.rows[id].deliveredSnapshot == Some(snapshot)
      && var shown := SnapshotResponse(ReportJson(snapshot));
         && (shown.Some? <==> !IsBlank(next.rows[id].jobId)
                              && |snapshot.photoEvidence| < 0x1_0000_0000 && |snapshot.completedAddOns| < 0x1_0000_0000)
         && (shown.Some? ==> shown == Some(CustomerResponse(snapshot)))
  {
    var store := Run(EMPTY, events);
    RunKeepsInvariant(events);
    DeliveryStoresSnapshot(store, id, user, snapshot, now, token);
    assert Consistent(store, id);
    ValidSnapshotIsShownIff(snapshot, store.rows[id].jobId);
  }

  lemma ValidSnapshotIsShownIff(snapshot: Report, jobId: string)
    requires IsValidDeliveredSnapshot(CompletionReportId(jobId), jobId, snapshot)
    ensures var shown := SnapshotResponse(ReportJson(snapshot));
      && (shown.Some? <==> !IsBlank(jobId)
                           && |snapshot.photoEvidence| < 0x1_0000_0000 && |snapshot.completedAddOns| < 0x1_0000_0000)
      && (shown.Some? ==> shown == Some(CustomerResponse(snapshot)))
  {
    StoredViewRefinesTypedView(snapshot);
    ReportIdIsNotBlank(jobId);
  }

  lemma ReportIdIsNotBlank(jobId: string)
    ensures !IsBlank(CompletionReportId(jobId))
  {
    BlankIffAllWhitespace(CompletionReportId(jobId));
    assert CompletionReportId(jobId)[0] == 'r';
  }
}
