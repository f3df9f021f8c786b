/** Dispatch: moving a job to a crew and a date under the crew's daily capacity, and notifying the
    customer of a flagged move once. */
module Dispatch {
  import opened Options
  import opened Sets

  datatype JobStatus = Scheduled | InProgress | Completed

  datatype Job = Job(organization: string, crew: Option<string>, date: string, status: JobStatus)

  datatype Crew = Crew(organization: string, active: bool, capacity: int)

  /** An audit row id; only equality and order matter. */
  type Id = int

  datatype AuditEvent =
    | Moved(id: Id, job: string, oldCrew: Option<string>, newCrew: string, oldDate: string, newDate: string,
            flagged: bool, at: int)
    | Notified(id: Id, job: string, move: Id, at: int)

  datatype Tables = Tables(jobs: map<string, Job>, crews: map<string, Crew>, audit: seq<AuditEvent>)

  datatype MoveResult =
    | Updated(job: Job)
    | JobNotFound
    | JobAlreadyStarted
    | CrewNotFound
    | CapacityExceeded(capacity: int, projected: int)
    | MoveUnavailable

  datatype NotifyResult = NotificationCompleted | NoPendingNotification | NotifyUnavailable

  // ---- queries -----------------------------------------------------------------------------------------

  /** The jobs that count against a crew's capacity on a date. */
  function OpenJobs(jobs: map<string, Job>, crew: string, date: string): set<string>
  {
    set id | id in jobs && jobs[id].crew == Some(crew) && jobs[id].date == date && jobs[id].status != Completed
  }

  predicate IdInUse(audit: seq<AuditEvent>, id: Id)
  {
    exists e :: e in audit && e.id == id
  }

  predicate FlaggedMove(e: AuditEvent, job: string)
  {
    e.Moved? && e.flagged && e.job == job
  }

  /** `ORDER BY occurred_at DESC, id DESC` */
  predicate After(a: AuditEvent, b: AuditEvent)
  {
    a.at > b.at || (a.at == b.at && a.id > b.id)
  }

  /** The query `latest_move` */
  function LatestMove(audit: seq<AuditEvent>, job: string): (latest: Option<AuditEvent>)
    ensures latest.Some? ==> latest.value in audit && FlaggedMove(latest.value, job)
    ensures forall e :: e in audit && FlaggedMove(e, job) ==> latest.Some? && !After(e, latest.value)
  {
    if audit == [] then None
    else
      var n := |audit| - 1;
      assert audit == audit[..n] + [audit[n]];
      var earlier := LatestMove(audit[..n], job);
      if FlaggedMove(audit[n], job) && (earlier.None? || After(audit[n], earlier.value)) then Some(audit[n])
          else earlier
  }

  /** Some notification of the job is no older than this move. */
  predicate NotifiedSince(audit: seq<AuditEvent>, job: string, at: int)
  {
    exists e :: e in audit && e.Notified? && e.job == job && e.at >= at
  }

  // ---- the transactions, as functions ----------------------------------------------------------------------

  /** `update_dispatch_assignment`, with the generated audit id. */
  function MoveStep(t: Tables, job: string, crew: string, date: string, flagged: bool, auditId: Id,
                    now: int): (Tables, MoveResult)
  {
    if job !in t.jobs then (t, JobNotFound)
    else if t.jobs[job].status != Scheduled then (t, JobAlreadyStarted)
    else if crew !in t.crews || t.crews[crew].organization != t.jobs[job].organization || !t.crews[crew].active
        then (t, CrewNotFound)
    else
      var projected := |OpenJobs(t.jobs, crew, date) - {job}| + 1;
      if projected > t.crews[crew].capacity then (t, CapacityExceeded(t.crews[crew].capacity, projected))
      else if IdInUse(t.audit, auditId) then (t, MoveUnavailable)
      else
        var before := t.jobs[job];
        var after := before.(crew := Some(crew), date := date);
        (t.(jobs := t.jobs[job := after],
            audit := t.audit + [Moved(auditId, job, before.crew, crew, before.date, date, flagged, now)]),
                Updated(after))
  }

  /** `complete_dispatch_customer_notification` */
  function NotifyStep(t: Tables, job: string, auditId: Id, now: int): (Tables, NotifyResult)
  {
    var move := LatestMove(t.audit, job);
    if move.None? || NotifiedSince(t.audit, job, move.value.at) then (t, NoPendingNotification)
    else if IdInUse(t.audit, auditId) then (t, NotifyUnavailable)
    else (t.(audit := t.audit + [Notified(auditId, job, move.value.id, now)]), NotificationCompleted)
  }

  /** Crews start and complete jobs. */
  function ProgressStep(t: Tables, job: string, status: JobStatus): Tables
  {
    if job in t.jobs && t.jobs[job].status != Completed then t.(jobs := t.jobs[job := t.jobs[job].(status := status)])
        else t
  }

  // ---- the tables, updated in place --------------------------------------------------------------------------

  class DispatchTables {
    var jobs: map<string, Job>
    var crews: map<string, Crew>
    var audit: seq<AuditEvent>

    function Contents(): Tables
      reads this
    {
      Tables(jobs, crews, audit)
    }

    method UpdateDispatchAssignment(job: string, crew: string, date: string, flagged: bool, auditId: Id, now: int)
      returns (r: MoveResult)
      modifies this`jobs, this`audit
      ensures (Contents(), r) == MoveStep(old(Contents()), job, crew, date, flagged, auditId, now)
    {
      if job !in jobs { return JobNotFound; }
      var current := jobs[job];
      if current.status != Scheduled { return JobAlreadyStarted; }
      if crew !in crews || crews[crew].organization != current.organization || !crews[crew].active {
        return CrewNotFound;
      }
      var currentJobs := |OpenJobs(jobs, crew, date) - {job}|;
      var projected := currentJobs + 1;
      if projected > crews[crew].capacity { return CapacityExceeded(crews[crew].capacity, projected); }
      if IdInUse(audit, auditId) { return MoveUnavailable; }
      jobs := jobs[job := current.(crew := Some(crew), date := date)];
      audit := audit + [Moved(auditId, job, current.crew, crew, current.date, date, flagged, now)];
      r := Updated(jobs[job]);
    }

    method CompleteCustomerNotification(job: string, auditId: Id, now: int) returns (r: NotifyResult)
      modifies this`audit
      ensures (Contents(), r) == NotifyStep(old(Contents()), job, auditId, now)
    {
      var move := LatestMove(audit, job);
      if move.None? || NotifiedSince(audit, job, move.value.at) { return NoPendingNotification; }
      if IdInUse(audit, auditId) { return NotifyUnavailable; }
      audit := audit + [Notified(auditId, job, move.value.id, now)];
      r := NotificationCompleted;
    }
  }

  // ---- capacity ------------------------------------------------------------------------------------------------

  /** No crew has more open jobs on any date than its capacity. */
  ghost predicate WithinCapacity(t: Tables)
  {
    forall crew, date :: crew in t.crews ==> |OpenJobs(t.jobs, crew, date)| <= Capacity(t.crews[crew])
  }

  function Capacity(crew: Crew): int
  {
    if crew.capacity < 0 then 0 else crew.capacity
  }

  /** A job that is put somewhere is open there and nowhere else. */
  lemma PutJob(jobs: map<string, Job>, job: string, after: Job, crew: string, date: string)
    requires after.status == Scheduled
    ensures OpenJobs(jobs[job := after], crew, date)
         == OpenJobs(jobs, crew, date) - {job}
            + if after.crew == Some(crew) && after.date == date then {job} else {}
  {
  }

  /** A move changes one crew and date at most: no other pair gains a job, and the target pair ends
      with exactly the job added, within the crew's capacity, whatever held before. */
  lemma MoveGrowsOnlyTheTarget(t: Tables, job: string, crew: string, date: string, flagged: bool, auditId: Id, now: int,
                               otherCrew: string, otherDate: string)
    ensures var (next, r) := MoveStep(t, job, crew, date, flagged, auditId, now);
      && ((otherCrew, otherDate) != (crew, date) ==>
          OpenJobs(next.jobs, otherCrew, otherDate) <= OpenJobs(t.jobs, otherCrew, otherDate))
      && (r.Updated? ==> OpenJobs(next.jobs, crew, date) == OpenJobs(t.jobs, crew, date) + {job}
                         && crew in t.crews && |OpenJobs(next.jobs, crew, date)| <= t.crews[crew].capacity)
      && (!r.Updated? ==> next == t)
  {
    var r := MoveStep(t, job, crew, date, flagged, auditId, now).1;
    if r.Updated? {
      PutJob(t.jobs, job, r.job, crew, date);
      PutJob(t.jobs, job, r.job, otherCrew, otherDate);
    }
  }

  lemma MoveKeepsCapacity(t: Tables, job: string, crew: string, date: string, flagged: bool, auditId: Id, now: int)
    requires WithinCapacity(t)
    ensures WithinCapacity(MoveStep(t, job, crew, date, flagged, auditId, now).0)
  {
    var next := MoveStep(t, job, crew, date, flagged, auditId, now).0;
    forall c, d | c in next.crews ensures |OpenJobs(next.jobs, c, d)| <= Capacity(next.crews[c]) {
      MoveGrowsOnlyTheTarget(t, job, crew, date, flagged, auditId, now, c, d);
      if (c, d) != (crew, date) {
        SubsetIsNoLarger(OpenJobs(next.jobs, c, d), OpenJobs(t.jobs, c, d));
      }
    }
  }

  lemma ProgressKeepsCapacity(t: Tables, job: string, status: JobStatus)
    requires WithinCapacity(t)
    ensures WithinCapacity(ProgressStep(t, job, status))
  {
    var next := ProgressStep(t, job, status);
    forall c, d | c in next.crews ensures |OpenJobs(next.jobs, c, d)| <= Capacity(next.crews[c]) {
      SubsetIsNoLarger(OpenJobs(next.jobs, c, d), OpenJobs(t.jobs, c, d));
    }
  }

  // ---- runs ------------------------------------------------------------------------------------------------------

  datatype Step =
    | Move(job: string, crew: string, date: string, flagged: bool, auditId: Id)
    | Notify(job: string, auditId: Id)
    | Progress(job: string, status: JobStatus)

  datatype Timed = Timed(now: int, step: Step)

  function Next(t: Tables, timed: Timed): Tables
  {
    match timed.step
    case Move(job, crew, date, flagged, id) => MoveStep(t, job, crew, date, flagged, id, timed.now).0
    case Notify(job, id) => NotifyStep(t, job, id, timed.now).0
    case Progress(job, status) => ProgressStep(t, job, status)
  }

  function Run(t: Tables, steps: seq<Timed>): Tables
  {
    if steps == [] then t else Next(Run(t, steps[..|steps| - 1]), steps[|steps| - 1])
  }

  /** In every run that starts within capacity, every crew and date stays within capacity. */
  lemma {:induction false} RunKeepsCapacity(t: Tables, steps: seq<Timed>)
    requires WithinCapacity(t)
    ensures WithinCapacity(Run(t, steps))
  {
    if steps != [] {
      var earlier := Run(t, steps[..|steps| - 1]);
      RunKeepsCapacity(t, steps[..|steps| - 1]);
      match steps[|steps| - 1].step
      case Move(job, crew, date, flagged, id) =>
          MoveKeepsCapacity(earlier, job, crew, date, flagged, id, steps[|steps| - 1].now);
      case Progress(job, status) => ProgressKeepsCapacity(earlier, job, status);
      case Notify(_, _) =>
    }
  }

  // ---- notifications ------------------------------------------------------------------------------------------------

  /** The audit row at `k`, given the ones before it: ids are unique, time does not go back, and a
      notification names an earlier flagged move of its job that no earlier one names. */
  ghost predicate RowFits(audit: seq<AuditEvent>, k: nat)
    requires k < |audit|
  {
    var e := audit[k];
    && (forall j :: 0 <= j < k ==> audit[j].id != e.id && audit[j].at <= e.at)
    && (e.Notified? ==>
          && (exists j :: 0 <= j < k && audit[j].id == e.move && FlaggedMove(audit[j], e.job))
          && (forall j :: 0 <= j < k && audit[j].Notified? ==> audit[j].move != e.move))
  }

  ghost predicate AuditFits(audit: seq<AuditEvent>)
  {
    forall k :: 0 <= k < |audit| ==> RowFits(audit, k)
  }

  lemma RowAppended(audit: seq<AuditEvent>, e: AuditEvent)
    requires AuditFits(audit) && RowFits(audit + [e], |audit|)
    ensures AuditFits(audit + [e])
  {
    forall k | 0 <= k < |audit + [e]| ensures RowFits(audit + [e], k) {
      if k < |audit| {
        assert RowFits(audit, k);
        var row := audit[k];
        if row.Notified? {
          var j :| 0 <= j < k && audit[j].id == row.move && FlaggedMove(audit[j], row.job);
          assert (audit + [e])[j] == audit[j];
        }
      }
    }
  }

  /** The latest flagged move, unnotified since, was never named by a notification. */
  lemma PendingMoveIsFresh(audit: seq<AuditEvent>, move: AuditEvent, k: nat)
    requires AuditFits(audit) && move in audit && move.Moved? && !NotifiedSince(audit, move.job, move.at)
    requires k < |audit| && audit[k].Notified?
    ensures audit[k].move != move.id
  {
    assert RowFits(audit, k);
    var j :| 0 <= j < k && audit[j].id == audit[k].move && FlaggedMove(audit[j], audit[k].job);
    var i :| 0 <= i < |audit| && audit[i] == move;
    assert RowFits(audit, i) && RowFits(audit, j);
    assert audit[k] in audit && (audit[k].job == move.job ==> audit[k].at < move.at);
  }

  lemma NotifyFits(t: Tables, job: string, auditId: Id, now: int)
    requires AuditFits(t.audit) && forall e :: e in t.audit ==> e.at <= now
    ensures AuditFits(NotifyStep(t, job, auditId, now).0.audit)
  {
    var (next, r) := NotifyStep(t, job, auditId, now);
    if r == NotificationCompleted {
      var move := LatestMove(t.audit, job).value;
      var e := Notified(auditId, job, move.id, now);
      var all, n := t.audit + [e], |t.audit|;
      forall j | 0 <= j < n
        ensures all[j].id != e.id && all[j].at <= e.at && (all[j].Notified? ==> all[j].move != e.move) {
        assert t.audit[j] in t.audit;
        if t.audit[j].Notified? {
          PendingMoveIsFresh(t.audit, move, j);
        }
      }
      var i :| 0 <= i < n && t.audit[i] == move;
      assert all[i] == move;
      RowAppended(t.audit, e);
    }
  }

  lemma MoveFits(t: Tables, job: string, crew: string, date: string, flagged: bool, auditId: Id, now: int)
    requires AuditFits(t.audit) && forall e :: e in t.audit ==> e.at <= now
    ensures AuditFits(MoveStep(t, job, crew, date, flagged, auditId, now).0.audit)
  {
    var (next, r) := MoveStep(t, job, crew, date, flagged, auditId, now);
    if r.Updated? {
      var e := next.audit[|t.audit|];
      forall j | 0 <= j < |t.audit| ensures next.audit[j].id != e.id && next.audit[j].at <= e.at {
        assert t.audit[j] in t.audit;
      }
      RowAppended(t.audit, e);
    }
  }

  predicate Monotone(steps: seq<Timed>)
  {
    forall i, j :: 0 <= i < j < |steps| ==> steps[i].now <= steps[j].now
  }

  /** The log starts empty and the clock does not go back; it may stand still. */
  lemma {:induction false} RunFits(t: Tables, steps: seq<Timed>)
    requires t.audit == [] && Monotone(steps)
    ensures var audit := Run(t, steps).audit;
      AuditFits(audit) && (steps != [] ==> forall e :: e in audit ==> e.at <= steps[|steps| - 1].now)
      && (steps == [] ==> audit == [])
  {
    if steps != [] {
      var n := |steps| - 1;
      var earlier, now := Run(t, steps[..n]), steps[n].now;
      RunFits(t, steps[..n]);
      forall e | e in earlier.audit ensures e.at <= now {
        assert n > 0 && steps[n - 1].now <= now;
      }
      match steps[n].step
      case Move(job, crew, date, flagged, id) => MoveFits(earlier, job, crew, date, flagged, id, now);
      case Notify(job, id) => NotifyFits(earlier, job, id, now);
      case Progress(_, _) =>
    }
  }

  /** In every run each notification answers an earlier flagged move of its job, and no two answer
      the same one. */
  lemma MovesAreNotifiedOnce(t: Tables, steps: seq<Timed>, k: nat)
    requires t.audit == [] && Monotone(steps)
    requires k < |Run(t, steps).audit| && Run(t, steps).audit[k].Notified?
    ensures var audit := Run(t, steps).audit;
      && (exists j :: 0 <= j < k && audit[j].id == audit[k].move && FlaggedMove(audit[j], audit[k].job))
      && (forall j :: 0 <= j < |audit| && j != k && audit[j].Notified? ==> audit[j].move != audit[k].move)
  {
    RunFits(t, steps);
    var audit := Run(t, steps).audit;
    assert RowFits(audit, k);
    forall j | 0 <= j < |audit| && j != k && audit[j].Notified? ensures audit[j].move != audit[k].move {
      assert RowFits(audit, j);
    }
  }

  function CountMoves(audit: seq<AuditEvent>, job: string): nat
  {
    if audit == [] then 0
    else CountMoves(audit[..|audit| - 1], job) + (if FlaggedMove(audit[|audit| - 1], job) then 1 else 0)
  }

  function CountNotified(audit: seq<AuditEvent>, job: string): nat
  {
    if audit == [] then 0
    else
      var last := audit[|audit| - 1];
      CountNotified(audit[..|audit| - 1], job) + (if last.Notified? && last.job == job then 1 else 0)
  }

  function MoveIds(audit: seq<AuditEvent>, job: string): set<Id>
  {
    set k | 0 <= k < |audit| && FlaggedMove(audit[k], job) :: audit[k].id
  }

  function AnsweredIds(audit: seq<AuditEvent>, job: string): set<Id>
  {
    set k | 0 <= k < |audit| && audit[k].Notified? && audit[k].job == job :: audit[k].move
  }

  lemma PrefixFits(audit: seq<AuditEvent>, n: nat)
    requires AuditFits(audit) && n <= |audit|
    ensures AuditFits(audit[..n])
  {
    forall k | 0 <= k < n ensures RowFits(audit[..n], k) {
      assert RowFits(audit, k);
      var row := audit[k];
      if row.Notified? {
        var j :| 0 <= j < k && audit[j].id == row.move && FlaggedMove(audit[j], row.job);
        assert audit[..n][j] == audit[j];
      }
    }
  }

  lemma MoveIdsOneMore(audit: seq<AuditEvent>, last: AuditEvent, job: string)
    ensures MoveIds(audit + [last], job) == MoveIds(audit, job) + (if FlaggedMove(last, job) then {last.id} else {})
  {
    var all, n := audit + [last], |audit|;
    assert all[n] == last && forall k :: 0 <= k < n ==> all[k] == audit[k];
  }

  lemma AnsweredIdsOneMore(audit: seq<AuditEvent>, last: AuditEvent, job: string)
    ensures AnsweredIds(audit + [last], job)
         == AnsweredIds(audit, job) + (if last.Notified? && last.job == job then {last.move} else {})
  {
    var all, n := audit + [last], |audit|;
    assert all[n] == last && forall k :: 0 <= k < n ==> all[k] == audit[k];
  }

  lemma {:induction false} MovesCounted(audit: seq<AuditEvent>, job: string)
    requires AuditFits(audit)
    ensures |MoveIds(audit, job)| == CountMoves(audit, job)
  {
    if audit != [] {
      var n := |audit| - 1;
      PrefixFits(audit, n);
      MovesCounted(audit[..n], job);
      assert audit == audit[..n] + [audit[n]];
      MoveIdsOneMore(audit[..n], audit[n], job);
      assert RowFits(audit, n);
    }
  }

  lemma {:induction false} NotifiedCounted(audit: seq<AuditEvent>, job: string)
    requires AuditFits(audit)
    ensures |AnsweredIds(audit, job)| == CountNotified(audit, job)
  {
    if audit != [] {
      var n := |audit| - 1;
      PrefixFits(audit, n);
      NotifiedCounted(audit[..n], job);
      assert audit == audit[..n] + [audit[n]];
      AnsweredIdsOneMore(audit[..n], audit[n], job);
      assert RowFits(audit, n);
    }
  }

  /** In every run, in every prefix of the audit log, a job has no more notifications than flagged
      moves. */
  lemma NotificationsNeverOutnumberMoves(t: Tables, steps: seq<Timed>, job: string, n: nat)
    requires t.audit == [] && Monotone(steps) && n <= |Run(t, steps).audit|
    ensures CountNotified(Run(t, steps).audit[..n], job) <= CountMoves(Run(t, steps).audit[..n], job)
  {
    RunFits(t, steps);
    var prefix := Run(t, steps).audit[..n];
    PrefixFits(Run(t, steps).audit, n);
    MovesCounted(prefix, job);
    NotifiedCounted(prefix, job);
    AnsweredWereMoved(prefix, job);
    SubsetIsNoLarger(AnsweredIds(prefix, job), MoveIds(prefix, job));
  }

  lemma AnsweredWereMoved(audit: seq<AuditEvent>, job: string)
    requires AuditFits(audit)
    ensures AnsweredIds(audit, job) <= MoveIds(audit, job)
  {
    forall k | 0 <= k < |audit| && audit[k].Notified? && audit[k].job == job
        ensures audit[k].move in MoveIds(audit, job) {
      assert RowFits(audit, k);
      var j :| 0 <= j < k && audit[j].id == audit[k].move && FlaggedMove(audit[j], audit[k].job);
      assert FlaggedMove(audit[j], job);
    }
  }

  /** A flagged move of the job that none comes after, by time and then by id. */
  predicate IsLatestFlagged(audit: seq<AuditEvent>, m: AuditEvent, job: string)
  {
    && m.Moved? && m.flagged && m.job == job
    && forall e :: e in audit && e.Moved? && e.flagged && e.job == job ==>
         e.at < m.at || (e.at == m.at && e.id <= m.id)
  }

  /** A notification goes out exactly when some flagged move of the job is later than every
      notification of it; a flagged move at the very instant of a notification counts as notified. */
  lemma NotifiedIff(t: Tables, job: string, auditId: Id, now: int)
    ensures var (next, r) := NotifyStep(t, job, auditId, now);
      if !(exists m :: m in t.audit && FlaggedMove(m, job)
                       && forall e :: e in t.audit && e.Notified? && e.job == job ==> e.at < m.at) then
        r == NoPendingNotification && next == t
      else if exists e :: e in t.audit && e.id == auditId then r == NotifyUnavailable && next == t
      else
        r == NotificationCompleted
        && exists m :: m in t.audit && IsLatestFlagged(t.audit, m, job)
             && next == t.(audit := t.audit + [Notified(auditId, job, m.id, now)])
  {
    var latest := LatestMove(t.audit, job);
    if latest.Some? && !NotifiedSince(t.audit, job, latest.value.at) {
      assert FlaggedMove(latest.value, job);
    }
    if latest.Some? {
      assert IsLatestFlagged(t.audit, latest.value, job);
    }
  }

  // ---- what a move answers, and what its audit row says ----------------------------------------------------

  /** The crew's jobs of the date that are scheduled or in progress, but for this one. */
  ghost function OtherOpenJobs(t: Tables, job: string, crew: string, date: string): set<string>
  {
    set id | id in t.jobs && id != job && t.jobs[id].crew == Some(crew) && t.jobs[id].date == date
             && (t.jobs[id].status == Scheduled || t.jobs[id].status == InProgress)
  }

  lemma OthersAreOpen(t: Tables, job: string, crew: string, date: string)
    ensures OtherOpenJobs(t, job, crew, date) == OpenJobs(t.jobs, crew, date) - {job}
  {
  }

  /** A job moves exactly when it is scheduled, the crew is active in its organization, the crew's other
      open jobs of the date leave room for it, and the audit id is new; the guards answer in this
      order. Only the job's crew and date change. */
  lemma MoveAnswer(t: Tables, job: string, crew: string, date: string, flagged: bool, auditId: Id, now: int)
    ensures var (next, r) := MoveStep(t, job, crew, date, flagged, auditId, now);
      && (r == JobNotFound <==> job !in t.jobs)
      && (r == JobAlreadyStarted <==> job in t.jobs && t.jobs[job].status != Scheduled)
      && (r == CrewNotFound <==> job in t.jobs && t.jobs[job].status == Scheduled && !Employs(t, crew, job))
      && (job in t.jobs && t.jobs[job].status == Scheduled && Employs(t, crew, job) ==>
            var others := |OtherOpenJobs(t, job, crew, date)|;
            if others >= t.crews[crew].capacity then r == CapacityExceeded(t.crews[crew].capacity, others + 1)
            else if exists e :: e in t.audit && e.id == auditId then r == MoveUnavailable
            else
              && r == Updated(t.jobs[job].(crew := Some(crew), date := date))
              && next.jobs == t.jobs[job := t.jobs[job].(crew := Some(crew), date := date)] && next.crews == t.crews
              && next.audit == t.audit + [Moved(auditId, job, t.jobs[job].crew, crew, t.jobs[job].date, date, flagged,
                                                now)])
      && (!r.Updated? ==> next == t)
  {
    OthersAreOpen(t, job, crew, date);
  }

  /** The crew exists, is active and works for the job's organization. */
  predicate Employs(t: Tables, crew: string, job: string)
    requires job in t.jobs
  {
    crew in t.crews && t.crews[crew].active && t.crews[crew].organization == t.jobs[job].organization
  }

  function LastMove(audit: seq<AuditEvent>, job: string): Option<AuditEvent>
  {
    if audit == [] then None
    else
      var last := audit[|audit| - 1];
      if last.Moved? && last.job == job then Some(last) else LastMove(audit[..|audit| - 1], job)
  }

  /** The audit rows of each job follow on one another, and the last one says where the job is. */
  ghost predicate AuditTells(t: Tables)
  {
    && (forall k :: 0 <= k < |t.audit| && t.audit[k].Moved? ==> FollowsOn(t.audit, k))
    && (forall job :: LastMove(t.audit, job).Some? ==> IsWhere(t, job, LastMove(t.audit, job).value))
  }

  predicate IsWhere(t: Tables, job: string, move: AuditEvent)
  {
    move.Moved? && job in t.jobs && t.jobs[job].crew == Some(move.newCrew) && t.jobs[job].date == move.newDate
  }

  /** A move starts from where the move before it ended. */
  predicate FollowsOn(audit: seq<AuditEvent>, k: nat)
    requires k < |audit| && audit[k].Moved?
  {
    var before := LastMove(audit[..k], audit[k].job);
    before.Some? ==>
      && before.value.Moved?
      && audit[k].oldCrew == Some(before.value.newCrew) && audit[k].oldDate == before.value.newDate
  }

  lemma LastMoveAppended(audit: seq<AuditEvent>, e: AuditEvent, job: string)
    ensures LastMove(audit + [e], job) == if e.Moved? && e.job == job then Some(e) else LastMove(audit, job)
  {
    assert (audit + [e])[..|audit|] == audit;
  }

  lemma EventKeepsAudit(t: Tables, next: Tables, e: AuditEvent)
    requires AuditTells(t) && next.audit == t.audit + [e]
    requires e.Moved? ==>
      && e.job in t.jobs && next.jobs == t.jobs[e.job := t.jobs[e.job].(crew := Some(e.newCrew), date := e.newDate)]
      && e.oldCrew == t.jobs[e.job].crew && e.oldDate == t.jobs[e.job].date
    requires !e.Moved? ==> next.jobs == t.jobs
    ensures AuditTells(next)
  {
    forall k | 0 <= k < |next.audit| && next.audit[k].Moved? ensures FollowsOn(next.audit, k) {
      if k < |t.audit| {
        assert FollowsOn(t.audit, k) && next.audit[..k] == t.audit[..k];
      } else {
        assert next.audit[..k] == t.audit;
      }
    }
    forall job | LastMove(next.audit, job).Some?
      ensures IsWhere(next, job, LastMove(next.audit, job).value) {
      LastMoveAppended(t.audit, e, job);
    }
  }

  /** In every run that starts with an empty log, each job's audit rows chain from one crew and date to
      the next, and end where the job is now. */
  lemma {:induction false} AuditTellsWhereJobsAre(t: Tables, steps: seq<Timed>)
    requires t.audit == []
    ensures AuditTells(Run(t, steps))
  {
    if steps != [] {
      var n := |steps| - 1;
      var earlier, now := Run(t, steps[..n]), steps[n].now;
      AuditTellsWhereJobsAre(t, steps[..n]);
      match steps[n].step
      case Move(job, crew, date, flagged, id) =>
        var (next, r) := MoveStep(earlier, job, crew, date, flagged, id, now);
        if r.Updated? {
          EventKeepsAudit(earlier, next, next.audit[|earlier.audit|]);
        }
      case Notify(job, id) =>
        var (next, r) := NotifyStep(earlier, job, id, now);
        if r == NotificationCompleted {
          EventKeepsAudit(earlier, next, next.audit[|earlier.audit|]);
        }
      case Progress(job, status) =>
        var next := ProgressStep(earlier, job, status);
        assert forall j :: j in earlier.jobs ==>
          j in next.jobs && next.jobs[j].crew == earlier.jobs[j].crew && next.jobs[j].date == earlier.jobs[j].date;
    }
  }

  // ---- a move that is never notified ---------------------------------------------------------------------

  const CREWS := map["c" := Crew("o", true, 1)]
  const IDLE := Tables(map["j" := Job("o", None, "d0", Scheduled)], CREWS, [])
  const FIRST_MOVE := Moved(1, "j", None, "c", "d0", "d", true, 10)
  const NOTICE := Notified(2, "j", 1, 10)
  const SECOND_MOVE := Moved(3, "j", Some("c"), "c", "d", "d", true, 10)

  function Assigned(audit: seq<AuditEvent>): Tables
  {
    Tables(map["j" := Job("o", Some("c"), "d", Scheduled)], CREWS, audit)
  }

  lemma FirstMove()
    ensures MoveStep(IDLE, "j", "c", "d", true, 1, 10).0 == Assigned([FIRST_MOVE])
  {
    assert OpenJobs(IDLE.jobs, "c", "d") - {"j"} == {};
  }

  lemma FirstNotice()
    ensures NotifyStep(Assigned([FIRST_MOVE]), "j", 2, 10) == (Assigned([FIRST_MOVE, NOTICE]), NotificationCompleted)
  {
    assert LatestMove([FIRST_MOVE], "j") == Some(FIRST_MOVE);
    assert [FIRST_MOVE] + [NOTICE] == [FIRST_MOVE, NOTICE];
  }

  lemma SecondMove()
    ensures var moved := MoveStep(Assigned([FIRST_MOVE, NOTICE]), "j", "c", "d", true, 3, 10);
      moved.0 == Assigned([FIRST_MOVE, NOTICE, SECOND_MOVE]) && moved.1.Updated?
  {
    var t := Assigned([FIRST_MOVE, NOTICE]);
    assert OpenJobs(t.jobs, "c", "d") - {"j"} == {};
    assert t.jobs["j" := t.jobs["j"]] == t.jobs;
    assert t.audit + [SECOND_MOVE] == [FIRST_MOVE, NOTICE, SECOND_MOVE];
  }

  lemma SecondNoticeIsRefused()
    ensures NotifyStep(Assigned([FIRST_MOVE, NOTICE, SECOND_MOVE]), "j", 4, 11).1 == NoPendingNotification
  {
    var audit := [FIRST_MOVE, NOTICE, SECOND_MOVE];
    var latest := LatestMove(audit, "j");
    assert SECOND_MOVE == audit[2] && NOTICE == audit[1];
    assert NOTICE in audit && NOTICE.at == 10;
    assert forall e :: e in audit ==> e.at == 10;
  }

  /** Two flagged moves and a notification between them, all at instant 10: the second move is never
      notified. */
  lemma SameInstantMoveIsLost()
    ensures var moved := MoveStep(IDLE, "j", "c", "d", true, 1, 10).0;
      var notified := NotifyStep(moved, "j", 2, 10);
      var again := MoveStep(notified.0, "j", "c", "d", true, 3, 10);
      && notified.1 == NotificationCompleted && again.1.Updated?
      && NotifyStep(again.0, "j", 4, 11).1 == NoPendingNotification
  {
    FirstMove();
    FirstNotice();
    SecondMove();
    SecondNoticeIsRefused();
  }
}
