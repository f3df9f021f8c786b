/** The notification outbox: workers claim rows and write back provider outcomes, managers retry
    and resolve, and any of them may interleave with any other. Each database statement or
    transaction is one step on the table. */
module Outbox {
  import opened Numbers
  import opened Options
  import opened Text

  /** A row id; only equality and the order of ids matter. */
  type Id = int

  /** Microseconds of the database clock. */
  const SECOND: int := 1_000_000
  const CLAIM_TIMEOUT: int := 300 * SECOND
  const HISTORY_LIMIT: nat := 100

  datatype Status = Queued | Sending | Sent | Failed | Skipped | DeadLetter | Resolved

  datatype Row = Row(
    organizationId: string, status: Status, attemptCount: int, availableAt: int, createdAt: int, updatedAt: int,
    lastAttemptAt: Option<int>, sentAt: Option<int>, lastError: Option<string>,
    responseCode: Option<int>, messageId: Option<string>)

  /** What happened to the rows, for counting: claims by batch, write-backs that applied, retries. */
  datatype Entry = ClaimedBatch(ids: set<Id>, at: int) | AppliedTo(id: Id) | RetriedBy(id: Id)

  datatype Table = Table(rows: map<Id, Row>, log: seq<Entry>)

  datatype WriteResult = Applied | NotClaimed

  datatype ManagerResult = Done(row: Row) | InvalidStatus | NotFound

  // ---- retry delay ----------------------------------------------------------------------------------

  /** `retry_delay_seconds` */
  function RetryDelaySeconds(attemptCount: int): (seconds: int)
  {
    var exponent: nat := if attemptCount - 1 < 0 then 0 else if attemptCount - 1 > 6 then 6 else attemptCount - 1;
    var delay := 60 * Pow2(exponent);
    if delay < 3600 then delay else 3600
  }

  /** Whatever attempt number a worker passes, the delay is between a minute and an hour, and it
      never shrinks as attempts grow. */
  lemma RetryDelayBounds(a: int, b: int)
    ensures 60 <= RetryDelaySeconds(a) <= 3600
    ensures a <= b ==> RetryDelaySeconds(a) <= RetryDelaySeconds(b)
  {
    assert Pow2(1) == 2 && Pow2(2) == 4 && Pow2(3) == 8;
    assert Pow2(4) == 16 && Pow2(5) == 32 && Pow2(6) == 64;
  }

  /** The delay is a minute after the first attempt and doubles with each further one, up to an hour. */
  lemma RetryDelayDoubles(a: int)
    ensures a <= 1 ==> RetryDelaySeconds(a) == 60
    ensures a >= 1 ==>
      RetryDelaySeconds(a + 1) == if 2 * RetryDelaySeconds(a) < 3600 then 2 * RetryDelaySeconds(a) else 3600
  {
    assert Pow2(1) == 2 && Pow2(2) == 4 && Pow2(3) == 8;
    assert Pow2(4) == 16 && Pow2(5) == 32 && Pow2(6) == 64;
  }

  // ---- the statements ---------------------------------------------------------------------------------

  predicate StaleClaim(row: Row, now: int)
  {
    row.status == Sending && row.updatedAt < now - CLAIM_TIMEOUT
  }

  /** The first statement of a claim: rows out of attempts are dead-lettered. */
  function SweptRow(row: Row, now: int, maxAttempts: int): Row
  {
    if row.attemptCount >= maxAttempts && (row.status == Failed || StaleClaim(row, now))
    then row.(status := DeadLetter, updatedAt := now)
    else row
  }

  function SweepStep(t: Table, now: int, maxAttempts: int): Table
  {
    t.(rows := map id | id in t.rows :: SweptRow(t.rows[id], now, maxAttempts))
  }

  predicate Claimable(row: Row, now: int, maxAttempts: int)
  {
    row.attemptCount < maxAttempts
    && ((row.status in {Queued, Failed} && row.availableAt <= now) || StaleClaim(row, now))
  }

  function Candidates(rows: map<Id, Row>, now: int, maxAttempts: int): set<Id>
  {
    set id | id in rows && Claimable(rows[id], now, maxAttempts)
  }

  /** `ORDER BY available_at, created_at, id` */
  predicate Precedes(rows: map<Id, Row>, a: Id, b: Id)
    requires a in rows && b in rows
  {
    var x, y := rows[a], rows[b];
    x.availableAt < y.availableAt
    || (x.availableAt == y.availableAt && (x.createdAt < y.createdAt || (x.createdAt == y.createdAt && a < b)))
  }

  /** `FOR UPDATE SKIP LOCKED LIMIT`: of the candidates no one else has locked, the first ones. */
  ghost predicate ClaimAllowed(rows: map<Id, Row>, now: int, limit: nat, maxAttempts: int, locked: set<Id>,
                               chosen: set<Id>)
  {
    var free := Candidates(rows, now, maxAttempts) - locked;
    && chosen <= free && |chosen| <= limit
    && (|chosen| < limit ==> chosen == free)
    && (forall a, b :: a in chosen && b in free - chosen ==> Precedes(rows, a, b))
  }

  lemma ChosenAreRows(rows: map<Id, Row>, now: int, limit: nat, maxAttempts: int, locked: set<Id>, chosen: seq<Id>)
    requires ClaimAllowed(rows, now, limit, maxAttempts, locked, (set id | id in chosen))
    ensures forall i :: 0 <= i < |chosen| ==> chosen[i] in rows
  {
    var all := set id | id in chosen;
    forall i | 0 <= i < |chosen| ensures chosen[i] in rows {
      assert chosen[i] in all;
      assert chosen[i] in Candidates(rows, now, maxAttempts);
    }
  }

  function ClaimedRow(row: Row, now: int): Row
  {
    row.(status := Sending, attemptCount := row.attemptCount + 1, lastAttemptAt := Some(now), updatedAt := now)
  }

  function ClaimStep(t: Table, now: int, chosen: set<Id>): Table
  {
    Table(map id | id in t.rows :: if id in chosen then ClaimedRow(t.rows[id], now) else t.rows[id],
          t.log + [ClaimedBatch(chosen, now)])
  }

  function MarkSentStep(t: Table, now: int, id: Id, responseCode: int, messageId: Option<string>): (Table, WriteResult)
  {
    if id !in t.rows || t.rows[id].status != Sending then (t, NotClaimed)
    else
      var row := t.rows[id].(status := Sent, responseCode := Some(responseCode), messageId := messageId,
                             sentAt := Some(now), lastError := None, updatedAt := now);
      (Table(t.rows[id := row], t.log + [AppliedTo(id)]), Applied)
  }

  /** The attempt number is the one the worker got with its claim, however long ago. */
  function MarkFailedStep(t: Table, now: int, id: Id, attemptCount: int, maxAttempts: int, error: string,
                          responseCode: Option<int>): (Table, WriteResult)
  {
    if id !in t.rows || t.rows[id].status != Sending then (t, NotClaimed)
    else
      var row := t.rows[id].(status := if attemptCount >= maxAttempts then DeadLetter else Failed,
                             responseCode := responseCode,
                             lastError := Some(if |error| <= 1000 then error else error[..1000]),
                             availableAt := now + RetryDelaySeconds(attemptCount) * SECOND, updatedAt := now);
      (Table(t.rows[id := row], t.log + [AppliedTo(id)]), Applied)
  }

  /** Rows of the manager's organizations that list before `id` in the history. */
  function Newer(rows: map<Id, Row>, organizations: set<string>, id: Id): set<Id>
    requires id in rows
  {
    set other | other in rows && rows[other].organizationId in organizations
      && (rows[other].createdAt > rows[id].createdAt || (rows[other].createdAt == rows[id].createdAt && other > id))
  }

  /** After the commit the manager is shown the row, looked up in the newest 100 of the history. */
  function HistoryResult(t: Table, organizations: set<string>, id: Id): ManagerResult
    requires id in t.rows
  {
    if |Newer(t.rows, organizations, id)| < HISTORY_LIMIT then Done(t.rows[id]) else NotFound
  }

  function RetriedRow(row: Row, now: int): Row
  {
    row.(status := Queued, attemptCount := 0, availableAt := now, lastAttemptAt := None, sentAt := None,
         lastError := None, responseCode := None, messageId := None, updatedAt := now)
  }

  function RetryStep(t: Table, now: int, id: Id, organizations: set<string>): (Table, ManagerResult)
  {
    if id !in t.rows || t.rows[id].organizationId !in organizations then (t, NotFound)
    else if t.rows[id].status !in {Failed, DeadLetter} then (t, InvalidStatus)
    else
      var next := Table(t.rows[id := RetriedRow(t.rows[id], now)], t.log + [RetriedBy(id)]);
      (next, HistoryResult(next, organizations, id))
  }

  /** The manager's reason, or a stock note if there is none to speak of. */
  function ResolutionNote(reason: Option<string>): string
  {
    if reason.Some? && !IsBlank(reason.value) then Trim(reason.value) else "Manually resolved by manager"
  }

  function ResolveStep(t: Table, now: int, id: Id, organizations: set<string>, reason: Option<string>)
    : (Table, ManagerResult)
  {
    if id !in t.rows || t.rows[id].organizationId !in organizations then (t, NotFound)
    else if t.rows[id].status !in {Failed, DeadLetter} then (t, InvalidStatus)
    else
      var row := t.rows[id].(status := Resolved, availableAt := now, lastError := Some(ResolutionNote(reason)),
                             updatedAt := now);
      var next := t.(rows := t.rows[id := row]);
      (next, HistoryResult(next, organizations, id))
  }

  // ---- steps of other components ------------------------------------------------------------------------

  /** Another transaction queues a notification under a fresh id. */
  function EnqueueStep(t: Table, id: Id, row: Row): Table
  {
    if id in t.rows || row.status != Queued || row.attemptCount != 0 then t
    else t.(rows := t.rows[id := row])
  }

  /** A revised or revoked bid skips its undelivered notifications. */
  function SkipStep(t: Table, now: int, id: Id, reason: string): Table
  {
    if id in t.rows && t.rows[id].status in {Queued, Failed, Sending}
    then t.(rows := t.rows[id := t.rows[id].(status := Skipped, lastError := Some(reason), updatedAt := now)])
    else t
  }

  // ---- the table, updated in place ---------------------------------------------------------------------------

  /** What a claim hands the worker: the row and the attempt number it now has. */
  datatype Item = Item(id: Id, attemptCount: int)

  function ItemsOf(rows: map<Id, Row>, chosen: seq<Id>): (items: seq<Item>)
    requires forall i :: 0 <= i < |chosen| ==> chosen[i] in rows
    ensures |items| == |chosen|
  {
    seq(|chosen|, i requires 0 <= i < |chosen| => Item(chosen[i], rows[chosen[i]].attemptCount))
  }

  class OutboxTable {
    var rows: map<Id, Row>
    ghost var log: seq<Entry>

    ghost function Contents(): Table
      reads this
    {
      Table(rows, log)
    }

    constructor ()
      ensures Contents() == Table(map[], [])
    {
      rows, log := map[], [];
    }

    /** The first statement of `claim_batch` */
    method DeadLetterExhausted(now: int, maxAttempts: int)
      modifies this
      ensures Contents() == SweepStep(old(Contents()), now, maxAttempts)
    {
      rows := map id | id in rows :: SweptRow(rows[id], now, maxAttempts);
    }

    /** The second statement of `claim_batch`, given the rows its query selects in the order it
        returns them. */
    method ClaimCandidates(now: int, limit: nat, maxAttempts: int, ghost locked: set<Id>, chosen: seq<Id>)
      returns (items: seq<Item>)
      requires ClaimAllowed(rows, now, limit, maxAttempts, locked, (set id | id in chosen))
      modifies this
      ensures Contents() == ClaimStep(old(Contents()), now, (set id | id in chosen))
      ensures forall i :: 0 <= i < |chosen| ==> chosen[i] in rows && rows[chosen[i]].status == Sending
      ensures items == ItemsOf(rows, chosen)
    {
      ChosenAreRows(rows, now, limit, maxAttempts, locked, chosen);
      rows := map id | id in rows :: if id in chosen then ClaimedRow(rows[id], now) else rows[id];
      log := log + [ClaimedBatch((set id | id in chosen), now)];
      items := ItemsOf(rows, chosen);
    }

    method MarkSent(now: int, id: Id, responseCode: int, messageId: Option<string>) returns (r: WriteResult)
      modifies this
      ensures (Contents(), r) == MarkSentStep(old(Contents()), now, id, responseCode, messageId)
    {
      if id !in rows || rows[id].status != Sending { return NotClaimed; }
      rows := rows[id := rows[id].(status := Sent, responseCode := Some(responseCode), messageId := messageId,
                                   sentAt := Some(now), lastError := None, updatedAt := now)];
      log := log + [AppliedTo(id)];
      r := Applied;
    }

    method MarkFailed(now: int, id: Id, attemptCount: int, maxAttempts: int, error: string, responseCode: Option<int>)
      returns (r: WriteResult)
      modifies this
      ensures (Contents(), r) == MarkFailedStep(old(Contents()), now, id, attemptCount, maxAttempts, error,
                                                responseCode)
    {
      var retrySeconds := RetryDelaySeconds(attemptCount);
      var status := if attemptCount >= maxAttempts then DeadLetter else Failed;
      if id !in rows || rows[id].status != Sending { return NotClaimed; }
      rows := rows[id := rows[id].(status := status, responseCode := responseCode,
                                   lastError := Some(if |error| <= 1000 then error else error[..1000]),
                                   availableAt := now + retrySeconds * SECOND, updatedAt := now)];
      log := log + [AppliedTo(id)];
      r := Applied;
    }

    method RetryFailed(now: int, id: Id, organizations: set<string>) returns (r: ManagerResult)
      modifies this
      ensures (Contents(), r) == RetryStep(old(Contents()), now, id, organizations)
    {
      if organizations == {} || id !in rows || rows[id].organizationId !in organizations { return NotFound; }
      if rows[id].status !in {Failed, DeadLetter} { return InvalidStatus; }
      rows := rows[id := RetriedRow(rows[id], now)];
      log := log + [RetriedBy(id)];
      r := if |Newer(rows, organizations, id)| < HISTORY_LIMIT then Done(rows[id]) else NotFound;
    }

    method ResolveFailed(now: int, id: Id, organizations: set<string>, reason: Option<string>)
      returns (r: ManagerResult)
      modifies this
      ensures (Contents(), r) == ResolveStep(old(Contents()), now, id, organizations, reason)
    {
      if organizations == {} || id !in rows || rows[id].organizationId !in organizations { return NotFound; }
      if rows[id].status !in {Failed, DeadLetter} { return InvalidStatus; }
      var note := "Manually resolved by manager";
      if reason.Some? && Trim(reason.value) != "" {
        note := Trim(reason.value);
      }
      rows := rows[id := rows[id].(status := Resolved, availableAt := now, lastError := Some(note), updatedAt := now)];
      r := if |Newer(rows, organizations, id)| < HISTORY_LIMIT then Done(rows[id]) else NotFound;
    }

    /** Everyone else's statements between two of a worker's. */
    method Others(maxAttempts: int, steps: seq<Timed>)
      modifies this
      ensures Contents() == Run(old(Contents()), maxAttempts, steps)
    {
      ghost var start := Contents();
      for i := 0 to |steps|
        invariant Contents() == Run(start, maxAttempts, steps[..i])
      {
        assert steps[..i + 1][..i] == steps[..i];
        var next := Next(Table(rows, []), maxAttempts, steps[i]);
        NextIgnoresLog(Contents(), maxAttempts, steps[i]);
        log := Next(Contents(), maxAttempts, steps[i]).log;
        rows := next.rows;
      }
      assert steps[..|steps|] == steps;
    }
  }

  lemma NextIgnoresLog(t: Table, maxAttempts: int, step: Timed)
    ensures Next(t.(log := []), maxAttempts, step).rows == Next(t, maxAttempts, step).rows
  {
  }

  // ---- runs ------------------------------------------------------------------------------------------------

  datatype Event =
    | Enqueue(newId: Id, newRow: Row)
    | Skip(id: Id, reason: string)
    | Sweep
    | Claim(limit: nat, locked: set<Id>, chosen: set<Id>)
    | MarkSent(id: Id, code: int, messageId: Option<string>)
    | MarkFailed(id: Id, attemptCount: int, error: string, failureCode: Option<int>)
    | Retry(id: Id, organizations: set<string>)
    | Resolve(id: Id, organizations: set<string>, resolution: Option<string>)

  /** A statement and the clock reading it runs at. */
  datatype Timed = Timed(now: int, event: Event)

  function Next(t: Table, maxAttempts: int, step: Timed): Table
  {
    match step.event
    case Enqueue(id, row) => EnqueueStep(t, id, row)
    case Skip(id, reason) => SkipStep(t, step.now, id, reason)
    case Sweep => SweepStep(t, step.now, maxAttempts)
    case Claim(_, _, chosen) => ClaimStep(t, step.now, chosen)
    case MarkSent(id, code, messageId) => MarkSentStep(t, step.now, id, code, messageId).0
    case MarkFailed(id, attemptCount, error, code) =>
        MarkFailedStep(t, step.now, id, attemptCount, maxAttempts, error, code).0
    case Retry(id, organizations) => RetryStep(t, step.now, id, organizations).0
    case Resolve(id, organizations, reason) => ResolveStep(t, step.now, id, organizations, reason).0
  }

  function Run(t: Table, maxAttempts: int, steps: seq<Timed>): Table
  {
    if steps == [] then t
    else Next(Run(t, maxAttempts, steps[..|steps| - 1]), maxAttempts, steps[|steps| - 1])
  }

  /** Claims take what the query gives them, and the clock never goes back. */
  ghost predicate Possible(t: Table, maxAttempts: int, steps: seq<Timed>)
  {
    && (forall i, j :: 0 <= i < j < |steps| ==> steps[i].now <= steps[j].now)
    && (forall i :: 0 <= i < |steps| && steps[i].event.Claim? ==>
          var e := steps[i].event;
          ClaimAllowed(Run(t, maxAttempts, steps[..i]).rows, steps[i].now, e.limit, maxAttempts, e.locked, e.chosen))
  }

  const EMPTY := Table(map[], [])

  // ---- counting ----------------------------------------------------------------------------------------------

  function Claims(log: seq<Entry>, id: Id): nat
  {
    if log == [] then 0
    else
      var last := log[|log| - 1];
      Claims(log[..|log| - 1], id) + (if last.ClaimedBatch? && id in last.ids then 1 else 0)
  }

  function Retries(log: seq<Entry>, id: Id): nat
  {
    if log == [] then 0
    else Retries(log[..|log| - 1], id) + (if log[|log| - 1] == RetriedBy(id) then 1 else 0)
  }

  function Applications(log: seq<Entry>, id: Id): nat
  {
    if log == [] then 0
    else Applications(log[..|log| - 1], id) + (if log[|log| - 1] == AppliedTo(id) then 1 else 0)
  }

  function ClaimsSinceRetry(log: seq<Entry>, id: Id): nat
  {
    if log == [] then 0
    else
      var last := log[|log| - 1];
      if last == RetriedBy(id) then 0
      else ClaimsSinceRetry(log[..|log| - 1], id) + (if last.ClaimedBatch? && id in last.ids then 1 else 0)
  }

  /** When the row was last claimed, if it was claimed since its last retry. */
  function LastClaimAt(log: seq<Entry>, id: Id): Option<int>
  {
    if log == [] then None
    else
      var last := log[|log| - 1];
      if last == RetriedBy(id) then None
      else if last.ClaimedBatch? && id in last.ids then Some(last.at)
      else LastClaimAt(log[..|log| - 1], id)
  }

  // ---- what every run keeps --------------------------------------------------------------------------------------

  predicate RowInvariant(t: Table, maxAttempts: int, id: Id)
    requires id in t.rows
  {
    var row, last := t.rows[id], LastClaimAt(t.log, id);
    && row.attemptCount == ClaimsSinceRetry(t.log, id)
    && (row.attemptCount == 0 || row.attemptCount <= maxAttempts)
    && Claims(t.log, id) <= Bound(maxAttempts) * Retries(t.log, id) + row.attemptCount
    && Applications(t.log, id) + (if row.status == Sending then 1 else 0) <= Claims(t.log, id)
    && (row.status == Queued ==> last.None?)
    && (row.status == Sending ==> last == Some(row.updatedAt))
    && (row.status == Failed && last.Some? ==> row.availableAt >= last.value + 60 * SECOND)
  }

  function Bound(maxAttempts: int): nat
  {
    if maxAttempts < 0 then 0 else maxAttempts
  }

  predicate Untouched(log: seq<Entry>, id: Id)
  {
    Claims(log, id) == 0 && Retries(log, id) == 0 && Applications(log, id) == 0
    && ClaimsSinceRetry(log, id) == 0 && LastClaimAt(log, id).None?
  }

  /** A claim comes at least a minute after the last one since the row's last retry. */
  predicate SpacedAt(log: seq<Entry>, j: nat)
    requires j < |log|
  {
    log[j].ClaimedBatch? ==>
      forall id :: id in log[j].ids && LastClaimAt(log[..j], id).Some? ==>
        log[j].at >= LastClaimAt(log[..j], id).value + 60 * SECOND
  }

  ghost predicate Invariant(t: Table, maxAttempts: int, now: int)
  {
    && (forall id :: LastClaimAt(t.log, id).Some? ==> LastClaimAt(t.log, id).value <= now)
    && (forall id :: id in t.rows ==> RowInvariant(t, maxAttempts, id))
    && (forall id :: id !in t.rows ==> Untouched(t.log, id))
    && (forall j :: 0 <= j < |t.log| ==> SpacedAt(t.log, j))
  }

  lemma LogAppended(log: seq<Entry>, e: Entry, id: Id)
    ensures (log + [e])[..|log + [e]| - 1] == log
    ensures Claims(log + [e], id) == Claims(log, id) + (if e.ClaimedBatch? && id in e.ids then 1 else 0)
    ensures Retries(log + [e], id) == Retries(log, id) + (if e == RetriedBy(id) then 1 else 0)
    ensures Applications(log + [e], id) == Applications(log, id) + (if e == AppliedTo(id) then 1 else 0)
    ensures ClaimsSinceRetry(log + [e], id)
         == if e == RetriedBy(id) then 0
             else ClaimsSinceRetry(log, id) + (if e.ClaimedBatch? && id in e.ids then 1 else 0)
    ensures LastClaimAt(log + [e], id)
         == if e == RetriedBy(id) then None else if e.ClaimedBatch? && id in e.ids then Some(e.at)
             else LastClaimAt(log, id)
  {
    assert (log + [e])[..|log + [e]| - 1] == log;
  }

  lemma SpacingKept(log: seq<Entry>, e: Entry)
    requires forall j :: 0 <= j < |log| ==> SpacedAt(log, j)
    requires e.ClaimedBatch? ==>
      (forall id :: id in e.ids && LastClaimAt(log, id).Some? ==> e.at >= LastClaimAt(log, id).value + 60 * SECOND)
    ensures forall j :: 0 <= j < |log + [e]| ==> SpacedAt(log + [e], j)
  {
    forall j | 0 <= j < |log + [e]| ensures SpacedAt(log + [e], j) {
      if j < |log| {
        assert SpacedAt(log, j);
        assert (log + [e])[..j] == log[..j];
      } else {
        assert (log + [e])[..j] == log;
      }
    }
  }

  lemma RowAfterFinalization(t: Table, maxAttempts: int, id: Id, row: Row)
    requires id in t.rows && RowInvariant(t, maxAttempts, id) && t.rows[id].status == Sending
    requires row.attemptCount == t.rows[id].attemptCount && row.status in {Sent, Failed, DeadLetter}
    requires row.status == Failed ==> row.availableAt >= t.rows[id].updatedAt + 60 * SECOND
    ensures RowInvariant(Table(t.rows[id := row], t.log + [AppliedTo(id)]), maxAttempts, id)
  {
    LogAppended(t.log, AppliedTo(id), id);
  }

  lemma RetryBound(b: nat, r: nat)
    ensures b * (r + 1) == b * r + b
  {
  }

  lemma RowAfterRetry(t: Table, maxAttempts: int, id: Id, row: Row)
    requires id in t.rows && RowInvariant(t, maxAttempts, id) && t.rows[id].status != Sending
    requires row.attemptCount == 0 && row.status == Queued
    ensures RowInvariant(Table(t.rows[id := row], t.log + [RetriedBy(id)]), maxAttempts, id)
  {
    LogAppended(t.log, RetriedBy(id), id);
    RetryBound(Bound(maxAttempts), Retries(t.log, id));
  }

  /** A row changed without a log entry. */
  lemma RowAfterUpdate(t: Table, maxAttempts: int, id: Id, rows: map<Id, Row>)
    requires id in t.rows && RowInvariant(t, maxAttempts, id) && id in rows
    requires rows[id].attemptCount == t.rows[id].attemptCount && rows[id].status in {Skipped, DeadLetter, Resolved}
    ensures RowInvariant(t.(rows := rows), maxAttempts, id)
  {
  }

  /** A row that is not the one an entry is about keeps its invariant. */
  lemma OtherRow(t: Table, maxAttempts: int, id: Id, rows: map<Id, Row>, e: Entry)
    requires id in t.rows && RowInvariant(t, maxAttempts, id) && id in rows && rows[id] == t.rows[id]
    requires if e.ClaimedBatch? then id !in e.ids else e.id != id
    ensures RowInvariant(Table(rows, t.log + [e]), maxAttempts, id)
  {
    LogAppended(t.log, e, id);
  }

  lemma ClaimedRowInvariant(t: Table, maxAttempts: int, id: Id, rows: map<Id, Row>, ids: set<Id>, now: int)
    requires id in t.rows && RowInvariant(t, maxAttempts, id) && t.rows[id].attemptCount < maxAttempts
    requires id in ids && id in rows && rows[id] == ClaimedRow(t.rows[id], now)
    ensures RowInvariant(Table(rows, t.log + [ClaimedBatch(ids, now)]), maxAttempts, id)
  {
    LogAppended(t.log, ClaimedBatch(ids, now), id);
  }

  lemma ClaimKeepsInvariant(t: Table, maxAttempts: int, before: int, now: int, limit: nat, locked: set<Id>,
                            chosen: set<Id>)
    requires Invariant(t, maxAttempts, before) && before <= now
    requires ClaimAllowed(t.rows, now, limit, maxAttempts, locked, chosen)
    ensures Invariant(ClaimStep(t, now, chosen), maxAttempts, now)
  {
    var e := ClaimedBatch(chosen, now);
    var next := ClaimStep(t, now, chosen);
    forall id ensures LastClaimAt(next.log, id).Some? ==> LastClaimAt(next.log, id).value <= now
              ensures id !in t.rows ==> Untouched(next.log, id)
              ensures id in t.rows ==> RowInvariant(next, maxAttempts, id) {
      LogAppended(t.log, e, id);
      if id in t.rows {
        assert RowInvariant(t, maxAttempts, id);
        if id in chosen {
          ClaimedRowInvariant(t, maxAttempts, id, next.rows, chosen, now);
        } else {
          OtherRow(t, maxAttempts, id, next.rows, e);
        }
      }
    }
    forall id | id in chosen && LastClaimAt(t.log, id).Some? ensures now >= LastClaimAt(t.log, id).value + 60 * SECOND {
      assert RowInvariant(t, maxAttempts, id);
    }
    SpacingKept(t.log, e);
  }

  /** One row is rewritten and an entry about it, or none, is logged. */
  lemma EntryKeepsInvariant(t: Table, maxAttempts: int, before: int, now: int, id: Id, row: Row, e: Entry)
    requires Invariant(t, maxAttempts, before) && before <= now && id in t.rows
    requires e == AppliedTo(id) || e == RetriedBy(id)
    requires RowInvariant(Table(t.rows[id := row], t.log + [e]), maxAttempts, id)
    ensures Invariant(Table(t.rows[id := row], t.log + [e]), maxAttempts, now)
  {
    var next := Table(t.rows[id := row], t.log + [e]);
    forall other ensures LastClaimAt(next.log, other).Some? ==> LastClaimAt(next.log, other).value <= now
                 ensures other !in next.rows ==> Untouched(next.log, other)
                 ensures other in next.rows ==> RowInvariant(next, maxAttempts, other) {
      LogAppended(t.log, e, other);
      if other in t.rows && other != id {
        OtherRow(t, maxAttempts, other, next.rows, e);
      }
    }
    SpacingKept(t.log, e);
  }

  lemma UpdateKeepsInvariant(t: Table, maxAttempts: int, before: int, now: int, rows: map<Id, Row>)
    requires Invariant(t, maxAttempts, before) && before <= now && rows.Keys == t.rows.Keys
    requires forall id :: id in rows ==>
      (rows[id] == t.rows[id]
       || (rows[id].attemptCount == t.rows[id].attemptCount && rows[id].status in {Skipped, DeadLetter, Resolved}))
    ensures Invariant(t.(rows := rows), maxAttempts, now)
  {
    var next := t.(rows := rows);
    forall id | id in next.rows ensures RowInvariant(next, maxAttempts, id) {
      assert RowInvariant(t, maxAttempts, id);
      if rows[id] != t.rows[id] {
        RowAfterUpdate(t, maxAttempts, id, rows);
      }
    }
    assert forall id :: id !in rows <==> id !in t.rows;
  }

  lemma FinalizeKeepsInvariant(t: Table, maxAttempts: int, before: int, now: int, id: Id, row: Row)
    requires Invariant(t, maxAttempts, before) && before <= now && id in t.rows && t.rows[id].status == Sending
    requires row.attemptCount == t.rows[id].attemptCount && row.status in {Sent, Failed, DeadLetter}
    requires row.status == Failed ==> row.availableAt >= now + 60 * SECOND
    ensures Invariant(Table(t.rows[id := row], t.log + [AppliedTo(id)]), maxAttempts, now)
  {
    assert RowInvariant(t, maxAttempts, id);
    RowAfterFinalization(t, maxAttempts, id, row);
    EntryKeepsInvariant(t, maxAttempts, before, now, id, row, AppliedTo(id));
  }

  lemma SentKeepsInvariant(t: Table, maxAttempts: int, before: int, now: int, id: Id, code: int,
                           messageId: Option<string>)
    requires Invariant(t, maxAttempts, before) && before <= now
    ensures Invariant(MarkSentStep(t, now, id, code, messageId).0, maxAttempts, now)
  {
    var next := MarkSentStep(t, now, id, code, messageId);
    if next.1 == Applied {
      FinalizeKeepsInvariant(t, maxAttempts, before, now, id, next.0.rows[id]);
    }
  }

  lemma FailedKeepsInvariant(t: Table, maxAttempts: int, before: int, now: int, id: Id, attemptCount: int,
                             error: string, code: Option<int>)
    requires Invariant(t, maxAttempts, before) && before <= now
    ensures Invariant(MarkFailedStep(t, now, id, attemptCount, maxAttempts, error, code).0, maxAttempts, now)
  {
    var next := MarkFailedStep(t, now, id, attemptCount, maxAttempts, error, code);
    RetryDelayBounds(attemptCount, attemptCount);
    if next.1 == Applied {
      FinalizeKeepsInvariant(t, maxAttempts, before, now, id, next.0.rows[id]);
    }
  }

  lemma RetryKeepsInvariant(t: Table, maxAttempts: int, before: int, now: int, id: Id, organizations: set<string>)
    requires Invariant(t, maxAttempts, before) && before <= now
    ensures Invariant(RetryStep(t, now, id, organizations).0, maxAttempts, now)
  {
    if RetryStep(t, now, id, organizations).0 != t {
      RowAfterRetry(t, maxAttempts, id, RetriedRow(t.rows[id], now));
      EntryKeepsInvariant(t, maxAttempts, before, now, id, RetriedRow(t.rows[id], now), RetriedBy(id));
    }
  }

  lemma EnqueueKeepsInvariant(t: Table, maxAttempts: int, before: int, now: int, id: Id, row: Row)
    requires Invariant(t, maxAttempts, before) && before <= now
    ensures Invariant(EnqueueStep(t, id, row), maxAttempts, now)
  {
    var next := EnqueueStep(t, id, row);
    forall other | other in next.rows ensures RowInvariant(next, maxAttempts, other) {
      if other in t.rows {
        assert RowInvariant(t, maxAttempts, other);
      } else {
        assert Untouched(t.log, other);
      }
    }
  }

  lemma StepKeepsInvariant(t: Table, maxAttempts: int, before: int, step: Timed)
    requires Invariant(t, maxAttempts, before) && before <= step.now
    requires step.event.Claim? ==>
      ClaimAllowed(t.rows, step.now, step.event.limit, maxAttempts, step.event.locked, step.event.chosen)
    ensures Invariant(Next(t, maxAttempts, step), maxAttempts, step.now)
  {
    var now := step.now;
    match step.event
    case Enqueue(id, row) => EnqueueKeepsInvariant(t, maxAttempts, before, now, id, row);
    case Skip(id, reason) => UpdateKeepsInvariant(t, maxAttempts, before, now, SkipStep(t, now, id, reason).rows);
    case Sweep => UpdateKeepsInvariant(t, maxAttempts, before, now, SweepStep(t, now, maxAttempts).rows);
    case Claim(limit, locked, chosen) => ClaimKeepsInvariant(t, maxAttempts, before, now, limit, locked, chosen);
    case MarkSent(id, code, messageId) => SentKeepsInvariant(t, maxAttempts, before, now, id, code, messageId);
    case MarkFailed(id, attemptCount, error, code) =>
      FailedKeepsInvariant(t, maxAttempts, before, now, id, attemptCount, error, code);
    case Retry(id, organizations) => RetryKeepsInvariant(t, maxAttempts, before, now, id, organizations);
    case Resolve(id, organizations, reason) =>
      UpdateKeepsInvariant(t, maxAttempts, before, now, ResolveStep(t, now, id, organizations, reason).0.rows);
  }

  lemma PossiblePrefix(maxAttempts: int, steps: seq<Timed>, n: nat)
    requires n <= |steps| && Possible(EMPTY, maxAttempts, steps)
    ensures Possible(EMPTY, maxAttempts, steps[..n])
  {
    forall i | 0 <= i < n ensures steps[..n][..i] == steps[..i] {}
  }

  /** What the run so far kept, the last step keeps. */
  lemma LastStepKeepsInvariant(maxAttempts: int, steps: seq<Timed>, before: int)
    requires steps != [] && Possible(EMPTY, maxAttempts, steps) && before <= steps[|steps| - 1].now
    requires Invariant(Run(EMPTY, maxAttempts, steps[..|steps| - 1]), maxAttempts, before)
    ensures Invariant(Run(EMPTY, maxAttempts, steps), maxAttempts, steps[|steps| - 1].now)
  {
    StepKeepsInvariant(Run(EMPTY, maxAttempts, steps[..|steps| - 1]), maxAttempts, before, steps[|steps| - 1]);
  }

  lemma {:induction false} RunKeepsInvariant(maxAttempts: int, steps: seq<Timed>)
    requires steps != [] && Possible(EMPTY, maxAttempts, steps)
    ensures Invariant(Run(EMPTY, maxAttempts, steps), maxAttempts, steps[|steps| - 1].now)
  {
    var n := |steps| - 1;
    if n == 0 {
      assert steps[..n] == [];
      assert Invariant(EMPTY, maxAttempts, steps[n].now);
      LastStepKeepsInvariant(maxAttempts, steps, steps[n].now);
    } else {
      PossiblePrefix(maxAttempts, steps, n);
      RunKeepsInvariant(maxAttempts, steps[..n]);
      LastStepKeepsInvariant(maxAttempts, steps, steps[n - 1].now);
    }
  }

  // ---- the main results --------------------------------------------------------------------------------------------

  /** In every run: a row's attempt count is its claims since its last retry and never exceeds
      the maximum; so all its claims number at most the maximum times one more than its retries;
      and write-backs that applied never outnumber its claims. */
  lemma AttemptsAreBounded(maxAttempts: int, steps: seq<Timed>, id: Id)
    requires Possible(EMPTY, maxAttempts, steps) && id in Run(EMPTY, maxAttempts, steps).rows
    ensures var t := Run(EMPTY, maxAttempts, steps);
      && t.rows[id].attemptCount == ClaimsSinceRetry(t.log, id)
      && t.rows[id].attemptCount <= Bound(maxAttempts)
      && Claims(t.log, id) <= Bound(maxAttempts) * (1 + Retries(t.log, id))
      && Applications(t.log, id) <= Claims(t.log, id)
  {
    RunKeepsInvariant(maxAttempts, steps);
    RowBounds(Run(EMPTY, maxAttempts, steps), maxAttempts, id);
  }

  lemma RowBounds(t: Table, maxAttempts: int, id: Id)
    requires id in t.rows && RowInvariant(t, maxAttempts, id)
    ensures t.rows[id].attemptCount == ClaimsSinceRetry(t.log, id) <= Bound(maxAttempts)
    ensures Claims(t.log, id) <= Bound(maxAttempts) * (1 + Retries(t.log, id))
    ensures Applications(t.log, id) <= Claims(t.log, id)
  {
    var b, r := Bound(maxAttempts), Retries(t.log, id);
    assert b * (1 + r) == b * r + b;
  }

  lemma {:induction false} LastClaimReaches(log: seq<Entry>, i: nat, id: Id)
    requires i < |log| && log[i].ClaimedBatch? && id in log[i].ids
    requires forall k :: i < k < |log| ==> log[k] != RetriedBy(id)
    requires forall j :: 0 <= j < |log| ==> SpacedAt(log, j)
    ensures LastClaimAt(log, id).Some? && LastClaimAt(log, id).value >= log[i].at
  {
    var n := |log| - 1;
    if i < n {
      assert forall j :: 0 <= j < n ==> SpacedAt(log[..n], j) by {
        forall j | 0 <= j < n ensures SpacedAt(log[..n], j) {
          assert SpacedAt(log, j) && log[..n][..j] == log[..j];
        }
      }
      LastClaimReaches(log[..n], i, id);
      assert SpacedAt(log, n);
    }
  }

  /** In every run, two claims of a row with no retry of it between them are at least a minute
      apart, however late any worker wrote its outcome back. */
  lemma ClaimsAreSpaced(maxAttempts: int, steps: seq<Timed>, id: Id, i: nat, j: nat)
    requires Possible(EMPTY, maxAttempts, steps)
    requires var log := Run(EMPTY, maxAttempts, steps).log;
      && i < j < |log| && log[i].ClaimedBatch? && log[j].ClaimedBatch? && id in log[i].ids && id in log[j].ids
      && forall k :: i < k < j ==> log[k] != RetriedBy(id)
    ensures var log := Run(EMPTY, maxAttempts, steps).log;
      log[j].at >= log[i].at + 60 * SECOND
  {
    RunKeepsInvariant(maxAttempts, steps);
    var log := Run(EMPTY, maxAttempts, steps).log;
    forall k | 0 <= k < j ensures SpacedAt(log[..j], k) {
      assert SpacedAt(log, k) && log[..j][..k] == log[..k];
    }
    LastClaimReaches(log[..j], i, id);
    assert SpacedAt(log, j);
  }

  /** The statuses nothing leads out of. */
  predicate Final(status: Status)
  {
    status in {Sent, Resolved, Skipped}
  }

  lemma FinalStep(t: Table, maxAttempts: int, step: Timed, id: Id)
    requires id in t.rows && Final(t.rows[id].status)
    requires step.event.Claim? ==>
      ClaimAllowed(t.rows, step.now, step.event.limit, maxAttempts, step.event.locked, step.event.chosen)
    ensures id in Next(t, maxAttempts, step).rows && Next(t, maxAttempts, step).rows[id] == t.rows[id]
  {
  }

  /** A sent, resolved or skipped row never changes again, in any interleaving. */
  lemma {:induction false} FinalIsAbsorbing(t: Table, maxAttempts: int, steps: seq<Timed>, id: Id)
    requires id in t.rows && Final(t.rows[id].status) && Possible(t, maxAttempts, steps)
    ensures id in Run(t, maxAttempts, steps).rows && Run(t, maxAttempts, steps).rows[id] == t.rows[id]
  {
    if steps != [] {
      var n := |steps| - 1;
      var earlier := steps[..n];
      assert Possible(t, maxAttempts, earlier) by {
        forall i | 0 <= i < n ensures earlier[..i] == steps[..i] {}
      }
      FinalIsAbsorbing(t, maxAttempts, earlier, id);
      FinalStep(Run(t, maxAttempts, earlier), maxAttempts, steps[n], id);
    }
  }

  // ---- what a claim takes -----------------------------------------------------------------------

  /** Due for a worker: queued or failed and available, or sending for more than five minutes. */
  predicate DueAt(row: Row, now: int)
  {
    || ((row.status == Queued || row.status == Failed) && row.availableAt <= now)
    || (row.status == Sending && row.updatedAt < now - 300_000_000)
  }

  /** After a sweep every due row has attempts left; the rows it changed had none and are dead
      letters now, otherwise as they were. */
  lemma SweepLeavesAttempts(t: Table, now: int, maxAttempts: int, id: Id)
    requires id in t.rows
    ensures var before, after := t.rows[id], SweepStep(t, now, maxAttempts).rows[id];
      && (DueAt(after, now) && after.status != Queued ==> after.attemptCount < maxAttempts)
      && (after != before ==> before.attemptCount >= maxAttempts && before.status in {Failed, Sending})
      && (DueAt(before, now) && before.attemptCount < maxAttempts ==> after == before)
      && (after != before ==> after == before.(status := DeadLetter, updatedAt := now))
  {
  }

  /** A batch takes due rows with attempts left that no one else holds, the longest available
      first and as many as the limit allows, and each counts one more attempt. */
  lemma ClaimTakesTheEarliest(t: Table, now: int, limit: nat, maxAttempts: int, locked: set<Id>, chosen: set<Id>,
                              id: Id)
    requires ClaimAllowed(t.rows, now, limit, maxAttempts, locked, chosen) && id in t.rows
    ensures |chosen| <= limit
    ensures var row, after := t.rows[id], ClaimStep(t, now, chosen).rows[id];
      if id in chosen then
        && DueAt(row, now) && row.attemptCount < maxAttempts && id !in locked
        && after == row.(status := Sending, attemptCount := row.attemptCount + 1, lastAttemptAt := Some(now),
                         updatedAt := now)
      else
        && after == row
        && (DueAt(row, now) && row.attemptCount < maxAttempts && id !in locked ==>
              |chosen| == limit
              && forall c :: c in chosen ==>
                   c in t.rows && t.rows[c].availableAt <= row.availableAt
                   && (t.rows[c].availableAt == row.availableAt ==>
                         t.rows[c].createdAt < row.createdAt || (t.rows[c].createdAt == row.createdAt && c < id)))
  {
    assert id in Candidates(t.rows, now, maxAttempts)
      <==> DueAt(t.rows[id], now) && t.rows[id].attemptCount < maxAttempts;
    assert forall c :: c in chosen ==> c in Candidates(t.rows, now, maxAttempts);
    if id !in chosen && DueAt(t.rows[id], now) && t.rows[id].attemptCount < maxAttempts && id !in locked {
      var free := Candidates(t.rows, now, maxAttempts) - locked;
      assert id in free - chosen;
      assert forall c :: c in chosen ==> Precedes(t.rows, c, id);
    }
  }

  // ---- what a write-back leaves ----------------------------------------------------------------

  /** The provider's refusal is recorded, shortened to 1000 characters; the row is a dead letter after
      the last attempt, and otherwise claimable again once the backoff of the attempt is over. */
  lemma FailureWaitsForBackoff(t: Table, now: int, id: Id, attemptCount: int, maxAttempts: int, error: string,
                               code: Option<int>, later: int)
    requires id in t.rows && t.rows[id].status == Sending
    ensures var next := MarkFailedStep(t, now, id, attemptCount, maxAttempts, error, code).0;
      && next.rows.Keys == t.rows.Keys
      && (forall other :: other in t.rows && other != id ==> next.rows[other] == t.rows[other])
      && var row := next.rows[id];
      && row.responseCode == code && row.lastError.Some?
      && row.lastError.value <= error && (|error| <= 1000 || |row.lastError.value| == 1000)
      && (|error| <= 1000 ==> row.lastError.value == error)
      && row.status == (if attemptCount >= maxAttempts then DeadLetter else Failed)
      && (row.status == Failed ==>
            (id in Candidates(next.rows, later, maxAttempts)
             <==> row.attemptCount < maxAttempts && later >= now + RetryDelaySeconds(attemptCount) * 1_000_000))
  {
  }

  /** The receipt of an accepted delivery stays with its row for good. */
  lemma ReceiptIsKept(t: Table, now: int, id: Id, code: int, messageId: Option<string>, maxAttempts: int,
                      steps: seq<Timed>)
    requires id in t.rows && t.rows[id].status == Sending
    requires Possible(MarkSentStep(t, now, id, code, messageId).0, maxAttempts, steps)
    ensures var later := Run(MarkSentStep(t, now, id, code, messageId).0, maxAttempts, steps);
      && id in later.rows && later.rows[id].status == Sent && later.rows[id].responseCode == Some(code)
      && later.rows[id].messageId == messageId && later.rows[id].sentAt == Some(now)
      && later.rows[id].lastError.None?
  {
    FinalIsAbsorbing(MarkSentStep(t, now, id, code, messageId).0, maxAttempts, steps, id);
  }

  /** A skipped notification is never claimed again; sent ones, dead letters and resolved ones cannot
      be skipped. */
  lemma SkippedIsOver(t: Table, now: int, id: Id, reason: string, maxAttempts: int, steps: seq<Timed>)
    requires id in t.rows && Possible(SkipStep(t, now, id, reason), maxAttempts, steps)
    ensures var skipped := SkipStep(t, now, id, reason);
      if t.rows[id].status in {Queued, Failed, Sending} then
        && skipped.rows[id].status == Skipped
        && id in Run(skipped, maxAttempts, steps).rows
        && Run(skipped, maxAttempts, steps).rows[id] == skipped.rows[id]
      else skipped == t
  {
    var skipped := SkipStep(t, now, id, reason);
    if skipped.rows[id].status == Skipped {
      FinalIsAbsorbing(skipped, maxAttempts, steps, id);
    }
  }

  // ---- a manager's answer -----------------------------------------------------------------------

  lemma NewerAfterUpdate(rows: map<Id, Row>, organizations: set<string>, id: Id, row: Row)
    requires id in rows && row.createdAt == rows[id].createdAt && row.organizationId == rows[id].organizationId
    ensures Newer(rows[id := row], organizations, id) == Newer(rows, organizations, id)
  {
  }

  /** The manager's own rows that were created later, or at the same time under a greater id. */
  ghost predicate BehindAHundred(t: Table, organizations: set<string>, id: Id)
    requires id in t.rows
  {
    var created := t.rows[id].createdAt;
    |set other | other in t.rows && t.rows[other].organizationId in organizations
                 && (t.rows[other].createdAt > created || (t.rows[other].createdAt == created && other > id))| >= 100
  }

  lemma BehindAHundredIff(t: Table, organizations: set<string>, id: Id)
    requires id in t.rows
    ensures BehindAHundred(t, organizations, id) <==> |Newer(t.rows, organizations, id)| >= HISTORY_LIMIT
  {
    var created := t.rows[id].createdAt;
    assert Newer(t.rows, organizations, id)
        == set other | other in t.rows && t.rows[other].organizationId in organizations
             && (t.rows[other].createdAt > created || (t.rows[other].createdAt == created && other > id));
  }

  /** A row of the manager's organizations that a manager may act on. */
  predicate Manages(t: Table, id: Id, organizations: set<string>)
  {
    id in t.rows && t.rows[id].organizationId in organizations
    && (t.rows[id].status == Failed || t.rows[id].status == DeadLetter)
  }

  /** What an effective action is answered: "not found" when 100 of the manager's rows are newer,
      although it took effect. */
  ghost predicate AnsweredFromHistory(t: Table, next: Table, organizations: set<string>, id: Id, answer: ManagerResult)
    requires id in t.rows && id in next.rows
  {
    if BehindAHundred(t, organizations, id) then answer == NotFound else answer == Done(next.rows[id])
  }

  /** Without effect, a missing row and a row of another organization look the same. */
  predicate RefusedBecause(t: Table, organizations: set<string>, id: Id, answer: ManagerResult)
  {
    if id in t.rows && t.rows[id].organizationId in organizations then answer == InvalidStatus else answer == NotFound
  }

  /** A retry takes effect exactly on a failed or dead-lettered row of the manager's organizations. The
      row starts over: no attempts, nothing left of the last one, claimable at once. */
  lemma RetryAnswer(t: Table, now: int, id: Id, organizations: set<string>, maxAttempts: int)
    ensures var (next, answer) := RetryStep(t, now, id, organizations);
      && (next != t <==> Manages(t, id, organizations))
      && (next != t ==>
            && AnsweredFromHistory(t, next, organizations, id, answer)
            && (id in Candidates(next.rows, now, maxAttempts) <==> 0 < maxAttempts)
            && next.rows[id].status == Queued && next.rows[id].attemptCount == 0
            && next.rows[id].lastError.None? && next.rows[id].responseCode.None? && next.rows[id].messageId.None?
            && next.rows[id].sentAt.None? && next.rows[id].lastAttemptAt.None?)
      && (next == t ==> RefusedBecause(t, organizations, id, answer))
  {
    if Manages(t, id, organizations) {
      NewerAfterUpdate(t.rows, organizations, id, RetriedRow(t.rows[id], now));
      BehindAHundredIff(t, organizations, id);
      assert |(t.log + [RetriedBy(id)])| == |t.log| + 1;
    }
  }

  /** A resolution takes effect on the same rows. The row is closed for good, with the manager's
      reason. */
  lemma ResolveAnswer(t: Table, now: int, id: Id, organizations: set<string>, reason: Option<string>,
                      maxAttempts: int, steps: seq<Timed>)
    requires Possible(ResolveStep(t, now, id, organizations, reason).0, maxAttempts, steps)
    ensures var (next, answer) := ResolveStep(t, now, id, organizations, reason);
      && (next != t <==> Manages(t, id, organizations))
      && (next != t ==>
            && AnsweredFromHistory(t, next, organizations, id, answer)
            && next.rows[id].status == Resolved && next.rows[id].lastError.Some?
            && (reason.Some? && !IsBlank(reason.value) ==> next.rows[id].lastError.value == Trim(reason.value))
            && !IsBlank(next.rows[id].lastError.value)
            && id in Run(next, maxAttempts, steps).rows && Run(next, maxAttempts, steps).rows[id] == next.rows[id])
      && (next == t ==> RefusedBecause(t, organizations, id, answer))
  {
    var (next, answer) := ResolveStep(t, now, id, organizations, reason);
    if Manages(t, id, organizations) {
      NewerAfterUpdate(t.rows, organizations, id, next.rows[id]);
      BehindAHundredIff(t, organizations, id);
      FinalIsAbsorbing(next, maxAttempts, steps, id);
      NoteIsNotBlank(reason);
    }
  }

  lemma NoteIsNotBlank(reason: Option<string>)
    ensures !IsBlank(ResolutionNote(reason))
  {
    if reason.Some? && !IsBlank(reason.value) {
      TrimTwice(reason.value);
    } else {
      TrimOfUnpadded("Manually resolved by manager");
    }
  }

  function UpTo(n: nat): (ids: set<int>)
    ensures |ids| == n && forall i :: i in ids <==> 1 <= i <= n
  {
    if n == 0 then {} else UpTo(n - 1) + {n}
  }

  const FAILED := Row("o", Failed, 1, 0, 0, 0, None, None, None, None, None)

  /** One hundred and one failed rows, created one after another. */
  const CROWDED := Table(map id: int | 0 <= id <= 100 :: FAILED.(createdAt := id), [])

  lemma CrowdedHistory(organizations: set<string>)
    requires "o" in organizations
    ensures |Newer(CROWDED.rows, organizations, 0)| == 100 && Manages(CROWDED, 0, organizations)
  {
    assert Newer(CROWDED.rows, organizations, 0) == UpTo(100);
  }

  /** A retry of the oldest row of a crowded history queues it and is answered "not found". */
  lemma EffectiveRetryIsNotFound(now: int)
    ensures var (next, answer) := RetryStep(CROWDED, now, 0, {"o"});
      CROWDED.rows[0].status == Failed && next.rows[0].status == Queued && answer == NotFound
  {
    CrowdedHistory({"o"});
    RetryAnswer(CROWDED, now, 0, {"o"}, 1);
    BehindAHundredIff(CROWDED, {"o"}, 0);
  }
}
