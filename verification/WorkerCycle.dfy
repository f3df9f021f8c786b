/** One cycle of the notification dispatcher: a batch is claimed, every claimed notification is sent
    to the provider and its outcome written back, while other workers and managers go on. */
module WorkerCycle {
  import opened Options
  import opened Outbox

  datatype ProviderOutcome =
    | Accepted(code: int, messageId: Option<string>)
    | Refused(code: int)
    | Unreachable(error: string)

  /** The claim that starts the cycle: its two statements, what others did between them, the rows
      its query selects in the order it returns them, and whether the store fails either statement. */
  datatype Batch = Batch(
    sweepAt: int, between: seq<Timed>, claimAt: int, limit: nat, locked: set<Id>, chosen: seq<Id>,
    sweepFails: bool, claimFails: bool)

  /** One notification's turn: what others did before its write-back, the clock then, what the
      provider said, and whether the store fails to take the write. */
  datatype Turn = Turn(others: seq<Timed>, now: int, outcome: ProviderOutcome, storeFails: bool, refusal: string)

  datatype CycleResult = Completed(finalized: nat, stale: nat) | Unavailable

  function ToSet(ids: seq<Id>): set<Id>
  {
    set id | id in ids
  }

  /** The table the claim's second statement runs on. */
  function BeforeClaim(t: Table, maxAttempts: int, batch: Batch): Table
  {
    Run(SweepStep(t, batch.sweepAt, maxAttempts), maxAttempts, batch.between)
  }

  function AfterClaim(t: Table, maxAttempts: int, batch: Batch): Table
  {
    ClaimStep(BeforeClaim(t, maxAttempts, batch), batch.claimAt, ToSet(batch.chosen))
  }

  /** The query returns each row it selects once. */
  ghost predicate BatchAllowed(t: Table, maxAttempts: int, batch: Batch)
  {
    && (forall i, j :: 0 <= i < j < |batch.chosen| ==> batch.chosen[i] != batch.chosen[j])
    && ClaimAllowed(BeforeClaim(t, maxAttempts, batch).rows, batch.claimAt, batch.limit, maxAttempts, batch.locked,
                    ToSet(batch.chosen))
  }

  function WriteBack(t: Table, maxAttempts: int, item: Item, turn: Turn): (Table, WriteResult)
  {
    match turn.outcome
    case Accepted(code, messageId) => MarkSentStep(t, turn.now, item.id, code, messageId)
    case Refused(code) => MarkFailedStep(t, turn.now, item.id, item.attemptCount, maxAttempts, turn.refusal, Some(code))
    case Unreachable(error) => MarkFailedStep(t, turn.now, item.id, item.attemptCount, maxAttempts, error, None)
  }

  /** The table after the first `n` turns. */
  function AfterTurns(t: Table, maxAttempts: int, items: seq<Item>, turns: seq<Turn>, n: nat): Table
    requires n <= |items| == |turns|
  {
    if n == 0 then t
    else
      var before := Run(AfterTurns(t, maxAttempts, items, turns, n - 1), maxAttempts, turns[n - 1].others);
      WriteBack(before, maxAttempts, items[n - 1], turns[n - 1]).0
  }

  predicate IsSending(t: Table, id: Id)
  {
    id in t.rows && t.rows[id].status == Sending
  }

  /** How many of the first `n` write-backs find their row still being sent. */
  function CurrentClaims(t: Table, maxAttempts: int, items: seq<Item>, turns: seq<Turn>, n: nat): (count: nat)
    requires n <= |items| == |turns|
    ensures count <= n
  {
    if n == 0 then 0
    else
      var before := Run(AfterTurns(t, maxAttempts, items, turns, n - 1), maxAttempts, turns[n - 1].others);
      CurrentClaims(t, maxAttempts, items, turns, n - 1) + (if IsSending(before, items[n - 1].id) then 1 else 0)
  }

  /** `dispatch_once`. A completed cycle accounts for every notification it claimed: the ones whose
      row was still being sent at their write-back are finalized, all others are stale. */
  method DispatchOnce(table: OutboxTable, maxAttempts: int, batch: Batch, turns: seq<Turn>)
    returns (r: CycleResult)
    requires BatchAllowed(table.Contents(), maxAttempts, batch) && |turns| == |batch.chosen|
    modifies table
    ensures r.Completed? <==>
      !batch.sweepFails && !batch.claimFails && forall i :: 0 <= i < |turns| ==> !turns[i].storeFails
    ensures var claimed := AfterClaim(old(table.Contents()), maxAttempts, batch);
      r.Completed? ==>
        && (forall i :: 0 <= i < |batch.chosen| ==> IsSending(claimed, batch.chosen[i]))
        && var items := ItemsOf(claimed.rows, batch.chosen);
           && r.finalized + r.stale == |batch.chosen|
           && r.finalized == CurrentClaims(claimed, maxAttempts, items, turns, |turns|)
           && table.Contents() == AfterTurns(claimed, maxAttempts, items, turns, |turns|)
  {
    if batch.sweepFails { return Unavailable; }
    table.DeadLetterExhausted(batch.sweepAt, maxAttempts);
    table.Others(maxAttempts, batch.between);
    if batch.claimFails { return Unavailable; }
    var items := table.ClaimCandidates(batch.claimAt, batch.limit, maxAttempts, batch.locked, batch.chosen);
    r := DeliverAll(table, maxAttempts, items, turns);
  }

  /** The loop over the claimed notifications. */
  method DeliverAll(table: OutboxTable, maxAttempts: int, items: seq<Item>, turns: seq<Turn>) returns (r: CycleResult)
    requires |turns| == |items|
    modifies table
    ensures r.Completed? <==> forall i :: 0 <= i < |turns| ==> !turns[i].storeFails
    ensures r.Completed? ==>
      && r.finalized + r.stale == |items|
      && r.finalized == CurrentClaims(old(table.Contents()), maxAttempts, items, turns, |turns|)
      && table.Contents() == AfterTurns(old(table.Contents()), maxAttempts, items, turns, |turns|)
  {
    ghost var start := table.Contents();
    var finalized, stale := 0, 0;
    for i := 0 to |items|
      invariant forall k :: 0 <= k < i ==> !turns[k].storeFails
      invariant finalized + stale == i
      invariant finalized == CurrentClaims(start, maxAttempts, items, turns, i)
      invariant table.Contents() == AfterTurns(start, maxAttempts, items, turns, i)
    {
      table.Others(maxAttempts, turns[i].others);
      if turns[i].storeFails {
        return Unavailable;
      }
      var written: WriteResult;
      match turns[i].outcome {
        case Accepted(code, messageId) =>
          written := table.MarkSent(turns[i].now, items[i].id, code, messageId);
        case Refused(code) =>
          written := table.MarkFailed(turns[i].now, items[i].id, items[i].attemptCount, maxAttempts,
                                      turns[i].refusal, Some(code));
        case Unreachable(error) =>
          written := table.MarkFailed(turns[i].now, items[i].id, items[i].attemptCount, maxAttempts, error, None);
      }
      if written == Applied {
        finalized := finalized + 1;
      } else {
        stale := stale + 1;
      }
    }
    r := Completed(finalized, stale);
  }

  // ---- an undisturbed cycle --------------------------------------------------------------------------

  /** The items are distinct rows that are being sent. */
  predicate FreshlyClaimed(t: Table, items: seq<Item>)
  {
    && (forall i, j :: 0 <= i < j < |items| ==> items[i].id != items[j].id)
    && (forall i :: 0 <= i < |items| ==> IsSending(t, items[i].id))
  }

  /** A claim hands out distinct rows that are being sent, each with its attempts so far and one
      more. */
  lemma ClaimIsFresh(t: Table, now: int, limit: nat, maxAttempts: int, locked: set<Id>, chosen: seq<Id>)
    requires forall i, j :: 0 <= i < j < |chosen| ==> chosen[i] != chosen[j]
    requires ClaimAllowed(t.rows, now, limit, maxAttempts, locked, ToSet(chosen))
    ensures forall i :: 0 <= i < |chosen| ==> chosen[i] in t.rows
    ensures var claimed := ClaimStep(t, now, ToSet(chosen)); var items := ItemsOf(claimed.rows, chosen);
      && FreshlyClaimed(claimed, items)
      && forall i :: 0 <= i < |chosen| ==>
           items[i].id == chosen[i] && items[i].attemptCount == t.rows[chosen[i]].attemptCount + 1
  {
    ChosenAreRows(t.rows, now, limit, maxAttempts, locked, chosen);
    forall i | 0 <= i < |chosen| ensures chosen[i] in ToSet(chosen) {}
  }

  /** What the provider's answer on an attempt makes of a row: the receipt of an accepted delivery,
      or the refusal with its code or the error without one, dead on the last attempt. */
  predicate ShowsOutcome(row: Row, turn: Turn, attemptCount: int, maxAttempts: int)
  {
    match turn.outcome
    case Accepted(code, messageId) =>
      row.status == Sent && row.responseCode == Some(code) && row.messageId == messageId && row.lastError.None?
    case Refused(code) =>
      row.status == (if attemptCount >= maxAttempts then DeadLetter else Failed)
      && row.responseCode == Some(code) && row.lastError.Some? && row.lastError.value <= turn.refusal
    case Unreachable(error) =>
      row.status == (if attemptCount >= maxAttempts then DeadLetter else Failed)
      && row.responseCode.None? && row.lastError.Some? && row.lastError.value <= error
  }

  /** What holds after `n` turns with no one else at work. */
  predicate Progress(rows: map<Id, Row>, maxAttempts: int, items: seq<Item>, turns: seq<Turn>, n: nat)
    requires n <= |items| == |turns|
  {
    forall k :: 0 <= k < |items| ==>
      items[k].id in rows
      && if k < n then ShowsOutcome(rows[items[k].id], turns[k], items[k].attemptCount, maxAttempts)
         else rows[items[k].id].status == Sending
  }

  /** Only the turn's own row is written. */
  lemma WriteBackShowsOutcome(t: Table, maxAttempts: int, item: Item, turn: Turn)
    requires IsSending(t, item.id)
    ensures var next := WriteBack(t, maxAttempts, item, turn).0;
      && item.id in next.rows && ShowsOutcome(next.rows[item.id], turn, item.attemptCount, maxAttempts)
      && next.rows == t.rows[item.id := next.rows[item.id]]
  {
  }

  lemma TurnProgresses(t: Table, maxAttempts: int, items: seq<Item>, turns: seq<Turn>, n: nat)
    requires n < |items| == |turns| && Progress(t.rows, maxAttempts, items, turns, n)
    requires forall i, j :: 0 <= i < j < |items| ==> items[i].id != items[j].id
    ensures Progress(WriteBack(t, maxAttempts, items[n], turns[n]).0.rows, maxAttempts, items, turns, n + 1)
  {
    WriteBackShowsOutcome(t, maxAttempts, items[n], turns[n]);
    RowShowsOutcome(t.rows, WriteBack(t, maxAttempts, items[n], turns[n]).0.rows, maxAttempts, items, turns, n);
  }

  lemma RowShowsOutcome(rows: map<Id, Row>, next: map<Id, Row>, maxAttempts: int, items: seq<Item>, turns: seq<Turn>,
                        n: nat)
    requires n < |items| == |turns| && Progress(rows, maxAttempts, items, turns, n)
    requires forall i, j :: 0 <= i < j < |items| ==> items[i].id != items[j].id
    requires items[n].id in next && ShowsOutcome(next[items[n].id], turns[n], items[n].attemptCount, maxAttempts)
    requires next == rows[items[n].id := next[items[n].id]]
    ensures Progress(next, maxAttempts, items, turns, n + 1)
  {
    forall k | 0 <= k < |items|
      ensures items[k].id in next
        && if k <= n then ShowsOutcome(next[items[k].id], turns[k], items[k].attemptCount, maxAttempts)
           else next[items[k].id].status == Sending
    {
      if k != n {
        assert items[k].id != items[n].id;
      }
    }
  }

  lemma QuietTurn(t: Table, maxAttempts: int, items: seq<Item>, turns: seq<Turn>, n: nat)
    requires 0 < n <= |items| == |turns| && turns[n - 1].others == []
    ensures var before := AfterTurns(t, maxAttempts, items, turns, n - 1);
      && AfterTurns(t, maxAttempts, items, turns, n) == WriteBack(before, maxAttempts, items[n - 1], turns[n - 1]).0
      && CurrentClaims(t, maxAttempts, items, turns, n)
         == CurrentClaims(t, maxAttempts, items, turns, n - 1) + (if IsSending(before, items[n - 1].id) then 1 else 0)
  {
    var before := AfterTurns(t, maxAttempts, items, turns, n - 1);
    assert Run(before, maxAttempts, turns[n - 1].others) == before;
  }

  /** ... so its write-back finds its row still being sent. */
  lemma QuietTurnProgresses(t: Table, maxAttempts: int, items: seq<Item>, turns: seq<Turn>, n: nat)
    requires 0 < n <= |items| == |turns| && turns[n - 1].others == []
    requires forall i, j :: 0 <= i < j < |items| ==> items[i].id != items[j].id
    requires Progress(AfterTurns(t, maxAttempts, items, turns, n - 1).rows, maxAttempts, items, turns, n - 1)
    ensures Progress(AfterTurns(t, maxAttempts, items, turns, n).rows, maxAttempts, items, turns, n)
    ensures CurrentClaims(t, maxAttempts, items, turns, n) == CurrentClaims(t, maxAttempts, items, turns, n - 1) + 1
  {
    var before := AfterTurns(t, maxAttempts, items, turns, n - 1);
    QuietTurn(t, maxAttempts, items, turns, n);
    assert IsSending(before, items[n - 1].id);
    TurnProgresses(before, maxAttempts, items, turns, n - 1);
  }

  lemma {:induction false} AloneProgresses(t: Table, maxAttempts: int, items: seq<Item>, turns: seq<Turn>, n: nat)
    requires n <= |items| == |turns| && FreshlyClaimed(t, items)
    requires forall i :: 0 <= i < |turns| ==> turns[i].others == []
    ensures CurrentClaims(t, maxAttempts, items, turns, n) == n
    ensures Progress(AfterTurns(t, maxAttempts, items, turns, n).rows, maxAttempts, items, turns, n)
  {
    if n > 0 {
      AloneProgresses(t, maxAttempts, items, turns, n - 1);
      QuietTurnProgresses(t, maxAttempts, items, turns, n);
    }
  }

  /** The cycle's sweep comes before its claim: with no one in between, a failed notification out of
      attempts is a dead letter afterwards and was not claimed. */
  lemma ExhaustedIsNotClaimed(t: Table, maxAttempts: int, batch: Batch, id: Id)
    requires BatchAllowed(t, maxAttempts, batch) && batch.between == []
    requires id in t.rows && t.rows[id].status == Failed && t.rows[id].attemptCount >= maxAttempts
    ensures id !in batch.chosen
    ensures var claimed := AfterClaim(t, maxAttempts, batch);
      id in claimed.rows && claimed.rows[id].status == DeadLetter
  {
    var swept := SweepStep(t, batch.sweepAt, maxAttempts);
    assert BeforeClaim(t, maxAttempts, batch) == swept && swept.rows[id].status == DeadLetter;
    assert id !in Candidates(swept.rows, batch.claimAt, maxAttempts);
    assert id in batch.chosen ==> id in ToSet(batch.chosen);
  }

  /** Every claimed row carries the time of the claim. */
  lemma ClaimedAtClaim(t: Table, maxAttempts: int, batch: Batch, i: nat)
    requires BatchAllowed(t, maxAttempts, batch) && i < |batch.chosen|
    ensures var claimed := AfterClaim(t, maxAttempts, batch); var id := batch.chosen[i];
      id in claimed.rows && claimed.rows[id].lastAttemptAt == Some(batch.claimAt)
  {
    var before := BeforeClaim(t, maxAttempts, batch);
    ChosenAreRows(before.rows, batch.claimAt, batch.limit, maxAttempts, batch.locked, batch.chosen);
    assert batch.chosen[i] in ToSet(batch.chosen);
  }

  /** Stale outcomes come only from interference. When no one else writes after the claim, every
      claimed notification is finalized, and its row shows its provider outcome: sent with the receipt,
      or failed, or dead-lettered on its last attempt, with what went wrong. */
  lemma {:induction false} UndisturbedCycle(t: Table, maxAttempts: int, batch: Batch, turns: seq<Turn>)
    requires BatchAllowed(t, maxAttempts, batch) && |turns| == |batch.chosen|
    requires forall i :: 0 <= i < |turns| ==> turns[i].others == []
    ensures var claimed := AfterClaim(t, maxAttempts, batch);
      && (forall i :: 0 <= i < |batch.chosen| ==>
            batch.chosen[i] in claimed.rows && claimed.rows[batch.chosen[i]].lastAttemptAt == Some(batch.claimAt))
      && AloneFinalizesAll(claimed, maxAttempts, batch.chosen, turns)
  {
    forall i | 0 <= i < |batch.chosen|
      ensures var claimed := AfterClaim(t, maxAttempts, batch);
        batch.chosen[i] in claimed.rows && claimed.rows[batch.chosen[i]].lastAttemptAt == Some(batch.claimAt) {
      ClaimedAtClaim(t, maxAttempts, batch, i);
    }
    ClaimIsFresh(BeforeClaim(t, maxAttempts, batch), batch.claimAt, batch.limit, maxAttempts, batch.locked,
                 batch.chosen);
    FreshIsFinalized(AfterClaim(t, maxAttempts, batch), maxAttempts, batch.chosen, turns);
  }

  /** Working through the claimed rows alone finalizes each, and each shows its outcome. */
  predicate AloneFinalizesAll(claimed: Table, maxAttempts: int, chosen: seq<Id>, turns: seq<Turn>)
    requires |turns| == |chosen| && forall i :: 0 <= i < |chosen| ==> chosen[i] in claimed.rows
  {
    var items := ItemsOf(claimed.rows, chosen);
    && CurrentClaims(claimed, maxAttempts, items, turns, |turns|) == |chosen|
    && Progress(AfterTurns(claimed, maxAttempts, items, turns, |turns|).rows, maxAttempts, items, turns, |turns|)
  }

  lemma {:induction false} FreshIsFinalized(claimed: Table, maxAttempts: int, chosen: seq<Id>, turns: seq<Turn>)
    requires |turns| == |chosen| && forall i :: 0 <= i < |chosen| ==> chosen[i] in claimed.rows
    requires FreshlyClaimed(claimed, ItemsOf(claimed.rows, chosen))
    requires forall i :: 0 <= i < |turns| ==> turns[i].others == []
    ensures AloneFinalizesAll(claimed, maxAttempts, chosen, turns)
  {
    AloneProgresses(claimed, maxAttempts, ItemsOf(claimed.rows, chosen), turns, |turns|);
  }
}
