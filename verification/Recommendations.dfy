/** Customer decisions on recommendations: versions published by a provider, decided once by a
    customer, expired lazily, and replayed by idempotency key. */
module Recommendations {
  import opened Options
  import opened Text

  const WEEK: int := 7 * 24 * 3600

  datatype Status = Pending | Approved | Declined | RevisionRequested | Expired | Withdrawn

  /** The organization, account and property a visit and its recommendations belong to. */
  datatype Scope = Scope(organizationId: string, accountId: string, propertyId: string)

  /** A series and the expiry of each of its publications, by version. */
  datatype Series = Series(visit: string, scope: Scope, version: nat, status: Status, expiries: seq<int>)

  /** Event keys are unique. The expiry job's keys name the series and version; no user is the
      expiry job's actor. */
  datatype EventKey = ByUser(actor: string, key: string) | ByExpiry(reference: string, version: nat)

  datatype EventKind = Published | Superseded | Outcome(status: Status)

  datatype Event = Event(reference: string, version: nat, kind: EventKind, key: EventKey, at: int)

  datatype Decision = Decision(
    reference: string, version: nat, actor: string, action: string, reasonCode: Option<string>,
    note: Option<string>, affirmation: Option<string>, key: string, at: int)

  datatype Tables = Tables(series: map<string, Series>, decisions: seq<Decision>, events: seq<Event>)

  datatype Request = Request(
    expectedVersion: nat, action: string, reasonCode: Option<string>, note: Option<string>,
    affirmation: Option<string>, key: string)

  datatype Authorization = Valid | NotAuthorized | Invalid

  /** One call: the request, what the authority queries answer at that moment, and the order in
      which the due rows come back. */
  datatype Attempt = Attempt(
    actor: string, visit: string, reference: string, request: Request,
    authorization: Authorization, scope: Option<Scope>, due: seq<string>)

  datatype Receipt = Receipt(reference: string, version: nat, action: string, status: Status, decidedAt: int,
                             replayed: bool)

  datatype Result =
    | Recorded(receipt: Receipt)
    | Replayed(receipt: Receipt)
    | Unauthorized
    | InvalidAuthorization
    | NotFound
    | Conflict
    | Unavailable

  // ---- validation -------------------------------------------------------------------------------------

  predicate Bounded(value: Option<string>, maximum: nat)
  {
    value.Some? ==> 1 <= |Trim(value.value)| <= maximum
  }

  /** `validate_decision_request`; the characters of the key are checked before it is trimmed. */
  predicate ValidRequest(r: Request)
  {
    && 0 < r.expectedVersion < 0x7FFF_FFFF_FFFF_FFFF
    && 8 <= |Trim(r.key)| <= 128
    && (forall c :: c in r.key ==> ('a' <= c <= 'z' || 'A' <= c <= 'Z' || '0' <= c <= '9' || c == '-' || c == '_'))
    && Bounded(r.reasonCode, 80) && Bounded(r.note, 2000)
    && (if r.action == "approve" then r.affirmation.Some? && Bounded(r.affirmation, 120)
        else if r.action == "decline" then r.affirmation.None?
        else r.action == "request_revision" && r.affirmation.None? && r.note.Some?)
  }

  function StatusOf(action: string): Status
  {
    if action == "approve" then Approved else if action == "decline" then Declined else RevisionRequested
  }

  // ---- queries ----------------------------------------------------------------------------------------

  function FindDecision(decisions: seq<Decision>, actor: string, key: string): (found: Option<Decision>)
    ensures found.Some? ==> found.value in decisions && found.value.actor == actor && found.value.key == key
    ensures found.None? ==> forall d :: d in decisions ==> !(d.actor == actor && d.key == key)
  {
    if decisions == [] then None
    else
      var n := |decisions| - 1;
      assert decisions == decisions[..n] + [decisions[n]];
      var earlier := FindDecision(decisions[..n], actor, key);
      if earlier.Some? then earlier
      else if decisions[n].actor == actor && decisions[n].key == key then Some(decisions[n])
      else None
  }

  predicate KeyInUse(events: seq<Event>, key: EventKey)
  {
    exists e :: e in events && e.key == key
  }

  /** The expiry of a version; a version without a publication counts as long expired. */
  function ExpiryOf(s: Series, version: nat): int
  {
    if 1 <= version <= |s.expiries| then s.expiries[version - 1] else 0
  }

  predicate HasCurrentPublication(s: Series)
  {
    1 <= s.version <= |s.expiries|
  }

  predicate Due(series: map<string, Series>, reference: string, visit: string, now: int)
  {
    reference in series && series[reference].visit == visit && series[reference].status == Pending
    && HasCurrentPublication(series[reference]) && ExpiryOf(series[reference], series[reference].version) <= now
  }

  // ---- expiration -------------------------------------------------------------------------------------

  /** One row of the loop: an event unless its key is taken, and the status. */
  function ExpireOne(t: Tables, reference: string, now: int): Tables
    requires reference in t.series
  {
    var s := t.series[reference];
    var key := ByExpiry(reference, s.version);
    t.(series := t.series[reference := s.(status := Expired)],
       events := if KeyInUse(t.events, key) then t.events
                 else t.events + [Event(reference, s.version, Outcome(Expired), key, now)])
  }

  /** `reconcile_expiration`, over the rows its query returned; rows that are not due are not
      returned. */
  function Reconcile(t: Tables, visit: string, now: int, due: seq<string>): (next: Tables)
    ensures next.decisions == t.decisions && next.series.Keys == t.series.Keys
  {
    if due == [] then t
    else
      var earlier := Reconcile(t, visit, now, due[..|due| - 1]);
      var reference := due[|due| - 1];
      if Due(earlier.series, reference, visit, now) then ExpireOne(earlier, reference, now) else earlier
  }

  // ---- the decision -----------------------------------------------------------------------------------

  predicate ExactRetry(d: Decision, s: Series, a: Attempt, scope: Scope)
  {
    && d.reference == Trim(a.reference) && d.version == a.request.expectedVersion && d.action == a.request.action
    && d.reasonCode == a.request.reasonCode && d.note == a.request.note && d.affirmation == a.request.affirmation
    && s.visit == Trim(a.visit) && s.scope == scope
  }

  function RecordStep(t: Tables, a: Attempt, now: int): Tables
    requires Trim(a.reference) in t.series
  {
    var reference, actor, key := Trim(a.reference), Trim(a.actor), Trim(a.request.key);
    var status := StatusOf(a.request.action);
    Tables(t.series[reference := t.series[reference].(status := status)],
           t.decisions + [Decision(reference, a.request.expectedVersion, actor, a.request.action, a.request.reasonCode,
                                   a.request.note, a.request.affirmation, key, now)],
           t.events + [Event(reference, a.request.expectedVersion, Outcome(status), ByUser(actor, key), now)])
  }

  /** The publication the customer may decide on. */
  predicate Open(t: Tables, a: Attempt, scope: Scope, now: int)
  {
    var reference := Trim(a.reference);
    reference in t.series && t.series[reference].visit == Trim(a.visit) && t.series[reference].scope == scope
    && HasCurrentPublication(t.series[reference]) && ExpiryOf(t.series[reference], t.series[reference].version) > now
  }

  /** `decide` after authorization, on the reconciled tables `r`; every answer but `Recorded` rolls
      back to `t`. */
  function DecideOn(t: Tables, r: Tables, a: Attempt, scope: Scope, now: int): (Tables, Result)
  {
    var reference := Trim(a.reference);
    var existing := FindDecision(r.decisions, Trim(a.actor), Trim(a.request.key));
    if existing.Some? && existing.value.reference in r.series then
      var s := r.series[existing.value.reference];
      if !ExactRetry(existing.value, s, a, scope) then (t, Conflict)
      else (t, Replayed(Receipt(reference, a.request.expectedVersion, a.request.action, s.status, existing.value.at,
                                true)))
    else if !Open(r, a, scope, now) then (t, NotFound)
    else if r.series[reference].version != a.request.expectedVersion || r.series[reference].status != Pending
        then (t, Conflict)
    else if existing.Some? || KeyInUse(r.events, ByUser(Trim(a.actor), Trim(a.request.key))) then (t, Unavailable)
    else (RecordStep(r, a, now),
          Recorded(Receipt(reference, a.request.expectedVersion, a.request.action, StatusOf(a.request.action), now,
                           false)))
  }

  lemma RollsBack(t: Tables, r: Tables, a: Attempt, now: int)
    requires a.scope.Some?
    ensures var answer := DecideOn(r, r, a, a.scope.value, now).1;
      && DecideOn(t, r, a, a.scope.value, now).1 == answer
      && (answer.Recorded? ==> Trim(a.reference) in r.series)
      && DecideOn(t, r, a, a.scope.value, now).0 == if answer.Recorded? then RecordStep(r, a, now) else t
  {
  }

  function DecideStep(t: Tables, a: Attempt, now: int): (Tables, Result)
  {
    if !ValidRequest(a.request) then (t, Conflict)
    else if Trim(a.actor) == "" || a.authorization == NotAuthorized then (t, Unauthorized)
    else if a.authorization == Invalid then (t, InvalidAuthorization)
    else if a.scope.None? then (t, NotFound)
    else DecideOn(t, Reconcile(t, Trim(a.visit), now, a.due), a, a.scope.value, now)
  }

  // ---- steps of other components ----------------------------------------------------------------------

  /** A provider publishes the first version. */
  function PublishStep(t: Tables, reference: string, visit: string, scope: Scope, actor: string, key: string,
                       now: int): Tables
  {
    if reference in t.series || KeyInUse(t.events, ByUser(actor, key)) then t
    else t.(series := t.series[reference := Series(visit, scope, 1, Pending, [now + WEEK])],
            events := t.events + [Event(reference, 1, Published, ByUser(actor, key), now)])
  }

  /** A provider replaces the current version; both event keys are derived and must be free. */
  function ReviseStep(t: Tables, reference: string, expectedVersion: nat, actor: string, supersededKey: string,
                      publishedKey: string, now: int): Tables
  {
    if reference !in t.series || t.series[reference].version != expectedVersion
       || t.series[reference].status !in {Pending, RevisionRequested}
       || supersededKey == publishedKey || KeyInUse(t.events, ByUser(actor, supersededKey))
       || KeyInUse(t.events, ByUser(actor, publishedKey))
    then t
    else
      var s := t.series[reference];
      t.(series := t.series[reference :=
                            s.(version := s.version + 1, status := Pending, expiries := s.expiries + [now + WEEK])],
         events := t.events + [Event(reference, s.version, Superseded, ByUser(actor, supersededKey), now)]
                   + [Event(reference, s.version + 1, Published, ByUser(actor, publishedKey), now)])
  }

  /** A decision over the shared bid link withdraws a pending version. */
  function WithdrawStep(t: Tables, reference: string, key: EventKey, now: int): Tables
  {
    if reference !in t.series || t.series[reference].status != Pending || key.ByExpiry? || KeyInUse(t.events, key)
        then t
    else
      var s := t.series[reference];
      t.(series := t.series[reference := s.(status := Withdrawn)],
         events := t.events + [Event(reference, s.version, Outcome(Withdrawn), key, now)])
  }

  // ---- the tables, updated in place --------------------------------------------------------------------

  class RecommendationTables {
    var series: map<string, Series>
    var decisions: seq<Decision>
    var events: seq<Event>

    function Contents(): Tables
      reads this
    {
      Tables(series, decisions, events)
    }

    constructor ()
      ensures Contents() == EMPTY
    {
      series, decisions, events := map[], [], [];
    }

    method ReconcileExpiration(visit: string, now: int, due: seq<string>)
      requires forall i, j :: 0 <= i < j < |due| ==> due[i] != due[j]
      requires forall i :: 0 <= i < |due| ==> Due(series, due[i], visit, now)
      modifies this`series, this`events
      ensures Contents() == Reconcile(old(Contents()), visit, now, due)
    {
      ghost var start := Contents();
      for i := 0 to |due|
        invariant Contents() == Reconcile(start, visit, now, due[..i])
        invariant forall k :: i <= k < |due| ==> Due(series, due[k], visit, now)
      {
        assert due[..i + 1][..i] == due[..i];
        var reference, version := due[i], series[due[i]].version;
        var key := ByExpiry(reference, version);
        if !KeyInUse(events, key) {
          events := events + [Event(reference, version, Outcome(Expired), key, now)];
        }
        series := series[reference := series[reference].(status := Expired)];
      }
      assert due[..|due|] == due;
    }

    /** `decide`. The rows the expiry query returns are the due ones, each once. */
    method Decide(a: Attempt, now: int) returns (r: Result)
      requires forall i, j :: 0 <= i < j < |a.due| ==> a.due[i] != a.due[j]
      requires forall i :: 0 <= i < |a.due| ==> Due(series, a.due[i], Trim(a.visit), now)
      modifies this
      ensures (Contents(), r) == DecideStep(old(Contents()), a, now)
    {
      if !ValidRequest(a.request) { return Conflict; }
      if Trim(a.actor) == "" || a.authorization == NotAuthorized { return Unauthorized; }
      if a.authorization == Invalid { return InvalidAuthorization; }
      if a.scope.None? { return NotFound; }
      var seriesBefore, eventsBefore := series, events;
      ghost var before := Contents();
      ReconcileExpiration(Trim(a.visit), now, a.due);
      RollsBack(before, Contents(), a, now);
      r := DecideReconciled(a, now);
      if !r.Recorded? {
        series, events := seriesBefore, eventsBefore;
      }
    }

    method DecideReconciled(a: Attempt, now: int) returns (r: Result)
      requires a.scope.Some?
      modifies this
      ensures r == DecideOn(old(Contents()), old(Contents()), a, a.scope.value, now).1
      ensures r.Recorded? ==> Trim(a.reference) in old(series)
      ensures Contents() == if r.Recorded? then RecordStep(old(Contents()), a, now) else old(Contents())
    {
      var reference, actor, key, scope := Trim(a.reference), Trim(a.actor), Trim(a.request.key), a.scope.value;
      var existing := FindDecision(decisions, actor, key);
      if existing.Some? && existing.value.reference in series {
        var s := series[existing.value.reference];
        if !ExactRetry(existing.value, s, a, scope) { return Conflict; }
        return Replayed(Receipt(reference, a.request.expectedVersion, a.request.action, s.status, existing.value.at,
                                true));
      }
      if !Open(Contents(), a, scope, now) { return NotFound; }
      if series[reference].version != a.request.expectedVersion || series[reference].status != Pending {
        return Conflict;
      }
      if existing.Some? || KeyInUse(events, ByUser(actor, key)) { return Unavailable; }
      var status := StatusOf(a.request.action);
      decisions := decisions + [Decision(reference, a.request.expectedVersion, actor, a.request.action,
                                         a.request.reasonCode,
                                         a.request.note, a.request.affirmation, key, now)];
      events := events + [Event(reference, a.request.expectedVersion, Outcome(status), ByUser(actor, key), now)];
      series := series[reference := series[reference].(status := status)];
      r := Recorded(Receipt(reference, a.request.expectedVersion, a.request.action, status, now, false));
    }
  }

  // ---- runs ----------------------------------------------------------------------------------------------

  datatype Step =
    | Decide(attempt: Attempt)
    | Read(visit: string, due: seq<string>)
    | Publish(reference: string, publishedVisit: string, scope: Scope, actor: string, key: string)
    | Revise(reference: string, expectedVersion: nat, actor: string, supersededKey: string, publishedKey: string)
    | Withdraw(reference: string, eventKey: EventKey)

  /** A transaction and the clock reading it runs at; the clock may do anything. */
  datatype Timed = Timed(now: int, step: Step)

  const EMPTY := Tables(map[], [], [])

  function Next(t: Tables, timed: Timed): Tables
  {
    match timed.step
    case Decide(attempt) => DecideStep(t, attempt, timed.now).0
    case Read(visit, due) => Reconcile(t, visit, timed.now, due)
    case Publish(reference, visit, scope, actor, key) => PublishStep(t, reference, visit, scope, actor, key, timed.now)
    case Revise(reference, version, actor, supersededKey, publishedKey) =>
      ReviseStep(t, reference, version, actor, supersededKey, publishedKey, timed.now)
    case Withdraw(reference, key) => WithdrawStep(t, reference, key, timed.now)
  }

  function Run(t: Tables, steps: seq<Timed>): Tables
  {
    if steps == [] then t else Next(Run(t, steps[..|steps| - 1]), steps[|steps| - 1])
  }

  // ---- the history of a version ------------------------------------------------------------------------------

  function EventsOf(events: seq<Event>, reference: string, version: nat): seq<Event>
  {
    if events == [] then []
    else
      var last := events[|events| - 1];
      EventsOf(events[..|events| - 1], reference, version)
      + (if last.reference == reference && last.version == version then [last] else [])
  }

  function DecisionsOf(decisions: seq<Decision>, reference: string, version: nat): seq<Decision>
  {
    if decisions == [] then []
    else
      var last := decisions[|decisions| - 1];
      DecisionsOf(decisions[..|decisions| - 1], reference, version)
      + (if last.reference == reference && last.version == version then [last] else [])
  }

  /** An approval closes a version as approved, a refusal as declined, and a request for revision as
      that; nothing else does. */
  predicate Means(action: string, status: Status)
  {
    && status in {Approved, Declined, RevisionRequested}
    && (status == Approved <==> action == "approve")
    && (status == Declined <==> action == "decline")
    && (status == RevisionRequested <==> action == "request_revision")
  }

  lemma ValidActionMeans(r: Request)
    requires ValidRequest(r)
    ensures Means(r.action, StatusOf(r.action))
  {
  }

  /** How a version was closed, and the decision behind it: exactly one of the same kind, by the
      same user under the same key at the same time before the expiry, for a customer's outcome;
      none for the others, and an expiry no earlier than the publication says. */
  predicate ClosedBy(e: Event, status: Status, decisions: seq<Decision>, expiry: int)
  {
    e.kind == Outcome(status)
    && match status
       case Pending => false
       case Expired => decisions == [] && e.at >= expiry
       case Withdrawn => decisions == []
       case _ =>
         |decisions| == 1 && Means(decisions[0].action, status)
         && e.key == ByUser(decisions[0].actor, decisions[0].key) && e.at == decisions[0].at < expiry
  }

  /** The whole history of version `v` of a series. */
  predicate VersionHistory(s: Series, v: nat, events: seq<Event>, decisions: seq<Decision>)
  {
    if v < 1 || v > s.version then events == [] && decisions == []
    else
      && |events| >= 1 && events[0].kind == Published && ExpiryOf(s, v) == events[0].at + 604_800
      && if v == s.version then
           if s.status == Pending then |events| == 1 && decisions == []
           else |events| == 2 && ClosedBy(events[1], s.status, decisions, ExpiryOf(s, v))
         else
           && events[|events| - 1].kind == Superseded
           && ((|events| == 2 && decisions == [])
               || (|events| == 3 && ClosedBy(events[1], RevisionRequested, decisions, ExpiryOf(s, v))))
  }

  predicate HistoryFits(t: Tables, reference: string, v: nat)
  {
    var events, decisions := EventsOf(t.events, reference, v), DecisionsOf(t.decisions, reference, v);
    if reference in t.series then VersionHistory(t.series[reference], v, events, decisions)
    else events == [] && decisions == []
  }

  ghost predicate Invariant(t: Tables)
  {
    && (forall reference, v: nat :: HistoryFits(t, reference, v))
    && (forall reference :: reference in t.series ==>
        1 <= t.series[reference].version == |t.series[reference].expiries|)
    && (forall e :: e in t.events && e.key.ByExpiry? ==>
          e.reference == e.key.reference && e.version == e.key.version && e.kind == Outcome(Expired))
  }

  lemma EventAppended(events: seq<Event>, e: Event, reference: string, v: nat)
    ensures EventsOf(events + [e], reference, v)
         == EventsOf(events, reference, v) + (if e.reference == reference && e.version == v then [e] else [])
  {
    assert (events + [e])[..|events + [e]| - 1] == events;
  }

  lemma DecisionAppended(decisions: seq<Decision>, d: Decision, reference: string, v: nat)
    ensures DecisionsOf(decisions + [d], reference, v)
         == DecisionsOf(decisions, reference, v) + (if d.reference == reference && d.version == v then [d] else [])
  {
    assert (decisions + [d])[..|decisions + [d]| - 1] == decisions;
  }

  lemma {:induction false} EventIsListed(events: seq<Event>, e: Event)
    requires e in events
    ensures e in EventsOf(events, e.reference, e.version)
  {
    var n := |events| - 1;
    if events[n] != e {
      assert e in events[..n];
      EventIsListed(events[..n], e);
    }
  }

  /** A pending version's expiry key is free: only its own expiry would use it. */
  lemma ExpiryKeyIsFree(t: Tables, reference: string)
    requires Invariant(t) && reference in t.series && t.series[reference].status == Pending
    ensures !KeyInUse(t.events, ByExpiry(reference, t.series[reference].version))
  {
    var v := t.series[reference].version;
    assert HistoryFits(t, reference, v);
    forall e | e in t.events ensures e.key != ByExpiry(reference, v) {
      if e.reference == reference && e.version == v {
        EventIsListed(t.events, e);
      }
    }
  }

  /** The current pending version is closed by one event and perhaps one decision. */
  ghost predicate Closing(t: Tables, next: Tables, reference: string, status: Status, e: Event, ds: seq<Decision>)
  {
    && reference in t.series && t.series[reference].status == Pending
    && next.series == t.series[reference := t.series[reference].(status := status)]
    && next.events == t.events + [e]
    && e.reference == reference && e.version == t.series[reference].version
    && (e.key.ByExpiry? ==> e.key == ByExpiry(reference, e.version) && status == Expired)
    && (ds == [] || (|ds| == 1 && ds[0].reference == reference && ds[0].version == e.version))
    && next.decisions == t.decisions + ds
    && ClosedBy(e, status, ds, ExpiryOf(t.series[reference], e.version))
  }

  lemma DecisionsAppended(decisions: seq<Decision>, ds: seq<Decision>, reference: string, version: nat, other: string,
                          v: nat)
    requires ds == [] || (|ds| == 1 && ds[0].reference == reference && ds[0].version == version)
    ensures DecisionsOf(decisions + ds, other, v)
         == DecisionsOf(decisions, other, v) + (if other == reference && v == version then ds else [])
  {
    if ds == [] {
      assert decisions + ds == decisions;
    } else {
      assert ds == [ds[0]];
      DecisionAppended(decisions, ds[0], other, v);
    }
  }

  lemma HistoryClosed(s: Series, status: Status, e: Event, ds: seq<Decision>, es: seq<Event>, earlier: seq<Decision>)
    requires s.version >= 1 && s.status == Pending && VersionHistory(s, s.version, es, earlier)
    requires ClosedBy(e, status, ds, ExpiryOf(s, s.version))
    ensures VersionHistory(s.(status := status), s.version, es + [e], earlier + ds)
  {
    assert earlier + ds == ds;
  }

  lemma ClosedHistory(t: Tables, next: Tables, reference: string, status: Status, e: Event, ds: seq<Decision>,
                      other: string, v: nat)
    requires Closing(t, next, reference, status, e, ds) && HistoryFits(t, other, v) && t.series[reference].version >= 1
    ensures HistoryFits(next, other, v)
  {
    var es, earlier := EventsOf(t.events, other, v), DecisionsOf(t.decisions, other, v);
    EventAppended(t.events, e, other, v);
    DecisionsAppended(t.decisions, ds, reference, e.version, other, v);
    if other == reference && v == e.version {
      HistoryClosed(t.series[reference], status, e, ds, es, earlier);
    } else {
      assert EventsOf(next.events, other, v) == es && DecisionsOf(next.decisions, other, v) == earlier;
    }
  }

  lemma ClosingKeepsInvariant(t: Tables, next: Tables, reference: string, status: Status, e: Event, ds: seq<Decision>)
    requires Invariant(t) && Closing(t, next, reference, status, e, ds)
    ensures Invariant(next)
  {
    forall other, v: nat ensures HistoryFits(next, other, v) {
      assert HistoryFits(t, other, v);
      ClosedHistory(t, next, reference, status, e, ds, other, v);
    }
  }

  lemma ExpireKeepsInvariant(t: Tables, reference: string, visit: string, now: int)
    requires Invariant(t) && Due(t.series, reference, visit, now)
    ensures Invariant(ExpireOne(t, reference, now))
  {
    ExpiryKeyIsFree(t, reference);
    var next := ExpireOne(t, reference, now);
    var v := t.series[reference].version;
    assert next.decisions == t.decisions + [];
    ClosingKeepsInvariant(t, next, reference, Expired,
                          Event(reference, v, Outcome(Expired), ByExpiry(reference, v), now), []);
  }

  lemma {:induction false} ReconcileKeepsInvariant(t: Tables, visit: string, now: int, due: seq<string>)
    requires Invariant(t)
    ensures Invariant(Reconcile(t, visit, now, due))
  {
    if due != [] {
      var earlier := Reconcile(t, visit, now, due[..|due| - 1]);
      ReconcileKeepsInvariant(t, visit, now, due[..|due| - 1]);
      if Due(earlier.series, due[|due| - 1], visit, now) {
        ExpireKeepsInvariant(earlier, due[|due| - 1], visit, now);
      }
    }
  }

  lemma RecordKeepsInvariant(t: Tables, a: Attempt, scope: Scope, now: int)
    requires Invariant(t) && Open(t, a, scope, now) && ValidRequest(a.request)
    requires t.series[Trim(a.reference)].version == a.request.expectedVersion
        && t.series[Trim(a.reference)].status == Pending
    ensures Invariant(RecordStep(t, a, now))
  {
    var next := RecordStep(t, a, now);
    var d, e := next.decisions[|t.decisions|], next.events[|t.events|];
    ValidActionMeans(a.request);
    ClosingKeepsInvariant(t, next, Trim(a.reference), StatusOf(a.request.action), e, [d]);
  }

  lemma PublishKeepsInvariant(t: Tables, reference: string, visit: string, scope: Scope, actor: string, key: string,
                              now: int)
    requires Invariant(t)
    ensures Invariant(PublishStep(t, reference, visit, scope, actor, key, now))
  {
    var next := PublishStep(t, reference, visit, scope, actor, key, now);
    if next != t {
      forall other, v: nat ensures HistoryFits(next, other, v) {
        EventAppended(t.events, Event(reference, 1, Published, ByUser(actor, key), now), other, v);
        assert HistoryFits(t, other, v);
      }
    }
  }

  function Revised(s: Series, expiry: int): Series
  {
    s.(version := s.version + 1, status := Pending, expiries := s.expiries + [expiry])
  }

  lemma ExpiryOfRevised(s: Series, expiry: int, v: nat)
    requires s.version == |s.expiries|
    ensures v <= s.version ==> ExpiryOf(Revised(s, expiry), v) == ExpiryOf(s, v)
    ensures ExpiryOf(Revised(s, expiry), s.version + 1) == expiry
  {
  }

  /** What a revision makes of each version's history: the current one is superseded, a new one
      begins, the others stay. */
  lemma HistoryRevised(s: Series, expiry: int, v: nat, es: seq<Event>, ds: seq<Decision>, superseded: Event,
                       published: Event)
    requires 1 <= s.version == |s.expiries| && s.status in {Pending, RevisionRequested} && VersionHistory(s, v, es, ds)
    requires superseded.kind == Superseded && published.kind == Published && expiry == published.at + 604_800
    ensures var more := if v == s.version then [superseded] else if v == s.version + 1 then [published] else [];
      VersionHistory(Revised(s, expiry), v, es + more, ds)
  {
    ExpiryOfRevised(s, expiry, v);
    if v != s.version && v != s.version + 1 {
      assert es + [] == es;
    }
  }

  lemma EventsAfterRevision(events: seq<Event>, superseded: Event, published: Event, reference: string, v: nat,
                            other: string)
    requires superseded.reference == published.reference == reference && published.version == superseded.version + 1
    ensures EventsOf(events + [superseded] + [published], other, v)
         == EventsOf(events, other, v)
            + if other != reference then [] else if v == superseded.version then [superseded]
              else if v == superseded.version + 1 then [published] else []
  {
    EventAppended(events, superseded, other, v);
    EventAppended(events + [superseded], published, other, v);
  }

  lemma RevisedHistory(t: Tables, next: Tables, reference: string, superseded: Event, published: Event, other: string,
                       v: nat)
    requires reference in t.series && t.series[reference].status in {Pending, RevisionRequested}
    requires 1 <= t.series[reference].version == |t.series[reference].expiries|
    requires superseded.reference == reference && superseded.version == t.series[reference].version
        && superseded.kind == Superseded
    requires published.reference == reference && published.version == superseded.version + 1
        && published.kind == Published
    requires next.events == t.events + [superseded] + [published] && next.decisions == t.decisions
    requires next.series == t.series[reference := Revised(t.series[reference], published.at + 604_800)]
    requires HistoryFits(t, other, v)
    ensures HistoryFits(next, other, v)
  {
    EventsAfterRevision(t.events, superseded, published, reference, v, other);
    if other == reference {
      HistoryRevised(t.series[reference], published.at + 604_800, v, EventsOf(t.events, other, v),
                     DecisionsOf(t.decisions, other, v), superseded, published);
    } else {
      assert EventsOf(t.events, other, v) + [] == EventsOf(t.events, other, v);
    }
  }

  lemma ReviseKeepsInvariant(t: Tables, reference: string, version: nat, actor: string, supersededKey: string,
                             publishedKey: string, now: int)
    requires Invariant(t)
    ensures Invariant(ReviseStep(t, reference, version, actor, supersededKey, publishedKey, now))
  {
    var next := ReviseStep(t, reference, version, actor, supersededKey, publishedKey, now);
    if next != t {
      var superseded := Event(reference, version, Superseded, ByUser(actor, supersededKey), now);
      var published := Event(reference, version + 1, Published, ByUser(actor, publishedKey), now);
      forall other, v: nat ensures HistoryFits(next, other, v) {
        assert HistoryFits(t, other, v);
        RevisedHistory(t, next, reference, superseded, published, other, v);
      }
    }
  }

  lemma WithdrawKeepsInvariant(t: Tables, reference: string, key: EventKey, now: int)
    requires Invariant(t)
    ensures Invariant(WithdrawStep(t, reference, key, now))
  {
    var next := WithdrawStep(t, reference, key, now);
    if next != t {
      assert next.decisions == t.decisions + [];
      ClosingKeepsInvariant(t, next, reference, Withdrawn, next.events[|t.events|], []);
    }
  }

  lemma DecideKeepsInvariant(t: Tables, a: Attempt, now: int)
    requires Invariant(t)
    ensures Invariant(DecideStep(t, a, now).0)
  {
    if DecideStep(t, a, now).1.Recorded? {
      var r := Reconcile(t, Trim(a.visit), now, a.due);
      ReconcileKeepsInvariant(t, Trim(a.visit), now, a.due);
      RecordKeepsInvariant(r, a, a.scope.value, now);
    } else {
      OnlyRecordedChanges(t, a, now);
    }
  }

  lemma OnlyRecordedChanges(t: Tables, a: Attempt, now: int)
    ensures var (next, answer) := DecideStep(t, a, now);
      if answer.Recorded? then
        var r := Reconcile(t, Trim(a.visit), now, a.due);
        Trim(a.reference) in r.series && next == RecordStep(r, a, now)
      else next == t
  {
  }

  lemma NextKeepsInvariant(t: Tables, timed: Timed)
    requires Invariant(t)
    ensures Invariant(Next(t, timed))
  {
    match timed.step
    case Decide(attempt) => DecideKeepsInvariant(t, attempt, timed.now);
    case Read(visit, due) => ReconcileKeepsInvariant(t, visit, timed.now, due);
    case Publish(reference, visit, scope, actor, key) =>
        PublishKeepsInvariant(t, reference, visit, scope, actor, key, timed.now);
    case Revise(reference, version, actor, supersededKey, publishedKey) =>
      ReviseKeepsInvariant(t, reference, version, actor, supersededKey, publishedKey, timed.now);
    case Withdraw(reference, key) => WithdrawKeepsInvariant(t, reference, key, timed.now);
  }

  lemma {:induction false} RunKeepsInvariant(t: Tables, steps: seq<Timed>)
    requires Invariant(t)
    ensures Invariant(Run(t, steps))
  {
    if steps != [] {
      RunKeepsInvariant(t, steps[..|steps| - 1]);
      NextKeepsInvariant(Run(t, steps[..|steps| - 1]), steps[|steps| - 1]);
    }
  }

  // ---- the main results --------------------------------------------------------------------------------------

  predicate CustomerOutcome(kind: EventKind)
  {
    kind.Outcome? && kind.status in {Approved, Declined, RevisionRequested}
  }

  lemma EmptyFits()
    ensures Invariant(EMPTY)
  {
  }

  /** At most one outcome, at most one decision, and the decision exactly behind a customer's
      outcome: of its kind, by the same user under the same key at the same time. */
  predicate OneOutcome(es: seq<Event>, ds: seq<Decision>)
  {
    && |ds| <= 1
    && (forall i, j :: 0 <= i < j < |es| && es[i].kind.Outcome? ==> !es[j].kind.Outcome?)
    && (|ds| == 1 <==> exists i :: 0 <= i < |es| && CustomerOutcome(es[i].kind))
    && (forall i :: 0 <= i < |es| && CustomerOutcome(es[i].kind) && |ds| == 1 ==>
          Means(ds[0].action, es[i].kind.status) && es[i].key == ByUser(ds[0].actor, ds[0].key)
          && es[i].at == ds[0].at)
  }

  lemma HistoryHasOneOutcome(s: Series, v: nat, es: seq<Event>, ds: seq<Decision>)
    requires VersionHistory(s, v, es, ds)
    ensures OneOutcome(es, ds)
    ensures v == s.version >= 1 ==> (s.status == Pending <==> forall i :: 0 <= i < |es| ==> !es[i].kind.Outcome?)
  {
    if |ds| == 1 {
      assert CustomerOutcome(es[1].kind);
    }
    if v == s.version >= 1 && s.status != Pending {
      assert es[1].kind.Outcome?;
    }
  }

  /** In every run each version has at most one outcome and at most one decision, and a current
      version is pending exactly when it has none. */
  lemma VersionIsClosedOnce(steps: seq<Timed>, reference: string, v: nat)
    ensures var t := Run(EMPTY, steps);
      var es, ds := EventsOf(t.events, reference, v), DecisionsOf(t.decisions, reference, v);
      && OneOutcome(es, ds)
      && (reference in t.series && v == t.series[reference].version ==>
            (t.series[reference].status == Pending <==> forall i :: 0 <= i < |es| ==> !es[i].kind.Outcome?))
  {
    EmptyFits();
    RunKeepsInvariant(EMPTY, steps);
    var t := Run(EMPTY, steps);
    assert HistoryFits(t, reference, v);
    if reference in t.series {
      HistoryHasOneOutcome(t.series[reference], v, EventsOf(t.events, reference, v),
                           DecisionsOf(t.decisions, reference, v));
    }
  }

  lemma {:induction false} DecisionIsListed(decisions: seq<Decision>, d: Decision)
    requires d in decisions
    ensures d in DecisionsOf(decisions, d.reference, d.version)
  {
    var n := |decisions| - 1;
    if decisions[n] != d {
      assert d in decisions[..n];
      DecisionIsListed(decisions[..n], d);
    }
  }

  /** In every run every decision is about a published version and was made before it expired, a week
      after its publication. */
  lemma DecidedBeforeExpiry(steps: seq<Timed>, d: Decision)
    requires d in Run(EMPTY, steps).decisions
    ensures var t := Run(EMPTY, steps); var es := EventsOf(t.events, d.reference, d.version);
      && d.reference in t.series && 1 <= d.version <= t.series[d.reference].version
      && d.at < ExpiryOf(t.series[d.reference], d.version)
      && |es| >= 1 && es[0].kind == Published && d.at < es[0].at + 7 * 24 * 60 * 60
  {
    EmptyFits();
    RunKeepsInvariant(EMPTY, steps);
    var t := Run(EMPTY, steps);
    DecisionIsListed(t.decisions, d);
    assert HistoryFits(t, d.reference, d.version);
    HistoryOfDecision(t.series[d.reference], d.version, EventsOf(t.events, d.reference, d.version),
                      DecisionsOf(t.decisions, d.reference, d.version), d);
  }

  lemma HistoryOfDecision(s: Series, v: nat, es: seq<Event>, ds: seq<Decision>, d: Decision)
    requires VersionHistory(s, v, es, ds) && d in ds
    ensures 1 <= v <= s.version && d.at < ExpiryOf(s, v) == es[0].at + 604_800 && es[0].kind == Published
    ensures if v == s.version then Means(d.action, s.status) else d.action == "request_revision"
  {
    assert |ds| == 1 && d == ds[0];
  }

  lemma {:induction false} ReconcileExpiresOnlyDue(t: Tables, visit: string, now: int, due: seq<string>,
                                                   reference: string)
    requires reference in t.series
    ensures Reconcile(t, visit, now, due).series[reference]
         == if reference in due && Due(t.series, reference, visit, now) then t.series[reference].(status := Expired)
            else t.series[reference]
  {
    if due != [] {
      var n := |due| - 1;
      assert due == due[..n] + [due[n]];
      ReconcileExpiresOnlyDue(t, visit, now, due[..n], reference);
    }
  }

  /** Pending on this visit, with a current publication whose time has come. */
  predicate Overdue(s: Series, visit: string, now: int)
  {
    s.visit == visit && s.status == Pending && 1 <= s.version <= |s.expiries| && now >= s.expiries[s.version - 1]
  }

  /** A committed read leaves nothing due on its visit and changes no other series. */
  lemma ReadExpiresTheDue(t: Tables, visit: string, now: int, due: seq<string>, reference: string)
    requires forall other :: other in t.series && Overdue(t.series[other], visit, now) ==> other in due
    ensures var next := Reconcile(t, visit, now, due).series;
      && next.Keys == t.series.Keys
      && (reference in t.series ==>
            && !Overdue(next[reference], visit, now)
            && next[reference]
               == if Overdue(t.series[reference], visit, now) then t.series[reference].(status := Expired)
                  else t.series[reference])
  {
    if reference in t.series {
      ReconcileExpiresOnlyDue(t, visit, now, due, reference);
    }
  }

  // ---- when a decision is recorded ---------------------------------------------------------------------------

  predicate KeyLetter(c: char)
  {
    'A' <= c <= 'Z' || 'a' <= c <= 'z' || '0' <= c <= '9' || c == '_' || c == '-'
  }

  /** Absent, or of this length when trimmed. */
  predicate Fits(value: Option<string>, maximum: nat)
  {
    value.Some? ==> Trim(value.value) != "" && |Trim(value.value)| <= maximum
  }

  lemma KeyIsSpelledIff(key: string)
    ensures (forall c :: c in key ==>
               ('a' <= c <= 'z' || 'A' <= c <= 'Z' || '0' <= c <= '9' || c == '-' || c == '_'))
       <==> forall i :: 0 <= i < |key| ==> KeyLetter(key[i])
  {
    if forall i :: 0 <= i < |key| ==> KeyLetter(key[i]) {
      forall c | c in key ensures KeyLetter(c) {
        var i :| 0 <= i < |key| && key[i] == c;
      }
    } else {
      var i :| 0 <= i < |key| && !KeyLetter(key[i]);
      assert key[i] in key;
    }
  }

  /** The three decisions and what each must bring: an approval an affirmation, a request for revision a
      note, and no other an affirmation. */
  lemma WellFormedIff(r: Request)
    ensures ValidRequest(r) <==>
      && 1 <= r.expectedVersion <= 0x7FFF_FFFF_FFFF_FFFE && 8 <= |Trim(r.key)| <= 128
      && (forall i :: 0 <= i < |r.key| ==> KeyLetter(r.key[i]))
      && Fits(r.reasonCode, 80) && Fits(r.note, 2000) && Fits(r.affirmation, 120)
      && r.action in ["approve", "decline", "request_revision"]
      && (r.affirmation.Some? <==> r.action == "approve") && (r.action == "request_revision" ==> r.note.Some?)
  {
    KeyIsSpelledIff(r.key);
  }

  lemma {:induction false} ReconcileKeepsUserKeys(t: Tables, visit: string, now: int, due: seq<string>, actor: string,
                                                  key: string)
    ensures KeyInUse(Reconcile(t, visit, now, due).events, ByUser(actor, key))
       <==> KeyInUse(t.events, ByUser(actor, key))
  {
    if due != [] {
      var n := |due| - 1;
      var earlier := Reconcile(t, visit, now, due[..n]);
      ReconcileKeepsUserKeys(t, visit, now, due[..n], actor, key);
      if Due(earlier.series, due[n], visit, now) {
        ExpiryTakesNoUserKey(earlier, due[n], now, actor, key);
      }
    }
  }

  lemma ExpiryTakesNoUserKey(t: Tables, reference: string, now: int, actor: string, key: string)
    requires reference in t.series
    ensures KeyInUse(ExpireOne(t, reference, now).events, ByUser(actor, key))
       <==> KeyInUse(t.events, ByUser(actor, key))
  {
    var next := ExpireOne(t, reference, now).events;
    if KeyInUse(t.events, ByUser(actor, key)) {
      var e :| e in t.events && e.key == ByUser(actor, key);
      assert e in next;
    }
  }

  /** The customer finds the recommendation: it is on this visit, and its current publication has not
      expired. */
  predicate Shown(t: Tables, a: Attempt, now: int)
    requires a.scope.Some?
  {
    var reference := Trim(a.reference);
    && reference in t.series
    && var s := t.series[reference];
    && s.visit == Trim(a.visit) && s.scope == a.scope.value
    && 1 <= s.version <= |s.expiries| && now < s.expiries[s.version - 1]
  }

  predicate Decidable(t: Tables, a: Attempt, now: int)
    requires a.scope.Some?
  {
    && Shown(t, a, now)
    && t.series[Trim(a.reference)].status == Pending
    && t.series[Trim(a.reference)].version == a.request.expectedVersion
  }

  /** An admitted decision under an unused key is not found unless its recommendation is on the visit
      and has not expired, in conflict unless it is pending in the expected version, and then recorded,
      unless an event of another kind has the key. */
  lemma RecordedIff(t: Tables, a: Attempt, now: int)
    requires Admitted(a)
    requires forall d :: d in t.decisions ==> !(d.actor == Trim(a.actor) && d.key == Trim(a.request.key))
    ensures var r := DecideStep(t, a, now).1;
      if !Shown(t, a, now) then r == NotFound
      else if !Decidable(t, a, now) then r == Conflict
      else if exists e :: e in t.events && e.key == ByUser(Trim(a.actor), Trim(a.request.key)) then r == Unavailable
      else r.Recorded?
  {
    var r := Reconcile(t, Trim(a.visit), now, a.due);
    ReconcileKeepsUserKeys(t, Trim(a.visit), now, a.due, Trim(a.actor), Trim(a.request.key));
    ReconcileKeepsShown(t, a, now);
    DecidedOnReconciled(t, r, a, now);
  }

  /** Expiring what is due takes nothing from what a customer could still decide. */
  lemma ReconcileKeepsShown(t: Tables, a: Attempt, now: int)
    requires a.scope.Some?
    ensures var r := Reconcile(t, Trim(a.visit), now, a.due);
      (Shown(r, a, now) <==> Shown(t, a, now)) && (Decidable(r, a, now) <==> Decidable(t, a, now))
  {
    if Trim(a.reference) in t.series {
      ReconcileExpiresOnlyDue(t, Trim(a.visit), now, a.due, Trim(a.reference));
    }
  }

  lemma DecidedOnReconciled(t: Tables, r: Tables, a: Attempt, now: int)
    requires a.scope.Some? && FindDecision(r.decisions, Trim(a.actor), Trim(a.request.key)).None?
    ensures var answer := DecideOn(t, r, a, a.scope.value, now).1;
      if !Shown(r, a, now) then answer == NotFound
      else if !Decidable(r, a, now) then answer == Conflict
      else if KeyInUse(r.events, ByUser(Trim(a.actor), Trim(a.request.key))) then answer == Unavailable
      else answer.Recorded?
  {
  }

  /** What is answered to a well-formed request that is not let through. */
  lemma AuthorityAnswers(t: Tables, a: Attempt, now: int)
    ensures var r := DecideStep(t, a, now).1;
      && (!ValidRequest(a.request) ==> r == Conflict)
      && (r == Unauthorized <==> ValidRequest(a.request) && (Trim(a.actor) == "" || a.authorization == NotAuthorized))
      && (r == InvalidAuthorization <==> ValidRequest(a.request) && Trim(a.actor) != "" && a.authorization == Invalid)
      && (ValidRequest(a.request) && Trim(a.actor) != "" && a.authorization == Valid && a.scope.None? ==> r == NotFound)
  {
  }

  /** A recorded decision: one more row that repeats the request, one more event of its kind, and the
      series in the status it asks for, which is also the one on the receipt. */
  lemma RecordedDecision(t: Tables, a: Attempt, now: int)
    requires DecideStep(t, a, now).1.Recorded?
    ensures var (next, r) := DecideStep(t, a, now); var reference := Trim(a.reference);
      && reference in next.series && Means(a.request.action, next.series[reference].status)
      && next.series[reference].status == r.receipt.status
      && next.decisions == t.decisions + [DecisionOf(a, now)]
      && |next.events| > 0 && var e := next.events[|next.events| - 1];
      && e.reference == reference && e.version == a.request.expectedVersion && e.kind == Outcome(r.receipt.status)
      && e.key == ByUser(Trim(a.actor), Trim(a.request.key)) && e.at == now
  {
    ValidActionMeans(a.request);
    OnlyRecordedChanges(t, a, now);
  }

  // ---- replay ------------------------------------------------------------------------------------------------

  predicate SameRetry(a: Attempt, b: Attempt)
  {
    && Trim(a.reference) == Trim(b.reference) && Trim(a.visit) == Trim(b.visit) && a.scope == b.scope
    && a.request.expectedVersion == b.request.expectedVersion && a.request.action == b.request.action
    && a.request.reasonCode == b.request.reasonCode && a.request.note == b.request.note
    && a.request.affirmation == b.request.affirmation
  }

  predicate SameKey(a: Attempt, b: Attempt)
  {
    Trim(a.actor) == Trim(b.actor) && Trim(a.request.key) == Trim(b.request.key)
  }

  predicate Admitted(a: Attempt)
  {
    ValidRequest(a.request) && Trim(a.actor) != "" && a.authorization == Valid && a.scope.Some?
  }

  /** The decision stays the one found under its key, and its series keeps its identity. */
  predicate Remembers(t: Tables, d: Decision, visit: string, scope: Scope)
  {
    FindDecision(t.decisions, d.actor, d.key) == Some(d)
    && d.reference in t.series && t.series[d.reference].visit == visit && t.series[d.reference].scope == scope
  }

  lemma {:induction false} ReconcileRemembers(t: Tables, visit: string, now: int, due: seq<string>, d: Decision,
                                              dVisit: string, scope: Scope)
    requires Remembers(t, d, dVisit, scope)
    ensures Remembers(Reconcile(t, visit, now, due), d, dVisit, scope)
  {
    ReconcileExpiresOnlyDue(t, visit, now, due, d.reference);
  }

  lemma RecordRemembers(r: Tables, a: Attempt, now: int, d: Decision, visit: string, scope: Scope)
    requires Remembers(r, d, visit, scope) && Trim(a.reference) in r.series
    ensures Remembers(RecordStep(r, a, now), d, visit, scope)
  {
    var next := RecordStep(r, a, now);
    assert next.decisions[..|next.decisions| - 1] == r.decisions;
  }

  lemma DecideRemembers(t: Tables, a: Attempt, now: int, d: Decision, visit: string, scope: Scope)
    requires Remembers(t, d, visit, scope)
    ensures Remembers(DecideStep(t, a, now).0, d, visit, scope)
  {
    OnlyRecordedChanges(t, a, now);
    if DecideStep(t, a, now).1.Recorded? {
      ReconcileRemembers(t, Trim(a.visit), now, a.due, d, visit, scope);
      RecordRemembers(Reconcile(t, Trim(a.visit), now, a.due), a, now, d, visit, scope);
    }
  }

  lemma NextRemembers(t: Tables, timed: Timed, d: Decision, visit: string, scope: Scope)
    requires Remembers(t, d, visit, scope)
    ensures Remembers(Next(t, timed), d, visit, scope)
  {
    match timed.step
    case Decide(attempt) => DecideRemembers(t, attempt, timed.now, d, visit, scope);
    case Read(readVisit, due) => ReconcileRemembers(t, readVisit, timed.now, due, d, visit, scope);
    case _ =>
  }

  lemma {:induction false} RunRemembers(t: Tables, steps: seq<Timed>, d: Decision, visit: string, scope: Scope)
    requires Remembers(t, d, visit, scope)
    ensures Remembers(Run(t, steps), d, visit, scope)
  {
    if steps != [] {
      RunRemembers(t, steps[..|steps| - 1], d, visit, scope);
      NextRemembers(Run(t, steps[..|steps| - 1]), steps[|steps| - 1], d, visit, scope);
    }
  }

  function DecisionOf(a: Attempt, at: int): Decision
  {
    Decision(Trim(a.reference), a.request.expectedVersion, Trim(a.actor), a.request.action, a.request.reasonCode,
             a.request.note, a.request.affirmation, Trim(a.request.key), at)
  }

  lemma RecordedIsRemembered(t: Tables, a: Attempt, at: int)
    requires DecideStep(t, a, at).1.Recorded?
    ensures Admitted(a) && Remembers(DecideStep(t, a, at).0, DecisionOf(a, at), Trim(a.visit), a.scope.value)
    ensures var receipt := DecideStep(t, a, at).1.receipt;
      && Means(a.request.action, receipt.status)
      && receipt == Receipt(Trim(a.reference), a.request.expectedVersion, a.request.action, receipt.status, at, false)
  {
    ValidActionMeans(a.request);
    var r := Reconcile(t, Trim(a.visit), at, a.due);
    var next := RecordStep(r, a, at);
    assert DecideStep(t, a, at).0 == next;
    assert next.decisions[..|next.decisions| - 1] == r.decisions;
  }

  /** What a remembered decision answers to another attempt under its key. */
  lemma RetryAnswer(t: Tables, b: Attempt, now: int, d: Decision, visit: string, scope: Scope)
    requires Remembers(t, d, visit, scope) && d.actor == Trim(b.actor) && d.key == Trim(b.request.key)
    ensures var (next, r) := DecideStep(t, b, now);
      && next == t
      && (Admitted(b) ==>
            var s := Reconcile(t, Trim(b.visit), now, b.due).series[d.reference];
            r == if ExactRetry(d, s, b, b.scope.value)
                 then Replayed(Receipt(d.reference, d.version, d.action, s.status, d.at, true)) else Conflict)
      && (!Admitted(b) ==> !r.Replayed? && !r.Recorded?)
  {
    if Admitted(b) {
      ReconcileRemembers(t, Trim(b.visit), now, b.due, d, visit, scope);
    }
  }

  /** Decisions are idempotent across runs. Once an attempt was recorded, after any further steps
      every attempt of that actor under that key changes nothing; it is replayed, with the recorded
      reference, version, action and time, exactly when it is admitted and the same request, and an
      admitted different request is a conflict. */
  lemma DecisionsAreIdempotent(t: Tables, a: Attempt, at: int, steps: seq<Timed>, b: Attempt, now: int)
    requires DecideStep(t, a, at).1.Recorded? && SameKey(a, b)
    ensures var recorded, later := DecideStep(t, a, at).1.receipt, Run(DecideStep(t, a, at).0, steps);
      var (next, r) := DecideStep(later, b, now);
      && next == later
      && (r.Replayed? <==> Admitted(b) && SameRetry(a, b))
      && (r.Replayed? ==> r.receipt == recorded.(status := r.receipt.status, replayed := true))
      && (Admitted(b) && !SameRetry(a, b) ==> r == Conflict)
  {
    RecordedIsRemembered(t, a, at);
    var later, d := Run(DecideStep(t, a, at).0, steps), DecisionOf(a, at);
    RunRemembers(DecideStep(t, a, at).0, steps, d, Trim(a.visit), a.scope.value);
    RetryAnswer(later, b, now, d, Trim(a.visit), a.scope.value);
    ReconcileRemembers(later, Trim(b.visit), now, b.due, d, Trim(a.visit), a.scope.value);
  }

  /** The status in a replayed receipt is the series' current one, not the recorded one. The two
      agree exactly when the version decided on is still current, or the current version, too, is
      back at revision requested. */
  lemma ReplayedStatusAgreesIff(before: seq<Timed>, a: Attempt, at: int, after: seq<Timed>, b: Attempt, now: int)
    requires DecideStep(Run(EMPTY, before), a, at).1.Recorded? && SameKey(a, b)
    requires Admitted(b) && SameRetry(a, b)
    ensures var t := Run(EMPTY, before);
      var recorded, later := DecideStep(t, a, at).1.receipt, Run(DecideStep(t, a, at).0, after);
      var r := DecideStep(later, b, now).1;
      && r.Replayed? && recorded.reference in later.series
      && (r.receipt.status == recorded.status
          <==> later.series[recorded.reference].version == recorded.version
               || later.series[recorded.reference].status == RevisionRequested)
  {
    var t := Run(EMPTY, before);
    EmptyFits();
    RunKeepsInvariant(EMPTY, before);
    DecideKeepsInvariant(t, a, at);
    RecordedIsRemembered(t, a, at);
    var next, d := DecideStep(t, a, at).0, DecisionOf(a, at);
    var later := Run(next, after);
    RunKeepsInvariant(next, after);
    RunRemembers(next, after, d, Trim(a.visit), a.scope.value);
    RetryAnswer(later, b, now, d, Trim(a.visit), a.scope.value);
    ReconcileExpiresOnlyDue(later, Trim(b.visit), now, b.due, d.reference);
    DecisionClosed(later, d);
  }

  /** A decided version either is current and shows the decision, or was a revision request. */
  lemma DecisionClosed(t: Tables, d: Decision)
    requires Invariant(t) && d in t.decisions
    ensures d.reference in t.series && d.version <= t.series[d.reference].version
    ensures d.version == t.series[d.reference].version ==> Means(d.action, t.series[d.reference].status)
    ensures d.version < t.series[d.reference].version ==> d.action == "request_revision"
  {
    DecisionIsListed(t.decisions, d);
    assert HistoryFits(t, d.reference, d.version);
    HistoryOfDecision(t.series[d.reference], d.version, EventsOf(t.events, d.reference, d.version),
                      DecisionsOf(t.decisions, d.reference, d.version), d);
  }

  const HOME := Scope("o", "a", "p")
  const ASK := Attempt("u", "v", "r", Request(1, "request_revision", None, Some("n"), None, "k-000001"), Valid,
                       Some(HOME), [])

  lemma AskIsAdmitted()
    ensures Admitted(ASK) && Trim("u") == "u" && Trim("v") == "v" && Trim("r") == "r" && Trim("k-000001") == "k-000001"
  {
    TrimOfUnpadded("u");
    TrimOfUnpadded("v");
    TrimOfUnpadded("r");
    TrimOfUnpadded("n");
    TrimOfUnpadded("k-000001");
  }

  const SHOWN := Tables(map["r" := Series("v", HOME, 1, Pending, [WEEK])], [],
                        [Event("r", 1, Published, ByUser("m", "k"), 0)])

  lemma AskIsRecorded()
    ensures PublishStep(EMPTY, "r", "v", HOME, "m", "k", 0) == SHOWN
    ensures DecideStep(SHOWN, ASK, 1).1.Recorded? && DecideStep(SHOWN, ASK, 1).0 == RecordStep(SHOWN, ASK, 1)
  {
    AskIsAdmitted();
    assert Reconcile(SHOWN, "v", 1, []) == SHOWN;
    assert PublishStep(EMPTY, "r", "v", HOME, "m", "k", 0).events == SHOWN.events;
  }

  lemma AskedIsRevised()
    ensures Trim("r") == "r"
    ensures var revised := ReviseStep(RecordStep(SHOWN, ASK, 1), "r", 1, "m", "s", "p", 2);
      "r" in revised.series && revised.series["r"].status == Pending && revised.decisions == [DecisionOf(ASK, 1)]
      && revised.series["r"].visit == "v" && revised.series["r"].scope == HOME
  {
    AskIsAdmitted();
    assert SHOWN.decisions + [DecisionOf(ASK, 1)] == [DecisionOf(ASK, 1)];
    assert RecordStep(SHOWN, ASK, 1).events[1].key != ByUser("m", "s");
  }

  /** The customer asks for a revision, the provider revises, and the customer's exact retry is
      answered "pending". */
  lemma ReplayedStatusMayDiffer()
    ensures var shown := PublishStep(EMPTY, "r", "v", HOME, "m", "k", 0);
      var (asked, first) := DecideStep(shown, ASK, 1);
      var revised := ReviseStep(asked, "r", 1, "m", "s", "p", 2);
      var (_, second) := DecideStep(revised, ASK, 3);
      && first.Recorded? && first.receipt.status == RevisionRequested
      && second.Replayed? && second.receipt.status == Pending
  {
    AskIsRecorded();
    AskIsAdmitted();
    AskedIsRevised();
    RecordedIsRemembered(SHOWN, ASK, 1);
    var revised := ReviseStep(RecordStep(SHOWN, ASK, 1), "r", 1, "m", "s", "p", 2);
    RetryAnswer(revised, ASK, 3, DecisionOf(ASK, 1), "v", HOME);
  }
}
