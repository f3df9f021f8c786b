/** Customer questions and provider answers on a service visit: one append-only log shared by all
    threads, a version per thread, optimistic concurrency, and replay by idempotency key. */
module VisitThread {
  import opened Options
  import opened Sets
  import opened Text

  datatype Kind = CustomerQuestion | ProviderResponse

  datatype Message = Message(
    id: string, reference: string, version: int, kind: Kind, author: string, topic: string,
    body: string, inReplyTo: Option<string>, key: string)

  /** Each thread's `current_version`, and all messages in the order they were inserted. */
  datatype Store = Store(versions: map<string, int>, messages: seq<Message>)

  datatype Request =
    | Question(expectedVersion: int, topic: string, body: string, key: string)
    | Response(expectedVersion: int, inReplyTo: string, body: string, key: string)

  datatype Authorization = Valid | NotAuthorized | Invalid

  /** One call: who asks for what on which thread, what the authority queries answer at that moment,
      and the message id that would be generated. */
  datatype Attempt = Attempt(
    actor: string, reference: string, request: Request, authorization: Authorization, visible: bool, newId: string)

  datatype WriteResult =
    | Created(message: Message)
    | Replayed(message: Message)
    | Conflict
    | NotFound
    | Unauthorized
    | InvalidAuthorization
    | Unavailable

  // ---- validation ---------------------------------------------------------------------------------

  predicate ValidIdempotencyKey(value: string)
  {
    var key := Trim(value);
    8 <= |key| <= 128
    && forall c :: c in key ==> ('a' <= c <= 'z' || 'A' <= c <= 'Z' || '0' <= c <= '9' || c == '-' || c == '_')
  }

  predicate ValidBody(value: string)
  {
    1 <= |Trim(value)| <= 2000
  }

  predicate ValidTopic(value: string)
  {
    value in {"timing", "preparation", "access", "service_scope", "other"}
  }

  predicate ValidRequest(r: Request)
  {
    match r
    case Question(expected, topic, body, key) =>
      expected >= 0 && ValidTopic(topic) && ValidBody(body) && ValidIdempotencyKey(key)
    case Response(expected, inReplyTo, body, key) =>
      expected >= 0 && !IsBlank(inReplyTo) && ValidBody(body) && ValidIdempotencyKey(key)
  }

  predicate ValidAttempt(a: Attempt)
  {
    !IsBlank(a.actor) && !IsBlank(a.reference) && ValidRequest(a.request)
  }

  // ---- queries ------------------------------------------------------------------------------------

  /** `replay_message` */
  function FindByKey(messages: seq<Message>, author: string, key: string): (found: Option<Message>)
    ensures found.Some? ==> found.value in messages && found.value.author == author && found.value.key == key
    ensures found.None? ==> forall m :: m in messages ==> !(m.author == author && m.key == key)
  {
    if messages == [] then None
    else
      var n := |messages| - 1;
      assert messages == messages[..n] + [messages[n]];
      var earlier := FindByKey(messages[..n], author, key);
      if earlier.Some? then earlier
      else if messages[n].author == author && messages[n].key == key then Some(messages[n])
      else None
  }

  /** The question a response names, looked up in the response's own thread. */
  function FindQuestion(messages: seq<Message>, id: string, reference: string): (found: Option<Message>)
    ensures found.Some? ==> found.value in messages && found.value.id == id && found.value.reference == reference
                            && found.value.kind == CustomerQuestion
    ensures found.None? ==>
      forall m :: m in messages ==> !(m.id == id && m.reference == reference && m.kind == CustomerQuestion)
  {
    if messages == [] then None
    else
      var n := |messages| - 1;
      assert messages == messages[..n] + [messages[n]];
      var earlier := FindQuestion(messages[..n], id, reference);
      if earlier.Some? then earlier
      else if messages[n].id == id && messages[n].reference == reference && messages[n].kind == CustomerQuestion
      then Some(messages[n])
      else None
  }

  predicate AlreadyAnswered(messages: seq<Message>, id: string)
  {
    exists m :: m in messages && m.kind == ProviderResponse && m.inReplyTo == Some(id)
  }

  predicate IdInUse(messages: seq<Message>, id: string)
  {
    exists m :: m in messages && m.id == id
  }

  /** Whether the message found under the key is what this request would have written. */
  predicate ExactReplay(m: Message, reference: string, request: Request)
  {
    m.reference == reference && m.version == request.expectedVersion + 1
    && match request
       case Question(_, topic, body, _) =>
         m.kind == CustomerQuestion && m.topic == topic && m.body == Trim(body) && m.inReplyTo.None?
       case Response(_, inReplyTo, body, _) =>
         m.kind == ProviderResponse && m.body == Trim(body) && m.inReplyTo == Some(Trim(inReplyTo))
  }

  // ---- the two writes, as functions ---------------------------------------------------------------

  /** `insert_message`; a generated id already in use fails the insert and rolls back. */
  function InsertStep(s: Store, m: Message): (Store, WriteResult)
    requires m.reference in s.versions
  {
    if IdInUse(s.messages, m.id) then (s, Unavailable)
    else (Store(s.versions[m.reference := s.versions[m.reference] + 1], s.messages + [m]), Created(m))
  }

  function Replay(s: Store, actor: string, reference: string, request: Request): Option<WriteResult>
  {
    var found := FindByKey(s.messages, actor, Trim(request.key));
    if found.None? then None
    else if ExactReplay(found.value, reference, request) then Some(Replayed(found.value)) else Some(Conflict)
  }

  /** `create_customer_question`, after validation */
  function QuestionStep(s: Store, actor: string, reference: string, a: Attempt): (Store, WriteResult)
    requires a.request.Question?
  {
    if a.authorization == NotAuthorized then (s, Unauthorized)
    else if a.authorization == Invalid then (s, InvalidAuthorization)
    else if reference !in s.versions || !a.visible then (s, NotFound)
    else if Replay(s, actor, reference, a.request).Some? then (s, Replay(s, actor, reference, a.request).value)
    else if s.versions[reference] != a.request.expectedVersion then (s, Conflict)
    else
      InsertStep(s, Message(a.newId, reference, s.versions[reference] + 1, CustomerQuestion, actor, a.request.topic,
                            Trim(a.request.body), None, Trim(a.request.key)))
  }

  /** `create_provider_response`, after validation */
  function ResponseStep(s: Store, actor: string, reference: string, a: Attempt): (Store, WriteResult)
    requires a.request.Response?
  {
    if reference !in s.versions || !a.visible then (s, NotFound)
    else if Replay(s, actor, reference, a.request).Some? then (s, Replay(s, actor, reference, a.request).value)
    else if s.versions[reference] != a.request.expectedVersion then (s, Conflict)
    else
      var question := FindQuestion(s.messages, Trim(a.request.inReplyTo), reference);
      if question.None? then (s, Conflict)
      else if AlreadyAnswered(s.messages, question.value.id) then (s, Conflict)
      else
        InsertStep(s, Message(a.newId, reference, s.versions[reference] + 1, ProviderResponse, actor,
                              question.value.topic,
                              Trim(a.request.body), Some(question.value.id), Trim(a.request.key)))
  }

  function WriteStep(s: Store, a: Attempt): (Store, WriteResult)
  {
    if !ValidAttempt(a) then (s, Conflict)
    else if a.request.Question? then QuestionStep(s, Trim(a.actor), Trim(a.reference), a)
    else ResponseStep(s, Trim(a.actor), Trim(a.reference), a)
  }

  // ---- the tables, updated in place -----------------------------------------------------------------

  class ThreadTables {
    var versions: map<string, int>
    var messages: seq<Message>

    function Contents(): Store
      reads this
    {
      Store(versions, messages)
    }

    constructor ()
      ensures Contents() == EMPTY
    {
      versions, messages := map[], [];
    }

    method InsertMessage(m: Message) returns (r: WriteResult)
      requires m.reference in versions
      modifies this
      ensures (Contents(), r) == InsertStep(old(Contents()), m)
    {
      if IdInUse(messages, m.id) { return Unavailable; }
      messages := messages + [m];
      versions := versions[m.reference := versions[m.reference] + 1];
      r := Created(m);
    }

    method CreateCustomerQuestion(a: Attempt) returns (r: WriteResult)
      requires a.request.Question?
      modifies this
      ensures (Contents(), r) == WriteStep(old(Contents()), a)
    {
      if IsBlank(a.actor) || IsBlank(a.reference) || !ValidRequest(a.request) { return Conflict; }
      var actor, reference := Trim(a.actor), Trim(a.reference);
      match a.authorization {
        case NotAuthorized => return Unauthorized;
        case Invalid => return InvalidAuthorization;
        case Valid =>
      }
      if reference !in versions || !a.visible { return NotFound; }
      var replay := FindByKey(messages, actor, Trim(a.request.key));
      if replay.Some? {
        return if ExactReplay(replay.value, reference, a.request) then Replayed(replay.value) else Conflict;
      }
      if versions[reference] != a.request.expectedVersion { return Conflict; }
      r := InsertMessage(Message(a.newId, reference, versions[reference] + 1, CustomerQuestion, actor, a.request.topic,
                                 Trim(a.request.body), None, Trim(a.request.key)));
    }

    method CreateProviderResponse(a: Attempt) returns (r: WriteResult)
      requires a.request.Response?
      modifies this
      ensures (Contents(), r) == WriteStep(old(Contents()), a)
    {
      if IsBlank(a.actor) || IsBlank(a.reference) || !ValidRequest(a.request) { return Conflict; }
      var actor, reference := Trim(a.actor), Trim(a.reference);
      if reference !in versions || !a.visible { return NotFound; }
      var replay := FindByKey(messages, actor, Trim(a.request.key));
      if replay.Some? {
        return if ExactReplay(replay.value, reference, a.request) then Replayed(replay.value) else Conflict;
      }
      if versions[reference] != a.request.expectedVersion { return Conflict; }
      var question := FindQuestion(messages, Trim(a.request.inReplyTo), reference);
      if question.None? { return Conflict; }
      if AlreadyAnswered(messages, question.value.id) { return Conflict; }
      r := InsertMessage(Message(a.newId, reference, versions[reference] + 1, ProviderResponse, actor,
                                 question.value.topic,
                                 Trim(a.request.body), Some(question.value.id), Trim(a.request.key)));
    }
  }

  // ---- runs -------------------------------------------------------------------------------------------

  /** A service release opens a thread at version 0; everything else is a write attempt. */
  datatype Event = Open(reference: string) | Write(attempt: Attempt)

  const EMPTY := Store(map[], [])

  function Next(s: Store, e: Event): Store
  {
    match e
    case Open(reference) => if reference in s.versions then s else s.(versions := s.versions[reference := 0])
    case Write(attempt) => WriteStep(s, attempt).0
  }

  function Run(s: Store, events: seq<Event>): Store
  {
    if events == [] then s else Next(Run(s, events[..|events| - 1]), events[|events| - 1])
  }

  // ---- what every run keeps -----------------------------------------------------------------------------

  function Count(messages: seq<Message>, reference: string): (n: nat)
    ensures n <= |messages|
  {
    if messages == [] then 0
    else
      var last := messages[|messages| - 1];
      Count(messages[..|messages| - 1], reference) + (if last.reference == reference then 1 else 0)
  }

  function CountKind(messages: seq<Message>, reference: string, kind: Kind): nat
  {
    if messages == [] then 0
    else
      var last := messages[|messages| - 1];
      CountKind(messages[..|messages| - 1], reference, kind)
      + (if last.reference == reference && last.kind == kind then 1 else 0)
  }

  /** Message `q` is the question that message `j` answers. */
  predicate Answers(messages: seq<Message>, j: nat, q: nat)
    requires j < |messages|
  {
    q < j && messages[q].kind == CustomerQuestion && messages[q].reference == messages[j].reference
    && messages[j].inReplyTo == Some(messages[q].id) && messages[j].topic == messages[q].topic
  }

  /** What holds of the message at position `j`, given the ones before it. */
  ghost predicate WellPlaced(messages: seq<Message>, j: nat)
    requires j < |messages|
  {
    var m := messages[j];
    && m.version == Count(messages[..j], m.reference) + 1
    && (forall i :: 0 <= i < j ==> messages[i].id != m.id)
    && (forall i :: 0 <= i < j ==> !(messages[i].author == m.author && messages[i].key == m.key))
    && (m.kind == CustomerQuestion ==> m.inReplyTo.None?)
    && (m.kind == ProviderResponse ==>
          && (exists q :: Answers(messages, j, q))
          && (forall i :: 0 <= i < j && messages[i].kind == ProviderResponse ==> messages[i].inReplyTo != m.inReplyTo))
  }

  ghost predicate Invariant(s: Store)
  {
    && (forall j :: 0 <= j < |s.messages| ==> WellPlaced(s.messages, j))
    && (forall j :: 0 <= j < |s.messages| ==> s.messages[j].reference in s.versions)
    && (forall reference :: reference in s.versions ==> s.versions[reference] == Count(s.messages, reference))
  }

  lemma WellPlacedInLonger(messages: seq<Message>, m: Message, j: nat)
    requires j < |messages| && WellPlaced(messages, j)
    ensures WellPlaced(messages + [m], j)
  {
    assert (messages + [m])[..j] == messages[..j];
    if messages[j].kind == ProviderResponse {
      var q :| Answers(messages, j, q);
      assert Answers(messages + [m], j, q);
    }
  }

  lemma CountAppended(messages: seq<Message>, m: Message, reference: string)
    ensures Count(messages + [m], reference) == Count(messages, reference) + (if m.reference == reference then 1 else 0)
  {
    assert (messages + [m])[..|messages + [m]| - 1] == messages;
  }

  lemma InsertKeepsInvariant(s: Store, m: Message)
    requires Invariant(s) && m.reference in s.versions && WellPlaced(s.messages + [m], |s.messages|)
    ensures Invariant(InsertStep(s, m).0)
  {
    var next := InsertStep(s, m).0;
    if next != s {
      forall j | 0 <= j < |next.messages| ensures WellPlaced(next.messages, j) {
        if j < |s.messages| {
          WellPlacedInLonger(s.messages, m, j);
        }
      }
      forall reference | reference in next.versions
          ensures next.versions[reference] == Count(next.messages, reference) {
        CountAppended(s.messages, m, reference);
      }
    }
  }

  lemma QuestionWellPlaced(s: Store, m: Message)
    requires Invariant(s) && m.reference in s.versions && !IdInUse(s.messages, m.id)
    requires m.version == s.versions[m.reference] + 1 && m.kind == CustomerQuestion && m.inReplyTo.None?
    requires FindByKey(s.messages, m.author, m.key).None?
    ensures WellPlaced(s.messages + [m], |s.messages|)
  {
    assert (s.messages + [m])[..|s.messages|] == s.messages;
    forall i | 0 <= i < |s.messages|
      ensures s.messages[i].id != m.id && !(s.messages[i].author == m.author && s.messages[i].key == m.key) {
      assert s.messages[i] in s.messages;
    }
  }

  lemma ResponseWellPlaced(s: Store, m: Message, question: Message)
    requires Invariant(s) && m.reference in s.versions && !IdInUse(s.messages, m.id)
    requires m.version == s.versions[m.reference] + 1 && m.kind == ProviderResponse
    requires question in s.messages && question.kind == CustomerQuestion && question.reference == m.reference
    requires m.inReplyTo == Some(question.id) && m.topic == question.topic && !AlreadyAnswered(s.messages, question.id)
    requires FindByKey(s.messages, m.author, m.key).None?
    ensures WellPlaced(s.messages + [m], |s.messages|)
  {
    var all, n := s.messages + [m], |s.messages|;
    assert all[..n] == s.messages;
    forall i | 0 <= i < n
      ensures all[i].id != m.id && !(all[i].author == m.author && all[i].key == m.key)
      ensures all[i].kind == ProviderResponse ==> all[i].inReplyTo != m.inReplyTo {
      assert s.messages[i] in s.messages;
    }
    var q :| 0 <= q < n && s.messages[q] == question;
    assert Answers(all, n, q);
  }

  lemma WriteKeepsInvariant(s: Store, a: Attempt)
    requires Invariant(s)
    ensures Invariant(WriteStep(s, a).0)
  {
    var (next, r) := WriteStep(s, a);
    if r.Created? {
      var m := r.message;
      if a.request.Question? {
        QuestionWellPlaced(s, m);
      } else {
        ResponseWellPlaced(s, m, FindQuestion(s.messages, Trim(a.request.inReplyTo), Trim(a.reference)).value);
      }
      InsertKeepsInvariant(s, m);
    } else {
      UnchangedUnlessCreated(s, a);
    }
  }

  predicate OneMore(s: Store, next: Store, r: WriteResult)
  {
    if r.Created? then
      r.message.reference in s.versions && next.messages == s.messages + [r.message]
      && next.versions == s.versions[r.message.reference := s.versions[r.message.reference] + 1]
    else next == s
  }

  lemma QuestionAddsOne(s: Store, actor: string, reference: string, a: Attempt)
    requires a.request.Question?
    ensures OneMore(s, QuestionStep(s, actor, reference, a).0, QuestionStep(s, actor, reference, a).1)
  {
    var replay := Replay(s, actor, reference, a.request);
    assert replay.Some? ==> !replay.value.Created?;
  }

  lemma ResponseAddsOne(s: Store, actor: string, reference: string, a: Attempt)
    requires a.request.Response?
    ensures OneMore(s, ResponseStep(s, actor, reference, a).0, ResponseStep(s, actor, reference, a).1)
  {
    var replay := Replay(s, actor, reference, a.request);
    assert replay.Some? ==> !replay.value.Created?;
  }

  /** Only `Created` changes the store, and then by exactly one message and one version. */
  lemma UnchangedUnlessCreated(s: Store, a: Attempt)
    ensures OneMore(s, WriteStep(s, a).0, WriteStep(s, a).1)
  {
    if a.request.Question? {
      QuestionAddsOne(s, Trim(a.actor), Trim(a.reference), a);
    } else {
      ResponseAddsOne(s, Trim(a.actor), Trim(a.reference), a);
    }
  }

  lemma NextKeepsInvariant(s: Store, e: Event)
    requires Invariant(s)
    ensures Invariant(Next(s, e))
  {
    match e
    case Write(attempt) => WriteKeepsInvariant(s, attempt);
    case Open(reference) =>
      if reference !in s.versions {
        NoMessagesCounted(s.messages, reference);
      }
  }

  lemma {:induction false} NoMessagesCounted(messages: seq<Message>, reference: string)
    requires forall j :: 0 <= j < |messages| ==> messages[j].reference != reference
    ensures Count(messages, reference) == 0
  {
    if messages != [] {
      NoMessagesCounted(messages[..|messages| - 1], reference);
    }
  }

  lemma {:induction false} RunKeepsInvariant(events: seq<Event>)
    ensures Invariant(Run(EMPTY, events))
  {
    if events != [] {
      RunKeepsInvariant(events[..|events| - 1]);
      NextKeepsInvariant(Run(EMPTY, events[..|events| - 1]), events[|events| - 1]);
    }
  }

  // ---- versions -------------------------------------------------------------------------------------------

  lemma {:induction false} VersionIsPlaced(messages: seq<Message>, reference: string, v: int) returns (i: nat)
    requires forall j :: 0 <= j < |messages| ==> WellPlaced(messages, j)
    requires 1 <= v <= Count(messages, reference)
    ensures i < |messages| && messages[i].reference == reference && messages[i].version == v
  {
    var n := |messages| - 1;
    if messages[n].reference == reference && Count(messages[..n], reference) + 1 == v {
      assert WellPlaced(messages, n);
      i := n;
    } else {
      PrefixWellPlaced(messages, n);
      i := VersionIsPlaced(messages[..n], reference, v);
    }
  }

  lemma PrefixWellPlaced(messages: seq<Message>, k: nat)
    requires k <= |messages| && forall j :: 0 <= j < |messages| ==> WellPlaced(messages, j)
    ensures forall j :: 0 <= j < k ==> WellPlaced(messages[..k], j)
  {
    forall j | 0 <= j < k ensures WellPlaced(messages[..k], j) {
      assert WellPlaced(messages, j) && messages[..k][..j] == messages[..j];
      if messages[j].kind == ProviderResponse {
        var q :| Answers(messages, j, q);
        assert Answers(messages[..k], j, q);
      }
    }
  }

  lemma {:induction false} VersionsIncrease(messages: seq<Message>, i: nat, j: nat)
    requires i < j < |messages| && messages[i].reference == messages[j].reference
    requires forall k :: 0 <= k < |messages| ==> WellPlaced(messages, k)
    ensures messages[i].version < messages[j].version
  {
    assert WellPlaced(messages, i) && WellPlaced(messages, j);
    CountUpTo(messages, i, j, messages[i].reference);
  }

  lemma {:induction false} CountUpTo(messages: seq<Message>, i: nat, j: nat, reference: string)
    requires i < j <= |messages| && messages[i].reference == reference
    ensures Count(messages[..j], reference) >= Count(messages[..i], reference) + 1
    decreases j
  {
    assert messages[..j][..j - 1] == messages[..j - 1];
    if i < j - 1 {
      CountUpTo(messages, i, j - 1, reference);
    }
  }

  predicate HasVersion(messages: seq<Message>, reference: string, v: int)
  {
    exists i :: 0 <= i < |messages| && messages[i].reference == reference && messages[i].version == v
  }

  lemma VersionIsInRange(messages: seq<Message>, i: nat)
    requires i < |messages| && WellPlaced(messages, i)
    ensures 1 <= messages[i].version <= Count(messages, messages[i].reference)
  {
    CountUpTo(messages, i, |messages|, messages[i].reference);
    assert messages[..|messages|] == messages;
  }

  /** In every run a thread's version is the number of its messages, and their versions are exactly
      1 to that number. */
  lemma VersionsAreExact(events: seq<Event>, reference: string, v: int)
    requires reference in Run(EMPTY, events).versions
    ensures var s := Run(EMPTY, events);
      && s.versions[reference] == Count(s.messages, reference)
      && (HasVersion(s.messages, reference, v) <==> 1 <= v <= s.versions[reference])
  {
    RunKeepsInvariant(events);
    var s := Run(EMPTY, events);
    if 1 <= v <= s.versions[reference] {
      var i := VersionIsPlaced(s.messages, reference, v);
    }
    if HasVersion(s.messages, reference, v) {
      var i :| 0 <= i < |s.messages| && s.messages[i].reference == reference && s.messages[i].version == v;
      VersionIsInRange(s.messages, i);
    }
  }

  /** ... and each occurs once, in the order of insertion. */
  lemma VersionsAreOrdered(events: seq<Event>, i: nat, j: nat)
    requires var ms := Run(EMPTY, events).messages; i < j < |ms| && ms[i].reference == ms[j].reference
    ensures var ms := Run(EMPTY, events).messages; ms[i].version < ms[j].version
  {
    RunKeepsInvariant(events);
    VersionsIncrease(Run(EMPTY, events).messages, i, j);
  }

  // ---- questions and answers --------------------------------------------------------------------------------

  /** In every run each response answers an earlier question of its own thread, on its topic, and
      no two responses answer the same one. */
  lemma ResponsesAnswerQuestions(events: seq<Event>, j: nat)
    requires var ms := Run(EMPTY, events).messages; j < |ms| && ms[j].kind == ProviderResponse
    ensures var ms := Run(EMPTY, events).messages;
      && (exists q :: Answers(ms, j, q))
      && (forall i :: 0 <= i < |ms| && i != j && ms[i].kind == ProviderResponse ==> ms[i].inReplyTo != ms[j].inReplyTo)
  {
    RunKeepsInvariant(events);
    var ms := Run(EMPTY, events).messages;
    forall i | 0 <= i < |ms| && i != j && ms[i].kind == ProviderResponse ensures ms[i].inReplyTo != ms[j].inReplyTo {
      assert WellPlaced(ms, i) && WellPlaced(ms, j);
    }
    assert WellPlaced(ms, j);
  }

  function QuestionIds(messages: seq<Message>, reference: string): set<Option<string>>
  {
    set i | 0 <= i < |messages| && messages[i].reference == reference && messages[i].kind == CustomerQuestion
      :: Some(messages[i].id)
  }

  function AnsweredIds(messages: seq<Message>, reference: string): set<Option<string>>
  {
    set i | 0 <= i < |messages| && messages[i].reference == reference && messages[i].kind == ProviderResponse
      :: messages[i].inReplyTo
  }

  lemma QuestionIdsOneMore(messages: seq<Message>, last: Message, reference: string)
    ensures QuestionIds(messages + [last], reference)
         == QuestionIds(messages, reference)
            + (if last.reference == reference && last.kind == CustomerQuestion then {Some(last.id)} else {})
  {
    var all, n := messages + [last], |messages|;
    assert all[n] == last && forall i :: 0 <= i < n ==> all[i] == messages[i];
  }

  lemma AnsweredIdsOneMore(messages: seq<Message>, last: Message, reference: string)
    ensures AnsweredIds(messages + [last], reference)
         == AnsweredIds(messages, reference)
            + (if last.reference == reference && last.kind == ProviderResponse then {last.inReplyTo} else {})
  {
    var all, n := messages + [last], |messages|;
    assert all[n] == last && forall i :: 0 <= i < n ==> all[i] == messages[i];
  }

  lemma {:induction false} QuestionsCounted(messages: seq<Message>, reference: string)
    requires forall j :: 0 <= j < |messages| ==> WellPlaced(messages, j)
    ensures |QuestionIds(messages, reference)| == CountKind(messages, reference, CustomerQuestion)
  {
    if messages != [] {
      var n := |messages| - 1;
      var earlier, last := messages[..n], messages[n];
      PrefixWellPlaced(messages, n);
      QuestionsCounted(earlier, reference);
      assert messages == earlier + [last];
      QuestionIdsOneMore(earlier, last, reference);
      assert Some(last.id) !in QuestionIds(earlier, reference) by {
        assert WellPlaced(messages, n);
      }
    }
  }

  lemma {:induction false} ResponsesCounted(messages: seq<Message>, reference: string)
    requires forall j :: 0 <= j < |messages| ==> WellPlaced(messages, j)
    ensures |AnsweredIds(messages, reference)| == CountKind(messages, reference, ProviderResponse)
  {
    if messages != [] {
      var n := |messages| - 1;
      var earlier, last := messages[..n], messages[n];
      PrefixWellPlaced(messages, n);
      ResponsesCounted(earlier, reference);
      assert messages == earlier + [last];
      AnsweredIdsOneMore(earlier, last, reference);
      if last.kind == ProviderResponse {
        assert last.inReplyTo !in AnsweredIds(earlier, reference) by {
          assert WellPlaced(messages, n);
        }
      }
    }
  }

  lemma AnsweredWereAsked(messages: seq<Message>, reference: string)
    requires forall j :: 0 <= j < |messages| ==> WellPlaced(messages, j)
    ensures AnsweredIds(messages, reference) <= QuestionIds(messages, reference)
  {
    forall j | 0 <= j < |messages| && messages[j].reference == reference && messages[j].kind == ProviderResponse
      ensures messages[j].inReplyTo in QuestionIds(messages, reference) {
      assert WellPlaced(messages, j);
      var q :| Answers(messages, j, q);
    }
  }

  /** In every run, in every prefix of the log, a thread has at most as many responses as questions. */
  lemma ResponsesNeverOutnumberQuestions(events: seq<Event>, reference: string, k: nat)
    requires k <= |Run(EMPTY, events).messages|
    ensures var prefix := Run(EMPTY, events).messages[..k];
      CountKind(prefix, reference, ProviderResponse) <= CountKind(prefix, reference, CustomerQuestion)
  {
    RunKeepsInvariant(events);
    var all := Run(EMPTY, events).messages;
    var prefix := all[..k];
    PrefixWellPlaced(all, k);
    ResponsesCounted(prefix, reference);
    QuestionsCounted(prefix, reference);
    AnsweredWereAsked(prefix, reference);
    SubsetIsNoLarger(AnsweredIds(prefix, reference), QuestionIds(prefix, reference));
  }

  /** In every run, message ids and (author, key) pairs are unique over all threads. */
  lemma KeysAreUnique(events: seq<Event>, i: nat, j: nat)
    requires i < j < |Run(EMPTY, events).messages|
    ensures var ms := Run(EMPTY, events).messages;
      ms[i].id != ms[j].id && !(ms[i].author == ms[j].author && ms[i].key == ms[j].key)
  {
    RunKeepsInvariant(events);
    assert WellPlaced(Run(EMPTY, events).messages, j);
  }

  // ---- what each answer means -------------------------------------------------------------------------------------

  predicate KeyLetter(c: char)
  {
    'A' <= c <= 'Z' || 'a' <= c <= 'z' || '0' <= c <= '9' || c == '_' || c == '-'
  }

  lemma KeyIsSpelledIff(value: string)
    ensures ValidIdempotencyKey(value)
       <==> 8 <= |Trim(value)| <= 128 && forall i :: 0 <= i < |Trim(value)| ==> KeyLetter(Trim(value)[i])
  {
    var key := Trim(value);
    if forall i :: 0 <= i < |key| ==> KeyLetter(key[i]) {
      forall c | c in key ensures KeyLetter(c) {
        var i :| 0 <= i < |key| && key[i] == c;
      }
    }
    if ValidIdempotencyKey(value) {
      forall i | 0 <= i < |key| ensures KeyLetter(key[i]) {
        assert key[i] in key;
      }
    }
  }

  /** The topics, the lengths and the letters a request may use. */
  lemma WellFormedIff(a: Attempt)
    ensures ValidAttempt(a) <==>
      && Trim(a.actor) != "" && Trim(a.reference) != "" && a.request.expectedVersion >= 0
      && Trim(a.request.body) != "" && |Trim(a.request.body)| <= 2000
      && 8 <= |Trim(a.request.key)| <= 128
      && (forall i :: 0 <= i < |Trim(a.request.key)| ==> KeyLetter(Trim(a.request.key)[i]))
      && (if a.request.Response? then Trim(a.request.inReplyTo) != ""
          else a.request.topic in ["timing", "preparation", "access", "service_scope", "other"])
  {
    KeyIsSpelledIff(a.request.key);
  }

  /** The authorization is looked at for customers only; a thread that is missing or not visible is not
      found. */
  lemma AuthorityAnswers(s: Store, a: Attempt)
    requires ValidAttempt(a)
    ensures var r := WriteStep(s, a).1;
      && (r == Unauthorized <==> a.request.Question? && a.authorization == NotAuthorized)
      && (r == InvalidAuthorization <==> a.request.Question? && a.authorization == Invalid)
      && (r == NotFound <==> (a.request.Question? ==> a.authorization == Valid)
                             && !(Trim(a.reference) in s.versions && a.visible))
  {
  }

  /** This question is in this thread, and no response names it yet. */
  predicate Unanswered(messages: seq<Message>, id: string, reference: string)
  {
    && (exists q :: 0 <= q < |messages| && messages[q].id == id && messages[q].reference == reference
                    && messages[q].kind == CustomerQuestion)
    && forall m :: 0 <= m < |messages| && messages[m].inReplyTo == Some(id) ==> messages[m].kind != ProviderResponse
  }

  /** What the writer of a message said, padding stripped. */
  predicate Says(m: Message, a: Attempt, version: int)
  {
    && m.id == a.newId && m.reference == Trim(a.reference) && m.author == Trim(a.actor) && m.key == Trim(a.request.key)
    && m.body == Trim(a.request.body) && m.version == version + 1
    && (a.request.Question? ==> m.kind == CustomerQuestion && m.topic == a.request.topic && m.inReplyTo.None?)
    && (a.request.Response? ==> m.kind == ProviderResponse && m.inReplyTo == Some(Trim(a.request.inReplyTo)))
  }

  /** In every run a well-formed, authorized request under an unused key and message id creates its
      message exactly when it expects the thread's version and, for a response, names an unanswered
      question of the thread. */
  lemma CreatedIff(events: seq<Event>, a: Attempt)
    requires ValidAttempt(a) && PassesAuthority(Run(EMPTY, events), a)
    requires forall m :: m in Run(EMPTY, events).messages ==>
      m.id != a.newId && !(m.author == Trim(a.actor) && m.key == Trim(a.request.key))
    ensures var s := Run(EMPTY, events); var r := WriteStep(s, a).1;
      if s.versions[Trim(a.reference)] == a.request.expectedVersion
         && (a.request.Response? ==> Unanswered(s.messages, Trim(a.request.inReplyTo), Trim(a.reference)))
      then r.Created? && Says(r.message, a, a.request.expectedVersion)
      else r == Conflict
  {
    var s := Run(EMPTY, events);
    RunKeepsInvariant(events);
    if a.request.Response? {
      UnansweredIffFound(s.messages, Trim(a.request.inReplyTo), Trim(a.reference));
    }
  }

  lemma UnansweredIffFound(messages: seq<Message>, id: string, reference: string)
    ensures Unanswered(messages, id, reference)
       <==> FindQuestion(messages, id, reference).Some? && !AlreadyAnswered(messages, id)
  {
    if AlreadyAnswered(messages, id) {
      var m :| m in messages && m.kind == ProviderResponse && m.inReplyTo == Some(id);
      var k :| 0 <= k < |messages| && messages[k] == m;
    }
    if FindQuestion(messages, id, reference).Some? {
      var q :| 0 <= q < |messages| && messages[q] == FindQuestion(messages, id, reference).value;
    }
  }

  // ---- idempotency ----------------------------------------------------------------------------------------------

  /** The same request by the same actor, whatever the padding. */
  predicate SameRequest(a: Attempt, b: Attempt)
  {
    Trim(a.actor) == Trim(b.actor) && Trim(a.reference) == Trim(b.reference)
    && a.request.expectedVersion == b.request.expectedVersion
    && Trim(a.request.body) == Trim(b.request.body) && Trim(a.request.key) == Trim(b.request.key)
    && match a.request
       case Question(_, topic, _, _) => b.request.Question? && b.request.topic == topic
       case Response(_, inReplyTo, _, _) => b.request.Response? && Trim(b.request.inReplyTo) == Trim(inReplyTo)
  }

  predicate SameKey(a: Attempt, b: Attempt)
  {
    Trim(a.actor) == Trim(b.actor) && Trim(a.request.key) == Trim(b.request.key)
  }

  /** The authority queries let the attempt through to the thread. */
  predicate PassesAuthority(s: Store, a: Attempt)
  {
    a.visible && Trim(a.reference) in s.versions && (a.request.Question? ==> a.authorization == Valid)
  }

  lemma {:induction false} FoundStaysFound(s: Store, events: seq<Event>, author: string, key: string)
    requires FindByKey(s.messages, author, key).Some?
    ensures FindByKey(Run(s, events).messages, author, key) == FindByKey(s.messages, author, key)
    ensures s.versions.Keys <= Run(s, events).versions.Keys
  {
    if events != [] {
      var earlier, last := Run(s, events[..|events| - 1]), events[|events| - 1];
      FoundStaysFound(s, events[..|events| - 1], author, key);
      if last.Write? {
        UnchangedUnlessCreated(earlier, last.attempt);
        var next := Next(earlier, last);
        if next != earlier {
          assert next.messages[..|next.messages| - 1] == earlier.messages;
        }
      }
    }
  }

  lemma CreatedIsFound(s: Store, a: Attempt)
    requires WriteStep(s, a).1.Created?
    ensures var (next, r) := WriteStep(s, a);
      && ValidAttempt(a) && PassesAuthority(s, a)
      && FindByKey(next.messages, Trim(a.actor), Trim(a.request.key)) == Some(r.message)
      && ExactReplay(r.message, Trim(a.reference), a.request)
  {
    var (next, r) := WriteStep(s, a);
    UnchangedUnlessCreated(s, a);
    assert next.messages[..|next.messages| - 1] == s.messages;
  }

  lemma ExactReplayIffSame(m: Message, a: Attempt, b: Attempt)
    requires ExactReplay(m, Trim(a.reference), a.request) && SameKey(a, b)
    ensures ExactReplay(m, Trim(b.reference), b.request) <==> SameRequest(a, b)
  {
  }

  lemma SameRequestIsValid(a: Attempt, b: Attempt)
    requires ValidAttempt(a) && SameRequest(a, b)
    ensures ValidAttempt(b)
  {
  }

  lemma UnderUsedKey(s: Store, b: Attempt, m: Message)
    requires FindByKey(s.messages, Trim(b.actor), Trim(b.request.key)) == Some(m)
    ensures var (next, r) := WriteStep(s, b);
      && next == s && !r.Created?
      && (r.Replayed? ==> r.message == m)
      && (r.Replayed? <==> ValidAttempt(b) && PassesAuthority(s, b) && ExactReplay(m, Trim(b.reference), b.request))
      && (ValidAttempt(b) && PassesAuthority(s, b) && !r.Replayed? ==> r == Conflict)
  {
  }

  /** Writes are idempotent across runs. Once an attempt has created a message, then after any
      further events every attempt of that actor under that key changes nothing; it is answered
      with that message exactly when it is the same request and passes the authority queries, and a
      different request that passes them is a conflict. */
  lemma WritesAreIdempotent(s: Store, a: Attempt, events: seq<Event>, b: Attempt)
    requires WriteStep(s, a).1.Created? && SameKey(a, b)
    ensures var m, later := WriteStep(s, a).1.message, Run(WriteStep(s, a).0, events);
      var (next, r) := WriteStep(later, b);
      && next == later
      && (r == Replayed(m) <==> SameRequest(a, b) && PassesAuthority(later, b))
      && (PassesAuthority(later, b) && !SameRequest(a, b) ==> r == Conflict)
  {
    var (created, r) := WriteStep(s, a);
    var m, later := r.message, Run(created, events);
    CreatedIsFound(s, a);
    FoundStaysFound(created, events, Trim(a.actor), Trim(a.request.key));
    UnderUsedKey(later, b, m);
    ExactReplayIffSame(m, a, b);
    if SameRequest(a, b) {
      SameRequestIsValid(a, b);
    }
  }
}
