/** Organizations, memberships and invitations: guarded transactions over three tables. */
module Organization {
  import opened Options
  import opened Sets
  import opened Text

  datatype Role = OrganizationOwner | Manager | CrewLead | CrewMember | PropertyOwner | PropertyManager | SupportAdmin

  datatype MembershipStatus = Invited | Active | Suspended | Archived

  datatype InvitationStatus = Pending | Accepted | Revoked | Expired

  datatype Scope = Scope(kind: string, id: string)

  datatype Membership = Membership(organization: string, user: string, role: Role, status: MembershipStatus,
                                   scope: Scope)

  datatype Invitation = Invitation(
    organization: string, email: string, role: Role, status: InvitationStatus, scope: Scope,
    token: string, membership: string, expiresAt: Option<int>)

  /** Which token was issued to which invitation, and which was accepted by whom. */
  datatype Entry = Issued(invitation: string, token: string) | Used(invitation: string, token: string, user: string)

  datatype State = State(
    organizations: set<string>, memberships: map<string, Membership>, invitations: map<string, Invitation>,
        log: seq<Entry>)

  /** `Unavailable` stands for a constraint the database refuses to violate; nothing is committed. */
  datatype Result =
    | Applied
    | Invalid
    | Conflict
    | AlreadyMember
    | NotFound
    | NotManageable
    | LastActiveOwner
    | Unavailable

  // ---- queries --------------------------------------------------------------------------------------

  function LowerAscii(s: string): string
  {
    seq(|s|, i requires 0 <= i < |s| => if 'A' <= s[i] <= 'Z' then (s[i] as int + 32) as char else s[i])
  }

  /** Emails are trimmed and lower-cased on entry. */
  function FoldEmail(email: string): string
  {
    LowerAscii(Trim(email))
  }

  predicate ValidInviteeEmail(email: string)
  {
    email != "" && |email| <= 320 && '@' in email && forall c :: c in email ==> !IsWhitespace(c)
  }

  predicate Expiring(invitation: Invitation, now: int)
  {
    invitation.expiresAt.Some? && invitation.expiresAt.value <= now
  }

  predicate LivePending(invitation: Invitation, now: int)
  {
    invitation.status == Pending && !Expiring(invitation, now)
  }

  predicate SameKey(a: Membership, b: Membership)
  {
    a.organization == b.organization && a.user == b.user && a.role == b.role && a.scope == b.scope
  }

  /** `UNIQUE (organization_id, user_id, role, scope_type, scope_id)`, against all rows but `id`. */
  predicate KeyTaken(memberships: map<string, Membership>, id: string, m: Membership)
  {
    exists other :: other in memberships && other != id && SameKey(memberships[other], m)
  }

  predicate TokenTaken(invitations: map<string, Invitation>, token: string)
  {
    exists id :: id in invitations && invitations[id].token == token
  }

  function ActiveOwners(memberships: map<string, Membership>, organization: string): set<string>
  {
    set id | id in memberships && memberships[id].organization == organization
      && memberships[id].role == OrganizationOwner && memberships[id].status == Active
  }

  predicate HasActiveMembership(memberships: map<string, Membership>, user: string)
  {
    exists id :: id in memberships && memberships[id].user == user && memberships[id].status == Active
  }

  predicate PendingExists(invitations: map<string, Invitation>, organization: string, email: string, now: int)
  {
    exists id :: id in invitations && invitations[id].organization == organization
      && invitations[id].email == email && LivePending(invitations[id], now)
  }

  /** The live pending invitation with this token, for this email. */
  predicate Acceptable(invitations: map<string, Invitation>, id: string, token: string, email: string, now: int)
  {
    id in invitations && invitations[id].token == token && invitations[id].email == email
        && LivePending(invitations[id], now)
  }

  // ---- the transactions, as functions ------------------------------------------------------------------

  /** `bootstrap_organization`, with the generated ids. */
  function BootstrapStep(s: State, user: string, organization: string, membership: string): (State, Result)
  {
    if HasActiveMembership(s.memberships, user) then (s, AlreadyMember)
    else if organization in s.organizations || membership in s.memberships then (s, Unavailable)
    else
      var owner := Membership(organization, user, OrganizationOwner, Active, Scope("organization", organization));
      if KeyTaken(s.memberships, membership, owner) then (s, Unavailable)
      else (s.(organizations := s.organizations + {organization}, memberships := s.memberships[membership := owner]),
            Applied)
  }

  datatype InviteRequest = InviteRequest(
    email: string, role: Role, scopeType: Option<string>, scopeId: Option<string>, expiresAt: Option<int>)

  /** The ids and the token an invitation transaction generates. */
  datatype Generated = Generated(invitation: string, membership: string, token: string)

  function ScopeOf(request: InviteRequest, organization: string): Scope
  {
    Scope(request.scopeType.UnwrapOr("organization"), request.scopeId.UnwrapOr(organization))
  }

  function CreateStep(s: State, organization: string, request: InviteRequest, g: Generated, now: int): (State, Result)
  {
    var email := FoldEmail(request.email);
    if !ValidInviteeEmail(email) then (s, Invalid)
    else if PendingExists(s.invitations, organization, email, now) then (s, Conflict)
    else
      var m := Membership(organization, email, request.role, Invited, ScopeOf(request, organization));
      if organization !in s.organizations || g.membership in s.memberships || g.invitation in s.invitations
         || KeyTaken(s.memberships, g.membership, m) || TokenTaken(s.invitations, g.token)
      then (s, Unavailable)
      else
        (s.(memberships := s.memberships[g.membership := m],
            invitations := s.invitations[g.invitation :=
              Invitation(organization, email, request.role, Pending, m.scope, g.token, g.membership,
                         request.expiresAt)],
            log := s.log + [Issued(g.invitation, g.token)]), Applied)
  }

  function RevokeStep(s: State, organization: string, id: string, now: int): (State, Result)
  {
    if id !in s.invitations || s.invitations[id].organization != organization || !LivePending(s.invitations[id], now)
        then (s, Conflict)
    else
      var invitation := s.invitations[id];
      (s.(invitations := s.invitations[id := invitation.(status := Revoked)],
          memberships := if invitation.membership in s.memberships
                            && s.memberships[invitation.membership].organization == organization
                            && s.memberships[invitation.membership].status == Invited
                         then s.memberships[invitation.membership :=
                           s.memberships[invitation.membership].(status := Archived)]
                         else s.memberships), Applied)
  }

  predicate Reissuable(s: State, organization: string, id: string, expiresAt: int, now: int)
  {
    id in s.invitations && s.invitations[id].organization == organization && expiresAt > now
    && (s.invitations[id].status in {Revoked, Expired}
        || (s.invitations[id].status == Pending && Expiring(s.invitations[id], now)))
  }

  /** The membership row a reissue writes, if it writes one. */
  function ReopenedMembership(s: State, organization: string, invitation: Invitation): Option<Membership>
  {
    if invitation.membership in s.memberships && s.memberships[invitation.membership].organization == organization
       && s.memberships[invitation.membership].status in {Invited, Archived}
    then Some(s.memberships[invitation.membership].(user := invitation.email, status := Invited))
    else None
  }

  function ReissueStep(s: State, organization: string, id: string, expiresAt: int, token: string, now: int)
    : (State, Result)
  {
    if !Reissuable(s, organization, id, expiresAt, now) then (s, Conflict)
    else
      var invitation := s.invitations[id];
      var reopened := ReopenedMembership(s, organization, invitation);
      if reopened.Some? && KeyTaken(s.memberships, invitation.membership, reopened.value) then (s, Unavailable)
      else if TokenTaken(s.invitations - {id}, token) then (s, Unavailable)
      else
        var pending := invitation.(status := Pending, token := token, expiresAt := Some(expiresAt));
        (s.(invitations := s.invitations[id := pending],
            memberships := if reopened.Some? then s.memberships[invitation.membership := reopened.value]
                           else s.memberships,
            log := s.log + [Issued(id, token)]), Applied)
  }

  /** The transaction of `accept_invitation` on the one row its query finds. */
  function AcceptRowStep(s: State, id: string, user: string): (State, Result)
    requires id in s.invitations
  {
    var invitation := s.invitations[id];
    var mid := invitation.membership;
    var accepted := s.(invitations := s.invitations[id := invitation.(status := Accepted)],
                       log := s.log + [Used(id, invitation.token, user)]);
    if mid !in s.memberships || s.memberships[mid].organization != invitation.organization then (accepted, Conflict)
    else
      var m := s.memberships[mid].(user := user, status := Active);
      if KeyTaken(s.memberships, mid, m) then (s, Unavailable)
      else
        (accepted.(memberships := s.memberships[mid := m]), Applied)
  }

  /** `accept_invitation`; `found` is the row its query finds, if any. A principal may have no email. */
  function AcceptStep(s: State, token: string, user: string, email: Option<string>, found: Option<string>)
    : (State, Result)
    requires found.Some? ==> found.value in s.invitations
  {
    if IsBlank(token) then (s, Invalid)
    else if email.None? then (s, Conflict)
    else if !ValidInviteeEmail(FoldEmail(email.value)) then (s, Invalid)
    else if found.None? then (s, Conflict)
    else AcceptRowStep(s, found.value, user)
  }

  /** The invitation query: `found` is a matching row, or there is none. */
  predicate FoundIs(s: State, token: string, email: Option<string>, now: int, found: Option<string>)
  {
    match found
    case Some(id) => email.Some? && Acceptable(s.invitations, id, Trim(token), FoldEmail(email.value), now)
    case None =>
      email.Some? ==> forall id :: id in s.invitations ==>
          !Acceptable(s.invitations, id, Trim(token), FoldEmail(email.value), now)
  }

  function RoleStep(s: State, organization: string, id: string, role: Role): (State, Result)
  {
    if id !in s.memberships || s.memberships[id].organization != organization then (s, NotFound)
    else
      var m := s.memberships[id];
      if m.role == OrganizationOwner && m.status == Active && role != OrganizationOwner
         && |ActiveOwners(s.memberships, organization)| <= 1
      then (s, LastActiveOwner)
      else if KeyTaken(s.memberships, id, m.(role := role)) then (s, Unavailable)
      else (s.(memberships := s.memberships[id := m.(role := role)]), Applied)
  }

  function StatusStep(s: State, organization: string, id: string, status: MembershipStatus): (State, Result)
  {
    if status !in {Active, Suspended} then (s, NotManageable)
    else if id !in s.memberships || s.memberships[id].organization != organization then (s, NotFound)
    else
      var m := s.memberships[id];
      if m.status !in {Active, Suspended} then (s, NotManageable)
      else if m.role == OrganizationOwner && m.status == Active && status == Suspended
              && |ActiveOwners(s.memberships, organization)| <= 1
      then (s, LastActiveOwner)
      else (s.(memberships := s.memberships[id := m.(status := status)]), Applied)
  }

  /** Other components add active members to existing organizations. */
  function EnrollStep(s: State, id: string, m: Membership): State
  {
    if id in s.memberships || m.organization !in s.organizations || m.status != Active
        || KeyTaken(s.memberships, id, m) then s
    else s.(memberships := s.memberships[id := m])
  }

  // ---- the tables, updated in place -----------------------------------------------------------------------

  class OrganizationTables {
    var organizations: set<string>
    var memberships: map<string, Membership>
    var invitations: map<string, Invitation>
    ghost var log: seq<Entry>

    ghost function Contents(): State
      reads this
    {
      State(organizations, memberships, invitations, log)
    }

    constructor ()
      ensures Contents() == EMPTY
    {
      organizations, memberships, invitations, log := {}, map[], map[], [];
    }

    method Bootstrap(user: string, organization: string, membership: string) returns (r: Result)
      modifies this
      ensures (Contents(), r) == BootstrapStep(old(Contents()), user, organization, membership)
    {
      if HasActiveMembership(memberships, user) { return AlreadyMember; }
      var owner := Membership(organization, user, OrganizationOwner, Active, Scope("organization", organization));
      if organization in organizations || membership in memberships || KeyTaken(memberships, membership, owner) {
        return Unavailable;
      }
      organizations := organizations + {organization};
      memberships := memberships[membership := owner];
      r := Applied;
    }

    method CreateInvitation(organization: string, request: InviteRequest, g: Generated, now: int) returns (r: Result)
      modifies this
      ensures (Contents(), r) == CreateStep(old(Contents()), organization, request, g, now)
    {
      var email := FoldEmail(request.email);
      if !ValidInviteeEmail(email) { return Invalid; }
      if PendingExists(invitations, organization, email, now) { return Conflict; }
      var scope := ScopeOf(request, organization);
      var m := Membership(organization, email, request.role, Invited, scope);
      if organization !in organizations || g.membership in memberships || KeyTaken(memberships, g.membership, m) {
        return Unavailable;
      }
      if g.invitation in invitations || TokenTaken(invitations, g.token) { return Unavailable; }
      memberships := memberships[g.membership := m];
      invitations := invitations[g.invitation :=
        Invitation(organization, email, request.role, Pending, scope, g.token, g.membership, request.expiresAt)];
      log := log + [Issued(g.invitation, g.token)];
      r := Applied;
    }

    method RevokeInvitation(organization: string, id: string, now: int) returns (r: Result)
      modifies this
      ensures (Contents(), r) == RevokeStep(old(Contents()), organization, id, now)
    {
      if id !in invitations || invitations[id].organization != organization || !LivePending(invitations[id], now) {
        return Conflict;
      }
      var mid := invitations[id].membership;
      invitations := invitations[id := invitations[id].(status := Revoked)];
      if mid in memberships && memberships[mid].organization == organization && memberships[mid].status == Invited {
        memberships := memberships[mid := memberships[mid].(status := Archived)];
      }
      r := Applied;
    }

    method ReissueInvitation(organization: string, id: string, expiresAt: int, token: string, now: int)
      returns (r: Result)
      modifies this
      ensures (Contents(), r) == ReissueStep(old(Contents()), organization, id, expiresAt, token, now)
    {
      if !Reissuable(State(organizations, memberships, invitations, []), organization, id, expiresAt, now) {
        return Conflict;
      }
      var invitation := invitations[id];
      var mid := invitation.membership;
      if mid in memberships && memberships[mid].organization == organization
          && memberships[mid].status in {Invited, Archived} {
        var m := memberships[mid].(user := invitation.email, status := Invited);
        if KeyTaken(memberships, mid, m) || TokenTaken(invitations - {id}, token) { return Unavailable; }
        memberships := memberships[mid := m];
      } else if TokenTaken(invitations - {id}, token) {
        return Unavailable;
      }
      invitations := invitations[id := invitation.(status := Pending, token := token, expiresAt := Some(expiresAt))];
      log := log + [Issued(id, token)];
      r := Applied;
    }

    method AcceptInvitation(token: string, user: string, email: Option<string>, now: int, found: Option<string>)
      returns (r: Result)
      requires FoundIs(Contents(), token, email, now, found)
      modifies this
      ensures (Contents(), r) == AcceptStep(old(Contents()), token, user, email, found)
    {
      if IsBlank(token) { return Invalid; }
      if email.None? { return Conflict; }
      if !ValidInviteeEmail(FoldEmail(email.value)) { return Invalid; }
      if found.None? { return Conflict; }
      var invitation := invitations[found.value];
      var mid := invitation.membership;
      if mid in memberships && memberships[mid].organization == invitation.organization {
        var m := memberships[mid].(user := user, status := Active);
        if KeyTaken(memberships, mid, m) { return Unavailable; }
        memberships := memberships[mid := m];
        r := Applied;
      } else {
        r := Conflict;
      }
      invitations := invitations[found.value := invitation.(status := Accepted)];
      log := log + [Used(found.value, invitation.token, user)];
    }

    method UpdateMembershipRole(organization: string, id: string, role: Role) returns (r: Result)
      modifies this
      ensures (Contents(), r) == RoleStep(old(Contents()), organization, id, role)
    {
      if id !in memberships || memberships[id].organization != organization { return NotFound; }
      var current := memberships[id];
      if current.role == OrganizationOwner && current.status == Active && role != OrganizationOwner {
        if |ActiveOwners(memberships, organization)| <= 1 { return LastActiveOwner; }
      }
      if KeyTaken(memberships, id, current.(role := role)) { return Unavailable; }
      memberships := memberships[id := current.(role := role)];
      r := Applied;
    }

    method UpdateMembershipStatus(organization: string, id: string, status: MembershipStatus) returns (r: Result)
      modifies this
      ensures (Contents(), r) == StatusStep(old(Contents()), organization, id, status)
    {
      if status !in {Active, Suspended} { return NotManageable; }
      if id !in memberships || memberships[id].organization != organization { return NotFound; }
      var current := memberships[id];
      if current.status !in {Active, Suspended} { return NotManageable; }
      if current.role == OrganizationOwner && current.status == Active && status == Suspended {
        if |ActiveOwners(memberships, organization)| <= 1 { return LastActiveOwner; }
      }
      memberships := memberships[id := current.(status := status)];
      r := Applied;
    }
  }

  // ---- runs -------------------------------------------------------------------------------------------------

  datatype Step =
    | Bootstrap(user: string, newOrganization: string, newMembership: string)
    | Create(organization: string, request: InviteRequest, generated: Generated)
    | Revoke(organization: string, invitation: string)
    | Reissue(organization: string, invitation: string, expiresAt: int, newToken: string)
    | Accept(token: string, acceptingUser: string, email: Option<string>, found: Option<string>)
    | SetRole(organization: string, membership: string, role: Role)
    | SetStatus(organization: string, membership: string, status: MembershipStatus)
    | Enroll(newMembership: string, row: Membership)

  datatype Timed = Timed(now: int, step: Step)

  const EMPTY := State({}, map[], map[], [])

  /** Queries find what is there, and a generated token was never issued before. */
  ghost predicate Possible(s: State, timed: Timed)
  {
    match timed.step
    case Accept(token, _, email, found) => FoundIs(s, token, email, timed.now, found)
    case Create(_, _, generated) => forall e :: e in s.log ==> e.token != generated.token
    case Reissue(_, _, _, token) => forall e :: e in s.log ==> e.token != token
    case _ => true
  }

  function Next(s: State, timed: Timed): State
    requires Possible(s, timed)
  {
    match timed.step
    case Bootstrap(user, organization, membership) => BootstrapStep(s, user, organization, membership).0
    case Create(organization, request, generated) => CreateStep(s, organization, request, generated, timed.now).0
    case Revoke(organization, id) => RevokeStep(s, organization, id, timed.now).0
    case Reissue(organization, id, expiresAt, token) => ReissueStep(s, organization, id, expiresAt, token, timed.now).0
    case Accept(token, user, email, found) => AcceptStep(s, token, user, email, found).0
    case SetRole(organization, id, role) => RoleStep(s, organization, id, role).0
    case SetStatus(organization, id, status) => StatusStep(s, organization, id, status).0
    case Enroll(id, m) => EnrollStep(s, id, m)
  }

  /** The states of a run, one after each step. */
  ghost predicate IsRun(states: seq<State>, steps: seq<Timed>)
  {
    |states| == |steps| + 1 && states[0] == EMPTY
    && forall i :: 0 <= i < |steps| ==> Possible(states[i], steps[i]) && states[i + 1] == Next(states[i], steps[i])
  }

  // ---- every organization keeps an active owner ------------------------------------------------------------------

  /** Some membership of the organization is an active owner's. */
  ghost predicate HasActiveOwner(memberships: map<string, Membership>, organization: string)
  {
    exists id :: id in memberships && memberships[id].organization == organization
      && memberships[id].role == OrganizationOwner && memberships[id].status == Active
  }

  lemma OwnersAreCounted(memberships: map<string, Membership>, organization: string)
    ensures ActiveOwners(memberships, organization) != {} <==> HasActiveOwner(memberships, organization)
  {
    if HasActiveOwner(memberships, organization) {
      var id :| id in memberships && memberships[id].organization == organization
        && memberships[id].role == OrganizationOwner && memberships[id].status == Active;
      assert id in ActiveOwners(memberships, organization);
    } else {
      forall id ensures id !in ActiveOwners(memberships, organization) {}
    }
  }

  ghost predicate EveryOrganizationOwned(s: State)
  {
    forall organization :: organization in s.organizations ==> HasActiveOwner(s.memberships, organization)
  }

  lemma OwnersAfterUpdate(memberships: map<string, Membership>, id: string, m: Membership, organization: string)
    ensures ActiveOwners(memberships[id := m], organization) >= ActiveOwners(memberships, organization) - {id}
    ensures m.organization == organization && m.role == OrganizationOwner && m.status == Active
            ==> id in ActiveOwners(memberships[id := m], organization)
  {
  }

  /** With more than one active owner, losing one leaves another. */
  lemma AnotherOwner(owners: set<string>, id: string)
    requires |owners| > 1
    ensures owners - {id} != {}
  {
    if id in owners {
      assert |owners - {id}| == |owners| - 1;
    } else {
      assert owners - {id} == owners;
    }
  }

  /** A membership row that was no active owner, or stays one, costs no organization its owner. */
  lemma HarmlessUpdate(s: State, id: string, m: Membership, organization: string)
    requires ActiveOwners(s.memberships, organization) != {}
    requires id in ActiveOwners(s.memberships, organization) ==>
               m.organization == organization && m.role == OrganizationOwner && m.status == Active
    ensures ActiveOwners(s.memberships[id := m], organization) != {}
  {
    OwnersAfterUpdate(s.memberships, id, m, organization);
    var owner :| owner in ActiveOwners(s.memberships, organization);
    if owner != id {
      assert owner in ActiveOwners(s.memberships, organization) - {id};
    }
  }

  lemma GuardedUpdate(s: State, id: string, m: Membership, organization: string)
    requires ActiveOwners(s.memberships, organization) != {}
    requires id in ActiveOwners(s.memberships, organization) ==> |ActiveOwners(s.memberships, organization)| > 1
    ensures ActiveOwners(s.memberships[id := m], organization) != {}
  {
    var owners := ActiveOwners(s.memberships, organization);
    OwnersAfterUpdate(s.memberships, id, m, organization);
    if id in owners {
      AnotherOwner(owners, id);
    } else {
      assert owners - {id} == owners;
    }
  }

  lemma RoleKeepsOwner(s: State, step: Step, organization: string)
    requires step.SetRole? && ActiveOwners(s.memberships, organization) != {}
    ensures ActiveOwners(RoleStep(s, step.organization, step.membership, step.role).0.memberships, organization) != {}
  {
    var (next, r) := RoleStep(s, step.organization, step.membership, step.role);
    if r == Applied {
      if step.role == OrganizationOwner {
        HarmlessUpdate(s, step.membership, next.memberships[step.membership], organization);
      } else {
        GuardedUpdate(s, step.membership, next.memberships[step.membership], organization);
      }
    }
  }

  lemma StatusKeepsOwner(s: State, step: Step, organization: string)
    requires step.SetStatus? && ActiveOwners(s.memberships, organization) != {}
    ensures ActiveOwners(StatusStep(s, step.organization, step.membership, step.status).0.memberships,
                         organization) != {}
  {
    var (next, r) := StatusStep(s, step.organization, step.membership, step.status);
    if r == Applied {
      if step.status == Active {
        HarmlessUpdate(s, step.membership, next.memberships[step.membership], organization);
      } else {
        GuardedUpdate(s, step.membership, next.memberships[step.membership], organization);
      }
    }
  }

  lemma InvitationStepKeepsOwner(s: State, timed: Timed, organization: string)
    requires timed.step.Revoke? || timed.step.Reissue? || timed.step.Accept?
    requires Possible(s, timed) && ActiveOwners(s.memberships, organization) != {}
    ensures ActiveOwners(Next(s, timed).memberships, organization) != {}
  {
    var next := Next(s, timed);
    if next.memberships != s.memberships {
      var id := if timed.step.Accept? then timed.step.found.value else timed.step.invitation;
      var mid := s.invitations[id].membership;
      HarmlessUpdate(s, mid, next.memberships[mid], organization);
    }
  }

  lemma InsertKeepsOwner(s: State, timed: Timed, organization: string)
    requires timed.step.Bootstrap? || timed.step.Create? || timed.step.Enroll?
    requires Possible(s, timed) && ActiveOwners(s.memberships, organization) != {}
    ensures ActiveOwners(Next(s, timed).memberships, organization) != {}
  {
    var next := Next(s, timed);
    if next.memberships != s.memberships {
      var id := if timed.step.Create? then timed.step.generated.membership else timed.step.newMembership;
      HarmlessUpdate(s, id, next.memberships[id], organization);
    }
  }

  lemma StepKeepsOwner(s: State, timed: Timed, organization: string)
    requires Possible(s, timed) && ActiveOwners(s.memberships, organization) != {}
    ensures ActiveOwners(Next(s, timed).memberships, organization) != {}
  {
    match timed.step
    case SetRole(_, _, _) => RoleKeepsOwner(s, timed.step, organization);
    case SetStatus(_, _, _) => StatusKeepsOwner(s, timed.step, organization);
    case Revoke(_, _) => InvitationStepKeepsOwner(s, timed, organization);
    case Reissue(_, _, _, _) => InvitationStepKeepsOwner(s, timed, organization);
    case Accept(_, _, _, _) => InvitationStepKeepsOwner(s, timed, organization);
    case _ => InsertKeepsOwner(s, timed, organization);
  }

  /** From any state, no step takes an organization's last active owner. */
  lemma NoStepTakesTheLastOwner(s: State, timed: Timed, organization: string)
    requires Possible(s, timed) && HasActiveOwner(s.memberships, organization)
    ensures HasActiveOwner(Next(s, timed).memberships, organization)
  {
    OwnersAreCounted(s.memberships, organization);
    StepKeepsOwner(s, timed, organization);
    OwnersAreCounted(Next(s, timed).memberships, organization);
  }

  lemma NextKeepsOwned(s: State, timed: Timed)
    requires Possible(s, timed) && EveryOrganizationOwned(s)
    ensures EveryOrganizationOwned(Next(s, timed))
  {
    var next := Next(s, timed);
    forall organization | organization in next.organizations ensures HasActiveOwner(next.memberships, organization) {
      if organization in s.organizations {
        NoStepTakesTheLastOwner(s, timed, organization);
      } else {
        assert next.memberships[timed.step.newMembership].organization == organization;
      }
    }
  }

  /** In every run every organization has an active owner after every step. */
  lemma {:induction false} OrganizationsStayOwned(states: seq<State>, steps: seq<Timed>)
    requires IsRun(states, steps)
    ensures EveryOrganizationOwned(states[|steps|])
  {
    if steps != [] {
      var n := |steps| - 1;
      assert IsRun(states[..n + 1], steps[..n]);
      OrganizationsStayOwned(states[..n + 1], steps[..n]);
      NextKeepsOwned(states[n], steps[n]);
    }
  }

  // ---- invitations and their memberships ----------------------------------------------------------------------

  function LastIssued(log: seq<Entry>, id: string): Option<string>
  {
    if log == [] then None
    else
      var last := log[|log| - 1];
      if last.Issued? && last.invitation == id then Some(last.token) else LastIssued(log[..|log| - 1], id)
  }

  /** The membership status an invitation's status stands for. */
  predicate StatusesFit(invitation: InvitationStatus, membership: MembershipStatus)
  {
    match invitation
    case Pending => membership == Invited
    case Accepted => membership in {Active, Suspended}
    case Revoked => membership == Archived
    case Expired => false
  }

  predicate InvitationFits(s: State, id: string)
    requires id in s.invitations
  {
    var invitation := s.invitations[id];
    && invitation.membership in s.memberships
    && var m := s.memberships[invitation.membership];
    && m.organization == invitation.organization
    && StatusesFit(invitation.status, m.status)
    && m.scope == invitation.scope
    && (if invitation.status == Accepted then Used(id, invitation.token, m.user) in s.log
        else m.user == invitation.email)
    && LastIssued(s.log, id) == Some(invitation.token)
  }

  /** A token is issued fresh, and used only as the one last issued to its invitation, once. */
  ghost predicate EntryFits(log: seq<Entry>, k: nat)
    requires k < |log|
  {
    if log[k].Issued? then forall j :: 0 <= j < k ==> log[j].token != log[k].token
    else
      && LastIssued(log[..k], log[k].invitation) == Some(log[k].token)
      && forall j :: 0 <= j < k && log[j].Used? ==> log[j].token != log[k].token
  }

  ghost predicate UniqueKeys(memberships: map<string, Membership>)
  {
    forall a, b :: a in memberships && b in memberships && a != b ==> !SameKey(memberships[a], memberships[b])
  }

  ghost predicate Invariant(s: State)
  {
    && (forall id :: id in s.invitations ==> InvitationFits(s, id))
    && (forall a, b :: a in s.invitations && b in s.invitations && a != b ==>
          s.invitations[a].membership != s.invitations[b].membership
              && s.invitations[a].token != s.invitations[b].token)
    && (forall k :: 0 <= k < |s.log| ==> EntryFits(s.log, k))
    && (forall e :: e in s.log && e.Used? ==>
          e.invitation in s.invitations && s.invitations[e.invitation].status == Accepted
          && s.invitations[e.invitation].token == e.token)
    && UniqueKeys(s.memberships)
  }

  lemma EntryAppended(log: seq<Entry>, e: Entry, id: string)
    ensures LastIssued(log + [e], id) == if e.Issued? && e.invitation == id then Some(e.token) else LastIssued(log, id)
  {
    assert (log + [e])[..|log + [e]| - 1] == log;
  }

  lemma EntriesKept(log: seq<Entry>, e: Entry)
    requires forall k :: 0 <= k < |log| ==> EntryFits(log, k)
    requires e.Issued? ==> forall earlier :: earlier in log ==> earlier.token != e.token
    requires e.Used? ==> LastIssued(log, e.invitation) == Some(e.token)
    requires e.Used? ==> forall earlier :: earlier in log && earlier.Used? ==> earlier.token != e.token
    ensures forall k :: 0 <= k < |log + [e]| ==> EntryFits(log + [e], k)
  {
    forall k | 0 <= k < |log + [e]| ensures EntryFits(log + [e], k) {
      if k < |log| {
        assert EntryFits(log, k) && (log + [e])[..k] == log[..k];
      } else {
        assert (log + [e])[..k] == log;
        assert forall j :: 0 <= j < k ==> (log + [e])[j] in log;
      }
    }
  }

  lemma KeysStayUnique(memberships: map<string, Membership>, id: string, m: Membership)
    requires UniqueKeys(memberships) && !KeyTaken(memberships, id, m)
    ensures UniqueKeys(memberships[id := m])
  {
    var next := memberships[id := m];
    forall a, b | a in next && b in next && a != b ensures !SameKey(next[a], next[b]) {
      if a == id {
        assert !SameKey(memberships[b], m);
      } else if b == id {
        assert !SameKey(memberships[a], m);
      }
    }
  }

  /** A membership row is written without touching an invitation. */
  lemma MembershipWritten(s: State, id: string, m: Membership)
    requires Invariant(s) && !KeyTaken(s.memberships, id, m)
    requires id in s.memberships ==>
      var before := s.memberships[id];
      && m.organization == before.organization
      && m == before.(role := m.role, status := m.status)
      && (if before.status in {Active, Suspended} then m.status in {Active, Suspended} else m.status == before.status)
    ensures Invariant(s.(memberships := s.memberships[id := m]))
  {
    KeysStayUnique(s.memberships, id, m);
    var next := s.(memberships := s.memberships[id := m]);
    forall i | i in next.invitations ensures InvitationFits(next, i) {
      assert InvitationFits(s, i);
    }
  }

  lemma KeyOfSelfIsFree(s: State, id: string, m: Membership)
    requires UniqueKeys(s.memberships) && id in s.memberships
    requires SameKey(s.memberships[id], m)
    ensures !KeyTaken(s.memberships, id, m)
  {
  }

  /** An invitation and its membership are written together, with or without a log entry. */
  predicate PairWritten(s: State, next: State, id: string, invitation: Invitation, m: Membership, entries: seq<Entry>)
  {
    && next == State(s.organizations, s.memberships[invitation.membership := m], s.invitations[id := invitation],
                     s.log + entries)
    && m.organization == invitation.organization && StatusesFit(invitation.status, m.status)
    && m.scope == invitation.scope
    && (if invitation.status == Accepted then Used(id, invitation.token, m.user) in next.log
        else m.user == invitation.email)
    && (forall other :: other in s.invitations && other != id ==>
          s.invitations[other].membership != invitation.membership && s.invitations[other].token != invitation.token)
    && LastIssued(next.log, id) == Some(invitation.token)
    && (forall e :: e in entries ==> e.invitation == id)
  }

  lemma PairKeepsInvitations(s: State, next: State, id: string, invitation: Invitation, m: Membership,
                             entries: seq<Entry>)
    requires Invariant(s) && PairWritten(s, next, id, invitation, m, entries)
    requires entries == [] || |entries| == 1
    ensures forall i :: i in next.invitations ==> InvitationFits(next, i)
    ensures forall a, b :: a in next.invitations && b in next.invitations && a != b ==>
              next.invitations[a].membership != next.invitations[b].membership
                  && next.invitations[a].token != next.invitations[b].token
  {
    forall i | i in next.invitations ensures InvitationFits(next, i) {
      if i != id {
        assert InvitationFits(s, i);
        if entries == [] {
          assert next.log == s.log;
        } else {
          assert entries == [entries[0]] && entries[0] in entries;
          EntryAppended(s.log, entries[0], i);
        }
      }
    }
  }

  lemma CreateKeepsInvariant(s: State, organization: string, request: InviteRequest, g: Generated, now: int)
    requires Invariant(s) && forall e :: e in s.log ==> e.token != g.token
    ensures Invariant(CreateStep(s, organization, request, g, now).0)
  {
    var (next, r) := CreateStep(s, organization, request, g, now);
    if r == Applied {
      var invitation, m, e := next.invitations[g.invitation], next.memberships[g.membership],
          Issued(g.invitation, g.token);
      EntryAppended(s.log, e, g.invitation);
      forall other | other in s.invitations ensures s.invitations[other].membership != g.membership {
        assert InvitationFits(s, other);
      }
      PairKeepsInvitations(s, next, g.invitation, invitation, m, [e]);
      EntriesKept(s.log, e);
      KeysStayUnique(s.memberships, g.membership, m);
    }
  }

  lemma RevokeKeepsInvariant(s: State, organization: string, id: string, now: int)
    requires Invariant(s)
    ensures Invariant(RevokeStep(s, organization, id, now).0)
  {
    var (next, r) := RevokeStep(s, organization, id, now);
    if r == Applied {
      assert InvitationFits(s, id);
      var invitation := next.invitations[id];
      var m := next.memberships[invitation.membership];
      assert next.log == s.log + [];
      PairKeepsInvitations(s, next, id, invitation, m, []);
      KeyOfSelfIsFree(s, invitation.membership, m);
      KeysStayUnique(s.memberships, invitation.membership, m);
    }
  }

  lemma ReissuedPair(s: State, organization: string, id: string, expiresAt: int, token: string, now: int)
    requires Invariant(s) && ReissueStep(s, organization, id, expiresAt, token, now).1 == Applied
    ensures var next := ReissueStep(s, organization, id, expiresAt, token, now).0;
      var invitation := next.invitations[id];
      invitation.membership in next.memberships
      && PairWritten(s, next, id, invitation, next.memberships[invitation.membership], [Issued(id, token)])
  {
    assert InvitationFits(s, id);
    EntryAppended(s.log, Issued(id, token), id);
    forall other | other in s.invitations && other != id ensures s.invitations[other].token != token {
      assert other in s.invitations - {id} && (s.invitations - {id})[other] == s.invitations[other];
    }
  }

  lemma ReissueKeepsInvariant(s: State, organization: string, id: string, expiresAt: int, token: string, now: int)
    requires Invariant(s) && forall e :: e in s.log ==> e.token != token
    ensures Invariant(ReissueStep(s, organization, id, expiresAt, token, now).0)
  {
    var (next, r) := ReissueStep(s, organization, id, expiresAt, token, now);
    if r == Applied {
      assert InvitationFits(s, id);
      var invitation := next.invitations[id];
      var m, e := next.memberships[invitation.membership], Issued(id, token);
      ReissuedPair(s, organization, id, expiresAt, token, now);
      PairKeepsInvitations(s, next, id, invitation, m, [e]);
      EntriesKept(s.log, e);
      KeysStayUnique(s.memberships, invitation.membership, m);
    }
  }

  lemma AcceptKeepsInvariant(s: State, id: string, user: string)
    requires Invariant(s) && id in s.invitations && s.invitations[id].status == Pending
    ensures Invariant(AcceptRowStep(s, id, user).0)
    ensures AcceptRowStep(s, id, user).1 in {Applied, Unavailable}
  {
    var (next, r) := AcceptRowStep(s, id, user);
    assert InvitationFits(s, id);
    if r == Applied {
      var invitation := next.invitations[id];
      var m, e := next.memberships[invitation.membership], Used(id, invitation.token, user);
      EntryAppended(s.log, e, id);
      PairKeepsInvitations(s, next, id, invitation, m, [e]);
      EntriesKept(s.log, e);
      KeysStayUnique(s.memberships, invitation.membership, m);
    }
  }

  lemma MembershipStepKeepsInvariant(s: State, timed: Timed)
    requires timed.step.Bootstrap? || timed.step.SetRole? || timed.step.SetStatus? || timed.step.Enroll?
    requires Invariant(s) && Possible(s, timed)
    ensures Invariant(Next(s, timed))
  {
    var next := Next(s, timed);
    if next.memberships != s.memberships {
      var id := if timed.step.SetRole? || timed.step.SetStatus? then timed.step.membership
          else timed.step.newMembership;
      var m := next.memberships[id];
      if timed.step.SetStatus? {
        KeyOfSelfIsFree(s, id, m);
      }
      MembershipWritten(s, id, m);
    }
  }

  lemma NextKeepsInvariant(s: State, timed: Timed)
    requires Invariant(s) && Possible(s, timed)
    ensures Invariant(Next(s, timed))
  {
    match timed.step
    case Create(organization, request, generated) =>
        CreateKeepsInvariant(s, organization, request, generated, timed.now);
    case Revoke(organization, id) => RevokeKeepsInvariant(s, organization, id, timed.now);
    case Reissue(organization, id, expiresAt, token) =>
        ReissueKeepsInvariant(s, organization, id, expiresAt, token, timed.now);
    case Accept(_, user, _, found) =>
      if found.Some? {
        AcceptKeepsInvariant(s, found.value, user);
      }
    case _ => MembershipStepKeepsInvariant(s, timed);
  }

  lemma {:induction false} RunKeepsInvariant(states: seq<State>, steps: seq<Timed>)
    requires IsRun(states, steps)
    ensures Invariant(states[|steps|])
  {
    if steps != [] {
      var n := |steps| - 1;
      assert IsRun(states[..n + 1], steps[..n]);
      RunKeepsInvariant(states[..n + 1], steps[..n]);
      NextKeepsInvariant(states[n], steps[n]);
    }
  }

  // ---- the main results ------------------------------------------------------------------------------------

  /** In every run a pending invitation's membership is invited, an accepted one's is active or
      suspended, a revoked one's is archived, and no invitation shares its membership or token. */
  lemma MembershipsFollowInvitations(states: seq<State>, steps: seq<Timed>, id: string)
    requires IsRun(states, steps) && id in states[|steps|].invitations
    ensures var s := states[|steps|]; var invitation := s.invitations[id];
      && invitation.membership in s.memberships
      && s.memberships[invitation.membership].organization == invitation.organization
      && StatusesFit(invitation.status, s.memberships[invitation.membership].status)
      && forall other :: other in s.invitations && other != id ==>
           s.invitations[other].membership != invitation.membership && s.invitations[other].token != invitation.token
  {
    RunKeepsInvariant(states, steps);
    assert InvitationFits(states[|steps|], id);
  }

  lemma {:induction false} ReplacedTokenIsNotLast(log: seq<Entry>, a: nat, b: nat)
    requires forall k :: 0 <= k < |log| ==> EntryFits(log, k)
    requires a < b < |log| && log[a].Issued? && log[b].Issued? && log[b].invitation == log[a].invitation
    ensures LastIssued(log, log[a].invitation) != Some(log[a].token)
  {
    var n := |log| - 1;
    assert EntryFits(log, n);
    if !(log[n].Issued? && log[n].invitation == log[a].invitation) {
      PrefixFits(log, n);
      ReplacedTokenIsNotLast(log[..n], a, b);
    }
  }

  lemma PrefixFits(log: seq<Entry>, n: nat)
    requires n <= |log| && forall k :: 0 <= k < |log| ==> EntryFits(log, k)
    ensures forall k :: 0 <= k < n ==> EntryFits(log[..n], k)
  {
    forall k | 0 <= k < n ensures EntryFits(log[..n], k) {
      assert EntryFits(log, k) && log[..n][..k] == log[..k];
    }
  }

  /** In every run each token is accepted at most once, and only while it is the one last issued to
      its invitation: once a reissue replaced it, never. */
  lemma TokensAreUsedOnce(states: seq<State>, steps: seq<Timed>, c: nat)
    requires IsRun(states, steps) && c < |states[|steps|].log| && states[|steps|].log[c].Used?
    ensures var log := states[|steps|].log;
      && (forall j :: 0 <= j < |log| && j != c && log[j].Used? ==> log[j].token != log[c].token)
      && !(exists a, b :: 0 <= a < b < c && log[a].Issued? && log[a].token == log[c].token
                          && log[b].Issued? && log[b].invitation == log[a].invitation)
  {
    RunKeepsInvariant(states, steps);
    var log := states[|steps|].log;
    assert EntryFits(log, c);
    forall j | c < j < |log| && log[j].Used? ensures log[j].token != log[c].token {
      assert EntryFits(log, j);
    }
    forall a, b | 0 <= a < b < c && log[a].Issued? && log[b].Issued? && log[b].invitation == log[a].invitation
      ensures log[a].token != log[c].token {
      ReplacedTokenIsDead(log, a, b, c);
    }
  }

  lemma {:induction false} LastIssuedIsIssued(log: seq<Entry>, id: string) returns (k: nat)
    requires LastIssued(log, id).Some?
    ensures k < |log| && log[k] == Issued(id, LastIssued(log, id).value)
  {
    var n := |log| - 1;
    if log[n].Issued? && log[n].invitation == id {
      k := n;
    } else {
      k := LastIssuedIsIssued(log[..n], id);
    }
  }

  lemma ReplacedTokenIsDead(log: seq<Entry>, a: nat, b: nat, c: nat)
    requires forall k :: 0 <= k < |log| ==> EntryFits(log, k)
    requires a < b < c < |log| && log[a].Issued? && log[b].Issued? && log[b].invitation == log[a].invitation
    requires log[c].Used?
    ensures log[c].token != log[a].token
  {
    assert EntryFits(log, c);
    var user := log[c].invitation;
    var k := LastIssuedIsIssued(log[..c], user);
    assert EntryFits(log, a) && EntryFits(log, k);
    PrefixFits(log, c);
    ReplacedTokenIsNotLast(log[..c], a, b);
  }

  /** A membership in any status, archived ones included, holds the key. */
  predicate KeyHeld(memberships: map<string, Membership>, organization: string, user: string, role: Role, scope: Scope)
  {
    exists id :: id in memberships && memberships[id].organization == organization && memberships[id].user == user
      && memberships[id].role == role && memberships[id].scope == scope
  }

  /** What an invitation needs besides a free key: an existing organization, a valid email, no live
      pending invitation of it, and generated ids and a token that are new. */
  ghost predicate Invitable(s: State, organization: string, request: InviteRequest, g: Generated, now: int)
  {
    && organization in s.organizations
    && ValidInviteeEmail(FoldEmail(request.email))
    && !PendingExists(s.invitations, organization, FoldEmail(request.email), now)
    && g.membership !in s.memberships && g.invitation !in s.invitations
    && forall e :: e in s.log ==> e.token != g.token
  }

  lemma UnissuedTokenIsFree(s: State, token: string)
    requires Invariant(s) && forall e :: e in s.log ==> e.token != token
    ensures !TokenTaken(s.invitations, token)
  {
    forall id | id in s.invitations ensures s.invitations[id].token != token {
      assert InvitationFits(s, id);
      var k := LastIssuedIsIssued(s.log, id);
    }
  }

  lemma CreateAppliesIff(s: State, organization: string, request: InviteRequest, g: Generated, now: int)
    requires Invariant(s) && Invitable(s, organization, request, g, now)
    ensures CreateStep(s, organization, request, g, now).1 == Applied
       <==> !KeyHeld(s.memberships, organization, FoldEmail(request.email), request.role,
                     ScopeOf(request, organization))
  {
    UnissuedTokenIsFree(s, g.token);
    var m := Membership(organization, FoldEmail(request.email), request.role, Invited, ScopeOf(request, organization));
    assert forall id :: id in s.memberships ==> id != g.membership;
    assert KeyTaken(s.memberships, g.membership, m)
      <==> KeyHeld(s.memberships, m.organization, m.user, m.role, m.scope);
  }

  /** In every run, an otherwise possible invitation applies if and only if no membership of the
      organization, in any status, holds the email, role and scope. */
  lemma InvitationAppliesIff(states: seq<State>, steps: seq<Timed>, organization: string, request: InviteRequest,
                             g: Generated, now: int)
    requires IsRun(states, steps) && Invitable(states[|steps|], organization, request, g, now)
    ensures var s := states[|steps|];
      CreateStep(s, organization, request, g, now).1 == Applied
      <==> !KeyHeld(s.memberships, organization, FoldEmail(request.email), request.role, ScopeOf(request, organization))
  {
    RunKeepsInvariant(states, steps);
    CreateAppliesIff(states[|steps|], organization, request, g, now);
  }

  /** Pending, and not lapsed: it lapses at its expiry, if it has one. */
  predicate Open(invitation: Invitation, now: int)
  {
    invitation.status == Pending && (invitation.expiresAt.Some? ==> now < invitation.expiresAt.value)
  }

  /** In every run, a reissue under a new token applies exactly to an invitation of the organization
      that is neither accepted nor open, for an expiry in the future. */
  lemma ReissueAppliesIff(states: seq<State>, steps: seq<Timed>, organization: string, id: string, expiresAt: int,
                          token: string, now: int)
    requires IsRun(states, steps) && forall e :: e in states[|steps|].log ==> e.token != token
    ensures var s := states[|steps|];
      ReissueStep(s, organization, id, expiresAt, token, now).1 == Applied
      <==> id in s.invitations && s.invitations[id].organization == organization && now < expiresAt
           && s.invitations[id].status != Accepted && !Open(s.invitations[id], now)
  {
    RunKeepsInvariant(states, steps);
    var s := states[|steps|];
    if id in s.invitations && Reissuable(s, organization, id, expiresAt, now) {
      assert InvitationFits(s, id);
      var invitation := s.invitations[id];
      var m := s.memberships[invitation.membership];
      KeyOfSelfIsFree(s, invitation.membership, m.(user := invitation.email, status := Invited));
      UnissuedTokenIsFree(s, token);
    }
  }

  /** The request asks for exactly what an invitation's membership holds. */
  predicate AsksForTheSame(s: State, id: string, request: InviteRequest)
    requires id in s.invitations && s.invitations[id].membership in s.memberships
  {
    var m := s.memberships[s.invitations[id].membership];
    FoldEmail(request.email) == s.invitations[id].email && request.role == m.role
    && ScopeOf(request, m.organization) == m.scope
  }

  /** An invitation that was not accepted keeps its key: while its membership has the role asked
      for, inviting the email again for that role and scope never applies. */
  lemma UnacceptedInvitationHoldsItsKey(states: seq<State>, steps: seq<Timed>, id: string, request: InviteRequest,
                                        g: Generated, now: int)
    requires IsRun(states, steps) && id in states[|steps|].invitations
    requires states[|steps|].invitations[id].status != Accepted
    requires states[|steps|].invitations[id].membership in states[|steps|].memberships
    requires AsksForTheSame(states[|steps|], id, request)
    ensures var s := states[|steps|];
      CreateStep(s, s.invitations[id].organization, request, g, now).1 != Applied
  {
    RunKeepsInvariant(states, steps);
    var s := states[|steps|];
    assert InvitationFits(s, id);
    var m := s.memberships[s.invitations[id].membership];
    assert SameKey(m, Membership(m.organization, FoldEmail(request.email), request.role, Invited,
                                 ScopeOf(request, m.organization)));
  }

  /** A role change lets the key go, archived or not: after it the same email can be invited for
      the old role and scope without any reissue. */
  lemma RoleChangeFreesTheKey(states: seq<State>, steps: seq<Timed>, id: string, role: Role, request: InviteRequest,
                              g: Generated, now: int)
    requires IsRun(states, steps) && id in states[|steps|].invitations
    requires states[|steps|].invitations[id].status != Accepted
    requires states[|steps|].invitations[id].membership in states[|steps|].memberships
    requires AsksForTheSame(states[|steps|], id, request) && role != request.role
    requires Invitable(states[|steps|], states[|steps|].invitations[id].organization, request, g, now)
    requires var s := states[|steps|];
      RoleStep(s, s.invitations[id].organization, s.invitations[id].membership, role).1 == Applied
    ensures var s := states[|steps|]; var organization := s.invitations[id].organization;
      var changed := RoleStep(s, organization, s.invitations[id].membership, role).0;
      CreateStep(changed, organization, request, g, now).1 == Applied
  {
    RunKeepsInvariant(states, steps);
    var s := states[|steps|];
    assert InvitationFits(s, id);
    var invitation := s.invitations[id];
    var mid := invitation.membership;
    var changed := RoleStep(s, invitation.organization, mid, role).0;
    MembershipWritten(s, mid, changed.memberships[mid]);
    CreateAppliesIff(changed, invitation.organization, request, g, now);
    forall other | other in changed.memberships
      ensures !SameKey(changed.memberships[other], s.memberships[mid]) {
      if other != mid {
        assert !SameKey(s.memberships[other], s.memberships[mid]);
      }
    }
  }

  // ---- what each answer means -----------------------------------------------------------------------------------

  /** Folding an email trims it and lower-cases its ASCII letters, and nothing else. */
  lemma FoldedEmail(email: string, i: nat)
    requires i < |Trim(email)|
    ensures |FoldEmail(email)| == |Trim(email)|
    ensures var c, folded := Trim(email)[i], FoldEmail(email)[i];
      if 'A' <= c <= 'Z' then 'a' <= folded <= 'z' && folded as int - 'a' as int == c as int - 'A' as int
      else folded == c
  {
  }

  /** An invitation may be accepted with this token by this email: it is open and both are its own. */
  predicate Offered(s: State, id: string, token: string, email: string, now: int)
  {
    id in s.invitations && Open(s.invitations[id], now)
    && s.invitations[id].token == token && s.invitations[id].email == email
  }

  lemma OfferedIsAcceptable(s: State, id: string, token: string, email: string, now: int)
    ensures Offered(s, id, token, email, now) <==> Acceptable(s.invitations, id, token, email, now)
  {
  }

  /** A bootstrap is refused exactly to a user with an active membership anywhere, but for a taken id.
      It makes the user the active owner of a new organization, who cannot bootstrap again. */
  lemma BootstrapAnswer(s: State, user: string, organization: string, membership: string, again: string, other: string)
    ensures var (next, r) := BootstrapStep(s, user, organization, membership);
      && (r == AlreadyMember <==>
            exists id :: id in s.memberships && s.memberships[id].user == user && s.memberships[id].status == Active)
      && (r == Applied ==>
            && next == s.(organizations := s.organizations + {organization},
                          memberships := s.memberships[membership := next.memberships[membership]])
            && next.memberships[membership].organization == organization
            && next.memberships[membership].user == user && next.memberships[membership].role == OrganizationOwner
            && next.memberships[membership].status == Active
            && next.memberships[membership].scope == Scope("organization", organization)
            && BootstrapStep(next, user, again, other).1 == AlreadyMember)
      && (r != Applied ==> next == s)
      && (r == Unavailable && organization !in s.organizations && membership !in s.memberships ==>
            exists id :: id in s.memberships && s.memberships[id].organization == organization)
  {
    var next := BootstrapStep(s, user, organization, membership).0;
    if BootstrapStep(s, user, organization, membership).1 == Applied {
      assert next.memberships[membership].user == user && next.memberships[membership].status == Active;
    }
  }

  /** What an applied invitation offers: the role and scope asked for, the whole organization where no
      scope is, to the folded email, under the generated token until it lapses. */
  predicate OffersWhatWasAsked(organization: string, request: InviteRequest, g: Generated, invitation: Invitation,
                               m: Membership)
  {
    && invitation.organization == m.organization == organization
    && invitation.email == m.user == FoldEmail(request.email)
    && invitation.role == m.role == request.role
    && invitation.scope == m.scope
    && m.scope.kind == (if request.scopeType.Some? then request.scopeType.value else "organization")
    && m.scope.id == (if request.scopeId.Some? then request.scopeId.value else organization)
    && invitation.token == g.token && invitation.membership == g.membership
    && invitation.expiresAt == request.expiresAt
    && invitation.status == Pending && m.status == Invited
  }

  predicate HasOpenInvitation(s: State, organization: string, email: string, now: int)
  {
    exists id :: id in s.invitations && s.invitations[id].organization == organization
      && s.invitations[id].email == email && Open(s.invitations[id], now)
  }

  /** An invitation is invalid for a malformed email, in conflict with a live pending one of the email,
      and otherwise applied or refused by a constraint. Applied, it adds one invitation and its
      membership. */
  lemma InvitationAnswer(s: State, organization: string, request: InviteRequest, g: Generated, now: int)
    ensures var (next, r) := CreateStep(s, organization, request, g, now); var email := FoldEmail(request.email);
      && (r == Invalid <==>
            !(1 <= |email| <= 320 && '@' in email && forall i :: 0 <= i < |email| ==> !IsWhitespace(email[i])))
      && (r == Conflict <==> r != Invalid && HasOpenInvitation(s, organization, email, now))
      && r in {Invalid, Conflict, Unavailable, Applied} && (r != Applied ==> next == s)
      && (r == Applied ==>
            && g.invitation in next.invitations && g.membership in next.memberships
            && g.invitation !in s.invitations && g.membership !in s.memberships
            && next == s.(memberships := s.memberships[g.membership := next.memberships[g.membership]],
                          invitations := s.invitations[g.invitation := next.invitations[g.invitation]],
                          log := s.log + [Issued(g.invitation, g.token)])
            && OffersWhatWasAsked(organization, request, g, next.invitations[g.invitation],
                                  next.memberships[g.membership]))
  {
    var email := FoldEmail(request.email);
    assert forall c :: c in email <==> exists i :: 0 <= i < |email| && email[i] == c;
    PendingIsOpen(s, organization, email, now);
  }

  lemma PendingIsOpen(s: State, organization: string, email: string, now: int)
    ensures PendingExists(s.invitations, organization, email, now) <==> HasOpenInvitation(s, organization, email, now)
  {
    if PendingExists(s.invitations, organization, email, now) {
      var id :| id in s.invitations && s.invitations[id].organization == organization
        && s.invitations[id].email == email && LivePending(s.invitations[id], now);
      assert Open(s.invitations[id], now);
    }
    if HasOpenInvitation(s, organization, email, now) {
      var id :| id in s.invitations && s.invitations[id].organization == organization
        && s.invitations[id].email == email && Open(s.invitations[id], now);
      assert LivePending(s.invitations[id], now);
    }
  }

  /** Acceptance by the right email before the offer lapses gives the accepting user the invitation's
      membership, active, in the role it has, and changes nobody else's. That user cannot bootstrap
      afterwards. */
  lemma AcceptanceMakesTheMember(s: State, token: string, user: string, email: Option<string>, now: int,
                                 found: Option<string>, again: string, other: string)
    requires Invariant(s) && FoundIs(s, token, email, now, found)
    ensures var (next, r) := AcceptStep(s, token, user, email, found);
      && (r != Applied ==> next == s)
      && (r == Invalid <==> Trim(token) == "" || (email.Some? && !ValidInviteeEmail(FoldEmail(email.value))))
      && (r != Invalid && email.None? ==> r == Conflict)
      && (r == Applied ==>
            && found.Some? && email.Some? && Offered(s, found.value, Trim(token), FoldEmail(email.value), now)
            && var id := found.value; var mid := s.invitations[id].membership;
            && mid in s.memberships
            && next.memberships == s.memberships[mid := s.memberships[mid].(user := user, status := Active)]
            && next.invitations == s.invitations[id := s.invitations[id].(status := Accepted)]
            && next.organizations == s.organizations
            && next.log == s.log + [Used(id, Trim(token), user)]
            && s.memberships[mid].status == Invited && s.memberships[mid].scope == s.invitations[id].scope
            && s.memberships[mid].organization == s.invitations[id].organization
            && BootstrapStep(next, user, again, other).1 == AlreadyMember)
  {
    var (next, r) := AcceptStep(s, token, user, email, found);
    if found.Some? {
      assert InvitationFits(s, found.value);
      AcceptKeepsInvariant(s, found.value, user);
    }
    if r == Applied {
      OfferedIsAcceptable(s, found.value, Trim(token), FoldEmail(email.value), now);
      BootstrapAnswer(next, user, again, other, again, other);
      var mid := s.invitations[found.value].membership;
      assert next.memberships[mid].user == user && next.memberships[mid].status == Active;
    }
  }

  /** Another membership than `mid` has the organization, user, role and scope. */
  predicate HeldElsewhere(memberships: map<string, Membership>, mid: string, organization: string, user: string,
                          role: Role, scope: Scope)
  {
    exists id :: id in memberships && id != mid && memberships[id].organization == organization
      && memberships[id].user == user && memberships[id].role == role && memberships[id].scope == scope
  }

  lemma KeyTakenIffHeld(memberships: map<string, Membership>, mid: string, m: Membership)
    ensures KeyTaken(memberships, mid, m)
       <==> HeldElsewhere(memberships, mid, m.organization, m.user, m.role, m.scope)
  {
    if KeyTaken(memberships, mid, m) {
      var id :| id in memberships && id != mid && SameKey(memberships[id], m);
      assert memberships[id].user == m.user;
    }
    if HeldElsewhere(memberships, mid, m.organization, m.user, m.role, m.scope) {
      var id :| id in memberships && id != mid && memberships[id].organization == m.organization
        && memberships[id].user == m.user && memberships[id].role == m.role && memberships[id].scope == m.scope;
      assert SameKey(memberships[id], m);
    }
  }

  /** The user holds another membership with the role and scope of this one. */
  predicate HoldsAlready(s: State, mid: string, user: string)
    requires mid in s.memberships
  {
    var m := s.memberships[mid];
    HeldElsewhere(s.memberships, mid, m.organization, user, m.role, m.scope)
  }

  /** ... and it is applied exactly when there is such an offer and the user holds no other membership
      with its role and scope. */
  lemma AcceptanceAppliesIff(states: seq<State>, steps: seq<Timed>, token: string, user: string, email: string,
                             now: int, found: Option<string>)
    requires IsRun(states, steps) && FoundIs(states[|steps|], token, Some(email), now, found)
    requires !IsBlank(token) && ValidInviteeEmail(FoldEmail(email))
    ensures var s := states[|steps|]; var r := AcceptStep(s, token, user, Some(email), found).1;
      && (r == Conflict <==> forall id :: !Offered(s, id, Trim(token), FoldEmail(email), now))
      && (r == Applied <==>
            exists id :: Offered(s, id, Trim(token), FoldEmail(email), now)
              && s.invitations[id].membership in s.memberships
              && !HoldsAlready(s, s.invitations[id].membership, user))
  {
    RunKeepsInvariant(states, steps);
    var s := states[|steps|];
    forall id ensures Offered(s, id, Trim(token), FoldEmail(email), now)
                 <==> Acceptable(s.invitations, id, Trim(token), FoldEmail(email), now) {
      OfferedIsAcceptable(s, id, Trim(token), FoldEmail(email), now);
    }
    if found.Some? {
      assert InvitationFits(s, found.value);
      AcceptKeepsInvariant(s, found.value, user);
      AcceptedUnlessHeld(s, found.value, user);
    }
  }

  lemma AcceptedUnlessHeld(s: State, id: string, user: string)
    requires Invariant(s) && id in s.invitations && s.invitations[id].membership in s.memberships
    ensures AcceptRowStep(s, id, user).1 == (if HoldsAlready(s, s.invitations[id].membership, user) then Unavailable
                                             else Applied)
  {
    assert InvitationFits(s, id);
    var mid := s.invitations[id].membership;
    var m := s.memberships[mid].(user := user, status := Active);
    KeyTakenIffHeld(s.memberships, mid, m);
  }

  /** In every run an accepted invitation's membership is held by the user who accepted it, in the
      invitation's organization and scope. */
  lemma AcceptedMembershipIsTheUsers(states: seq<State>, steps: seq<Timed>, id: string)
    requires IsRun(states, steps) && id in states[|steps|].invitations
    requires states[|steps|].invitations[id].status == Accepted
    ensures var s := states[|steps|]; var invitation := s.invitations[id];
      && invitation.membership in s.memberships
      && var m := s.memberships[invitation.membership];
      && m.organization == invitation.organization && m.scope == invitation.scope
      && (forall user :: Used(id, invitation.token, user) in s.log <==> user == m.user)
  {
    RunKeepsInvariant(states, steps);
    var s := states[|steps|];
    assert InvitationFits(s, id);
    var invitation := s.invitations[id];
    var mine := Used(id, invitation.token, s.memberships[invitation.membership].user);
    var k :| 0 <= k < |s.log| && s.log[k] == mine;
    forall user | Used(id, invitation.token, user) in s.log ensures user == mine.user {
      var j :| 0 <= j < |s.log| && s.log[j] == Used(id, invitation.token, user);
      assert EntryFits(s.log, j) && EntryFits(s.log, k);
    }
  }

  /** A revocation applies exactly to an open invitation of the organization. It archives the invited
      membership, and no one can accept the invitation any more. */
  lemma RevocationAnswer(s: State, organization: string, id: string, now: int, token: string, email: string, later: int)
    requires Invariant(s)
    ensures var (next, r) := RevokeStep(s, organization, id, now);
      && (r == Applied <==> id in s.invitations && s.invitations[id].organization == organization
                            && Open(s.invitations[id], now))
      && (r != Applied ==> next == s && r == Conflict)
      && (r == Applied ==>
            && var mid := s.invitations[id].membership;
            && mid in s.memberships
            && next == s.(invitations := s.invitations[id := s.invitations[id].(status := Revoked)],
                          memberships := s.memberships[mid := s.memberships[mid].(status := Archived)])
            && !Offered(next, id, token, email, later))
  {
    if id in s.invitations {
      assert InvitationFits(s, id);
    }
  }

  /** A reissue opens the invitation again under the new token until the new expiry, and its
      membership is invited again in the role it has. */
  lemma ReissueOffersAgain(s: State, organization: string, id: string, expiresAt: int, token: string, now: int,
                           other: string, email: string, later: int)
    requires Invariant(s) && ReissueStep(s, organization, id, expiresAt, token, now).1 == Applied
    ensures var next := ReissueStep(s, organization, id, expiresAt, token, now).0;
      && id in s.invitations && s.invitations[id].membership in s.memberships
      && var mid := s.invitations[id].membership;
      && next.memberships == s.memberships[mid := s.memberships[mid].(status := Invited)]
      && next.organizations == s.organizations && next.log == s.log + [Issued(id, token)]
      && next.invitations == s.invitations[id := next.invitations[id]]
      && next.invitations[id] == s.invitations[id].(status := Pending, token := token, expiresAt := Some(expiresAt))
      && (Offered(next, id, other, email, later)
          <==> other == token && email == s.invitations[id].email && later < expiresAt)
  {
    assert InvitationFits(s, id);
  }

  /** No active owner of the organization but this membership. */
  predicate OnlyOwner(memberships: map<string, Membership>, organization: string, id: string)
    requires id in memberships
  {
    && memberships[id].role == OrganizationOwner && memberships[id].status == Active
    && !(exists other :: other in memberships && memberships[other].organization == organization && other != id
                         && memberships[other].role == OrganizationOwner && memberships[other].status == Active)
  }

  lemma OnlyOwnerIffOne(memberships: map<string, Membership>, organization: string, id: string)
    requires id in memberships && memberships[id].organization == organization
    requires memberships[id].role == OrganizationOwner && memberships[id].status == Active
    ensures |ActiveOwners(memberships, organization)| <= 1 <==> OnlyOwner(memberships, organization, id)
  {
    var owners := ActiveOwners(memberships, organization);
    assert id in owners;
    if OnlyOwner(memberships, organization, id) {
      assert owners == {id};
    } else {
      var other :| other in memberships && memberships[other].organization == organization
        && memberships[other].role == OrganizationOwner && memberships[other].status == Active && other != id;
      assert {id, other} <= owners;
      SubsetIsNoLarger({id, other}, owners);
    }
  }

  /** A role change is refused for a membership of another organization, for the only active owner
      unless the role stays, and for a role whose key another membership of the user holds. */
  lemma RoleAnswer(s: State, organization: string, id: string, role: Role)
    ensures var (next, r) := RoleStep(s, organization, id, role);
      if id !in s.memberships || s.memberships[id].organization != organization then r == NotFound && next == s
      else if OnlyOwner(s.memberships, organization, id) && role != OrganizationOwner then
        r == LastActiveOwner && next == s
      else if HeldElsewhere(s.memberships, id, organization, s.memberships[id].user, role, s.memberships[id].scope) then
        r == Unavailable && next == s
      else
        r == Applied
        && next == s.(memberships := s.memberships[id := next.memberships[id]])
        && next.memberships[id] == s.memberships[id].(role := role)
  {
    if id in s.memberships && s.memberships[id].organization == organization {
      KeyTakenIffHeld(s.memberships, id, s.memberships[id].(role := role));
      if s.memberships[id].role == OrganizationOwner && s.memberships[id].status == Active {
        OnlyOwnerIffOne(s.memberships, organization, id);
      }
    }
  }

  /** A status change moves a membership of the organization between active and suspended, but never
      suspends its only active owner. */
  lemma StatusAnswer(s: State, organization: string, id: string, status: MembershipStatus)
    ensures var (next, r) := StatusStep(s, organization, id, status);
      if status != Active && status != Suspended then r == NotManageable && next == s
      else if id !in s.memberships || s.memberships[id].organization != organization then r == NotFound && next == s
      else if s.memberships[id].status != Active && s.memberships[id].status != Suspended then
        r == NotManageable && next == s
      else if OnlyOwner(s.memberships, organization, id) && status == Suspended then r == LastActiveOwner && next == s
      else
        r == Applied
        && next == s.(memberships := s.memberships[id := next.memberships[id]])
        && next.memberships[id] == s.memberships[id].(status := status)
  {
    if id in s.memberships && s.memberships[id].organization == organization
       && s.memberships[id].role == OrganizationOwner && s.memberships[id].status == Active {
      OnlyOwnerIffOne(s.memberships, organization, id);
    }
  }

  // ---- a revoked invitee, step by step ------------------------------------------------------------------------

  const ASK := InviteRequest("a@b", Manager, None, None, None)
  const HOME := Scope("organization", "o")
  const FOUNDER := Membership("o", "u", OrganizationOwner, Active, HOME)
  const GUEST := Membership("o", "a@b", Manager, Archived, HOME)
  const LETTER := Invitation("o", "a@b", Manager, Revoked, HOME, "t1", "m1", None)

  /** The state after a bootstrap, an invitation and its revocation. */
  const REVOKED := State({"o"}, map["m0" := FOUNDER, "m1" := GUEST], map["i1" := LETTER], [Issued("i1", "t1")])

  lemma AskFolds()
    ensures FoldEmail(ASK.email) == "a@b" && ValidInviteeEmail("a@b")
  {
    TrimOfUnpadded("a@b");
    assert LowerAscii("a@b") == "a@b";
    assert "a@b"[1] == '@';
  }

  lemma RevokedIsReached()
    ensures var started := BootstrapStep(EMPTY, "u", "o", "m0");
      var invited := CreateStep(started.0, "o", ASK, Generated("i1", "m1", "t1"), 0);
      var revoked := RevokeStep(invited.0, "o", "i1", 1);
      started.1 == Applied && invited.1 == Applied && revoked.1 == Applied && revoked.0 == REVOKED
  {
    AskFolds();
    var started := BootstrapStep(EMPTY, "u", "o", "m0");
    assert started.0.memberships == map["m0" := FOUNDER];
    var invited := CreateStep(started.0, "o", ASK, Generated("i1", "m1", "t1"), 0);
    assert invited.1 == Applied;
    assert invited.0.memberships == map["m0" := FOUNDER, "m1" := GUEST.(status := Invited)];
    assert invited.0.invitations == map["i1" := LETTER.(status := Pending)];
  }

  /** After a bootstrap, an invitation and its revocation, inviting the same email again is answered
      "unavailable". */
  lemma ReinvitationIsRefused()
    ensures CreateStep(REVOKED, "o", ASK, Generated("i2", "m2", "t2"), 2).1 == Unavailable
  {
    AskFolds();
    assert !PendingExists(REVOKED.invitations, "o", "a@b", 2);
    assert "m1" in REVOKED.memberships && "m1" != "m2" && SameKey(REVOKED.memberships["m1"], GUEST.(status := Invited));
  }

  const CHANGED := REVOKED.(memberships := map["m0" := FOUNDER, "m1" := GUEST.(role := CrewMember)])

  lemma RoleIsChanged()
    ensures RoleStep(REVOKED, "o", "m1", CrewMember) == (CHANGED, Applied)
  {
    assert !KeyTaken(REVOKED.memberships, "m1", GUEST.(role := CrewMember));
    assert REVOKED.memberships["m1" := GUEST.(role := CrewMember)] == CHANGED.memberships;
  }

  /** Changing the archived membership's role makes the very same invitation apply. */
  lemma RoleChangeReadmits()
    ensures CreateStep(CHANGED, "o", ASK, Generated("i2", "m2", "t2"), 2).1 == Applied
  {
    AskFolds();
    assert !PendingExists(CHANGED.invitations, "o", "a@b", 2);
    assert !TokenTaken(CHANGED.invitations, "t2");
  }

  /** The two answers at the end of one run: bootstrap, invite, revoke, then invite again, before and
      after the role change. */
  lemma RevokedInviteeReturnsByRoleChange()
    ensures var started := BootstrapStep(EMPTY, "u", "o", "m0").0;
      var invited := CreateStep(started, "o", ASK, Generated("i1", "m1", "t1"), 0).0;
      var revoked := RevokeStep(invited, "o", "i1", 1).0;
      var changed := RoleStep(revoked, "o", "m1", CrewMember).0;
      && CreateStep(revoked, "o", ASK, Generated("i2", "m2", "t2"), 2).1 == Unavailable
      && CreateStep(changed, "o", ASK, Generated("i2", "m2", "t2"), 2).1 == Applied
  {
    RevokedIsReached();
    ReinvitationIsRefused();
    RoleIsChanged();
    RoleChangeReadmits();
  }
}
