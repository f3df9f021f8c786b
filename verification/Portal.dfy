/** What a customer's portal grants let them see: one authorization check, the property list, and
    the visit threads the message and recommendation calls may lock. */
module Portal {
  import opened Options
  import opened Text
  import V = VisitThread

  datatype Grant = Grant(
    id: string, user: string, organization: string, account: string, property: string,
    role: string, scopeType: string, scopeId: string, active: bool)

  datatype Membership = Membership(id: string, user: string, organization: string, role: string, status: string,
                                   scopeType: string, scopeId: string)

  datatype Property = Property(organization: string, account: string, status: string)

  datatype Release = Release(activation: string, organization: string, account: string, property: string)

  datatype Activation = Activation(organization: string, account: string, property: string)

  datatype Thread = Thread(release: string, organization: string, account: string, property: string)

  /** The tables the queries join, by primary key. Organizations and customer relations are given
      by the keys of their active rows, active relationships by their activation. */
  datatype Tables = Tables(
    grants: set<Grant>, memberships: set<Membership>, activeOrganizations: set<string>,
    activeRelations: set<(string, string)>, properties: map<string, Property>,
    threads: map<string, Thread>, releases: map<string, Release>, activations: map<string, Activation>,
    activeRelationships: set<string>)

  /** `scope_includes_property` */
  predicate ScopeIncludesProperty(scopeType: string, scopeId: string, account: string, property: string)
  {
    if scopeType == "customer_account" then scopeId == account
    else if scopeType == "property" then scopeId == property
    else false
  }

  // ---- the authorization queries -------------------------------------------------------------------------

  function ActiveGrants(t: Tables, user: string): set<Grant>
  {
    set g | g in t.grants && g.user == user && g.active
  }

  predicate HasMembership(t: Tables, g: Grant)
  {
    exists m :: m in t.memberships && m.organization == g.organization && m.user == g.user && m.role == g.role
      && m.status == "active" && m.scopeType == g.scopeType && m.scopeId == g.scopeId
  }

  /** A row of `valid_grants` */
  predicate ValidGrant(t: Tables, g: Grant)
  {
    && g.organization in t.activeOrganizations
    && (g.organization, g.account) in t.activeRelations
    && g.property in t.properties
    && t.properties[g.property].organization == g.organization && t.properties[g.property].account == g.account
    && HasMembership(t, g)
    && ((g.scopeType == "customer_account" && g.scopeId == g.account)
        || (g.scopeType == "property" && g.scopeId == g.property))
  }

  function ValidGrants(t: Tables, user: string): set<Grant>
  {
    set g | g in ActiveGrants(t, user) && ValidGrant(t, g)
  }

  /** The two counts decide: no active grant, some invalid one, or all valid. */
  function CustomerAuthorization(t: Tables, user: string): V.Authorization
  {
    if |ActiveGrants(t, user)| == 0 then V.NotAuthorized
    else if |ActiveGrants(t, user)| != |ValidGrants(t, user)| then V.Invalid
    else V.Valid
  }

  /** What makes a grant valid: its organization and customer relation are active, its property is the
      account's, an active membership of the same user has the grant's role and scope, and the scope
      covers the property. */
  ghost predicate Backed(t: Tables, g: Grant)
  {
    && g.organization in t.activeOrganizations && (g.organization, g.account) in t.activeRelations
    && g.property in t.properties && t.properties[g.property].organization == g.organization
    && t.properties[g.property].account == g.account
    && ScopeIncludesProperty(g.scopeType, g.scopeId, g.account, g.property)
    && exists id, status ::
         Membership(id, g.user, g.organization, g.role, status, g.scopeType, g.scopeId) in t.memberships
         && status == "active"
  }

  lemma BackedIffValid(t: Tables, g: Grant)
    ensures Backed(t, g) <==> ValidGrant(t, g)
  {
    if HasMembership(t, g) {
      var m :| m in t.memberships && m.organization == g.organization && m.user == g.user && m.role == g.role
        && m.status == "active" && m.scopeType == g.scopeType && m.scopeId == g.scopeId;
      assert m == Membership(m.id, g.user, g.organization, g.role, m.status, g.scopeType, g.scopeId);
    }
    if id, status :| Membership(id, g.user, g.organization, g.role, status, g.scopeType, g.scopeId) in t.memberships
                     && status == "active" {
      assert HasMembership(t, g);
    }
  }

  /** The counts of active and of valid grants agree exactly when every active grant is valid. */
  lemma CountsAgreeIff(t: Tables, user: string)
    ensures |ActiveGrants(t, user)| == |ValidGrants(t, user)|
        <==> forall g :: g in ActiveGrants(t, user) ==> ValidGrant(t, g)
    ensures |ActiveGrants(t, user)| == 0 <==> ActiveGrants(t, user) == {}
  {
    var active, valid := ActiveGrants(t, user), ValidGrants(t, user);
    assert valid <= active && active == valid + (active - valid);
    if |active| == |valid| {
      assert |active - valid| == 0;
      assert active == valid;
    }
    if forall g :: g in active ==> ValidGrant(t, g) {
      assert active == valid;
    }
  }

  /** Comparing the counts is enough: the customer is authorized exactly with some active grant and
      every active grant backed, and a single one that is not, whatever the others allow, makes the
      authorization invalid. */
  lemma CountsDecide(t: Tables, user: string)
    ensures CustomerAuthorization(t, user) == V.NotAuthorized
        <==> forall g :: g in t.grants && g.user == user ==> !g.active
    ensures CustomerAuthorization(t, user) == V.Invalid
        <==> exists g :: g in t.grants && g.user == user && g.active && !Backed(t, g)
    ensures CustomerAuthorization(t, user) == V.Valid ==>
      forall g :: g in ActiveGrants(t, user) ==> ValidGrant(t, g)
  {
    CountsAgreeIff(t, user);
    forall g ensures Backed(t, g) <==> ValidGrant(t, g) {
      BackedIffValid(t, g);
    }
    if forall g :: g in t.grants && g.user == user ==> !g.active {
      assert forall g :: g !in ActiveGrants(t, user);
    } else {
      var g :| g in t.grants && g.user == user && g.active;
      assert g in ActiveGrants(t, user);
    }
  }

  // ---- the property list -----------------------------------------------------------------------------------

  /** The join of a valid grant with the properties it lists. */
  predicate Lists(t: Tables, g: Grant, id: string)
    requires id in t.properties
  {
    var p := t.properties[id];
    && p.organization == g.organization && p.account == g.account && p.status != "archived"
    && ((g.scopeType == "customer_account" && g.scopeId == p.account) || (g.scopeType == "property" && g.scopeId == id))
  }

  function AuthorizedProperties(t: Tables, user: string): set<string>
  {
    set id | id in t.properties && exists g :: g in ValidGrants(t, user) && Lists(t, g, id)
  }

  datatype EffectiveScope = AccountScope | PropertyScope

  /** `effective_scope_type` of a listed property */
  function EffectiveScopeType(t: Tables, user: string, id: string): EffectiveScope
    requires id in t.properties
  {
    if exists g :: g in ValidGrants(t, user) && Lists(t, g, id) && g.scopeType == "customer_account" then AccountScope
        else PropertyScope
  }

  datatype ListResult = Loaded(properties: map<string, EffectiveScope>) | NotAuthorized | InvalidAuthorization

  /** `list_authorized_properties`: the listed properties with their effective scope type. */
  function ListAuthorizedProperties(t: Tables, user: string): ListResult
  {
    var u := Trim(user);
    if |ActiveGrants(t, u)| == 0 then NotAuthorized
    else if |ActiveGrants(t, u)| != |ValidGrants(t, u)| then InvalidAuthorization
    else Loaded(map id | id in AuthorizedProperties(t, u) :: EffectiveScopeType(t, u, id))
  }

  /** Some active grant of the user covers the property. */
  predicate Covered(t: Tables, user: string, id: string)
  {
    id in t.properties && t.properties[id].status != "archived"
    && exists g :: g in ActiveGrants(t, user) && g.organization == t.properties[id].organization
         && g.account == t.properties[id].account
              && ScopeIncludesProperty(g.scopeType, g.scopeId, t.properties[id].account, id)
  }

  lemma CoveredIffListed(t: Tables, user: string, id: string)
    requires forall g :: g in ActiveGrants(t, user) ==> ValidGrant(t, g)
    ensures id in AuthorizedProperties(t, user) <==> Covered(t, user, id)
  {
    if Covered(t, user, id) {
      var g :| g in ActiveGrants(t, user) && g.organization == t.properties[id].organization
        && g.account == t.properties[id].account
             && ScopeIncludesProperty(g.scopeType, g.scopeId, t.properties[id].account, id);
      assert g in ValidGrants(t, user) && Lists(t, g, id);
    }
    if id in AuthorizedProperties(t, user) {
      var g :| g in ValidGrants(t, user) && Lists(t, g, id);
      assert g in ActiveGrants(t, user);
    }
  }

  /** Some active grant of the user covers the property's whole account. */
  predicate CoveredByAccount(t: Tables, user: string, id: string)
    requires id in t.properties
  {
    exists g :: g in ActiveGrants(t, user) && g.organization == t.properties[id].organization
      && g.account == t.properties[id].account && g.scopeType == "customer_account"
  }

  lemma AccountScopeIffCovered(t: Tables, user: string, id: string)
    requires forall g :: g in ActiveGrants(t, user) ==> ValidGrant(t, g)
    requires id in AuthorizedProperties(t, user)
    ensures EffectiveScopeType(t, user, id) == AccountScope <==> CoveredByAccount(t, user, id)
  {
    if CoveredByAccount(t, user, id) {
      var g :| g in ActiveGrants(t, user) && g.organization == t.properties[id].organization
        && g.account == t.properties[id].account && g.scopeType == "customer_account";
      assert g in ValidGrants(t, user) && Lists(t, g, id);
    }
    if EffectiveScopeType(t, user, id) == AccountScope {
      var g :| g in ValidGrants(t, user) && Lists(t, g, id) && g.scopeType == "customer_account";
      assert g in ActiveGrants(t, user);
    }
  }

  /** A loaded list holds exactly the non-archived properties that an active grant of the same
      organization and account covers, with account scope exactly when one covers the whole account;
      it is loaded exactly when there is an active grant and all are valid. */
  lemma ListedIffCovered(t: Tables, user: string, id: string)
    ensures var r := ListAuthorizedProperties(t, user);
      && (r.Loaded? <==> CustomerAuthorization(t, Trim(user)) == V.Valid)
      && (r == NotAuthorized <==> CustomerAuthorization(t, Trim(user)) == V.NotAuthorized)
      && (r.Loaded? ==> (id in r.properties <==> Covered(t, Trim(user), id)))
      && (r.Loaded? && id in r.properties ==>
            (r.properties[id] == AccountScope <==> CoveredByAccount(t, Trim(user), id)))
  {
    CountsDecide(t, Trim(user));
    if ListAuthorizedProperties(t, user).Loaded? {
      CoveredIffListed(t, Trim(user), id);
      if id in AuthorizedProperties(t, Trim(user)) {
        AccountScopeIffCovered(t, Trim(user), id);
      }
    }
  }

  // ---- visit threads -----------------------------------------------------------------------------------------

  /** The release, activation and relationship joins of a thread. */
  predicate OnActiveRelationship(t: Tables, thread: Thread)
  {
    && thread.release in t.releases
    && var release := t.releases[thread.release];
    && release.organization == thread.organization && release.account == thread.account
         && release.property == thread.property
    && release.activation in t.activations
    && t.activations[release.activation] == Activation(thread.organization, thread.account, thread.property)
    && release.activation in t.activeRelationships
  }

  /** The thread was released under an activation that is an active relationship, and all three are
      about one organization, account and property. */
  predicate ActivatedFor(t: Tables, thread: Thread)
  {
    exists activation :: activation in t.activeRelationships && activation in t.activations
      && thread.release in t.releases
      && t.releases[thread.release] == Release(activation, thread.organization, thread.account, thread.property)
      && t.activations[activation].organization == thread.organization
      && t.activations[activation].account == thread.account && t.activations[activation].property == thread.property
  }

  lemma ActivatedIff(t: Tables, thread: Thread)
    ensures ActivatedFor(t, thread) <==> OnActiveRelationship(t, thread)
  {
    if OnActiveRelationship(t, thread) {
      var activation := t.releases[thread.release].activation;
      assert t.releases[thread.release] == Release(activation, thread.organization, thread.account, thread.property);
    }
  }

  predicate PropertyOpen(t: Tables, thread: Thread)
  {
    && thread.property in t.properties
    && t.properties[thread.property].organization == thread.organization
    && t.properties[thread.property].account == thread.account
    && t.properties[thread.property].status != "archived"
  }

  predicate GrantReaches(t: Tables, g: Grant, user: string, thread: Thread)
  {
    && g.user == user && g.active && HasMembership(t, g)
    && g.organization == thread.organization && g.account == thread.account
    && ((g.scopeType == "customer_account" && g.scopeId == thread.account)
        || (g.scopeType == "property" && g.scopeId == thread.property))
  }

  /** `lock_customer_thread` finds the thread. */
  predicate CustomerThreadVisible(t: Tables, user: string, reference: string)
  {
    reference in t.threads
    && var thread := t.threads[reference];
    && OnActiveRelationship(t, thread)
    && thread.organization in t.activeOrganizations && (thread.organization, thread.account) in t.activeRelations
    && PropertyOpen(t, thread)
    && exists g :: g in t.grants && GrantReaches(t, g, user, thread)
  }

  /** Under a valid authorization a customer sees a thread exactly when its property, in the
      thread's organization and account, is on the list and the thread's relationship is active. */
  lemma ThreadVisibleIffListed(t: Tables, user: string, reference: string)
    requires CustomerAuthorization(t, user) == V.Valid && reference in t.threads
    ensures CustomerThreadVisible(t, user, reference)
        <==> var thread := t.threads[reference];
             && ActivatedFor(t, thread)
             && thread.property in AuthorizedProperties(t, user)
             && t.properties[thread.property].organization == thread.organization
             && t.properties[thread.property].account == thread.account
  {
    CountsDecide(t, user);
    var thread := t.threads[reference];
    ActivatedIff(t, thread);
    if CustomerThreadVisible(t, user, reference) {
      var g :| g in t.grants && GrantReaches(t, g, user, thread);
      assert g in ValidGrants(t, user) && Lists(t, g, thread.property);
    }
    if thread.property in AuthorizedProperties(t, user)
        && t.properties[thread.property].organization == thread.organization
       && t.properties[thread.property].account == thread.account {
      var g :| g in ValidGrants(t, user) && Lists(t, g, thread.property);
      assert g in ActiveGrants(t, user);
      assert GrantReaches(t, g, user, thread);
    }
  }

  /** A customer's question is answered with a message only on a thread whose property is on that
      customer's list. */
  lemma QuestionsStayOnListedProperties(t: Tables, s: V.Store, a: V.Attempt)
    requires a.request.Question?
    requires a.authorization == CustomerAuthorization(t, Trim(a.actor))
    requires a.visible == CustomerThreadVisible(t, Trim(a.actor), Trim(a.reference))
    ensures var r := V.WriteStep(s, a).1;
      r.Created? || r.Replayed? ==>
        var listed := ListAuthorizedProperties(t, a.actor);
        Trim(a.reference) in t.threads && listed.Loaded? && t.threads[Trim(a.reference)].property in listed.properties
  {
    var r := V.WriteStep(s, a).1;
    if r.Created? || r.Replayed? {
      assert V.PassesAuthority(s, a);
      ThreadVisibleIffListed(t, Trim(a.actor), Trim(a.reference));
      ListedIffCovered(t, a.actor, t.threads[Trim(a.reference)].property);
    }
  }
}
