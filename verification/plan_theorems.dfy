/** What an accepted run plan guarantees about the accounts its sessions run with. */
module PlanTheorems {
  import opened Options
  import opened Plans

  /** The sessions an accepted plan resolves to. */
  function Resolved(bindings: Bindings, environment: Environment, plans: seq<SessionPlan>): seq<Session>
    requires AllReadable(bindings, environment, plans)
  {
    Outcomes(Unresolved(bindings, environment, plans))
  }

  predicate Runs(sessions: seq<Session>, i: nat)
  {
    i < |sessions| && sessions[i].skipReason.None?
  }

  predicate SameAccountName(sessions: seq<Session>, i: nat, j: nat)
  {
    Configured(sessions, i) && Configured(sessions, j)
    && sessions[i].credentials.value.username == sessions[j].credentials.value.username
  }

  predicate ShareAGroup(sessions: seq<Session>, i: nat, j: nat)
    requires i < |sessions| && j < |sessions|
  {
    sessions[i].identityGroup.Some? && sessions[i].identityGroup == sessions[j].identityGroup
  }

  /** Resolving only adds reasons to skip; a session runs when it is configured and does not give way. */
  lemma WhoRuns(bindings: Bindings, environment: Environment, plans: seq<SessionPlan>, i: nat)
    requires AllReadable(bindings, environment, plans) && i < |plans|
    ensures var before, after := Unresolved(bindings, environment, plans), Resolved(bindings, environment, plans);
      && |after| == |before| == |plans|
      && after[i] == before[i].(skipReason := after[i].skipReason)
      && (Runs(after, i) <==> before[i].credentials.Some? && !GivesWay(before, i))
  {
    hide CredentialsOf, AllReadable, GivesWay;
  }

  lemma TwoHolders(sessions: seq<Session>, username: string, i: nat, j: nat)
    requires i != j && Holds(sessions, i, username) && Holds(sessions, j, username)
    ensures |AllHolders(sessions, username)| > 1
    ensures i in AllHolders(sessions, username) && j in AllHolders(sessions, username)
  {
    var all := AllHolders(sessions, username);
    HoldersHold(sessions, username, |sessions|, i);
    HoldersHold(sessions, username, |sessions|, j);
    var a :| 0 <= a < |all| && all[a] == i;
    var b :| 0 <= b < |all| && all[b] == j;
  }

  lemma OneGroup(groups: set<Option<string>>, a: Option<string>, b: Option<string>)
    requires |groups| == 1 && None !in groups && a in groups && b in groups
    ensures a.Some? && a == b
  {
    assert |groups - {a}| == 0;
    assert b !in groups - {a};
  }

  lemma ProtectedShareAGroup(sessions: seq<Session>, indexes: seq<nat>, i: nat, j: nat)
    requires InRange(sessions, indexes) && AliasAllowed(sessions, indexes)
    requires i != j && i in indexes && j in indexes && i < |sessions| && j < |sessions|
    requires !sessions[i].skipOnUsernameAlias && !sessions[j].skipOnUsernameAlias
    ensures ShareAGroup(sessions, i, j)
  {
    ProtectedMembers(sessions, indexes, i);
    ProtectedMembers(sessions, indexes, j);
    ProtectedAreListed(sessions, indexes);
    var guarded := Protected(sessions, indexes);
    var a :| 0 <= a < |guarded| && guarded[a] == i;
    var b :| 0 <= b < |guarded| && guarded[b] == j;
    OneGroup(GroupsOf(sessions, guarded), sessions[i].identityGroup, sessions[j].identityGroup);
  }

  // What is accepted

  predicate IsSecret(bindings: Bindings, id: string)
  {
    id in bindings && bindings[id].kind == Secret
  }

  predicate IsSet(environment: Environment, name: string)
  {
    name in environment && environment[name].Text?
  }

  predicate IsGarbage(environment: Environment, name: string)
  {
    name in environment && environment[name].NotText?
  }

  /**
   A session is readable exactly when both bindings are secrets, neither variable is garbage, and both are set
   or, for an optional session, neither; its credentials are then what the variables hold. When variables are
   missing the error names those and no others.
   */
  lemma CredentialsExactly(bindings: Bindings, environment: Environment, plan: SessionPlan)
    ensures var r := CredentialsOf(bindings, environment, plan);
      if !IsSecret(bindings, plan.username) || !IsSecret(bindings, plan.password) then
        var id := if IsSecret(bindings, plan.username) then plan.password else plan.username;
        r == Err(if id in bindings then WrongKind(id) else UnknownBinding(id))
      else
        var u, p := bindings[plan.username].name, bindings[plan.password].name;
        var hasUsername, hasPassword := IsSet(environment, u), IsSet(environment, p);
        if IsGarbage(environment, u) || IsGarbage(environment, p) then
          r == Err(VariableNotText(if IsGarbage(environment, u) then u else p))
        else if hasUsername && hasPassword then
          r == Ok(Some(Credentials(environment[u].value, environment[p].value)))
        else if !hasUsername && !hasPassword && plan.optional then
          r == Ok(None)
        else
          r == Err(MissingVariables((if hasUsername then [] else [u]) + (if hasPassword then [] else [p])))
  {
    if IsSecret(bindings, plan.username) && IsSecret(bindings, plan.password) {
      var u, p := bindings[plan.username].name, bindings[plan.password].name;
      assert [u] + [p] == [u, p] && [u] + [] == [u] && [] + [p] == [p];
    }
  }

  predicate Ascending(indexes: seq<nat>)
  {
    forall a, b | 0 <= a < b < |indexes| :: indexes[a] < indexes[b]
  }

  lemma {:induction false} HoldersAscend(sessions: seq<Session>, username: string, n: nat)
    requires n <= |sessions|
    ensures Ascending(Holders(sessions, username, n))
  {
    hide Holds;
    if n > 0 {
      HoldersAscend(sessions, username, n - 1);
      var front := Holders(sessions, username, n - 1);
      forall a | 0 <= a < |front| ensures front[a] < n - 1 {
        HoldersHold(sessions, username, n - 1, front[a]);
      }
    }
  }

  lemma {:induction false} ProtectedAscend(sessions: seq<Session>, indexes: seq<nat>)
    requires InRange(sessions, indexes) && Ascending(indexes)
    ensures Ascending(Protected(sessions, indexes))
    decreases |indexes|
  {
    if indexes != [] {
      var front, last := indexes[..|indexes| - 1], indexes[|indexes| - 1];
      ProtectedAscend(sessions, front);
      var guarded := Protected(sessions, front);
      forall a | 0 <= a < |guarded| ensures guarded[a] < last {
        ProtectedMembers(sessions, front, guarded[a]);
      }
    }
  }

  /** A username has several holders exactly when two sessions hold it. */
  lemma SeveralHolders(sessions: seq<Session>, username: string)
    ensures |AllHolders(sessions, username)| > 1 <==>
      exists i: nat, j: nat :: i != j && Holds(sessions, i, username) && Holds(sessions, j, username)
  {
    var all := AllHolders(sessions, username);
    if i: nat, j: nat :| i != j && Holds(sessions, i, username) && Holds(sessions, j, username) {
      TwoHolders(sessions, username, i, j);
    }
    if |all| > 1 {
      HoldersAscend(sessions, username, |sessions|);
      HoldersHold(sessions, username, |sessions|, all[0]);
      HoldersHold(sessions, username, |sessions|, all[1]);
      assert all[0] < all[1];
    }
  }

  /** A session of this username that nothing excuses from running. */
  predicate MustRun(sessions: seq<Session>, i: nat, username: string)
  {
    Holds(sessions, i, username) && !sessions[i].skipOnUsernameAlias
  }

  /** Where a username is shared, somebody must run with it, and whoever must declares one group. */
  ghost predicate SharedProperly(sessions: seq<Session>, username: string)
  {
    && (exists k: nat :: MustRun(sessions, k, username))
    && (forall i: nat, j: nat :: i != j && MustRun(sessions, i, username) && MustRun(sessions, j, username) ==>
      ShareAGroup(sessions, i, j))
  }

  lemma AliasAllowedExactly(sessions: seq<Session>, username: string)
    ensures AliasAllowed(sessions, AllHolders(sessions, username)) <==> SharedProperly(sessions, username)
  {
    hide ShareAGroup;
    var all := AllHolders(sessions, username);
    ProtectedAreListed(sessions, all);
    var guarded := Protected(sessions, all);
    forall i: nat ensures i in guarded <==> MustRun(sessions, i, username) {
      ProtectedMembers(sessions, all, i);
      HoldersHold(sessions, username, |sessions|, i);
    }
    assert |guarded| > 0 <==> exists k: nat :: MustRun(sessions, k, username) by {
      if |guarded| > 0 {
        assert MustRun(sessions, guarded[0], username);
      }
    }
    HoldersAscend(sessions, username, |sessions|);
    ProtectedAscend(sessions, all);
    if AliasAllowed(sessions, all) {
      forall i: nat, j: nat | i != j && MustRun(sessions, i, username) && MustRun(sessions, j, username)
        ensures ShareAGroup(sessions, i, j)
      {
        HoldersHold(sessions, username, |sessions|, i);
        HoldersHold(sessions, username, |sessions|, j);
        ProtectedShareAGroup(sessions, all, i, j);
      }
    } else if |guarded| > 1 && SharedProperly(sessions, username) {
      OneGroupOf(sessions, guarded);
    }
  }

  /** Pairs that share a group make one group. */
  lemma OneGroupOf(sessions: seq<Session>, indexes: seq<nat>)
    requires InRange(sessions, indexes) && |indexes| > 1 && Ascending(indexes)
    requires forall i: nat, j: nat :: i != j && i in indexes && j in indexes ==> ShareAGroup(sessions, i, j)
    ensures |GroupsOf(sessions, indexes)| == 1 && None !in GroupsOf(sessions, indexes)
  {
    var first, second := indexes[0], indexes[1];
    assert first in indexes && second in indexes && ShareAGroup(sessions, first, second);
    var group := sessions[first].identityGroup;
    forall i | i in indexes ensures sessions[i].identityGroup == group {
      assert i == first || ShareAGroup(sessions, first, i);
    }
    assert GroupsOf(sessions, indexes) == {group};
  }

  /**
   A plan is accepted exactly when every session is readable, all configured sessions of a group use one account,
   and every username two sessions hold is shared properly.
   */
  lemma AcceptableExactly(bindings: Bindings, environment: Environment, plans: seq<SessionPlan>)
    ensures Acceptable(bindings, environment, plans) <==>
      && AllReadable(bindings, environment, plans)
      && var sessions := Unresolved(bindings, environment, plans);
      && (forall i: nat, j: nat, group: string :: InGroup(sessions, i, group) && InGroup(sessions, j, group) ==>
            sessions[i].credentials == sessions[j].credentials)
      && (forall i: nat, j: nat, username: string ::
            i != j && Holds(sessions, i, username) && Holds(sessions, j, username) ==>
              SharedProperly(sessions, username))
  {
    hide AllReadable, Unresolved, SharedProperly, AliasesAllowed, GroupsAgree, InGroup, Holds;
    if AllReadable(bindings, environment, plans) {
      var sessions := Unresolved(bindings, environment, plans);
      assert |sessions| == |plans| by { LengthOf(bindings, environment, plans); }
      AliasesAllowedExactly(sessions);
      GroupsAgreeExactly(sessions);
    }
  }

  lemma GroupsAgreeExactly(sessions: seq<Session>)
    ensures GroupsAgree(sessions, |sessions|) <==>
      forall i: nat, j: nat, group: string :: InGroup(sessions, i, group) && InGroup(sessions, j, group) ==>
        sessions[i].credentials == sessions[j].credentials
  {
  }

  lemma AliasesAllowedExactly(sessions: seq<Session>)
    ensures AliasesAllowed(sessions) <==>
      forall i: nat, j: nat, username: string ::
        i != j && Holds(sessions, i, username) && Holds(sessions, j, username) ==> SharedProperly(sessions, username)
  {
    hide AllHolders, AliasAllowed, SharedProperly, Holds;
    forall username: string
      ensures |AllHolders(sessions, username)| > 1 <==>
        exists i: nat, j: nat :: i != j && Holds(sessions, i, username) && Holds(sessions, j, username)
      ensures AliasAllowed(sessions, AllHolders(sessions, username)) <==> SharedProperly(sessions, username)
    {
      SeveralHolders(sessions, username);
      AliasAllowedExactly(sessions, username);
    }
  }

  /** Why each session of a resolved plan runs or does not. */
  lemma WhoRunsExactly(bindings: Bindings, environment: Environment, plans: seq<SessionPlan>, i: nat)
    requires AllReadable(bindings, environment, plans) && i < |plans|
    ensures var sessions := Resolved(bindings, environment, plans);
      && i < |sessions|
      && (sessions[i].skipReason == Some(NotConfigured) <==> !Configured(sessions, i))
      && (sessions[i].skipReason == Some(SharesAnAccount) <==>
            plans[i].skipOnUsernameAlias && exists j: nat :: j != i && SameAccountName(sessions, i, j))
      && sessions[i].id == plans[i].id
  {
    hide CredentialsOf, AllReadable, AllHolders;
    WhoRuns(bindings, environment, plans, i);
    var before, sessions := Unresolved(bindings, environment, plans), Resolved(bindings, environment, plans);
    forall j: nat ensures SameAccountName(sessions, i, j) <==> SameAccountName(before, i, j) {
      if j < |plans| {
        WhoRuns(bindings, environment, plans, j);
      }
    }
    if before[i].credentials.Some? {
      var username := before[i].credentials.value.username;
      SeveralHolders(before, username);
      forall j: nat ensures Holds(before, j, username) <==> SameAccountName(before, i, j) {
      }
      if j: nat, k: nat :| j != k && Holds(before, j, username) && Holds(before, k, username) {
        assert SameAccountName(before, i, if j == i then k else j);
      }
      if j: nat :| j != i && SameAccountName(sessions, i, j) {
        assert Holds(before, i, username) && Holds(before, j, username);
      }
      assert GivesWay(before, i) <==>
        before[i].skipOnUsernameAlias && exists j: nat :: j != i && SameAccountName(sessions, i, j);
    }
  }

  /** Two sessions that run with one username declare one group and use one password. */
  lemma SharersDeclareOneGroup(bindings: Bindings, environment: Environment, plans: seq<SessionPlan>, i: nat, j: nat)
    requires Acceptable(bindings, environment, plans) && i != j
    requires var sessions := Resolved(bindings, environment, plans);
      Runs(sessions, i) && Runs(sessions, j) && SameAccountName(sessions, i, j)
    ensures var sessions := Resolved(bindings, environment, plans);
      ShareAGroup(sessions, i, j) && sessions[i].credentials == sessions[j].credentials
  {
    hide AllHolders, AliasAllowed, Outcomes, CredentialsOf, AllReadable, Unresolved;
    LengthOf(bindings, environment, plans);
    var before := Unresolved(bindings, environment, plans);
    WhoRuns(bindings, environment, plans, i);
    WhoRuns(bindings, environment, plans, j);
    var username := before[i].credentials.value.username;
    TwoHolders(before, username, i, j);
    ProtectedShareAGroup(before, AllHolders(before, username), i, j);
    assert InGroup(before, i, before[i].identityGroup.value);
  }

  lemma LengthOf(bindings: Bindings, environment: Environment, plans: seq<SessionPlan>)
    requires AllReadable(bindings, environment, plans)
    ensures |Unresolved(bindings, environment, plans)| == |Resolved(bindings, environment, plans)| == |plans|
  {
  }

  /** Every account that is configured at all is used by a session that runs. */
  lemma EveryAccountRuns(bindings: Bindings, environment: Environment, plans: seq<SessionPlan>, i: nat)
    requires Acceptable(bindings, environment, plans)
    requires Configured(Resolved(bindings, environment, plans), i)
    ensures var sessions := Resolved(bindings, environment, plans);
      exists j: nat :: Runs(sessions, j) && SameAccountName(sessions, i, j)
  {
    hide AllHolders, AliasAllowed, Outcomes, CredentialsOf, AllReadable, Unresolved;
    LengthOf(bindings, environment, plans);
    var before := Unresolved(bindings, environment, plans);
    WhoRuns(bindings, environment, plans, i);
    var username := before[i].credentials.value.username;
    var j := i;
    if GivesWay(before, i) {
      j := SomeoneProtected(before, username);
      WhoRuns(bindings, environment, plans, j);
    }
    assert SameAccountName(Resolved(bindings, environment, plans), i, j);
  }

  lemma SomeoneProtected(sessions: seq<Session>, username: string) returns (j: nat)
    requires AliasAllowed(sessions, AllHolders(sessions, username))
    ensures Holds(sessions, j, username) && !sessions[j].skipOnUsernameAlias
  {
    var indexes := AllHolders(sessions, username);
    j := Protected(sessions, indexes)[0];
    ProtectedMembers(sessions, indexes, j);
    HoldersHold(sessions, username, |sessions|, j);
  }

  /** Each session is compared with one neighbour only, yet a whole group ends up with one account. */
  lemma AGroupIsOneAccount(bindings: Bindings, environment: Environment, plans: seq<SessionPlan>, group: string, i: nat,
      j: nat)
    requires Acceptable(bindings, environment, plans)
    requires var sessions := Resolved(bindings, environment, plans);
      InGroup(sessions, i, group) && InGroup(sessions, j, group)
    ensures var sessions := Resolved(bindings, environment, plans); sessions[i].credentials == sessions[j].credentials
  {
    hide AliasesAllowed, Outcomes, CredentialsOf, AllReadable, Unresolved;
    LengthOf(bindings, environment, plans);
    WhoRuns(bindings, environment, plans, i);
    WhoRuns(bindings, environment, plans, j);
    var before := Unresolved(bindings, environment, plans);
    assert InGroup(before, i, group) && InGroup(before, j, group);
  }

  /** The rule as the plan's documentation words it: whoever shares a username names one group, skipped or not. */
  ghost predicate EverySharerDeclares(sessions: seq<Session>)
  {
    forall i: nat, j: nat :: i != j && SameAccountName(sessions, i, j) ==> ShareAGroup(sessions, i, j)
  }

  /** The bindings and variables give both plans one username. */
  predicate SameUsername(bindings: Bindings, environment: Environment, a: SessionPlan, b: SessionPlan)
    requires CredentialsOf(bindings, environment, a).Ok? && CredentialsOf(bindings, environment, b).Ok?
  {
    var mine, other := CredentialsOf(bindings, environment, a).value, CredentialsOf(bindings, environment, b).value;
    mine.Some? && other.Some? && mine.value.username == other.value.username
  }

  /** A plan that may give way names the group of every plan with its username that may not. */
  ghost predicate AliasesNameTheGroup(bindings: Bindings, environment: Environment, plans: seq<SessionPlan>)
    requires AllReadable(bindings, environment, plans)
  {
    forall i: nat, j: nat | i < |plans| && j < |plans| && plans[i].skipOnUsernameAlias
      && !plans[j].skipOnUsernameAlias ::
      SameUsername(bindings, environment, plans[i], plans[j]) ==>
        plans[i].identityGroup.Some? && plans[i].identityGroup == plans[j].identityGroup
  }

  /** How the plans and variables show in the resolved sessions. */
  lemma PlansAndSessions(bindings: Bindings, environment: Environment, plans: seq<SessionPlan>, i: nat, j: nat)
    requires AllReadable(bindings, environment, plans) && i < |plans| && j < |plans|
    ensures var sessions := Resolved(bindings, environment, plans);
      && |sessions| == |plans|
      && (SameAccountName(sessions, i, j) <==> SameUsername(bindings, environment, plans[i], plans[j]))
      && sessions[i].identityGroup == plans[i].identityGroup && sessions[j].identityGroup == plans[j].identityGroup
      && sessions[i].skipOnUsernameAlias == plans[i].skipOnUsernameAlias
  {
    hide CredentialsOf, GivesWay;
    WhoRuns(bindings, environment, plans, i);
    WhoRuns(bindings, environment, plans, j);
  }

  /** A configured session that may not give way runs. */
  lemma UnmarkedRuns(bindings: Bindings, environment: Environment, plans: seq<SessionPlan>, i: nat)
    requires AllReadable(bindings, environment, plans) && Configured(Resolved(bindings, environment, plans), i)
    ensures i < |plans| && (!plans[i].skipOnUsernameAlias ==> Runs(Resolved(bindings, environment, plans), i))
  {
    hide CredentialsOf, AllHolders;
    LengthOf(bindings, environment, plans);
    WhoRuns(bindings, environment, plans, i);
  }

  /** Every configured username has a session that may not give way. */
  lemma SomeoneUnmarked(bindings: Bindings, environment: Environment, plans: seq<SessionPlan>, i: nat, j: nat)
      returns (k: nat)
    requires Acceptable(bindings, environment, plans) && i != j
    requires SameAccountName(Resolved(bindings, environment, plans), i, j)
    ensures var sessions := Resolved(bindings, environment, plans);
      k < |plans| && !plans[k].skipOnUsernameAlias && SameAccountName(sessions, i, k) && SameAccountName(sessions, j, k)
  {
    hide AllHolders, AliasAllowed, Outcomes, CredentialsOf, AllReadable, Unresolved;
    LengthOf(bindings, environment, plans);
    var before := Unresolved(bindings, environment, plans);
    WhoRuns(bindings, environment, plans, i);
    WhoRuns(bindings, environment, plans, j);
    var username := before[i].credentials.value.username;
    TwoHolders(before, username, i, j);
    k := SomeoneProtected(before, username);
    WhoRuns(bindings, environment, plans, k);
    PlansAndSessions(bindings, environment, plans, k, k);
  }

  /**
   The documented rule holds of an accepted plan if and only if every session marked to give way names the
   group of the unmarked sessions with its username, which can be told from the plan and the variables.
   */
  lemma DocumentedRuleExactly(bindings: Bindings, environment: Environment, plans: seq<SessionPlan>)
    requires Acceptable(bindings, environment, plans)
    ensures EverySharerDeclares(Resolved(bindings, environment, plans)) <==>
      AliasesNameTheGroup(bindings, environment, plans)
  {
    hide Acceptable, Resolved, CredentialsOf, SameUsername;
    assert AllReadable(bindings, environment, plans) by { AcceptableIsReadable(bindings, environment, plans); }
    LengthOf(bindings, environment, plans);
    var sessions := Resolved(bindings, environment, plans);
    forall i: nat, j: nat | i < |plans| && j < |plans|
      ensures SameAccountName(sessions, i, j) <==> SameUsername(bindings, environment, plans[i], plans[j])
      ensures ShareAGroup(sessions, i, j) <==>
        plans[i].identityGroup.Some? && plans[i].identityGroup == plans[j].identityGroup
    {
      PlansAndSessions(bindings, environment, plans, i, j);
    }
    if AliasesNameTheGroup(bindings, environment, plans) {
      forall i: nat, j: nat | i != j && SameAccountName(sessions, i, j) ensures ShareAGroup(sessions, i, j) {
        var k := SomeoneUnmarked(bindings, environment, plans, i, j);
        SharesWithUnmarked(bindings, environment, plans, i, k);
        SharesWithUnmarked(bindings, environment, plans, j, k);
      }
    }
  }

  lemma AcceptableIsReadable(bindings: Bindings, environment: Environment, plans: seq<SessionPlan>)
    requires Acceptable(bindings, environment, plans)
    ensures AllReadable(bindings, environment, plans)
  {
  }

  lemma SharesWithUnmarked(bindings: Bindings, environment: Environment, plans: seq<SessionPlan>, i: nat, k: nat)
    requires Acceptable(bindings, environment, plans) && AliasesNameTheGroup(bindings, environment, plans)
    requires SameAccountName(Resolved(bindings, environment, plans), i, k) && k < |plans|
    requires !plans[k].skipOnUsernameAlias
    ensures i != k ==> ShareAGroup(Resolved(bindings, environment, plans), i, k)
  {
    hide AllReadable, Outcomes, Unresolved, AliasesAllowed, GroupsAgree, CredentialsOf;
    LengthOf(bindings, environment, plans);
    PlansAndSessions(bindings, environment, plans, i, k);
    if i != k && !plans[i].skipOnUsernameAlias {
      UnmarkedRuns(bindings, environment, plans, i);
      UnmarkedRuns(bindings, environment, plans, k);
      SharersDeclareOneGroup(bindings, environment, plans, i, k);
    }
  }

  /** Two sessions of one account, of which only the one that runs declares a group. */
  function TwoSessionPlan(): (plans: seq<SessionPlan>)
  {
    [SessionPlan("admin", "user", "password", false, false, Some("staff")),
     SessionPlan("extra", "user", "password", true, true, None)]
  }

  function TwoSessionBindings(): Bindings
  {
    map["user" := Binding("APP_USERNAME", Secret), "password" := Binding("APP_PASSWORD", Secret)]
  }

  function TwoSessionEnvironment(): Environment
  {
    map["APP_USERNAME" := Text("ada"), "APP_PASSWORD" := Text("lovelace")]
  }

  lemma TwoSessionsResolved()
    ensures AllReadable(TwoSessionBindings(), TwoSessionEnvironment(), TwoSessionPlan())
    ensures Unresolved(TwoSessionBindings(), TwoSessionEnvironment(), TwoSessionPlan()) ==
      [Session("admin", false, Some("staff"), Some(Credentials("ada", "lovelace")), None),
       Session("extra", true, None, Some(Credentials("ada", "lovelace")), None)]
  {
  }

  /** Such a plan is accepted, though two sessions share a username and do not share a group. */
  lemma DocumentedRuleCanFail()
    ensures Acceptable(TwoSessionBindings(), TwoSessionEnvironment(), TwoSessionPlan())
    ensures !EverySharerDeclares(Resolved(TwoSessionBindings(), TwoSessionEnvironment(), TwoSessionPlan()))
  {
    hide TwoSessionBindings, TwoSessionEnvironment, TwoSessionPlan, AllReadable, Unresolved, AliasAllowed, AllHolders;
    TwoSessionsResolved();
    var bindings, environment, plans := TwoSessionBindings(), TwoSessionEnvironment(), TwoSessionPlan();
    var sessions := Unresolved(bindings, environment, plans);
    assert |plans| == 2 by { LengthOf(bindings, environment, plans); }
    forall u: string | |AllHolders(sessions, u)| > 1 ensures AliasAllowed(sessions, AllHolders(sessions, u)) {
      TwoSessionHolders(sessions, u);
      OneProtects(sessions);
    }
    WhoRuns(bindings, environment, plans, 0);
    WhoRuns(bindings, environment, plans, 1);
    assert SameAccountName(Resolved(bindings, environment, plans), 0, 1);
  }

  lemma TwoSessionHolders(sessions: seq<Session>, u: string)
    requires |sessions| == 2 && Holds(sessions, 0, "ada") && Holds(sessions, 1, "ada")
    ensures AllHolders(sessions, u) == if u == "ada" then [0, 1] else []
  {
    hide Holds;
    if u != "ada" {
      OneNameEach(sessions, u);
    }
    assert Holders(sessions, u, 2) == Holders(sessions, u, 1) + if Holds(sessions, 1, u) then [1] else [];
    assert Holders(sessions, u, 1) == Holders(sessions, u, 0) + if Holds(sessions, 0, u) then [0] else [];
  }

  lemma OneNameEach(sessions: seq<Session>, u: string)
    requires |sessions| == 2 && Holds(sessions, 0, "ada") && Holds(sessions, 1, "ada") && u != "ada"
    ensures !Holds(sessions, 0, u) && !Holds(sessions, 1, u)
  {
  }

  lemma OneProtects(sessions: seq<Session>)
    requires |sessions| == 2 && !sessions[0].skipOnUsernameAlias && sessions[1].skipOnUsernameAlias
    ensures AliasAllowed(sessions, [0, 1])
  {
    assert [0, 1][..1] == [0] && [0][..0] == [];
    assert Protected(sessions, [0]) == [0];
    assert Protected(sessions, [0, 1]) == [0];
  }
}
