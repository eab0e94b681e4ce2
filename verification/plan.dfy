/** Resolving the signed-in sessions of a run plan: credentials, identity groups and username aliases. */
module Plans {
  import opened Options

  datatype BindingKind = Host | Page | Secret | Assertion
  datatype Binding = Binding(name: string, kind: BindingKind)
  type Bindings = map<string, Binding>

  /** A process environment variable: unreadable as text, only white space, or a value. */
  datatype Variable = NotText | Blank | Text(value: string)
  type Environment = map<string, Variable>

  datatype SessionPlan = SessionPlan(
    id: string,
    username: string,
    password: string,
    optional: bool,
    skipOnUsernameAlias: bool,
    identityGroup: Option<string>)

  datatype Credentials = Credentials(username: string, password: string)

  datatype SkipReason = SharesAnAccount | NotConfigured

  datatype Session = Session(
    id: string,
    skipOnUsernameAlias: bool,
    identityGroup: Option<string>,
    credentials: Option<Credentials>,
    skipReason: Option<SkipReason>)

  datatype PlanError =
    | UnknownBinding(id: string)
    | WrongKind(id: string)
    | VariableNotText(name: string)
    | MissingVariables(names: seq<string>)
    | GroupOfDifferentAccounts
    | ProtectedSessionsShareAnAccount
    | NothingUsesTheAccount

  // Credentials

  function RequireBinding(bindings: Bindings, id: string, kind: BindingKind): Result<Binding, PlanError>
  {
    if id !in bindings then Err(UnknownBinding(id))
    else if bindings[id].kind != kind then Err(WrongKind(id))
    else Ok(bindings[id])
  }

  /** A blank value counts as none. */
  function OptionalEnvironment(environment: Environment, name: string): Result<Option<string>, PlanError>
  {
    if name !in environment then Ok(None)
    else match environment[name]
      case NotText => Err(VariableNotText(name))
      case Blank => Ok(None)
      case Text(value) => Ok(Some(value))
  }

  /** Both variables or neither; neither only for an optional session. */
  function Pair(username: Option<string>, password: Option<string>, optional: bool,
      names: (string, string))
    : Result<Option<Credentials>, PlanError>
  {
    match (username, password)
    case (Some(u), Some(p)) => Ok(Some(Credentials(u, p)))
    case (None, None) => if optional then Ok(None) else Err(MissingVariables([names.0, names.1]))
    case (None, Some(_)) => Err(MissingVariables([names.0]))
    case (Some(_), None) => Err(MissingVariables([names.1]))
  }

  function CredentialsOf(bindings: Bindings, environment: Environment, plan: SessionPlan)
    : Result<Option<Credentials>, PlanError>
  {
    var usernameBinding := RequireBinding(bindings, plan.username, Secret);
    var passwordBinding := RequireBinding(bindings, plan.password, Secret);
    if usernameBinding.Err? then Err(usernameBinding.error)
    else if passwordBinding.Err? then Err(passwordBinding.error)
    else
      var username := OptionalEnvironment(environment, usernameBinding.value.name);
      var password := OptionalEnvironment(environment, passwordBinding.value.name);
      if username.Err? then Err(username.error)
      else if password.Err? then Err(password.error)
      else Pair(username.value, password.value, plan.optional, (usernameBinding.value.name, passwordBinding.value.name))
  }

  function Unskipped(plan: SessionPlan, credentials: Option<Credentials>): Session
  {
    Session(plan.id, plan.skipOnUsernameAlias, plan.identityGroup, credentials, None)
  }

  predicate AllReadable(bindings: Bindings, environment: Environment, plans: seq<SessionPlan>)
  {
    forall i | 0 <= i < |plans| :: CredentialsOf(bindings, environment, plans[i]).Ok?
  }

  function Unresolved(bindings: Bindings, environment: Environment, plans: seq<SessionPlan>): (sessions: seq<Session>)
    requires AllReadable(bindings, environment, plans)
  {
    seq(|plans|, i requires 0 <= i < |plans| =>
      Unskipped(plans[i], CredentialsOf(bindings, environment, plans[i]).value))
  }

  /** The error of the first session that cannot be read. */
  ghost predicate IsFirstError(bindings: Bindings, environment: Environment, plans: seq<SessionPlan>, error: PlanError)
  {
    exists i: nat ::
      && i < |plans| && CredentialsOf(bindings, environment, plans[i]) == Err(error)
      && forall k | 0 <= k < i :: CredentialsOf(bindings, environment, plans[k]).Ok?
  }

  method ReadSessions(bindings: Bindings, environment: Environment, plans: seq<SessionPlan>)
      returns (r: Result<seq<Session>, PlanError>)
    ensures r.Ok? <==> AllReadable(bindings, environment, plans)
    ensures r.Ok? ==> r.value == Unresolved(bindings, environment, plans)
    ensures r.Err? ==> IsFirstError(bindings, environment, plans, r.error)
  {
    hide CredentialsOf;
    var sessions: seq<Session> := [];
    for i := 0 to |plans|
      invariant |sessions| == i
      invariant forall k | 0 <= k < i :: CredentialsOf(bindings, environment, plans[k]).Ok?
      invariant forall k | 0 <= k < i ::
        sessions[k] == Unskipped(plans[k], CredentialsOf(bindings, environment, plans[k]).value)
    {
      var credentials := CredentialsOf(bindings, environment, plans[i]);
      if credentials.Err? {
        return Err(credentials.error);
      }
      sessions := sessions + [Unskipped(plans[i], credentials.value)];
    }
    r := Ok(sessions);
  }

  // Accounts

  predicate Configured(sessions: seq<Session>, i: nat)
  {
    i < |sessions| && sessions[i].credentials.Some?
  }

  predicate Holds(sessions: seq<Session>, i: nat, username: string)
  {
    Configured(sessions, i) && sessions[i].credentials.value.username == username
  }

  predicate InGroup(sessions: seq<Session>, i: nat, group: string)
  {
    Configured(sessions, i) && sessions[i].identityGroup == Some(group)
  }

  /** The first `n` sessions that hold a username, in order. */
  function Holders(sessions: seq<Session>, username: string, n: nat): seq<nat>
    requires n <= |sessions|
  {
    if n == 0 then []
    else Holders(sessions, username, n - 1) + if Holds(sessions, n - 1, username) then [n - 1] else []
  }

  lemma {:induction false} HoldersHold(sessions: seq<Session>, username: string, n: nat, i: nat)
    requires n <= |sessions|
    ensures i in Holders(sessions, username, n) <==> i < n && Holds(sessions, i, username)
  {
    hide Holds;
    if n > 0 {
      HoldersHold(sessions, username, n - 1, i);
    }
  }

  /** All configured sessions of a group use one account. */
  ghost predicate GroupsAgree(sessions: seq<Session>, n: nat)
  {
    forall i: nat, j: nat, group: string ::
      i < n && j < n && InGroup(sessions, i, group) && InGroup(sessions, j, group) ==>
      sessions[i].credentials == sessions[j].credentials
  }

  ghost predicate NamesIndexed(sessions: seq<Session>, n: nat, usernames: map<string, seq<nat>>)
    requires n <= |sessions|
  {
    && (forall u :: u in usernames <==> Holders(sessions, u, n) != [])
    && (forall u :: u in usernames ==> usernames[u] == Holders(sessions, u, n))
  }

  /** The index so far: under each username its holders, under each group its last configured session. */
  ghost predicate Indexed(sessions: seq<Session>, n: nat, usernames: map<string, seq<nat>>,
      lastOfGroup: map<string, nat>)
    requires n <= |sessions|
  {
    && NamesIndexed(sessions, n, usernames)
    && (forall g :: g in lastOfGroup ==> lastOfGroup[g] < n && InGroup(sessions, lastOfGroup[g], g))
    && (forall i: nat, g :: i < n && InGroup(sessions, i, g) ==> g in lastOfGroup)
  }

  /** A session that agrees with the last of its group agrees with all of it. */
  lemma NeighbourIsEnough(sessions: seq<Session>, n: nat, usernames: map<string, seq<nat>>,
      lastOfGroup: map<string, nat>)
    requires n < |sessions| && Indexed(sessions, n, usernames, lastOfGroup) && GroupsAgree(sessions, n)
    requires forall g :: InGroup(sessions, n, g) && g in lastOfGroup ==>
      sessions[lastOfGroup[g]].credentials == sessions[n].credentials
    ensures GroupsAgree(sessions, n + 1)
  {
    hide InGroup, Holders;
    forall i: nat, j: nat, group: string
      | i < n + 1 && j < n + 1 && InGroup(sessions, i, group) && InGroup(sessions, j, group)
      ensures sessions[i].credentials == sessions[j].credentials
    {
      AgreesWithLast(sessions, n, lastOfGroup, i, group);
      AgreesWithLast(sessions, n, lastOfGroup, j, group);
    }
  }

  lemma AgreesWithLast(sessions: seq<Session>, n: nat, lastOfGroup: map<string, nat>, i: nat, group: string)
    requires n < |sessions| && i <= n && GroupsAgree(sessions, n) && InGroup(sessions, i, group)
    requires i < n ==> group in lastOfGroup
    requires group in lastOfGroup ==> lastOfGroup[group] < n && InGroup(sessions, lastOfGroup[group], group)
    requires InGroup(sessions, n, group) && group in lastOfGroup ==>
      sessions[lastOfGroup[group]].credentials == sessions[n].credentials
    ensures group in lastOfGroup ==> sessions[i].credentials == sessions[lastOfGroup[group]].credentials
    ensures group !in lastOfGroup ==> i == n
  {
  }

  /** Indexes the configured sessions, comparing each only with the one before it in its group. */
  method IndexAccounts(sessions: seq<Session>) returns (r: Result<map<string, seq<nat>>, PlanError>)
    ensures r.Ok? <==> GroupsAgree(sessions, |sessions|)
    ensures r.Err? ==> r.error == GroupOfDifferentAccounts
    ensures r.Ok? ==> forall u :: u in r.value <==> Holders(sessions, u, |sessions|) != []
    ensures r.Ok? ==> forall u :: u in r.value ==> r.value[u] == Holders(sessions, u, |sessions|)
  {
    hide Indexed, GroupsAgree;
    var usernames: map<string, seq<nat>>, lastOfGroup: map<string, nat> := map[], map[];
    NothingIndexed(sessions);
    for index := 0 to |sessions|
      invariant Indexed(sessions, index, usernames, lastOfGroup) && GroupsAgree(sessions, index)
    {
      ghost var oldUsernames, oldLast := usernames, lastOfGroup;
      var session := sessions[index];
      if session.credentials.Some? {
        var credentials := session.credentials.value;
        var listed := if credentials.username in usernames then usernames[credentials.username] else [];
        usernames := usernames[credentials.username := listed + [index]];
        if session.identityGroup.Some? {
          var group := session.identityGroup.value;
          if group in lastOfGroup {
            LastIsInGroup(sessions, index, oldUsernames, oldLast, group);
            var previous := sessions[lastOfGroup[group]].credentials.value;
            if previous.username != credentials.username || previous.password != credentials.password {
              GroupsDiffer(sessions, lastOfGroup[group], index, group);
              return Err(GroupOfDifferentAccounts);
            }
          }
          lastOfGroup := lastOfGroup[group := index];
        }
      }
      NeighbourIsEnough(sessions, index, oldUsernames, oldLast);
      OneMoreIndexed(sessions, index, oldUsernames, oldLast);
    }
    IndexedListsHolders(sessions, usernames, lastOfGroup);
    r := Ok(usernames);
  }

  lemma NothingIndexed(sessions: seq<Session>)
    ensures Indexed(sessions, 0, map[], map[]) && GroupsAgree(sessions, 0)
  {
  }

  lemma LastIsInGroup(sessions: seq<Session>, n: nat, usernames: map<string, seq<nat>>, lastOfGroup: map<string, nat>,
      group: string)
    requires n <= |sessions| && Indexed(sessions, n, usernames, lastOfGroup) && group in lastOfGroup
    ensures lastOfGroup[group] < n && InGroup(sessions, lastOfGroup[group], group)
  {
  }

  lemma GroupsDiffer(sessions: seq<Session>, i: nat, j: nat, group: string)
    requires i < |sessions| && j < |sessions| && InGroup(sessions, i, group) && InGroup(sessions, j, group)
    requires sessions[i].credentials != sessions[j].credentials
    ensures !GroupsAgree(sessions, |sessions|)
  {
  }

  lemma IndexedListsHolders(sessions: seq<Session>, usernames: map<string, seq<nat>>, lastOfGroup: map<string, nat>)
    requires Indexed(sessions, |sessions|, usernames, lastOfGroup)
    ensures forall u :: u in usernames <==> Holders(sessions, u, |sessions|) != []
    ensures forall u :: u in usernames ==> usernames[u] == Holders(sessions, u, |sessions|)
  {
  }

  function WithHolder(sessions: seq<Session>, n: nat, usernames: map<string, seq<nat>>): map<string, seq<nat>>
    requires n < |sessions|
  {
    var session := sessions[n];
    if session.credentials.None? then usernames
    else
      var u := session.credentials.value.username;
      usernames[u := (if u in usernames then usernames[u] else []) + [n]]
  }

  lemma OneMoreNamed(sessions: seq<Session>, n: nat, usernames: map<string, seq<nat>>)
    requires n < |sessions| && NamesIndexed(sessions, n, usernames)
    ensures NamesIndexed(sessions, n + 1, WithHolder(sessions, n, usernames))
  {
    var more := WithHolder(sessions, n, usernames);
    forall u ensures u in more <==> Holders(sessions, u, n + 1) != []
      ensures u in more ==> more[u] == Holders(sessions, u, n + 1)
    {
      assert Holders(sessions, u, n + 1) == Holders(sessions, u, n) + if Holds(sessions, n, u) then [n] else [];
      if sessions[n].credentials.Some? && u == sessions[n].credentials.value.username {
        assert Holds(sessions, n, u);
        assert u !in usernames ==> Holders(sessions, u, n) == [];
      } else {
        assert !Holds(sessions, n, u);
      }
    }
  }

  lemma OneMoreIndexed(sessions: seq<Session>, n: nat, usernames: map<string, seq<nat>>, lastOfGroup: map<string, nat>)
    requires n < |sessions| && Indexed(sessions, n, usernames, lastOfGroup)
    ensures var session := sessions[n];
      var last := if session.credentials.None? || session.identityGroup.None? then lastOfGroup
        else lastOfGroup[session.identityGroup.value := n];
      Indexed(sessions, n + 1, WithHolder(sessions, n, usernames), last)
  {
    hide NamesIndexed, WithHolder;
    OneMoreNamed(sessions, n, usernames);
  }

  // Aliases

  predicate InRange(sessions: seq<Session>, indexes: seq<nat>)
  {
    forall k | 0 <= k < |indexes| :: indexes[k] < |sessions|
  }

  /** The sessions of a list that a shared username does not excuse from running. */
  function Protected(sessions: seq<Session>, indexes: seq<nat>): seq<nat>
    requires InRange(sessions, indexes)
    decreases |indexes|
  {
    if indexes == [] then []
    else
      var front, last := indexes[..|indexes| - 1], indexes[|indexes| - 1];
      Protected(sessions, front) + if sessions[last].skipOnUsernameAlias then [] else [last]
  }

  lemma {:induction false} ProtectedMembers(sessions: seq<Session>, indexes: seq<nat>, i: nat)
    requires InRange(sessions, indexes)
    ensures i in Protected(sessions, indexes) <==> i in indexes && !sessions[i].skipOnUsernameAlias
    decreases |indexes|
  {
    if indexes != [] {
      var front, last := indexes[..|indexes| - 1], indexes[|indexes| - 1];
      assert indexes == front + [last];
      ProtectedMembers(sessions, front, i);
    }
  }

  function GroupsOf(sessions: seq<Session>, indexes: seq<nat>): set<Option<string>>
    requires InRange(sessions, indexes)
  {
    set i | i in indexes :: sessions[i].identityGroup
  }

  /** Somebody must run with the account, and several may only under one declared group. */
  predicate AliasAllowed(sessions: seq<Session>, indexes: seq<nat>)
    requires InRange(sessions, indexes)
  {
    var guarded := Protected(sessions, indexes);
    ProtectedAreListed(sessions, indexes);
    var groups := GroupsOf(sessions, guarded);
    |guarded| > 0 && (|guarded| > 1 ==> |groups| == 1 && None !in groups)
  }

  lemma ProtectedAreListed(sessions: seq<Session>, indexes: seq<nat>)
    requires InRange(sessions, indexes)
    ensures InRange(sessions, Protected(sessions, indexes))
  {
    var guarded := Protected(sessions, indexes);
    forall k | 0 <= k < |guarded| ensures guarded[k] < |sessions| {
      ProtectedMembers(sessions, indexes, guarded[k]);
    }
  }

  function AllHolders(sessions: seq<Session>, username: string): (indexes: seq<nat>)
    ensures InRange(sessions, indexes)
  {
    var indexes := Holders(sessions, username, |sessions|);
    assert InRange(sessions, indexes) by {
      forall k | 0 <= k < |indexes| ensures indexes[k] < |sessions| {
        HoldersHold(sessions, username, |sessions|, indexes[k]);
      }
    }
    indexes
  }

  ghost predicate AliasesAllowed(sessions: seq<Session>)
  {
    forall u: string {:trigger AllHolders(sessions, u)} :: |AllHolders(sessions, u)| > 1 ==>
      AliasAllowed(sessions, AllHolders(sessions, u))
  }

  /** The session gives way because another one uses its account. */
  predicate GivesWay(sessions: seq<Session>, i: nat)
    requires i < |sessions|
  {
    var session := sessions[i];
    session.skipOnUsernameAlias && session.credentials.Some?
      && |AllHolders(sessions, session.credentials.value.username)| > 1
  }

  /** What has been decided once the usernames in `done` have been looked at. */
  function Decided(sessions: seq<Session>, done: set<string>): (decided: seq<Session>)
    ensures |decided| == |sessions|
  {
    seq(|sessions|, i requires 0 <= i < |sessions| =>
      if GivesWay(sessions, i) && sessions[i].credentials.value.username in done
      then sessions[i].(skipReason := Some(SharesAnAccount)) else sessions[i])
  }

  lemma NotShared(sessions: seq<Session>, done: set<string>, u: string)
    requires |AllHolders(sessions, u)| <= 1
    ensures Decided(sessions, done + {u}) == Decided(sessions, done)
  {
    hide AllHolders;
  }

  function MarkedUpTo(sessions: seq<Session>, before: seq<Session>, indexes: seq<nat>, k: nat): seq<Session>
    requires |before| == |sessions| && k <= |indexes|
  {
    seq(|sessions|, i requires 0 <= i < |sessions| =>
      if i in indexes[..k] && sessions[i].skipOnUsernameAlias then before[i].(skipReason := Some(SharesAnAccount))
      else before[i])
  }

  lemma MarkedAll(sessions: seq<Session>, done: set<string>, u: string)
    requires |AllHolders(sessions, u)| > 1
    ensures var indexes := AllHolders(sessions, u);
      MarkedUpTo(sessions, Decided(sessions, done), indexes, |indexes|) == Decided(sessions, done + {u})
  {
    hide AllHolders;
    var indexes := AllHolders(sessions, u);
    assert indexes[..|indexes|] == indexes;
    forall i: nat | i < |sessions| ensures i in indexes <==> Holds(sessions, i, u) {
      HoldersHold(sessions, u, |sessions|, i);
      AllHoldersAre(sessions, u);
    }
    var marked := MarkedUpTo(sessions, Decided(sessions, done), indexes, |indexes|);
    var decided := Decided(sessions, done + {u});
    forall i | 0 <= i < |sessions| ensures marked[i] == decided[i] {
    }
  }

  lemma AllHoldersAre(sessions: seq<Session>, u: string)
    ensures AllHolders(sessions, u) == Holders(sessions, u, |sessions|)
  {
  }

  /** The username is shared as it may not be, and this is what is wrong with it. */
  ghost predicate IsAliasError(sessions: seq<Session>, u: string, error: PlanError)
  {
    && |AllHolders(sessions, u)| > 1 && !AliasAllowed(sessions, AllHolders(sessions, u))
    && error == AliasError(sessions, AllHolders(sessions, u))
  }

  /** Marks the sessions that give way, looking at the shared usernames in no particular order. */
  method SkipAliases(sessions: seq<Session>, usernames: map<string, seq<nat>>)
      returns (r: Result<seq<Session>, PlanError>)
    requires forall u :: u in usernames <==> AllHolders(sessions, u) != []
    requires forall u :: u in usernames ==> usernames[u] == AllHolders(sessions, u)
    ensures r.Ok? <==> AliasesAllowed(sessions)
    ensures r.Ok? ==> r.value == Decided(sessions, usernames.Keys)
    ensures r.Err? ==> exists u: string :: IsAliasError(sessions, u, r.error)
  {
    hide AllHolders, AliasAllowed, Decided, MarkedUpTo;
    var resolved := sessions;
    var pending := usernames.Keys;
    ghost var done: set<string> := {};
    NothingDecided(sessions);
    while pending != {}
      invariant done + pending == usernames.Keys
      invariant resolved == Decided(sessions, done)
      invariant forall u :: u in done && |AllHolders(sessions, u)| > 1 ==>
        AliasAllowed(sessions, AllHolders(sessions, u))
      decreases |pending|
    {
      var u :| u in pending;
      pending := pending - {u};
      var indexes := usernames[u];
      if |indexes| > 1 {
        var allowed := CheckAlias(sessions, indexes);
        if allowed.Some? {
          assert IsAliasError(sessions, u, allowed.value);
          return Err(allowed.value);
        }
        resolved := MarkAliases(sessions, resolved, indexes);
        MarkedAll(sessions, done, u);
      } else {
        NotShared(sessions, done, u);
      }
      done := done + {u};
    }
    assert done == usernames.Keys;
    r := Ok(resolved);
  }

  lemma NothingDecided(sessions: seq<Session>)
    ensures Decided(sessions, {}) == sessions
  {
  }

  /** What is wrong with sharing an account that may not be shared as its sessions ask. */
  function AliasError(sessions: seq<Session>, indexes: seq<nat>): PlanError
    requires InRange(sessions, indexes)
  {
    if forall i | i in indexes :: sessions[i].skipOnUsernameAlias then NothingUsesTheAccount
    else ProtectedSessionsShareAnAccount
  }

  /** Why an account may not be shared as its sessions ask; nothing when it may. */
  method CheckAlias(sessions: seq<Session>, indexes: seq<nat>) returns (error: Option<PlanError>)
    requires InRange(sessions, indexes)
    ensures error.None? <==> AliasAllowed(sessions, indexes)
    ensures error.Some? ==> error.value == AliasError(sessions, indexes)
  {
    ProtectedAreListed(sessions, indexes);
    var guarded := Protected(sessions, indexes);
    forall i | i in indexes ensures i in guarded <==> !sessions[i].skipOnUsernameAlias {
      ProtectedMembers(sessions, indexes, i);
    }
    if |guarded| > 0 {
      ProtectedMembers(sessions, indexes, guarded[0]);
      assert guarded[0] in indexes;
    }
    var groups := GroupsOf(sessions, guarded);
    var aliasIsExplicit := |groups| == 1 && None !in groups;
    if |guarded| > 1 && !aliasIsExplicit {
      return Some(ProtectedSessionsShareAnAccount);
    }
    if |guarded| == 0 {
      return Some(NothingUsesTheAccount);
    }
    error := None;
  }

  method MarkAliases(sessions: seq<Session>, before: seq<Session>, indexes: seq<nat>) returns (after: seq<Session>)
    requires |before| == |sessions| && InRange(sessions, indexes)
    ensures after == MarkedUpTo(sessions, before, indexes, |indexes|)
  {
    after := before;
    for k := 0 to |indexes|
      invariant after == MarkedUpTo(sessions, before, indexes, k)
    {
      assert indexes[..k + 1] == indexes[..k] + [indexes[k]];
      assert indexes[k] in indexes;
      if sessions[indexes[k]].skipOnUsernameAlias {
        after := after[indexes[k] := after[indexes[k]].(skipReason := Some(SharesAnAccount))];
      }
    }
  }

  /** Sessions without credentials are skipped for that, unless something else already skips them. */
  method SkipUnconfigured(sessions: seq<Session>) returns (after: seq<Session>)
    ensures |after| == |sessions|
    ensures forall i | 0 <= i < |sessions| ::
      after[i] == if sessions[i].credentials.None? && sessions[i].skipReason.None?
        then sessions[i].(skipReason := Some(NotConfigured)) else sessions[i]
  {
    after := sessions;
    for i := 0 to |sessions|
      invariant |after| == |sessions|
      invariant forall k | i <= k < |sessions| :: after[k] == sessions[k]
      invariant forall k | 0 <= k < i ::
        after[k] == if sessions[k].credentials.None? && sessions[k].skipReason.None?
          then sessions[k].(skipReason := Some(NotConfigured)) else sessions[k]
    {
      if after[i].credentials.None? && after[i].skipReason.None? {
        after := after[i := after[i].(skipReason := Some(NotConfigured))];
      }
    }
  }

  /** The whole decision for one session. */
  function Outcome(sessions: seq<Session>, i: nat): Session
    requires i < |sessions|
  {
    if sessions[i].credentials.None? then sessions[i].(skipReason := Some(NotConfigured))
    else if GivesWay(sessions, i) then sessions[i].(skipReason := Some(SharesAnAccount))
    else sessions[i]
  }

  function Outcomes(sessions: seq<Session>): seq<Session>
  {
    seq(|sessions|, i requires 0 <= i < |sessions| => Outcome(sessions, i))
  }

  /** Everything a plan must meet to be accepted. */
  ghost predicate Acceptable(bindings: Bindings, environment: Environment, plans: seq<SessionPlan>)
  {
    && AllReadable(bindings, environment, plans)
    && GroupsAgree(Unresolved(bindings, environment, plans), |plans|)
    && AliasesAllowed(Unresolved(bindings, environment, plans))
  }

  method Resolve(bindings: Bindings, environment: Environment, plans: seq<SessionPlan>)
      returns (r: Result<seq<Session>, PlanError>)
    ensures r.Ok? <==> Acceptable(bindings, environment, plans)
    ensures r.Ok? ==> r.value == Outcomes(Unresolved(bindings, environment, plans))
    ensures r.Err? ==>
      if !AllReadable(bindings, environment, plans) then IsFirstError(bindings, environment, plans, r.error)
      else if !GroupsAgree(Unresolved(bindings, environment, plans), |plans|) then r.error == GroupOfDifferentAccounts
      else exists u: string :: IsAliasError(Unresolved(bindings, environment, plans), u, r.error)
  {
    hide AllReadable, GroupsAgree, AliasesAllowed, AllHolders, Holders, Decided, Outcomes;
    var read := ReadSessions(bindings, environment, plans);
    if read.Err? {
      return Err(read.error);
    }
    var sessions := read.value;
    var indexed := IndexAccounts(sessions);
    if indexed.Err? {
      return Err(indexed.error);
    }
    forall u ensures AllHolders(sessions, u) == Holders(sessions, u, |sessions|) {
      AllHoldersAre(sessions, u);
    }
    var decided := SkipAliases(sessions, indexed.value);
    if decided.Err? {
      return Err(decided.error);
    }
    var resolved := SkipUnconfigured(decided.value);
    DecisionsAreOutcomes(bindings, environment, plans, indexed.value.Keys, resolved);
    r := Ok(resolved);
  }

  lemma DecisionsAreOutcomes(bindings: Bindings, environment: Environment, plans: seq<SessionPlan>, names: set<string>,
      resolved: seq<Session>)
    requires AllReadable(bindings, environment, plans)
    requires var sessions := Unresolved(bindings, environment, plans);
      && (forall u :: u in names <==> AllHolders(sessions, u) != [])
      && |resolved| == |sessions|
      && forall i | 0 <= i < |sessions| ::
        resolved[i] == if Decided(sessions, names)[i].credentials.None? && Decided(sessions, names)[i].skipReason.None?
          then Decided(sessions, names)[i].(skipReason := Some(NotConfigured)) else Decided(sessions, names)[i]
    ensures resolved == Outcomes(Unresolved(bindings, environment, plans))
  {
    hide AllHolders, AllReadable, CredentialsOf;
    var sessions := Unresolved(bindings, environment, plans);
    forall i | 0 <= i < |sessions| ensures resolved[i] == Outcomes(sessions)[i] {
      assert sessions[i].skipReason.None?;
      if sessions[i].credentials.Some? {
        assert GivesWay(sessions, i) ==> sessions[i].credentials.value.username in names;
      }
    }
  }
}
