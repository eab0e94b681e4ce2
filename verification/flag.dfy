/** `Flag`: an atomic bool raised once and for all, with a wake-up for whoever waits on it. */
module FlagRuns {
  import opened Options
  import opened Notifications

  datatype Raiser = Ready | Stored | Over

  datatype Waiter = Calling | Armed(ready: bool) | Parked | Resolved

  datatype World = World(up: bool, notify: Notify, raisers: map<Task, Raiser>, waiters: map<Task, Waiter>)

  datatype Action =
    | Store(t: Task)
    | Wake(t: Task)
    | Enable(t: Task, ready: bool)
    | Load(t: Task)
    | Resume(t: Task)
    | Cancel(t: Task)

  predicate Start(s: World)
  {
    && !s.up && s.notify == Notify(map[])
    && (forall t :: t in s.raisers ==> s.raisers[t] == Ready)
    && (forall t :: t in s.waiters ==> s.waiters[t] == Calling)
  }

  function LoadStep(s: World, t: Task): World
    requires t in s.waiters && s.waiters[t].Armed?
  {
    if s.up then s.(notify := s.notify.Leave(t), waiters := s.waiters[t := Resolved])
    else if s.waiters[t].ready then s.(notify := s.notify.Leave(t), waiters := s.waiters[t := Calling])
    else s.(waiters := s.waiters[t := Parked])
  }

  function Step(s: World, a: Action): Option<World>
  {
    match a
    case Store(t) =>
      if t in s.raisers && s.raisers[t] == Ready then Some(s.(up := true, raisers := s.raisers[t := Stored])) else None
    case Wake(t) =>
      if t in s.raisers && s.raisers[t] == Stored then
        Some(s.(notify := s.notify.NotifyWaiters(), raisers := s.raisers[t := Over]))
      else None
    case Enable(t, ready) =>
      if t in s.waiters && s.waiters[t] == Calling then
        Some(s.(notify := s.notify.Enable(t), waiters := s.waiters[t := Armed(ready)]))
      else None
    case Load(t) =>
      if t in s.waiters && s.waiters[t].Armed? then Some(LoadStep(s, t)) else None
    case Resume(t) =>
      if t in s.waiters && s.waiters[t] == Parked && s.notify.Woken(t) then
        Some(s.(notify := s.notify.Leave(t), waiters := s.waiters[t := Calling]))
      else None
    // A pending wait may be dropped at any time.
    case Cancel(t) =>
      if t in s.waiters && (s.waiters[t].Armed? || s.waiters[t] == Parked) then
        Some(s.(notify := s.notify.Leave(t), waiters := s.waiters[t := Calling]))
      else None
  }

  ghost predicate Run(worlds: seq<World>, actions: seq<Action>)
  {
    && |worlds| == |actions| + 1
    && Start(worlds[0])
    && forall i :: 0 <= i < |actions| ==> Step(worlds[i], actions[i]) == Some(worlds[i + 1])
  }

  predicate SomeoneWillNotify(s: World)
  {
    exists t :: t in s.raisers && s.raisers[t] == Stored
  }

  predicate SomeoneRaised(s: World)
  {
    exists t :: t in s.raisers && s.raisers[t] != Ready
  }

  predicate AsleepUnwoken(s: World, t: Task)
  {
    t in s.waiters && s.waiters[t] == Parked && !s.notify.Woken(t)
  }

  ghost predicate Inv(s: World)
  {
    && (forall t :: t in s.waiters && (s.waiters[t].Armed? || s.waiters[t] == Parked) ==> s.notify.Registered(t))
    && (forall t :: t in s.waiters && s.waiters[t] == Resolved ==> s.up)
    && (forall t :: AsleepUnwoken(s, t) ==> s.up ==> SomeoneWillNotify(s))
    && (s.up <==> SomeoneRaised(s))
  }

  lemma StepInv(s: World, a: Action, next: World)
    requires Inv(s) && Step(s, a) == Some(next)
    ensures Inv(next) && (s.up ==> next.up)
  {
    forall t | AsleepUnwoken(next, t) && next.up
      ensures SomeoneWillNotify(next)
    {
      match a
      case Store(t') =>
        assert next.raisers[t'] == Stored;
      case Wake(t') =>
        assert false;
      case _ =>
        assert AsleepUnwoken(s, t) && next.raisers == s.raisers;
    }
    assert next.up <==> SomeoneRaised(next) by { StepRaises(s, a, next); }
  }

  lemma StepRaises(s: World, a: Action, next: World)
    requires (s.up <==> SomeoneRaised(s)) && Step(s, a) == Some(next)
    ensures next.up <==> SomeoneRaised(next)
  {
    if a.Store? || a.Wake? {
      assert next.raisers[a.t] != Ready;
      if SomeoneRaised(s) {
        var other :| other in s.raisers && s.raisers[other] != Ready;
        assert next.raisers[other] != Ready;
      }
    } else {
      assert next.raisers == s.raisers;
    }
  }

  lemma {:induction false} RunInv(worlds: seq<World>, actions: seq<Action>)
    requires Run(worlds, actions)
    ensures Inv(worlds[|actions|])
    decreases |actions|
  {
    if actions != [] {
      var n := |actions| - 1;
      RunInv(worlds[..n + 1], actions[..n]);
      StepInv(worlds[n], actions[n], worlds[n + 1]);
    }
  }

  /** A look at the flag resolves the wait exactly when it is up; only one that is not, and unready, parks. */
  lemma LoadDecides(s: World, t: Task, next: World)
    requires Step(s, Load(t)) == Some(next)
    ensures t in s.waiters && t in next.waiters
    ensures next.waiters[t] == Resolved <==> s.up
    ensures next.waiters[t] == Parked <==> !s.up && s.waiters[t] == Armed(false)
  {
  }

  /**
   The flag is up exactly when somebody has raised it, a waiter resolves only then, and none is left asleep
   under a raised flag once raisers are quiet.
   */
  lemma RaisedMeansWoken(worlds: seq<World>, actions: seq<Action>, t: Task)
    requires Run(worlds, actions)
    ensures var s := worlds[|actions|];
      && (s.up <==> exists r :: r in s.raisers && s.raisers[r] != Ready)
      && (t in s.waiters && s.waiters[t] == Resolved ==> s.up)
      && (AsleepUnwoken(s, t) && s.up ==> SomeoneWillNotify(s))
  {
    RunInv(worlds, actions);
  }
}
