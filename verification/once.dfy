/**
 `Once`: a slot and a finality flag under one lock, filled by any number of producers and
 taken by any number of receivers.
 */
module OnceSlot {
  import opened Options

  datatype Slot<T> = Slot(value: Option<T>, final: bool)
  {
    function Fill(v: T): (Slot<T>, bool)
    {
      if value.Some? || final then (this, false) else (Slot(Some(v), true), true)
    }

    function Send(v: T): (Slot<T>, bool)
    {
      (Slot(if value.None? then Some(v) else value, true), value.None?)
    }

    function Abandon(): Slot<T>
    {
      this.(final := true)
    }
  }

  /** What one look of a receiver finds. */
  datatype Look<T> = Taken(value: T) | Finished | NotYet

  function LookOf<T>(s: Slot<T>): (Slot<T>, Look<T>)
  {
    if s.value.Some? then (s.(value := None), Taken(s.value.value))
    else (s, if s.final then Finished else NotYet)
  }

  /** The lock-protected sections, one method each. */
  class Once<T> {
    var value: Option<T>
    var final: bool

    function View(): Slot<T>
      reads this
    {
      Slot(value, final)
    }

    constructor ()
      ensures View() == Slot(None, false)
    {
      value, final := None, false;
    }

    method Fill(v: T) returns (stored: bool)
      modifies this
      ensures (View(), stored) == old(View()).Fill(v)
    {
      if value.Some? || final {
        return false;
      }
      value := Some(v);
      final := true;
      return true;
    }

    method Send(v: T)
      modifies this
      ensures View() == old(View()).Send(v).0
    {
      if value.None? {
        value := Some(v);
      }
      final := true;
    }

    method Abandon()
      modifies this
      ensures View() == old(View()).Abandon()
    {
      final := true;
    }

    method Look() returns (look: Look<T>)
      modifies this
      ensures (View(), look) == LookOf(old(View()))
    {
      if value.Some? {
        look := Taken(value.value);
        value := None;
        return;
      }
      if final {
        return Finished;
      }
      return NotYet;
    }
  }
}

/** Every interleaving of producers and receivers of one `Once`. */
module OnceRuns {
  import opened Options
  import opened Notifications
  import opened OnceSlot

  datatype Offer<T> = Fill(v: T) | Send(v: T) | Abandon

  /** Between its store and its notification a producer is `Stored`. */
  datatype Producer<T> = Ready(offer: Offer<T>) | Stored | Over(accepted: bool)

  /** `ready` is what `enable` answered; it decides whether an empty look parks. */
  datatype Receiver<T> = Calling | Armed(ready: bool) | Parked | Returned(result: Option<T>)

  datatype World<T> = World(
    slot: Slot<T>,
    notify: Notify,
    producers: map<Task, Producer<T>>,
    receivers: map<Task, Receiver<T>>,
    accepted: seq<T>,
    delivered: seq<T>,
    abandoned: bool)

  datatype Action =
    | Store(p: Task)
    | Wake(p: Task)
    | Enable(r: Task, ready: bool)
    | Look(r: Task)
    | Resume(r: Task)
    | Recall(r: Task)
    | Cancel(r: Task)

  predicate Start<T>(w: World<T>)
  {
    && w.slot == Slot(None, false)
    && w.notify == Notify(map[])
    && w.accepted == [] && w.delivered == [] && !w.abandoned
    && (forall p :: p in w.producers ==> w.producers[p].Ready?)
    && (forall r :: r in w.receivers ==> w.receivers[r] == Calling)
  }

  function StoreStep<T>(w: World<T>, p: Task): (next: World<T>)
    requires p in w.producers && w.producers[p].Ready?
  {
    match w.producers[p].offer
    case Fill(v) =>
      var (slot, stored) := w.slot.Fill(v);
      w.(slot := slot, producers := w.producers[p := if stored then Stored else Over(false)],
         accepted := if stored then w.accepted + [v] else w.accepted)
    case Send(v) =>
      var (slot, stored) := w.slot.Send(v);
      w.(slot := slot, producers := w.producers[p := Stored],
         accepted := if stored then w.accepted + [v] else w.accepted)
    case Abandon =>
      w.(slot := w.slot.Abandon(), producers := w.producers[p := Stored], abandoned := true)
  }

  function LookStep<T>(w: World<T>, r: Task): (next: World<T>)
    requires r in w.receivers && w.receivers[r].Armed?
  {
    var (slot, look) := LookOf(w.slot);
    match look
    case Taken(v) =>
      w.(slot := slot, notify := w.notify.Leave(r), receivers := w.receivers[r := Returned(Some(v))],
         delivered := w.delivered + [v])
    case Finished =>
      w.(notify := w.notify.Leave(r), receivers := w.receivers[r := Returned(None)])
    case NotYet =>
      if w.receivers[r].ready then w.(notify := w.notify.Leave(r), receivers := w.receivers[r := Calling])
      else w.(receivers := w.receivers[r := Parked])
  }

  /** One atomic step; nothing when the named task is not at that point. */
  function Step<T>(w: World<T>, a: Action): (next: Option<World<T>>)
  {
    match a
    case Store(p) =>
      if p in w.producers && w.producers[p].Ready? then Some(StoreStep(w, p)) else None
    case Wake(p) =>
      if p in w.producers && w.producers[p].Stored? then
        Some(w.(notify := w.notify.NotifyWaiters(), producers := w.producers[p := Over(true)]))
      else None
    case Enable(r, ready) =>
      if r in w.receivers && w.receivers[r].Calling? then
        Some(w.(notify := w.notify.Enable(r), receivers := w.receivers[r := Armed(ready)]))
      else None
    case Look(r) =>
      if r in w.receivers && w.receivers[r].Armed? then Some(LookStep(w, r)) else None
    case Resume(r) =>
      if r in w.receivers && w.receivers[r].Parked? && w.notify.Woken(r) then
        Some(w.(notify := w.notify.Leave(r), receivers := w.receivers[r := Calling]))
      else None
    case Recall(r) =>
      if r in w.receivers && w.receivers[r].Returned? then Some(w.(receivers := w.receivers[r := Calling])) else None
    // A pending receive may be dropped at any time; it has taken nothing.
    case Cancel(r) =>
      if r in w.receivers && (w.receivers[r].Armed? || w.receivers[r].Parked?) then
        Some(w.(notify := w.notify.Leave(r), receivers := w.receivers[r := Calling]))
      else None
  }

  /** A run: the worlds a sequence of steps passes through, the last one included. */
  ghost predicate Run<T>(worlds: seq<World<T>>, actions: seq<Action>)
  {
    && |worlds| == |actions| + 1
    && Start(worlds[0])
    && forall i :: 0 <= i < |actions| ==> Step(worlds[i], actions[i]) == Some(worlds[i + 1])
  }

  function InSlot<T>(w: World<T>): seq<T>
  {
    if w.slot.value.Some? then [w.slot.value.value] else []
  }

  predicate SomethingToSee<T>(w: World<T>)
  {
    w.slot.value.Some? || w.slot.final
  }

  predicate SomeoneWillNotify<T>(w: World<T>)
  {
    exists p :: p in w.producers && w.producers[p].Stored?
  }

  /** The receiver waits for a wake-up that nothing has sent yet. */
  predicate AsleepUnwoken<T>(w: World<T>, r: Task)
  {
    r in w.receivers && w.receivers[r].Parked? && !w.notify.Woken(r)
  }

  /** The value is conserved, and finality says why a receiver may stop waiting. */
  ghost predicate Conserves<T>(w: World<T>)
  {
    && w.accepted == w.delivered + InSlot(w)
    && (w.slot.value.Some? ==> w.slot.final)
    && (w.slot.final <==> w.abandoned || w.accepted != [])
    && (forall r :: r in w.receivers && w.receivers[r] == Returned(None) ==> w.abandoned || w.delivered != [])
    && (forall r :: r in w.receivers && w.receivers[r].Returned? && w.receivers[r].result.Some? ==>
      w.receivers[r].result.value in w.delivered)
  }

  /** Nobody sleeps through a change: either a notification is still to come or there is nothing to see. */
  ghost predicate Wakes<T>(w: World<T>)
  {
    && (forall r :: r in w.receivers && (w.receivers[r].Armed? || w.receivers[r].Parked?) ==> w.notify.Registered(r))
    && (forall r :: AsleepUnwoken(w, r) ==> SomethingToSee(w) ==> SomeoneWillNotify(w))
  }

  ghost predicate Inv<T>(w: World<T>)
  {
    Conserves(w) && Wakes(w)
  }

  lemma StartInv<T>(w: World<T>)
    requires Start(w)
    ensures Inv(w)
  {
  }

  lemma StoreConserves<T>(w: World<T>, p: Task)
    requires Conserves(w) && p in w.producers && w.producers[p].Ready?
    ensures var next := StoreStep(w, p);
      Conserves(next) && (w.slot.final ==> next.slot.final) && w.accepted <= next.accepted
        && next.delivered == w.delivered
  {
  }

  lemma LookConserves<T>(w: World<T>, r: Task)
    requires Conserves(w) && r in w.receivers && w.receivers[r].Armed?
    ensures var next := LookStep(w, r);
      Conserves(next) && next.slot.final == w.slot.final && next.accepted == w.accepted && w.delivered <= next.delivered
  {
  }

  /** A step that leaves slot and accounts alone, and brings no new return. */
  lemma OtherwiseConserves<T>(w: World<T>, next: World<T>)
    requires Conserves(w) && next.slot == w.slot && next.abandoned == w.abandoned
    requires next.accepted == w.accepted && next.delivered == w.delivered
    requires forall r :: r in next.receivers && next.receivers[r].Returned? ==>
      r in w.receivers && next.receivers[r] == w.receivers[r]
    ensures Conserves(next)
  {
  }

  lemma StepConserves<T>(w: World<T>, a: Action, next: World<T>)
    requires Conserves(w) && Step(w, a) == Some(next)
    ensures Conserves(next)
    ensures w.slot.final ==> next.slot.final
    ensures w.accepted <= next.accepted && w.delivered <= next.delivered
  {
    hide Conserves, StoreStep, LookStep;
    if a.Store? {
      StoreConserves(w, a.p);
    } else if a.Look? {
      LookConserves(w, a.r);
    } else {
      OtherwiseConserves(w, next);
    }
  }

  lemma ProducerMoves<T>(w: World<T>, p: Task, q: Producer<T>, next: World<T>)
    requires next.producers == w.producers[p := q] && p in w.producers && w.producers[p].Ready?
    requires SomeoneWillNotify(w) || q.Stored?
    ensures SomeoneWillNotify(next)
  {
    if q.Stored? {
      assert next.producers[p].Stored?;
    } else {
      var other :| other in w.producers && w.producers[other].Stored?;
      assert next.producers[other].Stored?;
    }
  }

  lemma StoreWakes<T>(w: World<T>, p: Task)
    requires Wakes(w) && p in w.producers && w.producers[p].Ready?
    ensures Wakes(StoreStep(w, p))
  {
    var next := StoreStep(w, p);
    forall r | AsleepUnwoken(next, r) && SomethingToSee(next) ensures SomeoneWillNotify(next) {
      assert AsleepUnwoken(w, r);
      ProducerMoves(w, p, next.producers[p], next);
    }
  }

  lemma WakeWakes<T>(w: World<T>, next: World<T>)
    requires Wakes(w) && next.receivers == w.receivers && next.notify == w.notify.NotifyWaiters()
    ensures Wakes(next)
  {
  }

  /** A receiver's own step, after which nobody new is asleep and whoever waits is registered. */
  lemma ReceiverWakes<T>(w: World<T>, next: World<T>)
    requires Wakes(w) && next.producers == w.producers && (SomethingToSee(next) ==> SomethingToSee(w))
    requires forall r :: r in next.receivers && (next.receivers[r].Armed? || next.receivers[r].Parked?) ==>
      next.notify.Registered(r)
    requires forall r :: AsleepUnwoken(next, r) && SomethingToSee(next) ==> AsleepUnwoken(w, r)
    ensures Wakes(next)
  {
    assert SomeoneWillNotify(w) ==> SomeoneWillNotify(next);
  }

  lemma LookWakes<T>(w: World<T>, r: Task)
    requires Wakes(w) && r in w.receivers && w.receivers[r].Armed?
    ensures Wakes(LookStep(w, r))
  {
    ReceiverWakes(w, LookStep(w, r));
  }

  lemma StepWakes<T>(w: World<T>, a: Action, next: World<T>)
    requires Wakes(w) && Step(w, a) == Some(next)
    ensures Wakes(next)
  {
    hide StoreStep, LookStep, SomethingToSee, SomeoneWillNotify;
    if a.Store? {
      StoreWakes(w, a.p);
    } else if a.Look? {
      LookWakes(w, a.r);
    } else if a.Wake? {
      WakeWakes(w, next);
    } else {
      assert SomethingToSee(next) <==> SomethingToSee(w) by { SameSlot(w, next); }
      ReceiverWakes(w, next);
    }
  }

  lemma SameSlot<T>(w: World<T>, next: World<T>)
    requires next.slot == w.slot
    ensures SomethingToSee(next) <==> SomethingToSee(w)
  {
  }

  lemma {:induction false} RunInv<T>(worlds: seq<World<T>>, actions: seq<Action>)
    requires Run(worlds, actions)
    ensures Inv(worlds[|actions|])
    decreases |actions|
  {
    if actions == [] {
      StartInv(worlds[0]);
    } else {
      var n := |actions| - 1;
      RunInv(worlds[..n + 1], actions[..n]);
      StepConserves(worlds[n], actions[n], worlds[n + 1]);
      StepWakes(worlds[n], actions[n], worlds[n + 1]);
    }
  }

  /**
   No lost wake-up, in any run: a receiver asleep without a wake-up while there is something to see means
   a producer is between its store and its notification. Once producers are quiet, nobody is left asleep.
   */
  lemma NoLostWakeup<T>(worlds: seq<World<T>>, actions: seq<Action>, r: Task)
    requires Run(worlds, actions)
    ensures var w := worlds[|actions|];
      AsleepUnwoken(w, r) && SomethingToSee(w) ==> SomeoneWillNotify(w)
  {
    RunInv(worlds, actions);
  }

  /**
   Conservation, in any run: what was accepted was delivered, in order, or is still in the slot; a present
   value is final; and a receiver that came back with nothing was abandoned or another receiver took the value.
   */
  lemma ValueIsConserved<T>(worlds: seq<World<T>>, actions: seq<Action>, r: Task)
    requires Run(worlds, actions)
    ensures var w := worlds[|actions|];
      && w.accepted == w.delivered + InSlot(w)
      && (w.slot.value.Some? ==> w.slot.final)
      && (r in w.receivers && w.receivers[r] == Returned(None) ==> w.abandoned || w.delivered != [])
      && (r in w.receivers && w.receivers[r].Returned? && w.receivers[r].result.Some? ==>
        w.receivers[r].result.value in w.delivered)
  {
    RunInv(worlds, actions);
  }

  /** A look returns exactly when there is something to see, the value if there is one; else an unready one parks. */
  lemma LookDecides<T>(w: World<T>, r: Task, next: World<T>)
    requires Step(w, Look(r)) == Some(next)
    ensures r in w.receivers && r in next.receivers
    ensures next.receivers[r].Returned? <==> w.slot.value.Some? || w.slot.final
    ensures next.receivers[r].Returned? ==> next.receivers[r].result == w.slot.value
    ensures next.receivers[r].Parked? <==> w.slot == Slot(None, false) && w.receivers[r] == Armed(false)
  {
  }

  /** Finality is never undone, between any two points of a run. */
  lemma {:induction false} FinalityIsForever<T>(worlds: seq<World<T>>, actions: seq<Action>, i: nat, j: nat)
    requires Run(worlds, actions) && i <= j <= |actions| && worlds[i].slot.final
    ensures worlds[j].slot.final
    decreases j
  {
    if i < j {
      FinalityIsForever(worlds, actions, i, j - 1);
      assert Step(worlds[j - 1], actions[j - 1]) == Some(worlds[j]);
    }
  }

  /** A send that finds the slot empty only because its value has already been taken. */
  predicate LateSend<T>(w: World<T>, a: Action)
  {
    && a.Store? && a.p in w.producers && w.producers[a.p].Ready? && w.producers[a.p].offer.Send?
    && w.slot.value.None? && w.delivered != []
  }

  /** At most one value goes through a `Once` exactly as long as nobody sends after the value was taken. */
  lemma {:induction false} AtMostOnceExactlyWithoutLateSends<T>(worlds: seq<World<T>>, actions: seq<Action>)
    requires Run(worlds, actions)
    ensures |worlds[|actions|].accepted| <= 1 <==> forall i :: 0 <= i < |actions| ==> !LateSend(worlds[i], actions[i])
    decreases |actions|
  {
    if actions != [] {
      var n := |actions| - 1;
      var before, last := worlds[..n + 1], actions[..n];
      AtMostOnceExactlyWithoutLateSends(before, last);
      RunInv(before, last);
      StepConserves(worlds[n], actions[n], worlds[n + 1]);
      AcceptsSecondOnlyLate(worlds[n], actions[n], worlds[n + 1]);
      assert forall i :: 0 <= i < n ==> last[i] == actions[i] && before[i] == worlds[i];
    }
  }

  lemma AcceptsSecondOnlyLate<T>(w: World<T>, a: Action, next: World<T>)
    requires Conserves(w) && Step(w, a) == Some(next)
    ensures LateSend(w, a) ==> |next.accepted| >= 2
    ensures |w.accepted| <= 1 && !LateSend(w, a) ==> |next.accepted| <= 1
  {
  }

  /** Any number of fills, or a single send, and any number of abandonments beside either. */
  predicate FillsOrOneSend<T>(w: World<T>, sender: Task)
  {
    Sendless(w) || forall p :: p in w.producers && p != sender && w.producers[p].Ready? ==>
      w.producers[p].offer.Abandon?
  }

  /** With that discipline a value is delivered at most once, whatever the interleaving. */
  lemma DisciplinedIsAtMostOnce<T>(worlds: seq<World<T>>, actions: seq<Action>, sender: Task)
    requires Run(worlds, actions) && FillsOrOneSend(worlds[0], sender)
    ensures |worlds[|actions|].delivered| <= |worlds[|actions|].accepted| <= 1
  {
    forall i | 0 <= i < |actions| ensures !LateSend(worlds[i], actions[i]) {
      DisciplineKept(worlds, actions, sender, i);
    }
    AtMostOnceExactlyWithoutLateSends(worlds, actions);
    RunInv(worlds, actions);
  }

  lemma {:induction false} DisciplineKept<T>(worlds: seq<World<T>>, actions: seq<Action>, sender: Task, i: nat)
    requires Run(worlds, actions) && FillsOrOneSend(worlds[0], sender) && i <= |actions|
    ensures Disciplined(worlds[i], sender)
    ensures i < |actions| ==> !LateSend(worlds[i], actions[i])
    decreases i
  {
    RunInv(worlds[..i + 1], actions[..i]);
    if i > 0 {
      DisciplineKept(worlds, actions, sender, i - 1);
      assert Step(worlds[i - 1], actions[i - 1]) == Some(worlds[i]);
      DisciplineStep(worlds[i - 1], actions[i - 1], worlds[i], sender);
    }
    if i < |actions| {
      DisciplinedIsNotLate(worlds[i], actions[i], sender);
    }
  }

  predicate Sendless<T>(w: World<T>)
  {
    forall p :: p in w.producers && w.producers[p].Ready? ==> !w.producers[p].offer.Send?
  }

  /** The discipline at any point of a run: nothing has been accepted while the one sender is still to come. */
  predicate Disciplined<T>(w: World<T>, sender: Task)
  {
    || Sendless(w)
    || ((forall p :: p in w.producers && p != sender && w.producers[p].Ready? ==> w.producers[p].offer.Abandon?)
        && (sender in w.producers && w.producers[sender].Ready? ==> w.accepted == []))
  }

  lemma DisciplineStep<T>(w: World<T>, a: Action, next: World<T>, sender: Task)
    requires Disciplined(w, sender) && Step(w, a) == Some(next)
    ensures Disciplined(next, sender)
  {
    assert Sendless(w) ==> Sendless(next);
  }

  lemma DisciplinedIsNotLate<T>(w: World<T>, a: Action, sender: Task)
    requires Disciplined(w, sender) && Conserves(w)
    ensures !LateSend(w, a)
  {
  }

  /** The world a list of steps leads to, when each of them can be taken. */
  function Steps<T>(w: World<T>, actions: seq<Action>): Option<World<T>>
    decreases |actions|
  {
    if actions == [] then Some(w)
    else
      var before := Steps(w, actions[..|actions| - 1]);
      if before.None? then None else Step(before.value, actions[|actions| - 1])
  }

  lemma RunOneMore<T>(worlds: seq<World<T>>, actions: seq<Action>, a: Action, next: World<T>)
    requires Run(worlds, actions) && Step(worlds[|actions|], a) == Some(next)
    ensures Run(worlds + [next], actions + [a])
  {
    hide Step, Start;
  }

  lemma {:induction false} StepsAreARun<T>(w: World<T>, actions: seq<Action>) returns (worlds: seq<World<T>>)
    requires Start(w) && Steps(w, actions).Some?
    ensures |worlds| == |actions| + 1 && Run(worlds, actions)
    ensures worlds[0] == w && Steps(w, actions) == Some(worlds[|actions|])
    decreases |actions|
  {
    hide Step, Start;
    if actions == [] {
      worlds := [w];
    } else {
      hide Run;
      var front, last := actions[..|actions| - 1], actions[|actions| - 1];
      var before := StepsAreARun(w, front);
      var next := Steps(w, actions).value;
      RunOneMore(before, front, last, next);
      worlds := before + [next];
      assert front + [last] == actions;
    }
  }

  lemma OneStepMore<T>(w: World<T>, actions: seq<Action>, a: Action)
    ensures Steps(w, actions + [a]) == if Steps(w, actions).None? then None else Step(Steps(w, actions).value, a)
  {
    assert (actions + [a])[..|actions|] == actions;
  }

  /** Let one producer store and one receiver take what it stored. */
  lemma StoreAndTake<T>(w: World<T>, actions: seq<Action>, p: Task, r: Task) returns (more: seq<Action>)
    requires Steps(w, actions).Some?
    requires var at := Steps(w, actions).value;
      && p in at.producers && at.producers[p].Ready? && !at.producers[p].offer.Abandon?
      && r in at.receivers && at.receivers[r] == Calling && at.slot.value.None?
      && (at.slot.final ==> at.producers[p].offer.Send?)
    ensures Steps(w, more).Some?
    ensures var at, end := Steps(w, actions).value, Steps(w, more).value;
      && end.delivered == at.delivered + [at.producers[p].offer.v]
      && end.slot.value.None? && end.producers == at.producers[p := Stored]
      && r in end.receivers && end.receivers[r].Returned?
  {
    OneStepMore(w, actions, Store(p));
    OneStepMore(w, actions + [Store(p)], Enable(r, false));
    OneStepMore(w, actions + [Store(p)] + [Enable(r, false)], Look(r));
    more := actions + [Store(p)] + [Enable(r, false)] + [Look(r)];
  }

  /** Without the discipline the promise fails: a sender that comes after the value was taken is heard as well. */
  lemma LateSenderIsHeard<T>(w: World<T>, sender: Task, other: Task, r: Task)
      returns (worlds: seq<World<T>>, actions: seq<Action>)
    requires Start(w) && r in w.receivers && sender in w.producers && other in w.producers && sender != other
    requires w.producers[sender].offer.Send? && !w.producers[other].offer.Abandon?
    ensures Run(worlds, actions) && worlds[0] == w
    ensures worlds[|actions|].delivered == [w.producers[other].offer.v, w.producers[sender].offer.v]
  {
    hide Step;
    var none: seq<Action> := [];
    assert Steps(w, none) == Some(w);
    var first := StoreAndTake(w, none, other, r);
    RecallNext(w, first, r);
    actions := StoreAndTake(w, first + [Recall(r)], sender, r);
    worlds := StepsAreARun(w, actions);
  }

  lemma RecallNext<T>(w: World<T>, actions: seq<Action>, r: Task)
    requires Steps(w, actions).Some?
    requires r in Steps(w, actions).value.receivers && Steps(w, actions).value.receivers[r].Returned?
    ensures var at := Steps(w, actions).value;
      Steps(w, actions + [Recall(r)]) == Some(at.(receivers := at.receivers[r := Calling]))
  {
    OneStepMore(w, actions, Recall(r));
  }

  /** Every run from a world delivers at most once. */
  ghost predicate AlwaysAtMostOnce<T(!new)>(w: World<T>)
  {
    forall worlds: seq<World<T>>, actions: seq<Action> {:trigger Run(worlds, actions)} ::
      Run(worlds, actions) && worlds[0] == w ==> |worlds[|actions|].delivered| <= 1
  }

  /** Where somebody receives, the discipline is exactly what it takes: it decides from the offers alone. */
  lemma DisciplineIsExact<T(!new)>(w: World<T>, r: Task)
    requires Start(w) && r in w.receivers
    ensures AlwaysAtMostOnce(w) <==> exists sender :: FillsOrOneSend(w, sender)
  {
    hide Step, Start;
    if sender :| FillsOrOneSend(w, sender) {
      forall worlds: seq<World<T>>, actions: seq<Action> | Run(worlds, actions) && worlds[0] == w
        ensures |worlds[|actions|].delivered| <= 1
      {
        DisciplinedIsAtMostOnce(worlds, actions, sender);
      }
    } else {
      var sender, other := TwoTalk(w);
      var worlds, actions := LateSenderIsHeard(w, sender, other, r);
      assert |worlds[|actions|].delivered| == 2;
    }
  }

  lemma TwoTalk<T>(w: World<T>) returns (sender: Task, other: Task)
    requires Start(w) && forall s :: !FillsOrOneSend(w, s)
    ensures sender in w.producers && other in w.producers && sender != other
    ensures w.producers[sender].offer.Send? && !w.producers[other].offer.Abandon?
  {
    assert !FillsOrOneSend(w, 0);
    sender :| sender in w.producers && w.producers[sender].Ready? && w.producers[sender].offer.Send?;
    assert !FillsOrOneSend(w, sender);
    other :| other in w.producers && other != sender && w.producers[other].Ready? && !w.producers[other].offer.Abandon?;
  }

  /** Two senders and one receiver: both values come out. */
  lemma TwoSendsDeliverTwice<T>(a: T, b: T) returns (worlds: seq<World<T>>, actions: seq<Action>)
    ensures Run(worlds, actions)
    ensures worlds[|actions|].delivered == [a, b]
  {
    var producers: map<Task, Producer<T>> := map[0 := Ready(Send(a)), 1 := Ready(Send(b))];
    var receivers: map<Task, Receiver<T>> := map[2 := Calling];
    var w := World(Slot(None, false), Notify(map[]), producers, receivers, [], [], false);
    worlds, actions := LateSenderIsHeard(w, 1, 0, 2);
  }
}

/** The steps of a world taken on a real object: every lock section of a run is a call of the class. */
module OnceReplay {
  import opened Options
  import opened OnceSlot
  import opened OnceRuns

  /** One step; the slot of the world is the object's, before and after. */
  method Take<T>(once: Once<T>, w: World<T>, a: Action) returns (next: World<T>)
    requires once.View() == w.slot && Step(w, a).Some?
    modifies once
    ensures Step(w, a) == Some(next) && once.View() == next.slot
  {
    match a {
      case Store(p) =>
        match w.producers[p].offer {
          case Fill(v) =>
            var stored := once.Fill(v);
            next := w.(slot := once.View(), producers := w.producers[p := if stored then Stored else Over(false)],
                       accepted := if stored then w.accepted + [v] else w.accepted);
          case Send(v) =>
            var empty := once.value.None?;
            once.Send(v);
            next := w.(slot := once.View(), producers := w.producers[p := Stored],
                       accepted := if empty then w.accepted + [v] else w.accepted);
          case Abandon =>
            once.Abandon();
            next := w.(slot := once.View(), producers := w.producers[p := Stored], abandoned := true);
        }
      case Look(r) =>
        var look := once.Look();
        match look {
          case Taken(v) =>
            next := w.(slot := once.View(), notify := w.notify.Leave(r),
                       receivers := w.receivers[r := Returned(Some(v))], delivered := w.delivered + [v]);
          case Finished =>
            next := w.(notify := w.notify.Leave(r), receivers := w.receivers[r := Returned(None)]);
          case NotYet =>
            if w.receivers[r].ready {
              next := w.(notify := w.notify.Leave(r), receivers := w.receivers[r := Calling]);
            } else {
              next := w.(receivers := w.receivers[r := Parked]);
            }
        }
      case _ =>
        next := Step(w, a).value;
    }
  }

  /** Every run can be played on one object, which ends up with the slot of the run. */
  method Replay<T>(w: World<T>, actions: seq<Action>) returns (once: Once<T>, end: World<T>)
    requires Start(w) && Steps(w, actions).Some?
    ensures fresh(once) && Steps(w, actions) == Some(end) && once.View() == end.slot
  {
    once := new Once();
    end := w;
    for i := 0 to |actions|
      invariant fresh(once) && Steps(w, actions[..i]) == Some(end) && once.View() == end.slot
    {
      assert actions[..i + 1] == actions[..i] + [actions[i]];
      OneStepMore(w, actions[..i], actions[i]);
      PrefixSteps(w, actions, i + 1);
      end := Take(once, end, actions[i]);
    }
    assert actions[..|actions|] == actions;
  }

  lemma {:induction false} PrefixSteps<T>(w: World<T>, actions: seq<Action>, i: nat)
    requires Steps(w, actions).Some? && i <= |actions|
    ensures Steps(w, actions[..i]).Some?
    decreases |actions|
  {
    hide Step;
    if i == |actions| {
      assert actions[..i] == actions;
    } else {
      assert actions[..|actions| - 1][..i] == actions[..i];
      PrefixSteps(w, actions[..|actions| - 1], i);
    }
  }
}
