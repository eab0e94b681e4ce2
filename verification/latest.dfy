/**
 `Latest`: the newest value and a revision counter. The slot write, the bump and the notification of
 one `set` are separate steps, and so are the revision load and the slot read of `changed_since`.
 */
module LatestRuns {
  import opened Options
  import opened Sequences
  import opened Notifications

  /** The revision is a 64-bit counter and wraps. */
  const REVISIONS: nat := 0x1_0000_0000_0000_0000

  /** One `set` or, when `now`, one `set_now`; `v` is its value. */
  datatype Writer<T> = Ready(v: T, now: bool) | Wrote(v: T) | Bumped(v: T) | Over(v: T, stored: bool)
  {
    predicate HasWritten()
    {
      Wrote? || Bumped? || (Over? && stored)
    }
  }

  /**
   `seen` is what the call was made with. `Reading` and `Returned` remember, beside the revision, how many bumps
   it stood for; `Returned` also how many slot writes had happened when the value was read.
   */
  datatype Reader<T> =
    | Calling(seen: nat)
    | Armed(seen: nat, ready: bool)
    | Parked(seen: nat)
    | Reading(seen: nat, revision: nat, bumps: nat)
    | Returned(seen: nat, value: Option<T>, revision: nat, bumps: nat, writes: nat)

  /** `writes` is every value the slot was given, in order, and `authors` the writer of each. */
  datatype World<T> = World(
    slot: Option<T>,
    revision: nat,
    notify: Notify,
    writers: map<Task, Writer<T>>,
    readers: map<Task, Reader<T>>,
    writes: seq<T>,
    authors: seq<Task>,
    bumps: nat)

  datatype Action =
    | Write(w: Task)
    | Contend(w: Task)
    | Bump(w: Task)
    | Wake(w: Task)
    | Enable(r: Task, ready: bool)
    | Load(r: Task)
    | Get(r: Task)
    | Resume(r: Task)
    | Recall(r: Task, seen: nat)
    | Cancel(r: Task, seen: nat)

  predicate Start<T>(s: World<T>)
  {
    && s.slot.None? && s.revision == 0 && s.notify == Notify(map[]) && s.writes == [] && s.authors == [] && s.bumps == 0
    && (forall w :: w in s.writers ==> s.writers[w].Ready?)
    && (forall r :: r in s.readers ==> s.readers[r].Calling?)
  }

  function LoadStep<T>(s: World<T>, r: Task): World<T>
    requires r in s.readers && s.readers[r].Armed?
  {
    var reader := s.readers[r];
    if s.revision != reader.seen then
      s.(notify := s.notify.Leave(r), readers := s.readers[r := Reading(reader.seen, s.revision, s.bumps)])
    else if reader.ready then
      s.(notify := s.notify.Leave(r), readers := s.readers[r := Calling(reader.seen)])
    else
      s.(readers := s.readers[r := Parked(reader.seen)])
  }

  function Step<T>(s: World<T>, a: Action): Option<World<T>>
  {
    match a
    case Write(w) =>
      if w in s.writers && s.writers[w].Ready? then
        var v := s.writers[w].v;
        Some(s.(slot := Some(v), writes := s.writes + [v], authors := s.authors + [w],
                writers := s.writers[w := Wrote(v)]))
      else None
    // `set_now` gives up when a reader or another writer holds the slot.
    case Contend(w) =>
      if w in s.writers && s.writers[w].Ready? && s.writers[w].now then
        Some(s.(writers := s.writers[w := Over(s.writers[w].v, false)]))
      else None
    case Bump(w) =>
      if w in s.writers && s.writers[w].Wrote? then
        Some(s.(revision := (s.revision + 1) % REVISIONS, bumps := s.bumps + 1,
                writers := s.writers[w := Bumped(s.writers[w].v)]))
      else None
    case Wake(w) =>
      if w in s.writers && s.writers[w].Bumped? then
        Some(s.(notify := s.notify.NotifyWaiters(), writers := s.writers[w := Over(s.writers[w].v, true)]))
      else None
    case Enable(r, ready) =>
      if r in s.readers && s.readers[r].Calling? then
        Some(s.(notify := s.notify.Enable(r), readers := s.readers[r := Armed(s.readers[r].seen, ready)]))
      else None
    case Load(r) =>
      if r in s.readers && s.readers[r].Armed? then Some(LoadStep(s, r)) else None
    case Get(r) =>
      if r in s.readers && s.readers[r].Reading? then
        var reader := s.readers[r];
        Some(s.(readers := s.readers[r := Returned(reader.seen, s.slot, reader.revision, reader.bumps, |s.writes|)]))
      else None
    case Resume(r) =>
      if r in s.readers && s.readers[r].Parked? && s.notify.Woken(r) then
        Some(s.(notify := s.notify.Leave(r), readers := s.readers[r := Calling(s.readers[r].seen)]))
      else None
    case Recall(r, seen) =>
      if r in s.readers && s.readers[r].Returned? then Some(s.(readers := s.readers[r := Calling(seen)])) else None
    // A pending call may be dropped at any time, as when another side of a select wins; the position is the
    // caller's own.
    case Cancel(r, seen) =>
      if r in s.readers && !s.readers[r].Calling? then
        Some(s.(notify := s.notify.Leave(r), readers := s.readers[r := Calling(seen)]))
      else None
  }

  ghost predicate Run<T>(worlds: seq<World<T>>, actions: seq<Action>)
  {
    && |worlds| == |actions| + 1
    && Start(worlds[0])
    && forall i :: 0 <= i < |actions| ==> Step(worlds[i], actions[i]) == Some(worlds[i + 1])
  }

  /** Writers whose value is in the slot but whose bump is still to come. */
  function Unbumped<T>(s: World<T>): set<Task>
  {
    set w | w in s.writers && s.writers[w].Wrote?
  }

  predicate SomeoneWillNotify<T>(s: World<T>)
  {
    exists w :: w in s.writers && s.writers[w].Bumped?
  }

  predicate AsleepUnwoken<T>(s: World<T>, r: Task)
  {
    r in s.readers && s.readers[r].Parked? && !s.notify.Woken(r)
  }

  predicate SomethingToSee<T>(s: World<T>, r: Task)
    requires r in s.readers && s.readers[r].Parked?
  {
    s.revision != s.readers[r].seen
  }

  /** A bump never runs ahead of the slot write it announces. */
  ghost predicate Counts<T>(s: World<T>)
  {
    && |s.writes| == s.bumps + |Unbumped(s)|
    && s.revision == s.bumps % REVISIONS
    && s.slot == (if s.writes == [] then None else Some(s.writes[|s.writes| - 1]))
  }

  ghost predicate ReaderFits<T>(s: World<T>, reader: Reader<T>)
  {
    match reader
    case Reading(seen, revision, bumps) => bumps <= s.bumps && revision == bumps % REVISIONS && revision != seen
    case Returned(seen, value, revision, bumps, writes) =>
      && bumps <= s.bumps && revision == bumps % REVISIONS && revision != seen
      && bumps <= writes <= |s.writes|
      && value == (if writes == 0 then None else Some(s.writes[writes - 1]))
    case _ => true
  }

  ghost predicate Fresh<T>(s: World<T>)
  {
    Counts(s) && forall r :: r in s.readers ==> ReaderFits(s, s.readers[r])
  }

  ghost predicate Wakes<T>(s: World<T>)
  {
    && (forall r :: r in s.readers && (s.readers[r].Armed? || s.readers[r].Parked?) ==> s.notify.Registered(r))
    && (forall r :: AsleepUnwoken(s, r) ==> SomethingToSee(s, r) ==> SomeoneWillNotify(s))
  }

  lemma StartInv<T>(s: World<T>)
    requires Start(s)
    ensures Fresh(s) && Wakes(s)
  {
    assert Unbumped(s) == {};
  }

  lemma StepUnbumped<T>(s: World<T>, a: Action, next: World<T>)
    requires Step(s, a) == Some(next)
    ensures |Unbumped(next)| == |Unbumped(s)| + (if a.Write? then 1 else if a.Bump? then -1 else 0)
  {
    hide Unbumped;
    match a
    case Write(w) =>
      OneWriterMoved(s, w, next);
    case Contend(w) =>
      OneWriterMoved(s, w, next);
    case Bump(w) =>
      OneWriterMoved(s, w, next);
    case Wake(w) =>
      OneWriterMoved(s, w, next);
    case _ =>
      OtherwiseUnchanged(s, next);
  }

  lemma OtherwiseUnchanged<T>(s: World<T>, next: World<T>)
    requires next.writers == s.writers
    ensures |Unbumped(next)| == |Unbumped(s)|
  {
    assert Unbumped(next) == Unbumped(s);
  }

  lemma OneWriterMoved<T>(s: World<T>, w: Task, next: World<T>)
    requires w in s.writers && w in next.writers && next.writers == s.writers[w := next.writers[w]]
    ensures |Unbumped(next)| + (if s.writers[w].Wrote? then 1 else 0) ==
      |Unbumped(s)| + (if next.writers[w].Wrote? then 1 else 0)
  {
    assert Unbumped(next) - {w} == Unbumped(s) - {w};
    assert w in Unbumped(next) <==> next.writers[w].Wrote?;
    assert w in Unbumped(s) <==> s.writers[w].Wrote?;
    assert |Unbumped(next) - {w}| == |Unbumped(next)| - if w in Unbumped(next) then 1 else 0;
    assert |Unbumped(s) - {w}| == |Unbumped(s)| - if w in Unbumped(s) then 1 else 0;
  }

  lemma StepCounts<T>(s: World<T>, a: Action, next: World<T>)
    requires Counts(s) && Step(s, a) == Some(next)
    ensures Counts(next)
    ensures s.bumps <= next.bumps && s.writes <= next.writes
  {
    hide Unbumped;
    StepUnbumped(s, a, next);
    BumpRemainder(s.bumps);
  }

  lemma BumpRemainder(bumps: nat)
    ensures (bumps % REVISIONS + 1) % REVISIONS == (bumps + 1) % REVISIONS
  {
  }

  lemma StepFresh<T>(s: World<T>, a: Action, next: World<T>)
    requires Fresh(s) && Step(s, a) == Some(next)
    ensures Fresh(next)
  {
    hide Unbumped;
    StepCounts(s, a, next);
    forall r | r in next.readers ensures ReaderFits(next, next.readers[r]) {
      assert ReaderFits(s, s.readers[r]);
    }
  }

  lemma StepWakes<T>(s: World<T>, a: Action, next: World<T>)
    requires Wakes(s) && Step(s, a) == Some(next)
    ensures Wakes(next)
  {
    forall r | AsleepUnwoken(next, r) && SomethingToSee(next, r)
      ensures SomeoneWillNotify(next)
    {
      match a
      case Write(w) =>
        assert AsleepUnwoken(s, r);
        WritersMove(s, w, next);
      case Contend(w) =>
        assert AsleepUnwoken(s, r);
        WritersMove(s, w, next);
      case Bump(w) =>
        assert next.writers[w].Bumped?;
      case Wake(w) =>
        assert false;
      case Load(r') =>
        assert AsleepUnwoken(s, r);
      case _ =>
        assert AsleepUnwoken(s, r) && next.writers == s.writers;
    }
  }

  lemma WritersMove<T>(s: World<T>, w: Task, next: World<T>)
    requires SomeoneWillNotify(s) && w in s.writers && !s.writers[w].Bumped?
    requires w in next.writers && next.writers == s.writers[w := next.writers[w]]
    ensures SomeoneWillNotify(next)
  {
    var other :| other in s.writers && s.writers[other].Bumped?;
    assert next.writers[other].Bumped?;
  }

  lemma {:induction false} RunInv<T>(worlds: seq<World<T>>, actions: seq<Action>)
    requires Run(worlds, actions)
    ensures Fresh(worlds[|actions|]) && Wakes(worlds[|actions|])
    decreases |actions|
  {
    if actions == [] {
      StartInv(worlds[0]);
    } else {
      var n := |actions| - 1;
      RunInv(worlds[..n + 1], actions[..n]);
      StepFresh(worlds[n], actions[n], worlds[n + 1]);
      StepWakes(worlds[n], actions[n], worlds[n + 1]);
    }
  }

  /** Every write is one writer's, with its value, and every writer that has written made one of them. */
  ghost predicate Signed<T>(s: World<T>)
  {
    && |s.authors| == |s.writes| && Distinct(s.authors)
    && (forall k {:trigger s.authors[k]} :: 0 <= k < |s.authors| ==>
      s.authors[k] in s.writers && s.writers[s.authors[k]].HasWritten() && s.writes[k] == s.writers[s.authors[k]].v)
    && (forall w :: w in s.writers && s.writers[w].HasWritten() ==> w in s.authors)
  }

  lemma StepSigned<T>(s: World<T>, a: Action, next: World<T>)
    requires Signed(s) && Step(s, a) == Some(next)
    ensures Signed(next)
  {
    if a.Write? {
      forall k {:trigger next.authors[k]} | 0 <= k < |s.authors| ensures next.authors[k] == s.authors[k] != a.w {
        assert s.authors[k] in s.writers;
      }
    }
  }

  lemma StartSigned<T>(s: World<T>)
    requires Start(s)
    ensures Signed(s) && Faithful(s.writers, s.writers)
  {
  }

  /** A writer keeps its value, and gives up only as a `set_now`. */
  ghost predicate Faithful<T>(was: map<Task, Writer<T>>, now: map<Task, Writer<T>>)
  {
    && now.Keys == was.Keys
    && (forall w :: w in now ==> now[w].v == was[w].v)
    && (forall w :: w in now && now[w].Ready? ==> now[w] == was[w])
    && (forall w :: w in now && now[w].Over? && !now[w].stored ==> was[w].Ready? && was[w].now)
  }

  lemma StepFaithful<T>(was: map<Task, Writer<T>>, s: World<T>, a: Action, next: World<T>)
    requires Faithful(was, s.writers) && Step(s, a) == Some(next)
    ensures Faithful(was, next.writers)
  {
    if a.Write? || a.Contend? || a.Bump? || a.Wake? {
      OneWriterFaithful(was, s.writers, a.w, next.writers);
    }
  }

  lemma OneWriterFaithful<T>(was: map<Task, Writer<T>>, now: map<Task, Writer<T>>, w: Task, next: map<Task, Writer<T>>)
    requires Faithful(was, now) && w in now && w in next && next == now[w := next[w]]
    requires next[w].v == now[w].v && !next[w].Ready?
    requires next[w].Over? && !next[w].stored ==> now[w].Ready? && now[w].now
    ensures Faithful(was, next)
  {
  }

  /**
   Nothing is written but what was set: in every run the slot's values are those of the writers that have
   stored, one each, unchanged since they set out; only `set_now` ever gives up.
   */
  lemma {:induction false} EverySetIsOneWrite<T>(worlds: seq<World<T>>, actions: seq<Action>)
    requires Run(worlds, actions)
    ensures Signed(worlds[|actions|])
    ensures Faithful(worlds[0].writers, worlds[|actions|].writers)
    decreases |actions|
  {
    if actions == [] {
      StartSigned(worlds[0]);
    } else {
      hide Signed, Faithful, Step;
      var n := |actions| - 1;
      EverySetIsOneWrite(worlds[..n + 1], actions[..n]);
      StepSigned(worlds[n], actions[n], worlds[n + 1]);
      StepFaithful(worlds[0].writers, worlds[n], actions[n], worlds[n + 1]);
    }
  }

  /** No reader sleeps while the revision has moved past what it saw, unless a notification is still to come. */
  lemma NoLostWakeup<T>(worlds: seq<World<T>>, actions: seq<Action>, r: Task)
    requires Run(worlds, actions)
    ensures var s := worlds[|actions|];
      AsleepUnwoken(s, r) && SomethingToSee(s, r) ==> SomeoneWillNotify(s)
  {
    RunInv(worlds, actions);
  }

  /** A returned revision never comes with a value older than the write that revision counts. */
  lemma NeverOlderThanItsRevision<T>(worlds: seq<World<T>>, actions: seq<Action>, r: Task)
    requires Run(worlds, actions)
    requires r in worlds[|actions|].readers && worlds[|actions|].readers[r].Returned?
    ensures var s := worlds[|actions|];
      var got := s.readers[r];
      && got.revision == got.bumps % REVISIONS
      && got.bumps <= got.writes <= |s.writes|
      && got.value == (if got.writes == 0 then None else Some(s.writes[got.writes - 1]))
  {
    RunInv(worlds, actions);
    assert ReaderFits(worlds[|actions|], worlds[|actions|].readers[r]);
  }

  /** A load goes on to the slot exactly when the revision is not the one the call was made with. */
  lemma LoadDecides<T>(s: World<T>, r: Task, next: World<T>)
    requires Step(s, Load(r)) == Some(next)
    ensures r in s.readers && r in next.readers
    ensures next.readers[r].Reading? <==> s.revision != s.readers[r].seen
    ensures next.readers[r].Reading? ==> next.readers[r].revision == s.revision
    ensures next.readers[r].Parked? ==> s.readers[r].Armed? && !s.readers[r].ready
  {
  }

  predicate BeginsAnew(a: Action, r: Task)
  {
    (a.Recall? || a.Cancel?) && a.r == r
  }

  /** A call keeps the position it was made with until the reader makes another. */
  lemma {:induction false} PositionIsTheCallers<T>(worlds: seq<World<T>>, actions: seq<Action>, r: Task, i: nat, j: nat)
    requires Run(worlds, actions) && i <= j <= |actions| && r in worlds[i].readers
    requires forall k :: i <= k < j ==> !BeginsAnew(actions[k], r)
    ensures r in worlds[j].readers && worlds[j].readers[r].seen == worlds[i].readers[r].seen
    decreases j
  {
    if i < j {
      PositionIsTheCallers(worlds, actions, r, i, j - 1);
      assert Step(worlds[j - 1], actions[j - 1]) == Some(worlds[j]);
    }
  }

  /**
   `changed_since` waits for news: in every run, whatever a call made with `seen` comes back with carries a
   revision other than `seen`.
   */
  lemma ReturnsOnlyNews<T>(worlds: seq<World<T>>, actions: seq<Action>, r: Task, i: nat, j: nat)
    requires Run(worlds, actions) && i <= j <= |actions| && r in worlds[i].readers
    requires forall k :: i <= k < j ==> !BeginsAnew(actions[k], r)
    requires r in worlds[j].readers && worlds[j].readers[r].Returned?
    ensures worlds[j].readers[r].revision != worlds[i].readers[r].seen
  {
    PositionIsTheCallers(worlds, actions, r, i, j);
    RunInv(worlds[..j + 1], actions[..j]);
    assert ReaderFits(worlds[j], worlds[j].readers[r]);
  }

  /** Writes and bumps only add up, between any two points of a run. */
  lemma {:induction false} CountsOnlyGrow<T>(worlds: seq<World<T>>, actions: seq<Action>, i: nat, j: nat)
    requires Run(worlds, actions) && i <= j <= |actions|
    ensures worlds[i].bumps <= worlds[j].bumps && worlds[i].writes <= worlds[j].writes
    decreases j
  {
    if i < j {
      CountsOnlyGrow(worlds, actions, i, j - 1);
      RunInv(worlds[..j], actions[..j - 1]);
      StepCounts(worlds[j - 1], actions[j - 1], worlds[j]);
    }
  }

  /**
   Once every started write has been bumped, a reader whose last return came with what is now the current
   revision was then handed the newest value, wherever it is by now, provided the counter has not gone all
   the way round since.
   */
  lemma LastHandedTheNewest<T>(worlds: seq<World<T>>, actions: seq<Action>, r: Task, i: nat)
    requires Run(worlds, actions) && i <= |actions|
    requires r in worlds[i].readers && worlds[i].readers[r].Returned?
    requires var s := worlds[|actions|];
      && Unbumped(s) == {}
      && worlds[i].readers[r].revision == s.revision
      && s.bumps - worlds[i].readers[r].bumps < REVISIONS
    ensures worlds[i].readers[r].value == worlds[|actions|].slot
    ensures var s := worlds[|actions|];
      worlds[i].readers[r].value == if s.writes == [] then None else Some(s.writes[|s.writes| - 1])
  {
    RunInv(worlds[..i + 1], actions[..i]);
    RunInv(worlds, actions);
    CountsOnlyGrow(worlds, actions, i, |actions|);
    var s := worlds[|actions|];
    assert ReaderFits(worlds[i], worlds[i].readers[r]);
    SameRemainder(worlds[i].readers[r].bumps, s.bumps);
  }

  /** The same of a reader that has just returned. */
  lemma CurrentMeansNewest<T>(worlds: seq<World<T>>, actions: seq<Action>, r: Task)
    requires Run(worlds, actions)
    requires var s := worlds[|actions|];
      && Unbumped(s) == {}
      && r in s.readers && s.readers[r].Returned?
      && s.readers[r].revision == s.revision
      && s.bumps - s.readers[r].bumps < REVISIONS
    ensures worlds[|actions|].readers[r].value == worlds[|actions|].slot
  {
    LastHandedTheNewest(worlds, actions, r, |actions|);
  }

  /**
   Where every run ends: all writers done, a reader asleep on the revision it was last handed. Nothing newer
   is missing: that value is the newest.
   */
  lemma SleepersHaveTheNewest<T>(worlds: seq<World<T>>, actions: seq<Action>, r: Task, i: nat)
    requires Run(worlds, actions) && i <= |actions|
    requires r in worlds[i].readers && worlds[i].readers[r].Returned?
    requires var s := worlds[|actions|];
      && (forall w :: w in s.writers ==> s.writers[w].Over?)
      && AsleepUnwoken(s, r) && s.readers[r].seen == worlds[i].readers[r].revision
      && s.bumps - worlds[i].readers[r].bumps < REVISIONS
    ensures worlds[i].readers[r].value == worlds[|actions|].slot
  {
    NoLostWakeup(worlds, actions, r);
    assert Unbumped(worlds[|actions|]) == {};
    LastHandedTheNewest(worlds, actions, r, i);
  }

  lemma SameRemainder(a: nat, b: nat)
    requires a <= b < a + REVISIONS && a % REVISIONS == b % REVISIONS
    ensures a == b
  {
    assert (b - a) % REVISIONS == 0;
  }
}
