/**
 The bounded diagnostic journal, and the unbounded log it stands for.
 */
module Journal {
  import opened Options

  const U64_MAX: nat := 0xFFFF_FFFF_FFFF_FFFF

  datatype Record<P> = Record(sequence: nat, payload: P)

  datatype Item<P> = Event(record: Record<P>) | Overflow(first: nat, last: nat)
  {
    function Sequence(): nat
    {
      if Event? then record.sequence else last
    }

    function First(): nat
    {
      if Event? then record.sequence else first
    }
  }

  /** How many of the newest records a journal still holds. */
  function Held(count: nat, capacity: nat): nat
  {
    if count <= capacity then count else capacity
  }

  /**
   What a reader at `seen` is owed by a log of which only the newest `capacity` entries survive: the very
   next entry, or the whole range that is gone, or nothing.
   */
  function Read<P>(log: seq<P>, capacity: nat, seen: nat): Option<Item<P>>
  {
    var gone := |log| - Held(|log|, capacity);
    if log == [] then None
    else if seen < gone then Some(Overflow(seen + 1, gone))
    else if seen < |log| then Some(Event(Record(seen + 1, log[seen])))
    else None
  }

  class DiagnosticJournal<P> {
    const capacity: nat
    var sequence: nat
    var records: seq<Record<P>>
    /** Everything ever published. */
    ghost var log: seq<P>

    ghost predicate Valid()
      reads this
    {
      && capacity > 0
      && sequence == |log| <= U64_MAX
      && |records| == Held(|log|, capacity)
      && forall i :: 0 <= i < |records| ==>
        records[i] == Record(|log| - |records| + i + 1, log[|log| - |records| + i])
    }

    constructor (capacity: nat)
      requires capacity > 0
      ensures Valid() && log == [] && this.capacity == capacity
    {
      this.capacity := capacity;
      sequence := 0;
      records := [];
      log := [];
    }

    /** Append, dropping the oldest record of a full ring. Refused once the 64-bit sequence is exhausted. */
    method Publish(payload: P) returns (published: bool)
      requires Valid()
      modifies this
      ensures Valid()
      ensures published <==> old(sequence) < U64_MAX
      ensures log == if published then old(log) + [payload] else old(log)
    {
      if sequence == U64_MAX {
        return false;
      }
      sequence := sequence + 1;
      if |records| == capacity {
        records := records[1..];
      }
      records := records + [Record(sequence, payload)];
      log := log + [payload];
      return true;
    }

    /** The oldest thing a reader at `seen` has not been told yet. */
    method ReadAfter(seen: nat) returns (item: Option<Item<P>>)
      requires Valid()
      ensures item == Read(log, capacity, seen)
    {
      if records == [] {
        return None;
      }
      var first := records[0].sequence;
      if seen < first - 1 {
        return Some(Overflow(seen + 1, first - 1));
      }
      for i := 0 to |records|
        invariant forall j :: 0 <= j < i ==> records[j].sequence <= seen
      {
        if records[i].sequence > seen {
          assert i > 0 ==> records[i - 1].sequence <= seen;
          return Some(Event(records[i]));
        }
      }
      assert records[|records| - 1].sequence <= seen;
      return None;
    }
  }

  /** The ranges of the items follow on from each other and cover exactly `from + 1 .. to`. */
  predicate Covers<P>(items: seq<Item<P>>, from: nat, to: nat)
    decreases |items|
  {
    if items == [] then from == to
    else
      var last := items[|items| - 1];
      && from < last.First() <= last.Sequence() == to
      && Covers(items[..|items| - 1], from, last.First() - 1)
  }

  /** An event carries the entry of the log its number names; an overflow names only entries the ring has lost. */
  ghost predicate Faithful<P>(item: Item<P>, log: seq<P>, capacity: nat)
  {
    match item
    case Event(record) => 0 < record.sequence <= |log| && record.payload == log[record.sequence - 1]
    case Overflow(_, last) => last + capacity <= |log|
  }

  ghost predicate AllFaithful<P>(items: seq<Item<P>>, log: seq<P>, capacity: nat)
  {
    forall i :: 0 <= i < |items| ==> Faithful(items[i], log, capacity)
  }

  lemma FaithfulLater<P>(items: seq<Item<P>>, log: seq<P>, more: seq<P>, capacity: nat)
    requires AllFaithful(items, log, capacity) && log <= more
    ensures AllFaithful(items, more, capacity)
  {
    forall i | 0 <= i < |items| ensures Faithful(items[i], more, capacity) {
      assert Faithful(items[i], log, capacity);
    }
  }

  lemma CoversNext<P>(items: seq<Item<P>>, from: nat, to: nat, item: Item<P>)
    requires Covers(items, from, to) && item.First() == to + 1 <= item.Sequence()
    ensures Covers(items + [item], from, item.Sequence())
  {
    CoversForward(items, from, to);
    assert (items + [item])[..|items|] == items;
  }

  lemma {:induction false} CoversForward<P>(items: seq<Item<P>>, from: nat, to: nat)
    requires Covers(items, from, to)
    ensures from <= to
    decreases |items|
  {
    if items != [] {
      CoversForward(items[..|items| - 1], from, items[|items| - 1].First() - 1);
    }
  }

  /** What is read next starts right after what was seen. */
  lemma ReadFollowsOn<P>(log: seq<P>, capacity: nat, seen: nat)
    requires Read(log, capacity, seen).Some?
    ensures var item := Read(log, capacity, seen).value;
      item.First() == seen + 1 <= item.Sequence() <= |log| && Faithful(item, log, capacity)
  {
  }

  /** Where a reader stands after `n` reads of a journal nobody publishes to. */
  function After<P>(log: seq<P>, capacity: nat, seen: nat, n: nat): nat
    decreases n
  {
    if n == 0 then seen
    else
      var item := Read(log, capacity, seen);
      After(log, capacity, if item.Some? then item.value.Sequence() else seen, n - 1)
  }

  /** A reader left alone is up to date within one read more than the capacity, however far behind it was. */
  lemma CatchesUp<P>(log: seq<P>, capacity: nat, seen: nat)
    requires capacity > 0 && seen <= |log|
    ensures After(log, capacity, seen, capacity + 1) == |log|
  {
    var gone := |log| - Held(|log|, capacity);
    if seen < gone {
      WithinTheRing(log, capacity, gone, capacity);
    } else {
      WithinTheRing(log, capacity, seen, capacity + 1);
    }
  }

  lemma {:induction false} WithinTheRing<P>(log: seq<P>, capacity: nat, seen: nat, n: nat)
    requires |log| - Held(|log|, capacity) <= seen <= |log| && |log| - seen <= n
    ensures After(log, capacity, seen, n) == |log|
    decreases n
  {
    if n > 0 && seen < |log| {
      WithinTheRing(log, capacity, seen + 1, n - 1);
    } else if n > 0 {
      WithinTheRing(log, capacity, seen, n - 1);
    }
  }

  lemma {:induction false} AfterOneMore<P>(log: seq<P>, capacity: nat, seen: nat, n: nat)
    ensures var at := After(log, capacity, seen, n);
      var item := Read(log, capacity, at);
      After(log, capacity, seen, n + 1) == if item.Some? then item.value.Sequence() else at
    decreases n
  {
    hide Read;
    if n > 0 {
      var item := Read(log, capacity, seen);
      AfterOneMore(log, capacity, if item.Some? then item.value.Sequence() else seen, n - 1);
    }
  }

  lemma AfterNone<P>(log: seq<P>, capacity: nat, seen: nat)
    ensures After(log, capacity, seen, 0) == seen
  {
  }

  lemma {:induction false} StaysCaughtUp<P>(log: seq<P>, capacity: nat, n: nat)
    ensures After(log, capacity, |log|, n) == |log|
    decreases n
  {
    if n > 0 {
      StaysCaughtUp(log, capacity, n - 1);
    }
  }

  lemma {:induction false} AfterMore<P>(log: seq<P>, capacity: nat, seen: nat, m: nat, n: nat)
    ensures After(log, capacity, seen, m + n) == After(log, capacity, After(log, capacity, seen, m), n)
    decreases m
  {
    hide Read;
    if m > 0 {
      var item := Read(log, capacity, seen);
      AfterMore(log, capacity, if item.Some? then item.value.Sequence() else seen, m - 1, n);
    }
  }

  /** More reads than that change nothing any more. */
  lemma StaysUpToDate<P>(log: seq<P>, capacity: nat, seen: nat, n: nat)
    requires capacity > 0 && seen <= |log| && n > capacity
    ensures After(log, capacity, seen, n) == |log|
  {
    hide Read;
    CatchesUp(log, capacity, seen);
    AfterMore(log, capacity, seen, capacity + 1, n - (capacity + 1));
    StaysCaughtUp(log, capacity, n - (capacity + 1));
  }
}

/** Every interleaving of publishers and readers of one journal, waiting and waking included. */
module JournalRuns {
  import opened Options
  import opened Sequences
  import opened Notifications
  import opened Journal

  datatype Publisher<P> = Ready(payload: P) | Stored(payload: P) | Over(payload: P, published: bool)
  {
    predicate HasPublished()
    {
      Stored? || (Over? && published)
    }
  }

  datatype Pc = Calling | Armed(ready: bool) | Parked

  /** A reader asks for the item after `seen`, moves to its sequence, and asks again. */
  datatype Reader<P> = Reader(pc: Pc, start: nat, seen: nat, items: seq<Item<P>>)

  /** `authors` is the publisher of each entry of the log. */
  datatype World<P> = World(
    capacity: nat,
    log: seq<P>,
    authors: seq<Task>,
    notify: Notify,
    publishers: map<Task, Publisher<P>>,
    readers: map<Task, Reader<P>>)

  datatype Action =
    | Store(p: Task)
    | Wake(p: Task)
    | Enable(r: Task, ready: bool)
    | Look(r: Task)
    | Resume(r: Task)
    | Cancel(r: Task)

  predicate Start<P>(w: World<P>)
  {
    && w.capacity > 0 && w.log == [] && w.authors == [] && w.notify == Notify(map[])
    && (forall p :: p in w.publishers ==> w.publishers[p].Ready?)
    && (forall r :: r in w.readers ==>
      w.readers[r].pc == Calling && w.readers[r].items == [] && w.readers[r].seen == w.readers[r].start)
  }

  function LookStep<P>(w: World<P>, r: Task): World<P>
    requires r in w.readers && w.readers[r].pc.Armed?
  {
    var reader := w.readers[r];
    var found := Read(w.log, w.capacity, reader.seen);
    if found.Some? then
      w.(notify := w.notify.Leave(r),
         readers := w.readers[r := reader.(pc := Calling, seen := found.value.Sequence(),
                                           items := reader.items + [found.value])])
    else if reader.pc.ready then
      w.(notify := w.notify.Leave(r), readers := w.readers[r := reader.(pc := Calling)])
    else
      w.(readers := w.readers[r := reader.(pc := Parked)])
  }

  function Step<P>(w: World<P>, a: Action): Option<World<P>>
  {
    match a
    case Store(p) =>
      if p in w.publishers && w.publishers[p].Ready? then
        var payload := w.publishers[p].payload;
        Some(if |w.log| < U64_MAX then
          w.(log := w.log + [payload], authors := w.authors + [p], publishers := w.publishers[p := Stored(payload)])
        else
          w.(publishers := w.publishers[p := Over(payload, false)]))
      else None
    case Wake(p) =>
      if p in w.publishers && w.publishers[p].Stored? then
        Some(w.(notify := w.notify.NotifyWaiters(),
          publishers := w.publishers[p := Over(w.publishers[p].payload, true)]))
      else None
    case Enable(r, ready) =>
      if r in w.readers && w.readers[r].pc == Calling then
        Some(w.(notify := w.notify.Enable(r), readers := w.readers[r := w.readers[r].(pc := Armed(ready))]))
      else None
    case Look(r) =>
      if r in w.readers && w.readers[r].pc.Armed? then Some(LookStep(w, r)) else None
    case Resume(r) =>
      if r in w.readers && w.readers[r].pc == Parked && w.notify.Woken(r) then
        Some(w.(notify := w.notify.Leave(r), readers := w.readers[r := w.readers[r].(pc := Calling)]))
      else None
    // A pending read may be dropped at any time; the reader's position is its own and does not move.
    case Cancel(r) =>
      if r in w.readers then
        Some(w.(notify := w.notify.Leave(r), readers := w.readers[r := w.readers[r].(pc := Calling)]))
      else None
  }

  ghost predicate Run<P>(worlds: seq<World<P>>, actions: seq<Action>)
  {
    && |worlds| == |actions| + 1
    && Start(worlds[0])
    && forall i :: 0 <= i < |actions| ==> Step(worlds[i], actions[i]) == Some(worlds[i + 1])
  }

  predicate SomeoneWillNotify<P>(w: World<P>)
  {
    exists p :: p in w.publishers && w.publishers[p].Stored?
  }

  predicate AsleepUnwoken<P>(w: World<P>, r: Task)
  {
    r in w.readers && w.readers[r].pc == Parked && !w.notify.Woken(r)
  }

  predicate SomethingToRead<P>(w: World<P>, r: Task)
    requires r in w.readers
  {
    Read(w.log, w.capacity, w.readers[r].seen).Some?
  }

  ghost predicate Accounts<P>(w: World<P>, reader: Reader<P>)
  {
    Covers(reader.items, reader.start, reader.seen) && AllFaithful(reader.items, w.log, w.capacity)
  }

  ghost predicate Wakes<P>(w: World<P>)
  {
    && (forall r :: r in w.readers && w.readers[r].pc != Calling ==> w.notify.Registered(r))
    && (forall r :: AsleepUnwoken(w, r) ==> SomethingToRead(w, r) ==> SomeoneWillNotify(w))
  }

  ghost predicate Inv<P>(w: World<P>)
  {
    Wakes(w) && forall r :: r in w.readers ==> Accounts(w, w.readers[r])
  }

  lemma StepAccounts<P>(w: World<P>, a: Action, next: World<P>, r: Task)
    requires Step(w, a) == Some(next) && r in w.readers && Accounts(w, w.readers[r])
    ensures w.log <= next.log && w.capacity == next.capacity
    ensures r in next.readers && Accounts(next, next.readers[r]) && next.readers[r].start == w.readers[r].start
  {
    hide Covers, Faithful;
    var reader := w.readers[r];
    FaithfulLater(reader.items, w.log, next.log, w.capacity);
    if SomethingToRead(w, r) {
      ReadFollowsOn(w.log, w.capacity, reader.seen);
      CoversNext(reader.items, reader.start, reader.seen, Read(w.log, w.capacity, reader.seen).value);
    }
  }

  lemma StepWakes<P>(w: World<P>, a: Action, next: World<P>)
    requires Wakes(w) && Step(w, a) == Some(next)
    ensures Wakes(next)
  {
    forall r | AsleepUnwoken(next, r) && SomethingToRead(next, r)
      ensures SomeoneWillNotify(next)
    {
      match a
      case Store(p) =>
        if |w.log| < U64_MAX {
          assert next.publishers[p].Stored?;
        } else {
          assert AsleepUnwoken(w, r);
          var other :| other in w.publishers && w.publishers[other].Stored?;
          assert next.publishers[other].Stored?;
        }
      case Wake(p) =>
        assert false;
      case _ =>
        assert AsleepUnwoken(w, r) && next.publishers == w.publishers;
    }
  }

  lemma {:induction false} RunInv<P>(worlds: seq<World<P>>, actions: seq<Action>)
    requires Run(worlds, actions)
    ensures Inv(worlds[|actions|])
    decreases |actions|
  {
    if actions != [] {
      var n := |actions| - 1;
      RunInv(worlds[..n + 1], actions[..n]);
      StepWakes(worlds[n], actions[n], worlds[n + 1]);
      var w := worlds[n + 1];
      forall r | r in w.readers ensures Accounts(w, w.readers[r]) {
        StepAccounts(worlds[n], actions[n], w, r);
      }
    }
  }

  /**
   The bounded ring refines the unbounded log: in every run, what a reader has been given covers exactly
   what lies between where it started and where it stands, gaps named, and every event is the entry of the
   log its number says.
   */
  lemma NothingIsSilentlyLost<P>(worlds: seq<World<P>>, actions: seq<Action>, r: Task)
    requires Run(worlds, actions) && r in worlds[|actions|].readers
    ensures var w := worlds[|actions|];
      && Covers(w.readers[r].items, w.readers[r].start, w.readers[r].seen)
      && AllFaithful(w.readers[r].items, w.log, w.capacity)
  {
    RunInv(worlds, actions);
    assert Accounts(worlds[|actions|], worlds[|actions|].readers[r]);
  }

  /** Every entry is one publisher's, with its payload, and every publisher that has published made one of them. */
  ghost predicate Signed<P>(w: World<P>)
  {
    && |w.authors| == |w.log| && Distinct(w.authors)
    && (forall k {:trigger w.authors[k]} :: 0 <= k < |w.authors| ==>
      && w.authors[k] in w.publishers && w.publishers[w.authors[k]].HasPublished()
      && w.log[k] == w.publishers[w.authors[k]].payload)
    && (forall p :: p in w.publishers && w.publishers[p].HasPublished() ==> p in w.authors)
  }

  lemma StepSigned<P>(w: World<P>, a: Action, next: World<P>)
    requires Signed(w) && Step(w, a) == Some(next)
    ensures Signed(next)
  {
    if a.Store? {
      forall k {:trigger next.authors[k]} | 0 <= k < |w.authors| ensures next.authors[k] == w.authors[k] != a.p {
        assert w.authors[k] in w.publishers;
      }
    }
  }

  /** A publisher keeps its payload, and is turned away only at the end of the sequence. */
  ghost predicate Settled<P>(was: map<Task, Publisher<P>>, w: World<P>)
  {
    && w.publishers.Keys == was.Keys
    && (forall p :: p in was ==> w.publishers[p].payload == was[p].payload)
    && (forall p :: p in was && w.publishers[p].Over? && !w.publishers[p].published ==> |w.log| >= U64_MAX)
  }

  lemma StepSettled<P>(was: map<Task, Publisher<P>>, w: World<P>, a: Action, next: World<P>)
    requires Settled(was, w) && Step(w, a) == Some(next)
    ensures Settled(was, next)
  {
    if a.Store? || a.Wake? {
      OnePublisherMoved(was, w, a.p, next);
    } else {
      assert next.publishers == w.publishers && next.log == w.log;
    }
  }

  lemma OnePublisherMoved<P>(was: map<Task, Publisher<P>>, w: World<P>, p: Task, next: World<P>)
    requires Settled(was, w) && p in w.publishers && p in next.publishers && w.log <= next.log
    requires next.publishers == w.publishers[p := next.publishers[p]]
    requires next.publishers[p].payload == w.publishers[p].payload
    requires next.publishers[p].Over? && !next.publishers[p].published ==> |next.log| >= U64_MAX
    ensures Settled(was, next)
  {
  }

  lemma StartSigned<P>(w: World<P>)
    requires Start(w)
    ensures Signed(w) && Settled(w.publishers, w)
  {
  }

  /**
   The log is what was published, no more and no less: in every run its entries are those of the publishers
   that have published, one each, with the payload each set out with.
   */
  lemma {:induction false} EveryPublishIsOneEntry<P>(worlds: seq<World<P>>, actions: seq<Action>)
    requires Run(worlds, actions)
    ensures Signed(worlds[|actions|]) && Settled(worlds[0].publishers, worlds[|actions|])
    decreases |actions|
  {
    if actions == [] {
      StartSigned(worlds[0]);
    } else {
      hide Signed, Settled, Step;
      var n := |actions| - 1;
      EveryPublishIsOneEntry(worlds[..n + 1], actions[..n]);
      StepSigned(worlds[n], actions[n], worlds[n + 1]);
      StepSettled(worlds[0].publishers, worlds[n], actions[n], worlds[n + 1]);
    }
  }

  /** No reader sleeps while there is something for it, unless a notification is still to come. */
  lemma NoLostWakeup<P>(worlds: seq<World<P>>, actions: seq<Action>, r: Task)
    requires Run(worlds, actions)
    ensures var w := worlds[|actions|];
      AsleepUnwoken(w, r) && SomethingToRead(w, r) ==> SomeoneWillNotify(w)
  {
    RunInv(worlds, actions);
  }

  // Catching up

  /** How often a reader looks between two points of a run. */
  function Looks(actions: seq<Action>, r: Task, i: nat, j: nat): nat
    requires i <= j <= |actions|
    decreases j
  {
    if i == j then 0 else Looks(actions, r, i, j - 1) + if actions[j - 1] == Look(r) then 1 else 0
  }

  /**
   While nobody stores, a reader's position moves by exactly its looks, parked, woken or dropped in between or
   not.
   */
  lemma {:induction false} QuietReaderFollows<P>(worlds: seq<World<P>>, actions: seq<Action>, r: Task, i: nat, j: nat)
    requires Run(worlds, actions) && i <= j <= |actions| && r in worlds[i].readers
    requires forall k :: i <= k < j ==> !actions[k].Store?
    ensures worlds[j].log == worlds[i].log && worlds[j].capacity == worlds[i].capacity && r in worlds[j].readers
    ensures worlds[j].readers[r].seen ==
      After(worlds[i].log, worlds[i].capacity, worlds[i].readers[r].seen, Looks(actions, r, i, j))
    decreases j
  {
    hide Read, After;
    var log, capacity, seen := worlds[i].log, worlds[i].capacity, worlds[i].readers[r].seen;
    if i == j {
      AfterNone(log, capacity, seen);
    } else {
      QuietReaderFollows(worlds, actions, r, i, j - 1);
      assert Step(worlds[j - 1], actions[j - 1]) == Some(worlds[j]);
      QuietStep(worlds[j - 1], actions[j - 1], worlds[j], r);
      AfterOneMore(log, capacity, seen, Looks(actions, r, i, j - 1));
    }
  }

  lemma QuietStep<P>(w: World<P>, a: Action, next: World<P>, r: Task)
    requires Step(w, a) == Some(next) && !a.Store? && r in w.readers
    ensures next.log == w.log && next.capacity == w.capacity && r in next.readers
    ensures var found := Read(w.log, w.capacity, w.readers[r].seen);
      next.readers[r].seen == if a == Look(r) && found.Some? then found.value.Sequence() else w.readers[r].seen
  {
    hide Read;
  }

  lemma {:induction false} CapacityStays<P>(worlds: seq<World<P>>, actions: seq<Action>, i: nat)
    requires Run(worlds, actions) && i <= |actions|
    ensures worlds[i].capacity > 0
    decreases i
  {
    if i > 0 {
      CapacityStays(worlds, actions, i - 1);
      assert Step(worlds[i - 1], actions[i - 1]) == Some(worlds[i]);
    }
  }

  /** A look that finds nothing is made by a reader at the end of the log. */
  lemma NothingFoundAtTheEnd<P>(log: seq<P>, capacity: nat, seen: nat)
    requires seen <= |log| && Read(log, capacity, seen).None?
    ensures seen == |log|
  {
  }

  /**
   Over any stretch of a run without publishes: a reader that was not ahead of the log stands at its end
   after `capacity + 1` looks, or after one that found nothing.
   */
  lemma QuietReaderCatchesUp<P>(worlds: seq<World<P>>, actions: seq<Action>, r: Task, i: nat)
    requires Run(worlds, actions) && i <= |actions| && r in worlds[i].readers
    requires forall k :: i <= k < |actions| ==> !actions[k].Store?
    requires worlds[i].readers[r].seen <= |worlds[i].log|
    requires
      || Looks(actions, r, i, |actions|) > worlds[i].capacity
      || exists k :: i <= k < |actions| && FindsNothing(worlds, actions, r, k)
    ensures var end := worlds[|actions|];
      r in end.readers && end.log == worlds[i].log && end.readers[r].seen == |end.log|
  {
    hide Read, After, Step, Start;
    var log, capacity, seen, n := worlds[i].log, worlds[i].capacity, worlds[i].readers[r].seen, |actions|;
    CapacityStays(worlds, actions, i);
    QuietReaderFollows(worlds, actions, r, i, n);
    if Looks(actions, r, i, n) > capacity {
      StaysUpToDate(log, capacity, seen, Looks(actions, r, i, n));
    } else {
      var k :| i <= k < n && FindsNothing(worlds, actions, r, k);
      QuietReaderFollows(worlds, actions, r, i, k);
      QuietReaderFollows(worlds, actions, r, k, n);
      StaysInTheLog(log, capacity, seen, Looks(actions, r, i, k));
      NothingFoundAtTheEnd(log, capacity, worlds[k].readers[r].seen);
      StaysCaughtUp(log, capacity, Looks(actions, r, k, n));
    }
  }

  predicate FindsNothing<P>(worlds: seq<World<P>>, actions: seq<Action>, r: Task, k: nat)
    requires |worlds| == |actions| + 1 && k < |actions|
  {
    && actions[k] == Look(r) && r in worlds[k].readers
    && Read(worlds[k].log, worlds[k].capacity, worlds[k].readers[r].seen).None?
  }

  lemma {:induction false} StaysInTheLog<P>(log: seq<P>, capacity: nat, seen: nat, n: nat)
    requires seen <= |log|
    ensures After(log, capacity, seen, n) <= |log|
    decreases n
  {
    if n > 0 {
      var item := Read(log, capacity, seen);
      StaysInTheLog(log, capacity, if item.Some? then item.value.Sequence() else seen, n - 1);
    }
  }
}
