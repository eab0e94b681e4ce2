/** One journal-backed connection: what it has been asked to observe, where it stands, what it has sent. */
module Connections {
  import opened Options
  import opened Journal

  datatype DebugStream = Snapshots | Metrics | Console | RuntimeErrors | Paint

  datatype DebugEvent =
    | DiagnosticLoss(stream: DebugStream)
    | Snapshot
    | MetricsEvent
    | ConsoleEvent
    | RuntimeError
    | PaintCommitted

  datatype TargetId = Chrome | Tab(id: nat)

  /** `fits` is whether the encoded record stays under the frame size limit. */
  datatype Payload = Payload(target: TargetId, event: DebugEvent, fits: bool)

  datatype TargetOptions = TargetOptions(target: Option<TargetId>, allTargets: bool, afterSequence: Option<nat>)

  const DEFAULT_OPTIONS: TargetOptions := TargetOptions(None, false, None)

  predicate StreamWantsEvent(streams: seq<DebugStream>, event: DebugEvent)
  {
    match event
    case DiagnosticLoss(stream) => stream in streams
    case Snapshot => Snapshots in streams
    case MetricsEvent => Metrics in streams
    case ConsoleEvent => Console in streams
    case RuntimeError => RuntimeErrors in streams
    case PaintCommitted => Paint in streams
  }

  predicate Selects(options: TargetOptions, target: TargetId)
  {
    options.allTargets || target == if options.target.Some? then options.target.value else Chrome
  }

  predicate ValidOptions(options: TargetOptions, observing: bool)
  {
    && (options.allTargets || options.afterSequence.Some? ==> observing)
    && !(options.allTargets && options.target.Some?)
  }

  datatype Notice = EventFrame(record: Record<Payload>) | OverflowFrame(first: nat, last: nat)

  /** The frame an item turns into, if any. An event too large to send is named as lost instead. */
  function NoticeFor(item: Item<Payload>, observed: seq<DebugStream>, options: TargetOptions): Option<Notice>
  {
    match item
    case Overflow(first, last) => Some(OverflowFrame(first, last))
    case Event(record) =>
      if !Selects(options, record.payload.target) || !StreamWantsEvent(observed, record.payload.event) then None
      else if record.payload.fits then Some(EventFrame(record))
      else Some(OverflowFrame(record.sequence, record.sequence))
  }

  function NoticesFor(items: seq<Item<Payload>>, observed: seq<DebugStream>, options: TargetOptions): seq<Notice>
    decreases |items|
  {
    if items == [] then []
    else
      var notice := NoticeFor(items[|items| - 1], observed, options);
      NoticesFor(items[..|items| - 1], observed, options) + if notice.Some? then [notice.value] else []
  }

  /** The stretch between two accepted Observes: its settings, the journal items met, and what was sent for them. */
  datatype Epoch = Epoch(
    observed: seq<DebugStream>,
    options: TargetOptions,
    baseline: nat,
    through: nat,
    items: seq<Item<Payload>>,
    notices: seq<Notice>)

  /**
   Every sequence number above the baseline is accounted for once and in order, and what went out on the
   wire is exactly what the settings ask for.
   */
  ghost predicate Accounted(e: Epoch, log: seq<Payload>, capacity: nat)
  {
    && e.baseline <= |log|
    && Covers(e.items, e.baseline, e.through)
    && AllFaithful(e.items, log, capacity)
    && e.notices == NoticesFor(e.items, e.observed, e.options)
  }

  lemma AccountedLater(e: Epoch, log: seq<Payload>, more: seq<Payload>, capacity: nat)
    requires Accounted(e, log, capacity) && log <= more
    ensures Accounted(e, more, capacity)
  {
    FaithfulLater(e.items, log, more, capacity);
  }

  lemma AccountedNext(e: Epoch, log: seq<Payload>, capacity: nat, item: Item<Payload>)
    requires Accounted(e, log, capacity) && Read(log, capacity, e.through) == Some(item)
    ensures var notice := NoticeFor(item, e.observed, e.options);
      Accounted(e.(items := e.items + [item], through := item.Sequence(),
                   notices := e.notices + if notice.Some? then [notice.value] else []), log, capacity)
  {
    ReadFollowsOn(log, capacity, e.through);
    CoversNext(e.items, e.baseline, e.through, item);
    assert (e.items + [item])[..|e.items|] == e.items;
  }

  /** Each sequence number above the baseline falls into exactly one of the items. */
  lemma {:induction false} ExactlyOneItem(items: seq<Item<Payload>>, from: nat, to: nat, k: nat) returns (i: nat)
    requires Covers(items, from, to) && from < k <= to
    ensures i < |items| && items[i].First() <= k <= items[i].Sequence()
    ensures forall j :: 0 <= j < |items| && items[j].First() <= k <= items[j].Sequence() ==> j == i
    decreases |items|
  {
    var n := |items| - 1;
    var front := items[..n];
    if k >= items[n].First() {
      i := n;
      forall j | 0 <= j < n ensures items[j].Sequence() < k {
        EarlierItemsEndEarlier(front, from, items[n].First() - 1, j);
      }
    } else {
      i := ExactlyOneItem(front, from, items[n].First() - 1, k);
    }
  }

  lemma {:induction false} EarlierItemsEndEarlier(items: seq<Item<Payload>>, from: nat, to: nat, j: nat)
    requires Covers(items, from, to) && j < |items|
    ensures items[j].Sequence() <= to
    decreases |items|
  {
    var n := |items| - 1;
    if j < n {
      EarlierItemsEndEarlier(items[..n], from, items[n].First() - 1, j);
    }
  }

  // What goes out on the wire

  /** The events a stream is made of; a loss belongs to the stream it was lost from. */
  predicate Feeds(stream: DebugStream, event: DebugEvent)
  {
    event == DiagnosticLoss(stream) || match stream
      case Snapshots => event.Snapshot?
      case Metrics => event.MetricsEvent?
      case Console => event.ConsoleEvent?
      case RuntimeErrors => event.RuntimeError?
      case Paint => event.PaintCommitted?
  }

  /** The event is on one of the streams asked for, and comes from the target meant: Chrome when none is named. */
  predicate Wanted(e: Epoch, payload: Payload)
  {
    && (exists stream :: stream in e.observed && Feeds(stream, payload.event))
    && (|| e.options.allTargets
        || e.options.target == Some(payload.target)
        || (e.options.target.None? && payload.target.Chrome?))
  }

  function FirstNamed(notice: Notice): nat
  {
    match notice
    case EventFrame(record) => record.sequence
    case OverflowFrame(first, _) => first
  }

  function LastNamed(notice: Notice): nat
  {
    match notice
    case EventFrame(record) => record.sequence
    case OverflowFrame(_, last) => last
  }

  lemma WantedIsSelected(e: Epoch, payload: Payload)
    ensures Wanted(e, payload) <==> Selects(e.options, payload.target) && StreamWantsEvent(e.observed, payload.event)
  {
    if StreamWantsEvent(e.observed, payload.event) {
      var stream := match payload.event
        case DiagnosticLoss(lost) => lost
        case Snapshot => Snapshots
        case MetricsEvent => Metrics
        case ConsoleEvent => Console
        case RuntimeError => RuntimeErrors
        case PaintCommitted => Paint;
      assert Feeds(stream, payload.event);
    }
  }

  ghost predicate InOrder(notices: seq<Notice>, from: nat, to: nat)
  {
    && (forall i | 0 <= i < |notices| :: from < FirstNamed(notices[i]) <= LastNamed(notices[i]) <= to)
    && (forall i, j | 0 <= i < j < |notices| :: LastNamed(notices[i]) < FirstNamed(notices[j]))
  }

  /** The notices of a stretch name numbers of the stretch, each before the next. */
  lemma {:induction false} NoticesInOrder(items: seq<Item<Payload>>, from: nat, to: nat, observed: seq<DebugStream>,
      options: TargetOptions)
    requires Covers(items, from, to)
    ensures from <= to && InOrder(NoticesFor(items, observed, options), from, to)
    decreases |items|
  {
    if items != [] {
      hide Selects, StreamWantsEvent;
      var n := |items| - 1;
      NoticesInOrder(items[..n], from, items[n].First() - 1, observed, options);
    }
  }

  /** The notice of an item is among those of its list. */
  lemma {:induction false} NoticeOfItem(items: seq<Item<Payload>>, i: nat, observed: seq<DebugStream>,
      options: TargetOptions)
    requires i < |items| && NoticeFor(items[i], observed, options).Some?
    ensures NoticeFor(items[i], observed, options).value in NoticesFor(items, observed, options)
    decreases |items|
  {
    hide NoticeFor;
    if i < |items| - 1 {
      NoticeOfItem(items[..|items| - 1], i, observed, options);
    }
  }

  lemma {:induction false} ItemOfNotice(items: seq<Item<Payload>>, observed: seq<DebugStream>, options: TargetOptions,
      notice: Notice) returns (i: nat)
    requires notice in NoticesFor(items, observed, options)
    ensures i < |items| && NoticeFor(items[i], observed, options) == Some(notice)
    decreases |items|
  {
    hide NoticeFor;
    var n := |items| - 1;
    if NoticeFor(items[n], observed, options) == Some(notice) {
      i := n;
    } else {
      i := ItemOfNotice(items[..n], observed, options, notice);
    }
  }

  /** Exactly one notice names the number. */
  ghost predicate NamedOnce(e: Epoch, k: nat)
  {
    exists n :: 0 <= n < |e.notices| && Names(e.notices[n], k)
      && forall j :: 0 <= j < |e.notices| && Names(e.notices[j], k) ==> j == n
  }

  predicate Names(notice: Notice, k: nat)
  {
    FirstNamed(notice) <= k <= LastNamed(notice)
  }

  /** Whatever a stretch should show is shown or named as lost, in exactly one notice. */
  lemma NothingWantedIsSilent(e: Epoch, log: seq<Payload>, capacity: nat, k: nat) returns (n: nat)
    requires Accounted(e, log, capacity) && e.baseline < k <= e.through && k <= |log| && Wanted(e, log[k - 1])
    ensures n < |e.notices| && Names(e.notices[n], k)
    ensures forall j :: 0 <= j < |e.notices| && Names(e.notices[j], k) ==> j == n
  {
    hide Covers, NoticesFor, Selects, StreamWantsEvent, Wanted;
    var i := ExactlyOneItem(e.items, e.baseline, e.through, k);
    assert Faithful(e.items[i], log, capacity);
    WantedIsSelected(e, log[k - 1]);
    NoticeOfItem(e.items, i, e.observed, e.options);
    n :| 0 <= n < |e.notices| && e.notices[n] == NoticeFor(e.items[i], e.observed, e.options).value;
    NoticesInOrder(e.items, e.baseline, e.through, e.observed, e.options);
  }

  /**
   An event frame carries a wanted entry of the log that fits, under its own number; an overflow frame names
   numbers the ring has lost, or one wanted entry that is too large to send.
   */
  ghost predicate TrueNotice(e: Epoch, log: seq<Payload>, capacity: nat, notice: Notice)
  {
    && e.baseline < FirstNamed(notice) <= LastNamed(notice) <= e.through <= |log|
    && match notice
       case EventFrame(record) =>
         record.payload == log[record.sequence - 1] && record.payload.fits && Wanted(e, record.payload)
       case OverflowFrame(first, last) =>
         || last + capacity <= |log|
         || (first == last && !log[first - 1].fits && Wanted(e, log[first - 1]))
  }

  /** Nothing else is sent. */
  lemma NoticesAreTrue(e: Epoch, log: seq<Payload>, capacity: nat, notice: Notice)
    requires Accounted(e, log, capacity) && notice in e.notices
    ensures TrueNotice(e, log, capacity, notice)
  {
    hide Covers, NoticesFor, Selects, StreamWantsEvent, Wanted;
    var i := ItemOfNotice(e.items, e.observed, e.options, notice);
    assert Faithful(e.items[i], log, capacity);
    NoticesInOrder(e.items, e.baseline, e.through, e.observed, e.options);
    var n :| 0 <= n < |e.notices| && e.notices[n] == notice;
    ThroughIsInTheLog(e, log, capacity);
    if e.items[i].Event? {
      WantedIsSelected(e, e.items[i].record.payload);
    }
  }

  /** What has been accounted for does not run ahead of the log. */
  lemma ThroughIsInTheLog(e: Epoch, log: seq<Payload>, capacity: nat)
    requires Accounted(e, log, capacity)
    ensures e.through <= |log|
  {
    if e.items != [] {
      assert Faithful(e.items[|e.items| - 1], log, capacity);
    }
  }

  // Requests

  /** What a client can ask, as far as the event cursor is concerned; `ack` is the bridge's answer to it. */
  datatype Request =
    | Targeted(options: TargetOptions, observe: Option<seq<DebugStream>>, ack: bool)
    | Observe(streams: seq<DebugStream>, ack: bool)
    | Other

  datatype Input =
    | Deliver
    | Message(request: Request, during: seq<Payload>)
    | Closed

  /** One pass of the loop: what is published before it, which side of the select wins, and whether the send works. */
  datatype Turn = Turn(before: seq<Payload>, input: Input, sends: bool)

  // The protocol, one turn at a time

  /**
   Everything a connection is: its settings and cursor, the stretch in progress, the finished ones, and the
   log it reads.
   */
  datatype State = State(
    log: seq<Payload>,
    capacity: nat,
    open: bool,
    observed: seq<DebugStream>,
    options: TargetOptions,
    seen: nat,
    current: Epoch,
    past: seq<Epoch>)

  /** A new connection: nothing observed, and a cursor at the end of the log. */
  function Opened(log: seq<Payload>, capacity: nat): State
  {
    State(log, capacity, true, [], DEFAULT_OPTIONS, |log|, Epoch([], DEFAULT_OPTIONS, |log|, |log|, [], []), [])
  }

  /** The log after some publishes; it stops growing when the sequence is exhausted. */
  function Published(log: seq<Payload>, payloads: seq<Payload>): (more: seq<Payload>)
    ensures log <= more
    decreases |payloads|
  {
    if payloads == [] then log
    else
      var before := Published(log, payloads[..|payloads| - 1]);
      if |before| < U64_MAX then before + [payloads[|payloads| - 1]] else before
  }

  /** The next journal item: the cursor moves to it, and it is sent, filtered, or named as lost. */
  function DeliverStep(s: State, sends: bool): State
  {
    var item := Read(s.log, s.capacity, s.seen);
    if item.None? then s
    else
      var notice := NoticeFor(item.value, s.observed, s.options);
      var moved := s.(seen := item.value.Sequence());
      if notice.Some? && !sends then moved.(open := false)
      else moved.(current := s.current.(items := s.current.items + [item.value], through := moved.seen,
                                        notices := s.current.notices + if notice.Some? then [notice.value] else []))
  }

  /** A new stretch with its own settings, from `baseline` on. */
  function AcceptStep(s: State, streams: seq<DebugStream>, options: TargetOptions, baseline: nat): State
  {
    s.(observed := streams, options := options, seen := baseline,
       current := Epoch(streams, options, baseline, baseline, [], []), past := s.past + [s.current])
  }

  /** Whether the bridge is asked at all: bad options, or a start beyond the log, are refused before. */
  predicate Asks(request: Request, count: nat)
  {
    request.Targeted? ==>
      && ValidOptions(request.options, request.observe.Some?)
      && (request.observe.Some? && request.options.afterSequence.Some? ==> request.options.afterSequence.value <= count)
  }

  /** An Observe the bridge acknowledges. */
  predicate Accepts(request: Request, count: nat)
  {
    Asks(request, count) && match request
      case Targeted(_, observe, ack) => observe.Some? && ack
      case Observe(_, ack) => ack
      case Other => false
  }

  /** Where a new stretch starts. */
  function Start(options: TargetOptions, baseline: nat): nat
  {
    if options.afterSequence.Some? then options.afterSequence.value else baseline
  }

  /** Answer one request; the baseline is the log's length before the bridge is asked. */
  function AnswerStep(s: State, request: Request, during: seq<Payload>, sends: bool): State
  {
    var baseline := |s.log|;
    var asked := if Asks(request, baseline) then s.(log := Published(s.log, during)) else s;
    var answered := if !Accepts(request, baseline) then asked
      else match request
        case Targeted(options, observe, _) =>
          AcceptStep(asked, observe.value, options, Start(options, baseline))
        case Observe(streams, _) => AcceptStep(asked, streams, DEFAULT_OPTIONS, baseline)
        case Other => asked;
    answered.(open := sends)
  }

  /** One pass of the loop; with nothing observed the journal is not even asked. */
  function TurnStep(s: State, turn: Turn): State
  {
    var s := s.(log := Published(s.log, turn.before));
    match turn.input
    case Deliver => if s.observed == [] then s else DeliverStep(s, turn.sends)
    case Message(request, during) => AnswerStep(s, request, during, turn.sends)
    case Closed => s.(open := false)
  }

  /** A whole connection; after it has closed nothing happens any more. */
  function Run(s: State, script: seq<Turn>): State
    decreases |script|
  {
    if script == [] then s
    else
      var before := Run(s, script[..|script| - 1]);
      if before.open then TurnStep(before, script[|script| - 1]) else before
  }

  // What every run keeps

  /**
   Both the stretch in progress and all finished ones are accounted for, and the cursor stands where the
   former ends.
   */
  ghost predicate Fits(s: State)
  {
    && s.capacity > 0
    && s.current.observed == s.observed && s.current.options == s.options
    && (s.open ==> s.current.through == s.seen)
    && Accounted(s.current, s.log, s.capacity)
    && forall i :: 0 <= i < |s.past| ==> Accounted(s.past[i], s.log, s.capacity)
  }

  lemma OpenedFits(log: seq<Payload>, capacity: nat)
    requires capacity > 0
    ensures Fits(Opened(log, capacity))
  {
  }

  lemma PublishedFits(s: State, payloads: seq<Payload>)
    requires Fits(s)
    ensures Fits(s.(log := Published(s.log, payloads)))
  {
    hide Accounted;
    var more := Published(s.log, payloads);
    AccountedLater(s.current, s.log, more, s.capacity);
    forall i | 0 <= i < |s.past| ensures Accounted(s.past[i], more, s.capacity) {
      AccountedLater(s.past[i], s.log, more, s.capacity);
    }
  }

  lemma DeliverFits(s: State, sends: bool)
    requires Fits(s) && s.open
    ensures Fits(DeliverStep(s, sends))
  {
    hide Accounted, Read, NoticeFor;
    var item := Read(s.log, s.capacity, s.seen);
    if item.Some? {
      AccountedNext(s.current, s.log, s.capacity, item.value);
    }
  }

  lemma AcceptFits(s: State, streams: seq<DebugStream>, options: TargetOptions, baseline: nat)
    requires Fits(s) && baseline <= |s.log|
    ensures Fits(AcceptStep(s, streams, options, baseline))
  {
    assert Accounted(Epoch(streams, options, baseline, baseline, [], []), s.log, s.capacity);
  }

  lemma AnswerFits(s: State, request: Request, during: seq<Payload>, sends: bool)
    requires Fits(s) && s.open
    ensures Fits(AnswerStep(s, request, during, sends))
  {
    hide Accounted, Published;
    PublishedFits(s, during);
    var asked, baseline := s.(log := Published(s.log, during)), |s.log|;
    match request
    case Targeted(options, observe, ack) =>
      if Accepts(request, baseline) {
        AcceptFits(asked, observe.value, options, Start(options, baseline));
      }
    case Observe(streams, ack) =>
      if ack {
        AcceptFits(asked, streams, DEFAULT_OPTIONS, baseline);
      }
    case Other =>
  }

  lemma TurnFits(s: State, turn: Turn)
    requires Fits(s) && s.open
    ensures Fits(TurnStep(s, turn))
  {
    hide Accounted, Published, Fits;
    PublishedFits(s, turn.before);
    var published := s.(log := Published(s.log, turn.before));
    match turn.input
    case Deliver => DeliverFits(published, turn.sends);
    case Message(request, during) => AnswerFits(published, request, during, turn.sends);
    case Closed => ClosedFits(published);
  }

  lemma ClosedFits(s: State)
    requires Fits(s)
    ensures Fits(s.(open := false))
  {
  }

  /**
   In every run of every connection, whatever is published, requested, dropped or cut off and whenever:
   each stretch between two accepted Observes covers its numbers once and in order, and what was sent for
   it is exactly what its settings ask for.
   */
  lemma {:induction false} RunIsAccounted(log: seq<Payload>, capacity: nat, script: seq<Turn>)
    requires capacity > 0
    ensures Fits(Run(Opened(log, capacity), script))
    decreases |script|
  {
    hide Fits, TurnStep;
    OpenedFits(log, capacity);
    if script != [] {
      RunIsAccounted(log, capacity, script[..|script| - 1]);
      var before := Run(Opened(log, capacity), script[..|script| - 1]);
      if before.open {
        TurnFits(before, script[|script| - 1]);
      }
    }
  }

  /** Finished stretches are never rewritten, and the log only grows. */
  lemma {:induction false} HistoryStays(s: State, script: seq<Turn>)
    ensures s.log <= Run(s, script).log && s.past <= Run(s, script).past
    decreases |script|
  {
    hide DeliverStep, Published;
    if script != [] {
      HistoryStays(s, script[..|script| - 1]);
      HistoryStep(Run(s, script[..|script| - 1]), script[|script| - 1]);
    }
  }

  lemma HistoryStep(s: State, turn: Turn)
    ensures s.log <= TurnStep(s, turn).log && s.past <= TurnStep(s, turn).past
  {
  }

  // What an Observe starts

  /** An acknowledged Observe that does not ask for one target and all of them, nor for a start beyond the log. */
  predicate TakesHold(request: Request, count: nat)
  {
    match request
    case Targeted(options, observe, ack) =>
      && ack && observe.Some? && !(options.allTargets && options.target.Some?)
      && (options.afterSequence.Some? ==> options.afterSequence.value <= count)
    case Observe(_, ack) => ack
    case Other => false
  }

  /** Options that make sense: only an Observe has a start or all targets, and never all targets and one. */
  predicate MakesSense(request: Request, count: nat)
  {
    request.Targeted? ==>
      var options := request.options;
      && (request.observe.None? ==> !options.allTargets && options.afterSequence.None?)
      && !(options.allTargets && options.target.Some?)
      && (options.afterSequence.Some? ==> options.afterSequence.value <= count)
  }

  /** Where it asks to start, if it says so. */
  function AskedStart(request: Request): Option<nat>
  {
    if request.Targeted? then request.options.afterSequence else None
  }

  /**
   An Observe that takes hold starts a new, empty stretch under its own settings, at the number it asks for
   or else at the end of the log as it was before the bridge was asked. Any other request leaves settings,
   cursor and stretches as they were, and one whose options make no sense does not reach the bridge.
   */
  lemma ObserveStartsAStretch(s: State, request: Request, during: seq<Payload>, sends: bool)
    ensures var after := AnswerStep(s, request, during, sends);
      if TakesHold(request, |s.log|) then
        && after.past == s.past + [s.current]
        && after.current.baseline == after.current.through == after.seen
        && after.seen == (if AskedStart(request).Some? then AskedStart(request).value else |s.log|) <= |s.log|
        && after.current.items == [] && after.current.notices == []
        && after.observed == after.current.observed
            == (if request.Targeted? then request.observe.value else request.streams)
        && after.options == after.current.options == (if request.Targeted? then request.options else DEFAULT_OPTIONS)
      else
        after == s.(log := after.log, open := after.open)
    ensures AnswerStep(s, request, during, sends).log ==
      if MakesSense(request, |s.log|) then Published(s.log, during) else s.log
  {
    hide Published;
  }

  /** The stretches of a connection in order, the one in progress last. */
  function Stretches(s: State): seq<Epoch>
  {
    s.past + [s.current]
  }

  /** A stretch keeps its settings and its start for good. */
  lemma {:induction false} StretchStays(s: State, script: seq<Turn>, m: nat)
    requires m <= |s.past|
    ensures m <= |Run(s, script).past|
    ensures var was, now := Stretches(s)[m], Stretches(Run(s, script))[m];
      now.baseline == was.baseline && now.observed == was.observed && now.options == was.options
    decreases |script|
  {
    hide TurnStep;
    if script != [] {
      StretchStays(s, script[..|script| - 1], m);
      StretchStep(Run(s, script[..|script| - 1]), script[|script| - 1], m);
    }
  }

  lemma StretchStep(s: State, turn: Turn, m: nat)
    requires m <= |s.past|
    ensures m <= |TurnStep(s, turn).past|
    ensures var was, now := Stretches(s)[m], Stretches(TurnStep(s, turn))[m];
      now.baseline == was.baseline && now.observed == was.observed && now.options == was.options
  {
    hide Read, NoticeFor, Published;
  }

  lemma {:induction false} RunAppends(s: State, first: seq<Turn>, more: seq<Turn>)
    ensures Run(s, first + more) == Run(Run(s, first), more)
    decreases |more|
  {
    hide TurnStep;
    if more == [] {
      assert first + more == first;
    } else {
      RunAppends(s, first, more[..|more| - 1]);
      assert (first + more)[..|first + more| - 1] == first + more[..|more| - 1];
    }
  }

  /**
   In every run: the stretch an Observe starts begins no later than the log's end when the request came in,
   so whatever is published while the bridge answers lies above its baseline, and once the stretch has come
   that far is in exactly one of its items, whatever happens to the connection afterwards.
   */
  lemma NothingSaidMeanwhileIsMissed(log: seq<Payload>, capacity: nat, script: seq<Turn>, turn: Turn,
      later: seq<Turn>, k: nat)
    requires capacity > 0 && turn.input.Message?
    requires var s := Run(Opened(log, capacity), script);
      && s.open && TakesHold(turn.input.request, |Published(s.log, turn.before)|)
      && k > |Published(s.log, turn.before)|
    ensures var s, end := Run(Opened(log, capacity), script), Run(Opened(log, capacity), script + [turn] + later);
      var m, asked := |s.past| + 1, AskedStart(turn.input.request);
      && m <= |end.past|
      && var e := Stretches(end)[m];
      && e.baseline == (if asked.Some? then asked.value else |Published(s.log, turn.before)|) < k
      && (k <= e.through ==> exists i ::
            && 0 <= i < |e.items| && e.items[i].First() <= k <= e.items[i].Sequence()
            && forall j :: 0 <= j < |e.items| && e.items[j].First() <= k <= e.items[j].Sequence() ==> j == i)
  {
    hide Run, Published, AnswerStep, Covers;
    var start := Opened(log, capacity);
    var s, end := Run(start, script), Run(start, script + [turn] + later);
    RunAppends(start, script, [turn]);
    RunAppends(start, script + [turn], later);
    OneTurn(s, turn);
    var published := s.(log := Published(s.log, turn.before));
    ObserveStartsAStretch(published, turn.input.request, turn.input.during, turn.sends);
    StretchStays(Run(s, [turn]), later, |s.past| + 1);
    RunIsAccounted(log, capacity, script + [turn] + later);
    var e := Stretches(end)[|s.past| + 1];
    assert Accounted(e, end.log, end.capacity);
    if k <= e.through {
      var i := ExactlyOneItem(e.items, e.baseline, e.through, k);
    }
  }

  lemma OneTurn(s: State, turn: Turn)
    requires s.open
    ensures Run(s, [turn]) == TurnStep(s, turn)
  {
    assert [turn][..0] == [];
  }

  /**
   In every run and for every stretch, finished or not: each wanted entry it has come past is shown or named as
   lost in exactly one notice, and every notice is true of the log.
   */
  lemma EveryRunShowsWhatIsWanted(log: seq<Payload>, capacity: nat, script: seq<Turn>, m: nat)
    requires capacity > 0 && m <= |Run(Opened(log, capacity), script).past|
    ensures var end := Run(Opened(log, capacity), script);
      var e := Stretches(end)[m];
      && e.through <= |end.log|
      && (forall k :: e.baseline < k <= e.through && Wanted(e, end.log[k - 1]) ==> NamedOnce(e, k))
      && (forall notice :: notice in e.notices ==> TrueNotice(e, end.log, end.capacity, notice))
  {
    hide Run, Accounted, Wanted, Selects, StreamWantsEvent, TrueNotice;
    var end := Run(Opened(log, capacity), script);
    var e := Stretches(end)[m];
    RunIsAccounted(log, capacity, script);
    assert Accounted(e, end.log, end.capacity);
    ThroughIsInTheLog(e, end.log, end.capacity);
    forall k | e.baseline < k <= e.through && Wanted(e, end.log[k - 1]) ensures NamedOnce(e, k) {
      var n := NothingWantedIsSilent(e, end.log, end.capacity, k);
    }
    forall notice | notice in e.notices ensures TrueNotice(e, end.log, end.capacity, notice) {
      NoticesAreTrue(e, end.log, end.capacity, notice);
    }
  }

  /** As long as nothing has been asked for, nothing is read and nothing is sent. */
  ghost predicate SilentUnasked(s: State)
  {
    && s.current.observed == s.observed
    && forall e :: e in Stretches(s) && e.observed == [] ==> e.items == [] && e.notices == []
  }

  lemma {:induction false} NothingUnasked(log: seq<Payload>, capacity: nat, script: seq<Turn>)
    ensures SilentUnasked(Run(Opened(log, capacity), script))
    decreases |script|
  {
    hide TurnStep, SilentUnasked;
    if script == [] {
      assert SilentUnasked(Opened(log, capacity)) by { OpenedIsSilent(log, capacity); }
    } else {
      NothingUnasked(log, capacity, script[..|script| - 1]);
      SilentStep(Run(Opened(log, capacity), script[..|script| - 1]), script[|script| - 1]);
    }
  }

  lemma OpenedIsSilent(log: seq<Payload>, capacity: nat)
    ensures SilentUnasked(Opened(log, capacity))
  {
  }

  lemma SilentStep(s: State, turn: Turn)
    requires SilentUnasked(s)
    ensures SilentUnasked(TurnStep(s, turn))
  {
    hide Read, NoticeFor, Published;
    var after := TurnStep(s, turn);
    forall e | e in Stretches(after) && e.observed == [] ensures e.items == [] && e.notices == [] {
      assert e in Stretches(s) || (e.items == [] && e.notices == []);
    }
  }

  /**
   A turn ends the connection exactly when the peer goes, or when something is to go out, an answer or a
   notice, and cannot be sent.
   */
  lemma ClosesExactly(s: State, turn: Turn)
    requires s.open
    ensures var sent := TurnStep(s, turn.(sends := true));
      TurnStep(s, turn).open <==>
        !turn.input.Closed? && (turn.sends || (turn.input.Deliver? && sent.current.notices == s.current.notices))
  {
    hide Read, NoticeFor, Published;
    assert forall n: Notice :: s.current.notices + [n] != s.current.notices by {
      forall n: Notice ensures s.current.notices + [n] != s.current.notices {
        assert |s.current.notices + [n]| == |s.current.notices| + 1;
      }
    }
  }

  // Catching up

  /** Nothing is published, no Observe is accepted, sends work, and the connection stays. */
  predicate Quiet(turn: Turn, count: nat)
  {
    turn.before == [] && turn.sends && match turn.input
      case Deliver => true
      case Message(request, during) => during == [] && !Accepts(request, count)
      case Closed => false
  }

  function Delivers(script: seq<Turn>): nat
    decreases |script|
  {
    if script == [] then 0
    else Delivers(script[..|script| - 1]) + if script[|script| - 1].input.Deliver? then 1 else 0
  }

  lemma {:induction false} QuietRunFollows(s: State, script: seq<Turn>)
    requires Fits(s) && s.open && s.observed != []
    requires forall i :: 0 <= i < |script| ==> Quiet(script[i], |s.log|)
    ensures var end := Run(s, script);
      && end.open && end.log == s.log && end.capacity == s.capacity && end.observed == s.observed && end.past == s.past
      && end.seen == After(s.log, s.capacity, s.seen, Delivers(script))
    decreases |script|
  {
    hide Fits, Read, NoticeFor, After;
    if script == [] {
      AfterNone(s.log, s.capacity, s.seen);
    } else {
      var front, last := script[..|script| - 1], script[|script| - 1];
      QuietRunFollows(s, front);
      assert Quiet(last, |s.log|);
      AfterOneMore(s.log, s.capacity, s.seen, Delivers(front));
    }
  }

  /**
   In any run, once publishers and Observes are quiet, `capacity + 1` deliveries bring an observing
   connection to the end of the log, other requests in between or not; then its stretch covers everything.
   */
  lemma CatchesUpWhenQuiet(log: seq<Payload>, capacity: nat, script: seq<Turn>, quiet: seq<Turn>)
    requires capacity > 0
    requires var s := Run(Opened(log, capacity), script);
      s.open && s.observed != [] && forall i :: 0 <= i < |quiet| ==> Quiet(quiet[i], |s.log|)
    requires Delivers(quiet) > capacity
    ensures var end := Run(Run(Opened(log, capacity), script), quiet);
      && end.open && end.seen == |end.log|
      && Covers(end.current.items, end.current.baseline, |end.log|)
      && end.current.notices == NoticesFor(end.current.items, end.observed, end.options)
  {
    hide Run, After, Read, Covers, NoticesFor;
    var s := Run(Opened(log, capacity), script);
    RunIsAccounted(log, capacity, script);
    CapacityStays(Opened(log, capacity), script);
    QuietRunFollows(s, quiet);
    ThroughIsInTheLog(s.current, s.log, capacity);
    RunKeepsFits(s, quiet);
    StaysUpToDate(s.log, capacity, s.seen, Delivers(quiet));
  }

  lemma {:induction false} RunKeepsFits(s: State, script: seq<Turn>)
    requires Fits(s)
    ensures Fits(Run(s, script))
    decreases |script|
  {
    hide Fits, TurnStep;
    if script != [] {
      RunKeepsFits(s, script[..|script| - 1]);
      if Run(s, script[..|script| - 1]).open {
        TurnFits(Run(s, script[..|script| - 1]), script[|script| - 1]);
      }
    }
  }

  lemma {:induction false} CapacityStays(s: State, script: seq<Turn>)
    ensures Run(s, script).capacity == s.capacity
    decreases |script|
  {
    hide Published, Read, NoticeFor;
    if script != [] {
      CapacityStays(s, script[..|script| - 1]);
    }
  }

  class Connection {
    const journal: DiagnosticJournal<Payload>
    var observed: seq<DebugStream>
    var seen: nat
    var options: TargetOptions
    var open: bool
    /** The stretch in progress, and the finished ones before it. */
    ghost var current: Epoch
    ghost var past: seq<Epoch>

    ghost predicate Valid()
      reads this, journal
    {
      journal.Valid()
    }

    ghost function View(): State
      reads this, journal
    {
      State(journal.log, journal.capacity, open, observed, options, seen, current, past)
    }

    constructor (journal: DiagnosticJournal<Payload>)
      requires journal.Valid()
      ensures Valid() && this.journal == journal && View() == Opened(journal.log, journal.capacity)
    {
      this.journal := journal;
      observed := [];
      seen := journal.sequence;
      options := DEFAULT_OPTIONS;
      open := true;
      current := Epoch([], DEFAULT_OPTIONS, journal.sequence, journal.sequence, [], []);
      past := [];
    }

    /** Whatever other tasks publish in the meantime. */
    method PublishAll(payloads: seq<Payload>)
      requires Valid()
      modifies journal
      ensures Valid() && View() == old(View()).(log := Published(old(journal.log), payloads))
    {
      for i := 0 to |payloads|
        invariant journal.Valid() && journal.log == Published(old(journal.log), payloads[..i])
      {
        assert payloads[..i + 1][..i] == payloads[..i];
        var _ := journal.Publish(payloads[i]);
      }
      assert payloads[..|payloads|] == payloads;
    }

    /** The journal side of the select won: move to the item, then send it, filter it, or name it as lost. */
    method DeliverNext(sends: bool)
      requires Valid()
      modifies this
      ensures Valid() && View() == DeliverStep(old(View()), sends)
    {
      var item := journal.ReadAfter(seen);
      if item.None? {
        return;
      }
      seen := item.value.Sequence();
      var notice: Option<Notice>;
      match item.value {
        case Overflow(first, last) =>
          notice := Some(OverflowFrame(first, last));
        case Event(record) =>
          if !Selects(options, record.payload.target) || !StreamWantsEvent(observed, record.payload.event) {
            notice := None;
          } else {
            notice := Some(if record.payload.fits then EventFrame(record) else OverflowFrame(seen, seen));
          }
      }
      if notice.Some? && !sends {
        open := false;
        return;
      }
      current := current.(items := current.items + [item.value], through := seen,
                          notices := current.notices + if notice.Some? then [notice.value] else []);
    }

    /** Start a new stretch at `baseline`. */
    method Accept(streams: seq<DebugStream>, options: TargetOptions, baseline: nat)
      modifies this
      ensures View() == AcceptStep(old(View()), streams, options, baseline)
    {
      past := past + [current];
      observed := streams;
      seen := baseline;
      this.options := options;
      current := Epoch(streams, options, baseline, baseline, [], []);
    }

    /**
     Answer one request. The baseline is taken before the bridge is asked, so nothing published while it
     answers is missed.
     */
    method Answer(request: Request, during: seq<Payload>, sends: bool)
      requires Valid()
      modifies this, journal
      ensures Valid() && View() == AnswerStep(old(View()), request, during, sends)
    {
      hide Published;
      var baseline := journal.sequence;
      match request {
        case Targeted(requested, observe, ack) =>
          var valid := ValidOptions(requested, observe.Some?)
            && !(observe.Some? && requested.afterSequence.Some? && requested.afterSequence.value > baseline);
          if valid {
            PublishAll(during);
          }
          if valid && ack && observe.Some? {
            var start := if requested.afterSequence.Some? then requested.afterSequence.value else baseline;
            Accept(observe.value, requested, start);
          }
        case Observe(streams, ack) =>
          PublishAll(during);
          if ack {
            Accept(streams, DEFAULT_OPTIONS, baseline);
          }
        case Other =>
          PublishAll(during);
      }
      open := sends;
    }

    /** The connection's loop, over everything that can happen to it. */
    method Handle(script: seq<Turn>)
      requires Valid()
      modifies this, journal
      ensures Valid() && View() == Run(old(View()), script)
    {
      hide Published, DeliverStep, AnswerStep;
      for i := 0 to |script|
        invariant Valid() && View() == Run(old(View()), script[..i])
      {
        assert script[..i + 1][..i] == script[..i];
        if !open {
          StaysClosed(old(View()), script, i);
          break;
        }
        var turn := script[i];
        PublishAll(turn.before);
        match turn.input {
          case Deliver =>
            if observed != [] {
              DeliverNext(turn.sends);
            }
          case Message(request, during) =>
            Answer(request, during, turn.sends);
          case Closed =>
            open := false;
        }
      }
      assert script[..|script|] == script;
    }
  }

  lemma {:induction false} StaysClosed(s: State, script: seq<Turn>, i: nat)
    requires i <= |script| && !Run(s, script[..i]).open
    ensures Run(s, script) == Run(s, script[..i])
    decreases |script| - i
  {
    if i < |script| {
      assert script[..i + 1][..i] == script[..i];
      StaysClosed(s, script, i + 1);
    } else {
      assert script[..i] == script;
    }
  }
}
