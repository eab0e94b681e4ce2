/** The connecting half: one exchange at a time over a stream the server also pushes notifications on. */
module Clients {
  import opened Options

  const MAX_QUEUED_EVENTS: nat := 256

  /** The `id` member of a frame: not there, there but not a request number, or a request number. */
  datatype FrameId = Missing | Foreign | Number(n: int)

  datatype Event = PaintCommitted | AnotherEvent

  /** `event` is what the frame decodes to when it is a diagnostics notification. */
  datatype Frame<P> = Frame(id: FrameId, hasMethod: bool, event: Option<Event>, payload: P)
  {
    predicate IsNotification()
    {
      hasMethod && id == Missing
    }
  }

  /** What one receive on the stream brings. */
  datatype Arrival<P> = DeadlinePassed | EndOfFile | TransportError | Garbled | Received(frame: Frame<P>)

  datatype Failure = RequestTimeout | Disconnected

  datatype Problem = Unavailable(failure: Failure) | TimedOut | Gone | BadRequest | BadFrame

  /** Everything but the request counter. */
  datatype State<P> = State(terminal: Option<Failure>, events: seq<Event>, notifications: seq<Frame<P>>, lost: nat)
  {
    function QueueNotification(f: Frame<P>): State<P>
    {
      if !f.IsNotification() then this
      else if |notifications| == MAX_QUEUED_EVENTS then
        this.(notifications := notifications[1..] + [f], lost := lost + 1)
      else
        this.(notifications := notifications + [f])
    }

    function QueueEvent(e: Event): State<P>
    {
      this.(events := (if |events| == MAX_QUEUED_EVENTS then events[1..] else events) + [e])
    }

    /** A frame passed over by an exchange, or by a paint wait, which does not keep the paint it waits for. */
    function PassOver(f: Frame<P>, keepPaint: bool): State<P>
    {
      var queued := QueueNotification(f);
      if f.event.Some? && (keepPaint || f.event.value != PaintCommitted) then queued.QueueEvent(f.event.value)
      else queued
    }

    function PassAll(frames: seq<Frame<P>>, keepPaint: bool): (s: State<P>)
      ensures s.terminal == terminal
      decreases |frames|
    {
      if frames == [] then this
      else PassAll(frames[..|frames| - 1], keepPaint).PassOver(frames[|frames| - 1], keepPaint)
    }

    function Fails(failure: Failure): State<P>
    {
      this.(terminal := Some(failure))
    }
  }

  lemma PassOne<P>(from: State<P>, frames: seq<Frame<P>>, i: nat, keepPaint: bool)
    requires i < |frames|
    ensures from.PassAll(frames[..i + 1], keepPaint) ==
      from.PassAll(frames[..i], keepPaint).PassOver(frames[i], keepPaint)
  {
    assert frames[..i + 1][..i] == frames[..i];
  }

  // What a call reads off the stream

  /** What a call reads the stream for: the answer to a request, a paint, or whatever comes. */
  datatype Aim = AnswerTo(id: int) | APaint | Anything

  /** The arrival ends the call, well or badly. */
  predicate Stops<P>(aim: Aim, arrival: Arrival<P>)
  {
    match arrival
    case Received(frame) => Reached(aim, frame)
    case _ => true
  }

  /** The frame is what the call was waiting for. */
  predicate Reached<P>(aim: Aim, frame: Frame<P>)
  {
    match aim
    case AnswerTo(id) => frame.id == Number(id)
    case APaint => frame.event == Some(PaintCommitted)
    case Anything => false
  }

  /** How many arrivals a call passes over before one stops it. */
  function Passed<P>(aim: Aim, arrivals: seq<Arrival<P>>): (n: nat)
    ensures n <= |arrivals|
    ensures n < |arrivals| ==> Stops(aim, arrivals[n])
    ensures forall i | 0 <= i < n :: !Stops(aim, arrivals[i])
  {
    if arrivals == [] || Stops(aim, arrivals[0]) then 0
    else
      var n := Passed(aim, arrivals[1..]);
      assert forall i | 0 < i <= n :: arrivals[i] == arrivals[1..][i - 1];
      n + 1
  }

  /** The arrival that stops a call; running out of arrivals is running out of time. */
  function Stop<P>(aim: Aim, arrivals: seq<Arrival<P>>): Arrival<P>
  {
    var n := Passed(aim, arrivals);
    if n < |arrivals| then arrivals[n] else DeadlinePassed
  }

  /** How much of the stream is gone after a call. */
  function Consumed<P>(aim: Aim, arrivals: seq<Arrival<P>>): nat
  {
    var n := Passed(aim, arrivals);
    if n < |arrivals| then n + 1 else n
  }

  /** The frames a call passes over. */
  function Frames<P>(aim: Aim, arrivals: seq<Arrival<P>>): (frames: seq<Frame<P>>)
    ensures |frames| == Passed(aim, arrivals)
  {
    seq(Passed(aim, arrivals), i requires 0 <= i < Passed(aim, arrivals) =>
      assert !Stops(aim, arrivals[i]); arrivals[i].frame)
  }

  // What each call does

  datatype SendOutcome = SendTimesOut | SendFails | Sent

  /** Send one request and read until its answer; `well` is whether the request could be encoded for its target. */
  function ExchangeStep<P>(s: State<P>, id: int, well: bool, sending: SendOutcome, arrivals: seq<Arrival<P>>)
    : (State<P>, Result<Frame<P>, Problem>)
  {
    if s.terminal.Some? then (s, Err(Unavailable(s.terminal.value)))
    else if !well then (s, Err(BadRequest))
    else match sending
      case SendTimesOut => (s.Fails(RequestTimeout), Err(TimedOut))
      case SendFails => (s.Fails(Disconnected), Err(Gone))
      case Sent =>
        var after := s.PassAll(Frames(AnswerTo(id), arrivals), true);
        match Stop(AnswerTo(id), arrivals)
        case DeadlinePassed => (after.Fails(RequestTimeout), Err(TimedOut))
        case EndOfFile => (after.Fails(Disconnected), Err(Gone))
        case TransportError => (after.Fails(Disconnected), Err(Gone))
        case Garbled => (after, Err(BadFrame))
        case Received(frame) => (after, Ok(frame))
  }

  function WithoutFirstPaint(events: seq<Event>): seq<Event>
  {
    if events == [] then []
    else if events[0] == PaintCommitted then events[1..]
    else [events[0]] + WithoutFirstPaint(events[1..])
  }

  /** Take a paint already queued, or read until one; running out of time is an answer here, not a failure. */
  function PaintStep<P>(s: State<P>, arrivals: seq<Arrival<P>>): (State<P>, Result<bool, Problem>)
  {
    if s.terminal.Some? then (s, Err(Unavailable(s.terminal.value)))
    else if PaintCommitted in s.events then (s.(events := WithoutFirstPaint(s.events)), Ok(true))
    else
      var after := s.PassAll(Frames(APaint, arrivals), false);
      match Stop(APaint, arrivals)
      case DeadlinePassed => (after, Ok(false))
      case EndOfFile => (after.Fails(Disconnected), Err(Gone))
      case TransportError => (after.Fails(Disconnected), Err(Gone))
      case Garbled => (after, Err(BadFrame))
      case Received(frame) => (after.PassOver(frame, false), Ok(true))
  }

  /**
   What comes out of a drain: buffered notifications, headed by a count of those that did not fit, then live
   frames.
   */
  datatype Drained<P> = Dropped(count: nat) | Kept(frame: Frame<P>)

  function KeptAll<P>(frames: seq<Frame<P>>): seq<Drained<P>>
  {
    seq(|frames|, i requires 0 <= i < |frames| => Kept(frames[i]))
  }

  /** What a drain hands over for some notifications, of which `lost` did not fit any more. */
  function HandedOver<P>(lost: nat, notifications: seq<Frame<P>>): seq<Drained<P>>
  {
    (if lost > 0 then [Dropped(lost)] else []) + KeptAll(notifications)
  }

  /** Empty the queue first, then read until the time is up; what was taken is gone when the reading fails. */
  function DrainStep<P>(s: State<P>, arrivals: seq<Arrival<P>>): (State<P>, Result<seq<Drained<P>>, Problem>)
  {
    if s.terminal.Some? then (s, Err(Unavailable(s.terminal.value)))
    else
      var after := s.(notifications := [], lost := 0);
      match Stop(Anything, arrivals)
      case DeadlinePassed => (after, Ok(HandedOver(s.lost, s.notifications) + KeptAll(Frames(Anything, arrivals))))
      case EndOfFile => (after.Fails(Disconnected), Err(Gone))
      case TransportError => (after.Fails(Disconnected), Err(Gone))
      case _ => (after, Err(BadFrame))
  }

  // When each call succeeds

  /** `arrivals[n]` is the first to stop the call, every one before it being a frame it passes over. */
  predicate FirstStop<P>(aim: Aim, arrivals: seq<Arrival<P>>, n: nat)
  {
    n < |arrivals| && Stops(aim, arrivals[n])
    && forall i | 0 <= i < n :: arrivals[i].Received? && !Reached(aim, arrivals[i].frame)
  }

  lemma PassedIsFirst<P>(aim: Aim, arrivals: seq<Arrival<P>>, n: nat)
    requires FirstStop(aim, arrivals, n)
    ensures Passed(aim, arrivals) == n && Stop(aim, arrivals) == arrivals[n]
  {
    assert forall i | 0 <= i < n :: !Stops(aim, arrivals[i]);
  }

  lemma StopIsFirst<P>(aim: Aim, arrivals: seq<Arrival<P>>)
    ensures FirstStop(aim, arrivals, Passed(aim, arrivals)) <==> Passed(aim, arrivals) < |arrivals|
  {
    forall i | 0 <= i < Passed(aim, arrivals) ensures arrivals[i].Received? && !Reached(aim, arrivals[i].frame) {
      assert !Stops(aim, arrivals[i]);
    }
  }

  /** A call takes everything up to and including what stops it off the stream, and no more. */
  lemma ConsumesThroughTheStop<P>(aim: Aim, arrivals: seq<Arrival<P>>, n: nat)
    ensures FirstStop(aim, arrivals, n) ==> Consumed(aim, arrivals) == n + 1
    ensures Consumed(aim, arrivals) < |arrivals| ==>
      Consumed(aim, arrivals) > 0 && FirstStop(aim, arrivals, Consumed(aim, arrivals) - 1)
    ensures Consumed(aim, arrivals) <= |arrivals|
  {
    StopIsFirst(aim, arrivals);
    if FirstStop(aim, arrivals, n) {
      PassedIsFirst(aim, arrivals, n);
    }
  }

  /**
   An exchange succeeds exactly when nothing failed before, the request went out, and its answer is the first
   to stop it.
   */
  lemma ExchangeSucceedsExactly<P>(s: State<P>, id: int, well: bool, sending: SendOutcome, arrivals: seq<Arrival<P>>)
    ensures var r := ExchangeStep(s, id, well, sending, arrivals).1;
      r.Ok? <==> (
        && s.terminal.None? && well && sending.Sent?
        && exists n: nat :: FirstStop(AnswerTo(id), arrivals, n) && arrivals[n].Received?)
    ensures var r := ExchangeStep(s, id, well, sending, arrivals).1;
      r.Ok? ==>
        && r.value.id == Number(id)
        && forall n: nat :: FirstStop(AnswerTo(id), arrivals, n) ==> arrivals[n] == Received(r.value)
  {
    StopIsFirst(AnswerTo(id), arrivals);
    forall n: nat | FirstStop(AnswerTo(id), arrivals, n) ensures Stop(AnswerTo(id), arrivals) == arrivals[n] {
      PassedIsFirst(AnswerTo(id), arrivals, n);
    }
  }

  /** A paint is found exactly when one is queued, or one arrives before anything goes wrong. */
  lemma PaintIsFoundExactly<P>(s: State<P>, arrivals: seq<Arrival<P>>)
    ensures PaintStep(s, arrivals).1 == Ok(true) <==> (
      && s.terminal.None?
      && (PaintCommitted in s.events || exists n: nat :: FirstStop(APaint, arrivals, n) && arrivals[n].Received?))
  {
    StopIsFirst(APaint, arrivals);
    forall n: nat | FirstStop(APaint, arrivals, n) ensures Stop(APaint, arrivals) == arrivals[n] {
      PassedIsFirst(APaint, arrivals, n);
    }
  }

  /** A drain succeeds exactly when nothing failed before and no arrival other than the deadline is first to stop it. */
  lemma DrainSucceedsExactly<P>(s: State<P>, arrivals: seq<Arrival<P>>)
    ensures DrainStep(s, arrivals).1.Ok? <==> (
      && s.terminal.None?
      && forall n: nat :: FirstStop(Anything, arrivals, n) ==> arrivals[n].DeadlinePassed?)
  {
    StopIsFirst(Anything, arrivals);
    forall n: nat | FirstStop(Anything, arrivals, n) ensures Stop(Anything, arrivals) == arrivals[n] {
      PassedIsFirst(Anything, arrivals, n);
    }
  }

  // When a connection is lost

  /** What stops a call is the end of the stream or a transport error, before anything else could. */
  ghost predicate StreamBreaks<P>(aim: Aim, arrivals: seq<Arrival<P>>)
  {
    exists n: nat :: FirstStop(aim, arrivals, n) && (arrivals[n].EndOfFile? || arrivals[n].TransportError?)
  }

  /** Nothing stops a call before its deadline does. */
  ghost predicate TimeRunsOut<P>(aim: Aim, arrivals: seq<Arrival<P>>)
  {
    forall n: nat :: FirstStop(aim, arrivals, n) ==> arrivals[n].DeadlinePassed?
  }

  ghost predicate StopsGarbled<P>(aim: Aim, arrivals: seq<Arrival<P>>)
  {
    exists n: nat :: FirstStop(aim, arrivals, n) && arrivals[n].Garbled?
  }

  lemma HowItStops<P>(aim: Aim, arrivals: seq<Arrival<P>>)
    ensures StreamBreaks(aim, arrivals) <==> Stop(aim, arrivals).EndOfFile? || Stop(aim, arrivals).TransportError?
    ensures TimeRunsOut(aim, arrivals) <==> Stop(aim, arrivals).DeadlinePassed?
    ensures StopsGarbled(aim, arrivals) <==> Stop(aim, arrivals).Garbled?
  {
    StopIsFirst(aim, arrivals);
    forall n: nat | FirstStop(aim, arrivals, n) ensures Stop(aim, arrivals) == arrivals[n] {
      PassedIsFirst(aim, arrivals, n);
    }
    if Passed(aim, arrivals) < |arrivals| {
      assert FirstStop(aim, arrivals, Passed(aim, arrivals));
    } else {
      forall n: nat ensures !FirstStop(aim, arrivals, n) {
        NothingStops(aim, arrivals, n);
      }
    }
  }

  lemma NothingStops<P>(aim: Aim, arrivals: seq<Arrival<P>>, n: nat)
    requires Passed(aim, arrivals) == |arrivals|
    ensures !FirstStop(aim, arrivals, n)
  {
    assert n < |arrivals| ==> !Stops(aim, arrivals[n]);
  }

  /** A call on a client that failed before changes nothing, and says so. */
  ghost predicate Refuses<P, R>(s: State<P>, after: State<P>, r: Result<R, Problem>)
  {
    s.terminal.Some? ==> after == s && r == Err(Unavailable(s.terminal.value))
  }

  /** A call on a live client: `broken` and `late` are when it fails for good, and it says which. */
  ghost predicate Fails<P, R>(s: State<P>, after: State<P>, r: Result<R, Problem>, broken: bool, late: bool)
  {
    s.terminal.None? ==>
      && after.terminal == (if broken then Some(Disconnected) else if late then Some(RequestTimeout) else None)
      && (r == Err(Gone) <==> broken)
      && (r == Err(TimedOut) <==> late)
      && !(r.Err? && r.error.Unavailable?)
  }

  /** An exchange is lost for good exactly when the send fails or the stream breaks or its time runs out. */
  lemma ExchangeIsLostExactly<P>(s: State<P>, id: int, well: bool, sending: SendOutcome, arrivals: seq<Arrival<P>>)
    ensures var (after, r) := ExchangeStep(s, id, well, sending, arrivals);
      && Refuses(s, after, r)
      && Fails(s, after, r,
               well && (sending.SendFails? || (sending.Sent? && StreamBreaks(AnswerTo(id), arrivals))),
               well && (sending.SendTimesOut? || (sending.Sent? && TimeRunsOut(AnswerTo(id), arrivals))))
      && (s.terminal.None? ==>
            && (r == Err(BadRequest) <==> !well)
            && (r == Err(BadFrame) <==> well && sending.Sent? && StopsGarbled(AnswerTo(id), arrivals)))
  {
    hide StreamBreaks, TimeRunsOut, StopsGarbled, State.PassOver;
    HowItStops(AnswerTo(id), arrivals);
  }

  /** A paint wait is lost exactly when nothing is queued and the stream breaks; late is not lost. */
  lemma PaintIsLostExactly<P>(s: State<P>, arrivals: seq<Arrival<P>>)
    ensures var (after, r) := PaintStep(s, arrivals);
      && Refuses(s, after, r)
      && Fails(s, after, r, PaintCommitted !in s.events && StreamBreaks(APaint, arrivals), false)
      && (s.terminal.None? ==>
            && (r == Ok(false) <==> PaintCommitted !in s.events && TimeRunsOut(APaint, arrivals))
            && (r == Err(BadFrame) <==> PaintCommitted !in s.events && StopsGarbled(APaint, arrivals)))
  {
    hide StreamBreaks, TimeRunsOut, StopsGarbled, State.PassOver;
    HowItStops(APaint, arrivals);
    PassOverKeepsTerminal(s.PassAll(Frames(APaint, arrivals), false), Stop(APaint, arrivals));
  }

  lemma PassOverKeepsTerminal<P>(s: State<P>, arrival: Arrival<P>)
    ensures arrival.Received? ==> s.PassOver(arrival.frame, false).terminal == s.terminal
  {
  }

  /** A drain is lost exactly when the stream breaks before its time is up. */
  lemma DrainIsLostExactly<P>(s: State<P>, arrivals: seq<Arrival<P>>)
    ensures var (after, r) := DrainStep(s, arrivals);
      && Refuses(s, after, r)
      && Fails(s, after, r, StreamBreaks(Anything, arrivals), false)
      && (s.terminal.None? ==> (r == Err(BadFrame) <==> StopsGarbled(Anything, arrivals)))
  {
    hide StreamBreaks, TimeRunsOut, StopsGarbled;
    HowItStops(Anything, arrivals);
    assert !Stop(Anything, arrivals).Received?;
  }

  class Client<P> {
    var nextId: int
    var terminal: Option<Failure>
    var events: seq<Event>
    var notifications: seq<Frame<P>>
    var lostNotifications: nat

    function View(): State<P>
      reads this
    {
      State(terminal, events, notifications, lostNotifications)
    }

    constructor ()
      ensures nextId == 0 && View() == State(None, [], [], 0)
    {
      nextId, terminal, events, notifications, lostNotifications := 0, None, [], [], 0;
    }

    method NextId() returns (id: int)
      modifies this`nextId
      ensures id == nextId == old(nextId) + 1
    {
      nextId := nextId + 1;
      return nextId;
    }

    method QueueNotification(f: Frame<P>)
      modifies this`notifications, this`lostNotifications
      ensures View() == old(View()).QueueNotification(f)
    {
      if !f.hasMethod || f.id != Missing {
        return;
      }
      if |notifications| == MAX_QUEUED_EVENTS {
        notifications := notifications[1..];
        lostNotifications := lostNotifications + 1;
      }
      notifications := notifications + [f];
    }

    method QueueEvent(e: Event)
      modifies this`events
      ensures View() == old(View()).QueueEvent(e)
    {
      if |events| == MAX_QUEUED_EVENTS {
        events := events[1..];
      }
      events := events + [e];
    }

    /** Queue a frame that is not the one waited for, as a notification and as an event, as far as it is either. */
    method PassOver(frame: Frame<P>, keepPaint: bool)
      modifies this`events, this`notifications, this`lostNotifications
      ensures View() == old(View()).PassOver(frame, keepPaint)
    {
      QueueNotification(frame);
      if frame.event.Some? && (keepPaint || frame.event.value != PaintCommitted) {
        QueueEvent(frame.event.value);
      }
    }

    /**
     Send one request and return the frame that answers it; `arrivals` is what the stream brings until the
     deadline.
     */
    method Exchange(id: int, well: bool, sending: SendOutcome, arrivals: seq<Arrival<P>>)
        returns (r: Result<Frame<P>, Problem>, used: nat)
      modifies this`terminal, this`events, this`notifications, this`lostNotifications
      ensures (View(), r) == ExchangeStep(old(View()), id, well, sending, arrivals)
      ensures used == if old(terminal).None? && well && sending.Sent? then Consumed(AnswerTo(id), arrivals) else 0
    {
      used := 0;
      if terminal.Some? {
        return Err(Unavailable(terminal.value)), 0;
      }
      if !well {
        return Err(BadRequest), 0;
      }
      match sending {
        case SendTimesOut =>
          terminal := Some(RequestTimeout);
          return Err(TimedOut), 0;
        case SendFails =>
          terminal := Some(Disconnected);
          return Err(Gone), 0;
        case Sent =>
      }
      ghost var frames := Frames(AnswerTo(id), arrivals);
      while used < |arrivals|
        invariant used <= |frames|
        invariant View() == old(View()).PassAll(frames[..used], true)
      {
        var arrival := arrivals[used];
        assert Stops(AnswerTo(id), arrival) ==> frames[..used] == frames;
        used := used + 1;
        match arrival {
          case DeadlinePassed =>
            terminal := Some(RequestTimeout);
            return Err(TimedOut), used;
          case EndOfFile =>
            terminal := Some(Disconnected);
            return Err(Gone), used;
          case TransportError =>
            terminal := Some(Disconnected);
            return Err(Gone), used;
          case Garbled =>
            return Err(BadFrame), used;
          case Received(frame) =>
            if frame.id == Number(id) {
              return Ok(frame), used;
            }
            PassOne(old(View()), frames, used - 1, true);
            PassOver(frame, true);
        }
      }
      assert frames[..used] == frames;
      terminal := Some(RequestTimeout);
      return Err(TimedOut), used;
    }

    /** Wait for the first paint, one already queued included. */
    method WaitForPaint(arrivals: seq<Arrival<P>>) returns (r: Result<bool, Problem>, used: nat)
      modifies this`terminal, this`events, this`notifications, this`lostNotifications
      ensures (View(), r) == PaintStep(old(View()), arrivals)
      ensures used == if old(terminal).None? && PaintCommitted !in old(events) then Consumed(APaint, arrivals) else 0
    {
      used := 0;
      if terminal.Some? {
        return Err(Unavailable(terminal.value)), 0;
      }
      var at := FirstPaint(events);
      if at < |events| {
        events := events[..at] + events[at + 1..];
        return Ok(true), 0;
      }
      ghost var frames := Frames(APaint, arrivals);
      while used < |arrivals|
        invariant used <= |frames|
        invariant View() == old(View()).PassAll(frames[..used], false)
      {
        var arrival := arrivals[used];
        assert Stops(APaint, arrival) ==> frames[..used] == frames;
        used := used + 1;
        match arrival {
          case DeadlinePassed =>
            return Ok(false), used;
          case EndOfFile =>
            terminal := Some(Disconnected);
            return Err(Gone), used;
          case TransportError =>
            terminal := Some(Disconnected);
            return Err(Gone), used;
          case Garbled =>
            return Err(BadFrame), used;
          case Received(frame) =>
            PassOver(frame, false);
            if frame.event == Some(PaintCommitted) {
              return Ok(true), used;
            }
            PassOne(old(View()), frames, used - 1, false);
        }
      }
      assert frames[..used] == frames;
      return Ok(false), used;
    }

    /** Where the first queued paint stands, or the length when there is none. */
    static method FirstPaint(events: seq<Event>) returns (at: nat)
      ensures at <= |events| && (at < |events| <==> PaintCommitted in events)
      ensures at < |events| ==> events[..at] + events[at + 1..] == WithoutFirstPaint(events)
    {
      at := 0;
      while at < |events| && events[at] != PaintCommitted
        invariant at <= |events| && PaintCommitted !in events[..at]
      {
        assert events[..at + 1] == events[..at] + [events[at]];
        at := at + 1;
      }
      if at < |events| {
        FirstPaintGoes(events, at);
      } else {
        assert events[..at] == events;
      }
    }

    /** Take everything buffered, then whatever arrives until the deadline. */
    method Drain(arrivals: seq<Arrival<P>>) returns (r: Result<seq<Drained<P>>, Problem>, used: nat)
      modifies this`terminal, this`notifications, this`lostNotifications
      ensures (View(), r) == DrainStep(old(View()), arrivals)
      ensures used == if old(terminal).None? then Consumed(Anything, arrivals) else 0
    {
      used := 0;
      if terminal.Some? {
        return Err(Unavailable(terminal.value)), 0;
      }
      var out := KeptAll(notifications);
      notifications := [];
      if lostNotifications > 0 {
        out := [Dropped(lostNotifications)] + out;
        lostNotifications := 0;
      }
      ghost var buffered, frames := HandedOver(old(lostNotifications), old(notifications)), Frames(Anything, arrivals);
      assert out == buffered;
      while used < |arrivals|
        invariant used <= |frames|
        invariant View() == old(View()).(notifications := [], lost := 0)
        invariant out == buffered + KeptAll(frames[..used])
      {
        var arrival := arrivals[used];
        assert Stops(Anything, arrival) ==> frames[..used] == frames;
        used := used + 1;
        match arrival {
          case DeadlinePassed =>
            return Ok(out), used;
          case EndOfFile =>
            terminal := Some(Disconnected);
            return Err(Gone), used;
          case TransportError =>
            terminal := Some(Disconnected);
            return Err(Gone), used;
          case Garbled =>
            return Err(BadFrame), used;
          case Received(frame) =>
            assert KeptAll(frames[..used]) == KeptAll(frames[..used - 1]) + [Kept(frame)];
            out := out + [Kept(frame)];
        }
      }
      assert frames[..used] == frames;
      return Ok(out), used;
    }
  }

  lemma {:induction false} FirstPaintGoes(events: seq<Event>, at: nat)
    requires at < |events| && events[at] == PaintCommitted && PaintCommitted !in events[..at]
    ensures events[..at] + events[at + 1..] == WithoutFirstPaint(events)
    decreases at
  {
    if at > 0 {
      assert events[0] in events[..at];
      assert events[1..][..at - 1] == events[..at][1..];
      FirstPaintGoes(events[1..], at - 1);
      assert events[1..][at..] == events[at + 1..];
      assert events[..at] == [events[0]] + events[1..][..at - 1];
    }
  }
}

/** Any sequence of calls on one client, and what becomes of the notifications they pass over. */
module ClientCalls {
  import opened Options
  import opened Sequences
  import opened Clients

  datatype Call<P> =
    | Exchange(id: int, well: bool, sending: SendOutcome, arrivals: seq<Arrival<P>>)
    | WaitForPaint(arrivals: seq<Arrival<P>>)
    | Drain(arrivals: seq<Arrival<P>>)

  function Next<P>(s: State<P>, call: Call<P>): State<P>
  {
    match call
    case Exchange(id, well, sending, arrivals) => ExchangeStep(s, id, well, sending, arrivals).0
    case WaitForPaint(arrivals) => PaintStep(s, arrivals).0
    case Drain(arrivals) => DrainStep(s, arrivals).0
  }

  /** Where a new client stands after some calls. */
  function After<P>(calls: seq<Call<P>>): State<P>
    decreases |calls|
  {
    if calls == [] then State(None, [], [], 0) else Next(After(calls[..|calls| - 1]), calls[|calls| - 1])
  }

  // A lost connection stays lost

  /** Why a call did not succeed. */
  function ProblemOf<P>(s: State<P>, call: Call<P>): Option<Problem>
  {
    match call
    case Exchange(id, well, sending, arrivals) => ErrorOf(ExchangeStep(s, id, well, sending, arrivals).1)
    case WaitForPaint(arrivals) => ErrorOf(PaintStep(s, arrivals).1)
    case Drain(arrivals) => ErrorOf(DrainStep(s, arrivals).1)
  }

  function ErrorOf<R>(r: Result<R, Problem>): Option<Problem>
  {
    if r.Err? then Some(r.error) else None
  }

  /** What one call reports of the connection is what it leaves behind. */
  lemma CallIsLostExactly<P>(s: State<P>, call: Call<P>)
    ensures s.terminal.Some? ==> Next(s, call) == s && ProblemOf(s, call) == Some(Unavailable(s.terminal.value))
    ensures s.terminal.None? ==>
      && (Next(s, call).terminal == Some(Disconnected) <==> ProblemOf(s, call) == Some(Gone))
      && (Next(s, call).terminal == Some(RequestTimeout) <==> ProblemOf(s, call) == Some(TimedOut))
  {
    hide ExchangeStep, PaintStep, DrainStep, StreamBreaks, TimeRunsOut, StopsGarbled;
    match call
    case Exchange(id, well, sending, arrivals) => ExchangeIsLostExactly(s, id, well, sending, arrivals);
    case WaitForPaint(arrivals) => PaintIsLostExactly(s, arrivals);
    case Drain(arrivals) => DrainIsLostExactly(s, arrivals);
  }

  /**
   Over any sequence of calls: after one that ran into a timeout or a lost connection, every later call is
   refused with that same failure, whatever the stream would bring, and the client does not change any more.
   */
  lemma {:induction false} LostStaysLost<P>(calls: seq<Call<P>>, i: nat, j: nat)
    requires i < j <= |calls|
    requires ProblemOf(After(calls[..i]), calls[i]) in {Some(Gone), Some(TimedOut)}
    ensures var lost := ProblemOf(After(calls[..i]), calls[i]) == Some(Gone);
      var failure := if lost then Disconnected else RequestTimeout;
      && After(calls[..j]) == After(calls[..i + 1])
      && After(calls[..j]).terminal == Some(failure)
      && (j < |calls| ==> ProblemOf(After(calls[..j]), calls[j]) == Some(Unavailable(failure)))
    decreases j
  {
    hide Next, ProblemOf;
    CallIsLostExactly(After(calls[..j - 1]), calls[j - 1]);
    assert calls[..j][..j - 1] == calls[..j - 1];
    if i + 1 < j {
      LostStaysLost(calls, i, j - 1);
    }
    if j < |calls| {
      CallIsLostExactly(After(calls[..j]), calls[j]);
    }
  }

  // The event queue

  /** The events among some frames, in order; a paint wait does not keep the paint it waits for. */
  function EventsOf<P>(frames: seq<Frame<P>>, keepPaint: bool): seq<Event>
    decreases |frames|
  {
    if frames == [] then []
    else
      var last := frames[|frames| - 1].event;
      EventsOf(frames[..|frames| - 1], keepPaint)
      + if last.Some? && (keepPaint || last.value != PaintCommitted) then [last.value] else []
  }

  /** Passing frames over leaves the newest 256 of the events there were and those that came. */
  lemma {:induction false} PassingQueuesEvents<P>(s: State<P>, frames: seq<Frame<P>>, keepPaint: bool)
    requires |s.events| <= MAX_QUEUED_EVENTS
    ensures s.PassAll(frames, keepPaint).events == Newest(s.events + EventsOf(frames, keepPaint), MAX_QUEUED_EVENTS)
    decreases |frames|
  {
    if frames == [] {
      assert s.events + [] == s.events;
    } else {
      hide State.QueueNotification;
      var front, last := frames[..|frames| - 1], frames[|frames| - 1];
      PassingQueuesEvents(s, front, keepPaint);
      var more := if last.event.Some?
        && (keepPaint || last.event.value != PaintCommitted) then [last.event.value] else [];
      assert s.events + (EventsOf(front, keepPaint) + more) == (s.events + EventsOf(front, keepPaint)) + more;
      assert more == [] ==> (s.events + EventsOf(front, keepPaint)) + more == s.events + EventsOf(front, keepPaint);
      QueueNotificationKeepsEvents(s.PassAll(front, keepPaint), last);
    }
  }

  lemma QueueNotificationKeepsEvents<P>(s: State<P>, f: Frame<P>)
    ensures s.QueueNotification(f).events == s.events
  {
  }

  /** What a call leaves in the event queue: what came by is added, and a queued paint that is found goes. */
  lemma EventsAfterACall<P>(s: State<P>, call: Call<P>)
    requires |s.events| <= MAX_QUEUED_EVENTS
    ensures Next(s, call).events ==
      if call.WaitForPaint? && s.terminal.None? && PaintCommitted in s.events then WithoutFirstPaint(s.events)
      else Newest(s.events + EventsOf(PassedBy(s, call), call.Exchange?), MAX_QUEUED_EVENTS)
  {
    hide Stop, Frames, State.QueueNotification, State.PassAll;
    assert s.events + [] == s.events;
    match call
    case Exchange(id, _, _, arrivals) =>
      PassingQueuesEvents(s, Frames(AnswerTo(id), arrivals), true);
    case WaitForPaint(arrivals) =>
      EventsAfterAWait(s, arrivals);
    case Drain(_) =>
  }

  lemma EventsAfterAWait<P>(s: State<P>, arrivals: seq<Arrival<P>>)
    requires |s.events| <= MAX_QUEUED_EVENTS
    ensures s.terminal.None? && PaintCommitted !in s.events ==>
      PaintStep(s, arrivals).0.events ==
        Newest(s.events + EventsOf(PassedBy(s, WaitForPaint(arrivals)), false), MAX_QUEUED_EVENTS)
  {
    hide Stop, Frames, State.QueueNotification, State.PassAll, Newest;
    var frames, stop := Frames(APaint, arrivals), Stop(APaint, arrivals);
    PassingQueuesEvents(s, frames, false);
    if stop.Received? {
      StopIsStop(APaint, arrivals);
      assert (frames + [stop.frame])[..|frames|] == frames;
      assert EventsOf(frames + [stop.frame], false) == EventsOf(frames, false) + [] == EventsOf(frames, false);
      QueueNotificationKeepsEvents(s.PassAll(frames, false), stop.frame);
    } else {
      assert frames + [] == frames;
    }
  }

  function Paints(events: seq<Event>): nat
  {
    multiset(events)[PaintCommitted]
  }

  /** How many of the frames are paints. */
  function PaintsIn<P>(frames: seq<Frame<P>>): nat
    decreases |frames|
  {
    if frames == [] then 0
    else PaintsIn(frames[..|frames| - 1]) + if frames[|frames| - 1].event == Some(PaintCommitted) then 1 else 0
  }

  lemma {:induction false} PaintsAmongEvents<P>(frames: seq<Frame<P>>, keepPaint: bool)
    ensures Paints(EventsOf(frames, keepPaint)) == if keepPaint then PaintsIn(frames) else 0
    decreases |frames|
  {
    if frames != [] {
      PaintsAmongEvents(frames[..|frames| - 1], keepPaint);
    }
  }

  lemma NewestHasNoMore(events: seq<Event>, n: nat)
    ensures Paints(Newest(events, n)) <= Paints(events)
    ensures |Newest(events, n)| <= n
  {
    if |events| > n {
      assert events == events[..|events| - n] + events[|events| - n..];
    }
  }

  lemma PassingKeepsPaints<P>(s: State<P>, frames: seq<Frame<P>>, keepPaint: bool)
    requires |s.events| <= MAX_QUEUED_EVENTS
    ensures var after := s.PassAll(frames, keepPaint);
      && |after.events| <= MAX_QUEUED_EVENTS
      && Paints(after.events) <= Paints(s.events) + if keepPaint then PaintsIn(frames) else 0
  {
    PassingQueuesEvents(s, frames, keepPaint);
    PaintsAmongEvents(frames, keepPaint);
    NewestHasNoMore(s.events + EventsOf(frames, keepPaint), MAX_QUEUED_EVENTS);
  }

  /** A queued paint is used up by the wait that finds it; nothing else leaves the queue, and the order stays. */
  lemma QueuedPaintIsUsedUp(events: seq<Event>) returns (at: nat)
    requires PaintCommitted in events
    ensures at < |events| && events[at] == PaintCommitted && PaintCommitted !in events[..at]
    ensures WithoutFirstPaint(events) == events[..at] + events[at + 1..]
    ensures Paints(WithoutFirstPaint(events)) == Paints(events) - 1
  {
    at := 0;
    while events[at] != PaintCommitted
      invariant at < |events| && PaintCommitted !in events[..at] && PaintCommitted in events[at..]
      decreases |events| - at
    {
      assert events[..at + 1] == events[..at] + [events[at]];
      assert events[at..] == [events[at]] + events[at + 1..];
      at := at + 1;
    }
    FirstPaintGoes(events, at);
    assert events == events[..at] + [events[at]] + events[at + 1..];
  }

  /** The notifications among some frames, in order. */
  function Notifications<P>(frames: seq<Frame<P>>): seq<Frame<P>>
    decreases |frames|
  {
    if frames == [] then []
    else
      var last := frames[|frames| - 1];
      Notifications(frames[..|frames| - 1]) + if last.IsNotification() then [last] else []
  }

  /** The frames an exchange or a paint wait passes over; a paint that ends the wait counts. */
  function PassedBy<P>(s: State<P>, call: Call<P>): seq<Frame<P>>
  {
    match call
    case Exchange(id, well, sending, arrivals) =>
      if s.terminal.Some? || !well || !sending.Sent? then [] else Frames(AnswerTo(id), arrivals)
    case WaitForPaint(arrivals) =>
      if s.terminal.Some? || PaintCommitted in s.events then []
      else Frames(APaint, arrivals) + if Stop(APaint, arrivals).Received? then [Stop(APaint, arrivals).frame] else []
    case Drain(_) => []
  }

  predicate DrainsWell<P>(s: State<P>, call: Call<P>)
  {
    call.Drain? && DrainStep(s, call.arrivals).1.Ok?
  }

  /** The notifications passed over since the last drain that succeeded. */
  function Owed<P>(calls: seq<Call<P>>): seq<Frame<P>>
    decreases |calls|
  {
    if calls == [] then []
    else
      var front, last := calls[..|calls| - 1], calls[|calls| - 1];
      if DrainsWell(After(front), last) then [] else Owed(front) + Notifications(PassedBy(After(front), last))
  }

  /** How many paint waits have found one, and how many paints have been passed over or met by one. */
  function PaintsFound<P>(calls: seq<Call<P>>): nat
    decreases |calls|
  {
    if calls == [] then 0
    else
      var front, last := calls[..|calls| - 1], calls[|calls| - 1];
      PaintsFound(front)
      + if last.WaitForPaint? && PaintStep(After(front), last.arrivals).1 == Ok(true) then 1 else 0
  }

  function PaintsMet<P>(calls: seq<Call<P>>): nat
    decreases |calls|
  {
    if calls == [] then 0
    else
      var front, last := calls[..|calls| - 1], calls[|calls| - 1];
      PaintsMet(front) + PaintsIn(PassedBy(After(front), last))
  }

  lemma FramesBeforeThePaint<P>(arrivals: seq<Arrival<P>>)
    ensures PaintsIn(Frames(APaint, arrivals)) == 0
  {
    var frames := Frames(APaint, arrivals);
    forall k | 0 <= k < |frames| ensures frames[k].event != Some(PaintCommitted) {
      assert !Stops(APaint, arrivals[k]);
    }
    NoPaintsAmong(frames);
  }

  lemma {:induction false} NoPaintsAmong<P>(frames: seq<Frame<P>>)
    requires forall k | 0 <= k < |frames| :: frames[k].event != Some(PaintCommitted)
    ensures PaintsIn(frames) == 0
    decreases |frames|
  {
    if frames != [] {
      NoPaintsAmong(frames[..|frames| - 1]);
    }
  }

  lemma WaitKeepsPaints<P>(s: State<P>, arrivals: seq<Arrival<P>>)
    requires |s.events| <= MAX_QUEUED_EVENTS
    ensures var (after, r) := PaintStep(s, arrivals);
      && |after.events| <= MAX_QUEUED_EVENTS
      && (if r == Ok(true) then 1 else 0) + Paints(after.events)
        <= Paints(s.events) + PaintsIn(PassedBy(s, WaitForPaint(arrivals)))
  {
    hide State.PassAll, Passed, Frames, Stop;
    if s.terminal.None? && PaintCommitted in s.events {
      var _ := QueuedPaintIsUsedUp(s.events);
    } else if s.terminal.None? {
      var frames, stop := Frames(APaint, arrivals), Stop(APaint, arrivals);
      PassingKeepsPaints(s, frames, false);
      FramesBeforeThePaint(arrivals);
      StopIsStop(APaint, arrivals);
      if stop.Received? {
        assert (frames + [stop.frame])[..|frames|] == frames;
        QueueNotificationKeepsEvents(s.PassAll(frames, false), stop.frame);
      }
    }
  }

  lemma StopIsStop<P>(aim: Aim, arrivals: seq<Arrival<P>>)
    ensures Stops(aim, Stop(aim, arrivals))
  {
  }

  lemma CallKeepsPaints<P>(s: State<P>, call: Call<P>)
    requires |s.events| <= MAX_QUEUED_EVENTS
    ensures var found := call.WaitForPaint? && PaintStep(s, call.arrivals).1 == Ok(true);
      && |Next(s, call).events| <= MAX_QUEUED_EVENTS
      && (if found then 1 else 0) + Paints(Next(s, call).events) <= Paints(s.events) + PaintsIn(PassedBy(s, call))
  {
    hide State.PassAll, Frames, Stop, PaintsIn, PaintStep;
    match call
    case Exchange(id, _, _, arrivals) => PassingKeepsPaints(s, Frames(AnswerTo(id), arrivals), true);
    case WaitForPaint(arrivals) => WaitKeepsPaints(s, arrivals);
    case Drain(_) =>
  }

  /**
   Over any sequence of calls no paint is found twice: the waits that found one and the paints still queued
   are together no more than the paints that came by.
   */
  lemma {:induction false} NoPaintIsFoundTwice<P>(calls: seq<Call<P>>)
    ensures |After(calls).events| <= MAX_QUEUED_EVENTS
    ensures PaintsFound(calls) + Paints(After(calls).events) <= PaintsMet(calls)
    decreases |calls|
  {
    hide Next, PaintStep, PassedBy, PaintsIn;
    if calls != [] {
      NoPaintIsFoundTwice(calls[..|calls| - 1]);
      CallKeepsPaints(After(calls[..|calls| - 1]), calls[|calls| - 1]);
    }
  }

  /** A drain of a live client that meets something other than the deadline while notifications are queued. */
  predicate Spills<P>(s: State<P>, call: Call<P>)
  {
    call.Drain? && s.terminal.None? && !Stop(Anything, call.arrivals).DeadlinePassed? && |s.notifications| > 0
  }

  predicate SpilledSince<P>(calls: seq<Call<P>>)
    decreases |calls|
  {
    calls != [] &&
    var front, last := calls[..|calls| - 1], calls[|calls| - 1];
    !DrainsWell(After(front), last) && (SpilledSince(front) || Spills(After(front), last))
  }

  /** The queue holds the newest 256 notifications passed over, and the rest is counted. */
  ghost predicate Buffers<P>(s: State<P>, passed: seq<Frame<P>>)
  {
    && s.notifications == Newest(passed, MAX_QUEUED_EVENTS)
    && s.lost == |passed| - |s.notifications|
  }

  lemma BuffersNext<P>(s: State<P>, passed: seq<Frame<P>>, f: Frame<P>, keepPaint: bool)
    requires Buffers(s, passed)
    ensures Buffers(s.PassOver(f, keepPaint), passed + if f.IsNotification() then [f] else [])
  {
    assert passed + [] == passed;
  }

  lemma {:induction false} BuffersAll<P>(s: State<P>, passed: seq<Frame<P>>, frames: seq<Frame<P>>, keepPaint: bool)
    requires Buffers(s, passed)
    ensures Buffers(s.PassAll(frames, keepPaint), passed + Notifications(frames))
    decreases |frames|
  {
    if frames == [] {
      assert passed + [] == passed;
    } else {
      hide Buffers;
      var front, last := frames[..|frames| - 1], frames[|frames| - 1];
      BuffersAll(s, passed, front, keepPaint);
      BuffersNext(s.PassAll(front, keepPaint), passed + Notifications(front), last, keepPaint);
      var more := if last.IsNotification() then [last] else [];
      assert passed + (Notifications(front) + more) == passed + Notifications(front) + more;
    }
  }

  /** A drain of a live client empties the queue, however it ends. */
  predicate Empties<P>(s: State<P>, call: Call<P>)
  {
    call.Drain? && s.terminal.None?
  }

  /** The notifications passed over since the queue was last emptied, by a drain that succeeded or one that did not. */
  function Held<P>(calls: seq<Call<P>>): seq<Frame<P>>
    decreases |calls|
  {
    if calls == [] then []
    else
      var front, last := calls[..|calls| - 1], calls[|calls| - 1];
      if Empties(After(front), last) then [] else Held(front) + Notifications(PassedBy(After(front), last))
  }

  lemma SameQueue<P>(a: State<P>, b: State<P>, held: seq<Frame<P>>)
    requires Buffers(a, held) && a.notifications == b.notifications && a.lost == b.lost
    ensures Buffers(b, held)
  {
  }

  lemma EmptyQueue<P>(s: State<P>)
    requires s.notifications == [] && s.lost == 0
    ensures Buffers(s, [])
  {
  }

  lemma WaitBuffers<P>(s: State<P>, held: seq<Frame<P>>, arrivals: seq<Arrival<P>>)
    requires Buffers(s, held)
    ensures Buffers(PaintStep(s, arrivals).0, held + Notifications(PassedBy(s, WaitForPaint(arrivals))))
  {
    hide Buffers, Stop, Frames, Notifications, State.PassOver;
    assert held + [] == held;
    NoFrames<P>();
    if s.terminal.Some? || PaintCommitted in s.events {
      SameQueue(s, PaintStep(s, arrivals).0, held);
    } else {
      var frames, stop := Frames(APaint, arrivals), Stop(APaint, arrivals);
      if stop.Received? {
        BuffersAll(s, held, frames + [stop.frame], false);
        PassOne(s, frames + [stop.frame], |frames|, false);
        assert (frames + [stop.frame])[..|frames|] == frames
          && (frames + [stop.frame])[..|frames| + 1] == frames + [stop.frame];
      } else {
        BuffersAll(s, held, frames, false);
        assert frames + [] == frames;
        SameQueue(s.PassAll(frames, false), PaintStep(s, arrivals).0, held + Notifications(frames));
      }
    }
  }

  lemma ExchangeBuffers<P>(s: State<P>, held: seq<Frame<P>>, call: Call<P>)
    requires Buffers(s, held) && call.Exchange?
    ensures Buffers(Next(s, call), held + Notifications(PassedBy(s, call)))
  {
    hide Buffers, Stop, Frames, Notifications, State.PassOver, State.PassAll;
    assert held + [] == held;
    NoFrames<P>();
    if s.terminal.Some? || !call.well || !call.sending.Sent? {
      SameQueue(s, Next(s, call), held);
    } else {
      var frames := Frames(AnswerTo(call.id), call.arrivals);
      BuffersAll(s, held, frames, true);
      SameQueue(s.PassAll(frames, true), Next(s, call), held + Notifications(frames));
    }
  }

  lemma NoFrames<P>()
    ensures Notifications<P>([]) == []
  {
  }

  lemma CallBuffers<P>(s: State<P>, held: seq<Frame<P>>, call: Call<P>)
    requires Buffers(s, held)
    ensures Buffers(Next(s, call), if Empties(s, call) then [] else held + Notifications(PassedBy(s, call)))
  {
    hide Buffers, Stop, Frames, Notifications;
    match call
    case Exchange(_, _, _, _) =>
      ExchangeBuffers(s, held, call);
    case WaitForPaint(arrivals) =>
      WaitBuffers(s, held, arrivals);
    case Drain(_) =>
      NoFrames<P>();
      assert held + [] == held;
      if s.terminal.None? {
        EmptyQueue(Next(s, call));
      }
  }

  /** What one more call does to each of the accounts. */
  lemma AccountsUnfold<P>(calls: seq<Call<P>>)
    requires calls != []
    ensures var front, last := calls[..|calls| - 1], calls[|calls| - 1];
      var s := After(front);
      && After(calls) == Next(s, last)
      && Held(calls) == (if Empties(s, last) then [] else Held(front) + Notifications(PassedBy(s, last)))
      && Owed(calls) == (if DrainsWell(s, last) then [] else Owed(front) + Notifications(PassedBy(s, last)))
      && (SpilledSince(calls) <==> !DrainsWell(s, last) && (SpilledSince(front) || Spills(s, last)))
  {
    hide Next, PassedBy, DrainsWell, Spills, Empties, Notifications;
  }

  lemma DrainCases<P>(s: State<P>, held: seq<Frame<P>>, call: Call<P>)
    requires Buffers(s, held)
    ensures DrainsWell(s, call) ==> Empties(s, call)
    ensures Spills(s, call) <==> Empties(s, call) && !DrainsWell(s, call) && |held| > 0
    ensures Empties(s, call) ==> Notifications(PassedBy(s, call)) == []
  {
    hide Stop;
  }

  /** What is owed is what spilled followed by what is still held, and the queue stands for the latter. */
  lemma {:induction false} RunBuffers<P>(calls: seq<Call<P>>) returns (spilled: seq<Frame<P>>)
    ensures Buffers(After(calls), Held(calls))
    ensures Owed(calls) == spilled + Held(calls)
    ensures SpilledSince(calls) <==> |spilled| > 0
    decreases |calls|
  {
    if calls == [] {
      spilled := [];
    } else {
      hide After, Next, PassedBy, Notifications, Held, Owed, SpilledSince, DrainsWell, Spills, Empties, Buffers;
      var front, last := calls[..|calls| - 1], calls[|calls| - 1];
      var before := RunBuffers(front);
      AccountsUnfold(calls);
      CallBuffers(After(front), Held(front), last);
      DrainCases(After(front), Held(front), last);
      spilled := if DrainsWell(After(front), last) then []
        else if Empties(After(front), last) then before + Held(front)
        else before;
      Regroup(before, Held(front), Notifications(PassedBy(After(front), last)));
    }
  }

  lemma Regroup<P>(a: seq<Frame<P>>, b: seq<Frame<P>>, c: seq<Frame<P>>)
    ensures a + b + c == a + (b + c) && a + b + [] == a + b
  {
  }

  /** What a drain should hand over for everything passed over: the newest 256, after a count of the others. */
  function Whole<P>(passed: seq<Frame<P>>): seq<Drained<P>>
  {
    HandedOver(|passed| - |Newest(passed, MAX_QUEUED_EVENTS)|, Newest(passed, MAX_QUEUED_EVENTS))
  }

  /**
   Conservation, over any sequence of calls: a drain that succeeds hands over everything passed over since
   the last one that did, if and only if no drain in between failed with notifications in the queue.
   */
  lemma ComesBackExactlyUnlessSpilled<P>(calls: seq<Call<P>>, arrivals: seq<Arrival<P>>)
    requires DrainsWell(After(calls), Drain(arrivals))
    ensures DrainStep(After(calls), arrivals).1.value == Whole(Owed(calls)) + KeptAll(Frames(Anything, arrivals))
      <==> !SpilledSince(calls)
  {
    hide After, SpilledSince, Owed, Held;
    var spilled := RunBuffers(calls);
    var held, live := Held(calls), KeptAll(Frames(Anything, arrivals));
    var value := DrainStep(After(calls), arrivals).1.value;
    assert value == Whole(held) + live;
    if spilled == [] {
      assert spilled + held == held;
    } else {
      WholeIsLonger(spilled, held, live);
    }
  }

  /** A shorter history never passes for a longer one. */
  lemma WholeIsLonger<P>(spilled: seq<Frame<P>>, held: seq<Frame<P>>, live: seq<Drained<P>>)
    requires |spilled| > 0
    ensures Whole(held) + live != Whole(spilled + held) + live
  {
    var all := spilled + held;
    if |held| > MAX_QUEUED_EVENTS {
      assert (Whole(held) + live)[0] == Dropped(|held| - MAX_QUEUED_EVENTS);
      assert (Whole(all) + live)[0] == Dropped(|all| - MAX_QUEUED_EVENTS);
    } else {
      assert |Whole(held)| == |held|;
      assert |Whole(all)| == if |all| <= MAX_QUEUED_EVENTS then |all| else MAX_QUEUED_EVENTS + 1;
    }
  }

  /** What a server pushes, the answer to the first request, and the two calls that lose the former. */
  function Pushed<P>(payload: P): Frame<P>
  {
    Frame(Missing, true, None, payload)
  }

  function PushedThenAnswer<P>(payload: P): seq<Arrival<P>>
  {
    [Received(Pushed(payload)), Received(Frame(Number(1), false, None, payload))]
  }

  function LosingCalls<P>(payload: P): seq<Call<P>>
  {
    [Exchange(1, true, Sent, PushedThenAnswer(payload)), Drain([Garbled])]
  }

  lemma FirstCallQueues<P>(payload: P)
    ensures var calls := LosingCalls(payload)[..1];
      && After(calls) == State(None, [], [Pushed(payload)], 0)
      && Owed(calls) == [Pushed(payload)] && !SpilledSince(calls)
  {
    var arrivals, calls := PushedThenAnswer(payload), LosingCalls(payload)[..1];
    var pushed := Pushed(payload);
    assert FirstStop(AnswerTo(1), arrivals, 1);
    PassedIsFirst(AnswerTo(1), arrivals, 1);
    hide Passed, FirstStop, Stops;
    assert Frames(AnswerTo(1), arrivals) == [pushed];
    var start: State<P> := State(None, [], [], 0);
    PassOne(start, [pushed], 0, true);
    assert [pushed][..0] == [] && [pushed][..1] == [pushed];
    assert calls == [LosingCalls(payload)[0]] && calls[..0] == [];
    assert After(calls[..0]) == start;
    assert Notifications([pushed]) == Notifications([]) + [pushed];
  }

  /** One notification passed over, then a drain that meets something garbled: the next drain succeeds without it. */
  lemma GarbledDrainLosesOne<P>(payload: P)
    ensures var calls := LosingCalls(payload);
      && After(calls[..1]).notifications == [Pushed(payload)] && After(calls).terminal.None?
      && DrainStep(After(calls), []).1 == Ok([])
      && Owed(calls) == [Pushed(payload)] && SpilledSince(calls)
  {
    hide After, Owed, SpilledSince, Notifications;
    var calls := LosingCalls(payload);
    var garbled: seq<Arrival<P>> := [Garbled];
    FirstCallQueues(payload);
    AccountsUnfold(calls);
    NoFrames<P>();
    assert FirstStop(Anything, garbled, 0);
    PassedIsFirst(Anything, garbled, 0);
    var nothing: seq<Arrival<P>> := [];
    assert Frames(Anything, nothing) == [] && Stop(Anything, nothing).DeadlinePassed?;
    var out := DrainStep(After(calls), nothing).1;
    assert out.Ok? && |out.value| == 0;
  }
}

/**
 A client and a server on one connection, step by step: requests and frames in flight, notifications in
 between, answers that come too late left over.
 */
module ClientRuns {
  import opened Options
  import opened Clients

  datatype Asked<P> = Asked(id: int, body: P)

  /** What the server answered, and to which request body. */
  datatype Served<P> = Served(body: P, answer: P)

  datatype Wire<P> = Noise | Carries(frame: Frame<P>)

  /** An exchange that came back with a frame. */
  datatype Success<P> = Success(id: int, body: P, frame: Frame<P>)

  datatype Pc<P> = Idle | Waiting(id: int, body: P)

  datatype World<P> = World(
    nextId: int,
    client: State<P>,
    pc: Pc<P>,
    toServer: seq<Asked<P>>,
    toClient: seq<Wire<P>>,
    served: map<int, Served<P>>,
    lastServed: int,
    successes: seq<Success<P>>)

  datatype Ending = TimeIsUp | AtTheEnd | Broken

  datatype Action<P> =
    /** Start an exchange; a send that fails or times out may still have reached the server. */
    | Begin(body: P, well: bool, sending: SendOutcome, arrived: bool)
    /** The server takes the oldest request, and answers it or fails to encode the answer. */
    | Serve(answer: P, encodes: bool)
    /** The server pushes a notification of its own. */
    | Notify(frame: Frame<P>)
    /** Something that does not decode turns up. */
    | Corrupt
    /** The exchange in progress looks at the next frame. */
    | Receive
    /** The exchange in progress runs out of time, or loses the connection. */
    | GiveUp(ending: Ending)
    /** A drain or a paint wait takes some frames and leaves the queues in any state at all. */
    | Elsewhere(taken: nat, left: State<P>)
    /** A drain or a paint wait loses the connection. */
    | LoseElsewhere

  predicate Start<P>(w: World<P>)
  {
    w.nextId == 0 && w.client == Clients.State(None, [], [], 0) && w.pc.Idle?
    && w.toServer == [] && w.toClient == [] && w.served == map[] && w.lastServed == 0 && w.successes == []
  }

  function BeginStep<P>(w: World<P>, body: P, well: bool, sending: SendOutcome, arrived: bool): World<P>
  {
    var id := w.nextId + 1;
    var asked := w.(nextId := id);
    if w.client.terminal.Some? || !well then asked
    else
      var there := asked.(toServer := w.toServer + [Asked(id, body)]);
      match sending
      case SendTimesOut => (if arrived then there else asked).(client := w.client.(terminal := Some(RequestTimeout)))
      case SendFails => (if arrived then there else asked).(client := w.client.(terminal := Some(Disconnected)))
      case Sent => there.(pc := Waiting(id, body))
  }

  function ReceiveStep<P>(w: World<P>): World<P>
    requires w.pc.Waiting? && w.toClient != []
  {
    var rest := w.(toClient := w.toClient[1..]);
    match w.toClient[0]
    case Noise => rest.(pc := Idle)
    case Carries(frame) =>
      if frame.id == Number(w.pc.id) then
        rest.(pc := Idle, successes := w.successes + [Success(w.pc.id, w.pc.body, frame)])
      else
        rest.(client := w.client.PassOver(frame, true))
  }

  function Step<P>(w: World<P>, a: Action<P>): Option<World<P>>
  {
    match a
    case Begin(body, well, sending, arrived) =>
      if w.pc.Idle? then Some(BeginStep(w, body, well, sending, arrived)) else None
    case Serve(answer, encodes) =>
      if w.toServer == [] then None
      else
        var asked := w.toServer[0];
        Some(w.(toServer := w.toServer[1..],
                toClient := w.toClient
                  + [Carries(Frame(if encodes then Number(asked.id) else Foreign, false, None, answer))],
                served := w.served[asked.id := Served(asked.body, answer)],
                lastServed := asked.id))
    case Notify(frame) =>
      if frame.IsNotification() then Some(w.(toClient := w.toClient + [Carries(frame)])) else None
    case Corrupt =>
      Some(w.(toClient := w.toClient + [Noise]))
    case Receive =>
      if w.pc.Waiting? && w.toClient != [] then Some(ReceiveStep(w)) else None
    case GiveUp(ending) =>
      if w.pc.Waiting? then
        var failure := if ending.TimeIsUp? then RequestTimeout else Disconnected;
        Some(w.(pc := Idle, client := w.client.(terminal := Some(failure))))
      else None
    case Elsewhere(taken, left) =>
      if w.pc.Idle? && w.client.terminal.None? && taken <= |w.toClient| then
        Some(w.(toClient := w.toClient[taken..], client := left.(terminal := None)))
      else None
    case LoseElsewhere =>
      if w.pc.Idle? && w.client.terminal.None? then Some(w.(client := w.client.Fails(Disconnected))) else None
  }

  ghost predicate Run<P>(worlds: seq<World<P>>, actions: seq<Action<P>>)
  {
    && |worlds| == |actions| + 1
    && Start(worlds[0])
    && forall i :: 0 <= i < |actions| ==> Step(worlds[i], actions[i]) == Some(worlds[i + 1])
  }

  /** Requests in flight have fresh, rising numbers, and the server has not seen them. */
  ghost predicate RequestsFit<P>(w: World<P>)
  {
    && w.lastServed <= w.nextId
    && (forall id :: id in w.served ==> id <= w.lastServed)
    && (forall i :: 0 <= i < |w.toServer| ==> w.lastServed < w.toServer[i].id <= w.nextId)
    && (forall i, j :: 0 <= i < j < |w.toServer| ==> w.toServer[i].id < w.toServer[j].id)
  }

  predicate Answers<P>(wire: Wire<P>, id: int)
  {
    wire.Carries? && wire.frame.id == Number(id)
  }

  /** A numbered frame in flight is the server's answer to that number, and there is no second one. */
  ghost predicate FramesFit<P>(w: World<P>)
  {
    && (forall i, id :: 0 <= i < |w.toClient| && Answers(w.toClient[i], id) ==>
      id in w.served && w.toClient[i].frame.payload == w.served[id].answer)
    && (forall i, j, id :: 0 <= i < j < |w.toClient| && Answers(w.toClient[i], id) ==> !Answers(w.toClient[j], id))
  }

  /** The exchange in progress is the newest, and its request is in flight or served as it was asked. */
  ghost predicate WaitingFits<P>(w: World<P>)
  {
    w.pc.Waiting? ==>
      && w.pc.id == w.nextId
      && (w.pc.id in w.served ==> w.served[w.pc.id].body == w.pc.body)
      && (forall i :: 0 <= i < |w.toServer| && w.toServer[i].id == w.pc.id ==> w.toServer[i].body == w.pc.body)
  }

  ghost predicate SuccessFits<P>(w: World<P>, s: Success<P>)
  {
    && s.frame.id == Number(s.id) && s.id in w.served
    && w.served[s.id] == Served(s.body, s.frame.payload)
    && s.id <= (if w.pc.Waiting? then w.nextId - 1 else w.nextId)
    && forall i :: 0 <= i < |w.toClient| ==> !Answers(w.toClient[i], s.id)
  }

  ghost predicate SuccessesFit<P>(w: World<P>)
  {
    && (forall k :: 0 <= k < |w.successes| ==> SuccessFits(w, w.successes[k]))
    && (forall k, l :: 0 <= k < l < |w.successes| ==> w.successes[k].id < w.successes[l].id)
  }

  ghost predicate Inv<P>(w: World<P>)
  {
    RequestsFit(w) && FramesFit(w) && WaitingFits(w) && SuccessesFit(w)
  }

  lemma StepRequests<P>(w: World<P>, a: Action<P>, next: World<P>)
    requires RequestsFit(w) && Step(w, a) == Some(next)
    ensures RequestsFit(next)
  {
    match a
    case Begin(body, well, sending, arrived) =>
      BeginRequests(w, body, next);
    case Serve(answer, encodes) =>
      ServeRequests(w, next);
    case _ =>
      assert next.toServer == w.toServer && next.served == w.served && next.lastServed == w.lastServed
        && next.nextId == w.nextId;
  }

  lemma BeginRequests<P>(w: World<P>, body: P, next: World<P>)
    requires RequestsFit(w) && next.nextId == w.nextId + 1
    requires next.served == w.served && next.lastServed == w.lastServed
    requires next.toServer == w.toServer || next.toServer == w.toServer + [Asked(next.nextId, body)]
    ensures RequestsFit(next)
  {
  }

  lemma ServeRequests<P>(w: World<P>, next: World<P>)
    requires RequestsFit(w) && w.toServer != [] && next.nextId == w.nextId
    requires next.toServer == w.toServer[1..] && next.lastServed == w.toServer[0].id
    requires next.served.Keys == w.served.Keys + {next.lastServed}
    ensures RequestsFit(next)
  {
    forall id | id in next.served ensures id <= next.lastServed {
      assert id in w.served || id == next.lastServed;
    }
  }

  lemma StepFrames<P>(w: World<P>, a: Action<P>, next: World<P>)
    requires RequestsFit(w) && FramesFit(w) && Step(w, a) == Some(next)
    ensures FramesFit(next)
  {
    if a.Serve? {
      ServeFrames(w, a.answer, a.encodes, next);
    } else {
      assert w.toClient == w.toClient[0..];
      OtherFrames(w, next);
    }
  }

  lemma ServeFrames<P>(w: World<P>, answer: P, encodes: bool, next: World<P>)
    requires RequestsFit(w) && FramesFit(w) && Step(w, Serve(answer, encodes)) == Some(next)
    ensures FramesFit(next)
  {
    var n := |w.toClient|;
    forall i, id | 0 <= i < n && Answers(next.toClient[i], id)
      ensures id in w.served && id != w.toServer[0].id && next.toClient[i].frame.payload == next.served[id].answer
    {
      assert Answers(w.toClient[i], id);
    }
    forall i, j, id | 0 <= i < j <= n && Answers(next.toClient[i], id) ensures !Answers(next.toClient[j], id) {
      assert Answers(w.toClient[i], id) && id in w.served;
      if j < n {
        assert next.toClient[j] == w.toClient[j];
      }
    }
  }

  lemma OtherFrames<P>(w: World<P>, next: World<P>)
    requires FramesFit(w) && next.served == w.served
    requires
      || (exists n :: 0 <= n <= |w.toClient| && next.toClient == w.toClient[n..])
      || (|next.toClient| == |w.toClient| + 1 && next.toClient[..|w.toClient|] == w.toClient
          && (next.toClient[|w.toClient|].Noise? || next.toClient[|w.toClient|].frame.IsNotification()))
    ensures FramesFit(next)
  {
    var n := |w.toClient|;
    hide FramesFit;
    if skipped :| 0 <= skipped <= n && next.toClient == w.toClient[skipped..] {
      LaterFrames(w, skipped, next);
    } else {
      OneFrameMore(w, next);
    }
  }

  /** The frames after some of them are gone. */
  lemma LaterFrames<P>(w: World<P>, skipped: nat, next: World<P>)
    requires FramesFit(w) && next.served == w.served
    requires skipped <= |w.toClient| && next.toClient == w.toClient[skipped..]
    ensures FramesFit(next)
  {
    assert forall i :: 0 <= i < |next.toClient| ==> next.toClient[i] == w.toClient[skipped + i];
  }

  /** A frame that answers nothing. */
  lemma OneFrameMore<P>(w: World<P>, next: World<P>)
    requires FramesFit(w) && next.served == w.served
    requires |next.toClient| == |w.toClient| + 1 && next.toClient[..|w.toClient|] == w.toClient
    requires next.toClient[|w.toClient|].Noise? || next.toClient[|w.toClient|].frame.IsNotification()
    ensures FramesFit(next)
  {
    var n := |w.toClient|;
    assert next.toClient == w.toClient + [next.toClient[n]];
    forall id ensures !Answers(next.toClient[n], id) {
    }
  }

  lemma StepWaiting<P>(w: World<P>, a: Action<P>, next: World<P>)
    requires RequestsFit(w) && WaitingFits(w) && Step(w, a) == Some(next)
    ensures WaitingFits(next)
  {
  }

  lemma StepSuccesses<P>(w: World<P>, a: Action<P>, next: World<P>)
    requires Inv(w) && Step(w, a) == Some(next)
    ensures SuccessesFit(next)
  {
    if next.successes == w.successes {
      StillFit(w, a, next);
    } else {
      NewestFits(w, next);
    }
  }

  lemma StillFit<P>(w: World<P>, a: Action<P>, next: World<P>)
    requires Inv(w) && Step(w, a) == Some(next) && next.successes == w.successes
    ensures SuccessesFit(next)
  {
    forall k | 0 <= k < |w.successes|
      ensures SuccessFits(next, w.successes[k])
    {
      assert SuccessFits(w, w.successes[k]);
    }
  }

  lemma NewestFits<P>(w: World<P>, next: World<P>)
    requires Inv(w) && w.pc.Waiting? && w.toClient != [] && next == ReceiveStep(w) && next.successes != w.successes
    ensures SuccessesFit(next)
  {
    forall k | 0 <= k < |next.successes|
      ensures SuccessFits(next, next.successes[k])
    {
      if k < |w.successes| {
        assert SuccessFits(w, w.successes[k]);
      } else {
        assert Answers(w.toClient[0], w.pc.id);
      }
    }
  }

  lemma {:induction false} RunInv<P>(worlds: seq<World<P>>, actions: seq<Action<P>>)
    requires Run(worlds, actions)
    ensures Inv(worlds[|actions|])
    decreases |actions|
  {
    if actions != [] {
      hide RequestsFit, FramesFit, WaitingFits, SuccessesFit, Step;
      var n := |actions| - 1;
      RunInv(worlds[..n + 1], actions[..n]);
      StepRequests(worlds[n], actions[n], worlds[n + 1]);
      StepFrames(worlds[n], actions[n], worlds[n + 1]);
      StepWaiting(worlds[n], actions[n], worlds[n + 1]);
      StepSuccesses(worlds[n], actions[n], worlds[n + 1]);
    } else {
      assert Inv(worlds[0]);
    }
  }

  /** A successful exchange returned what the server answered to that very request, as it was asked. */
  lemma AnswersItsOwnRequest<P>(worlds: seq<World<P>>, actions: seq<Action<P>>, k: nat)
    requires Run(worlds, actions) && k < |worlds[|actions|].successes|
    ensures var w := worlds[|actions|];
      var s := w.successes[k];
      s.frame.id == Number(s.id) && s.id in w.served && w.served[s.id] == Served(s.body, s.frame.payload)
  {
    RunInv(worlds, actions);
    assert SuccessFits(worlds[|actions|], worlds[|actions|].successes[k]);
  }

  /** No frame answers two exchanges: successes have different numbers, and a used number never comes again. */
  lemma NoFrameAnswersTwice<P>(worlds: seq<World<P>>, actions: seq<Action<P>>, k: nat, l: nat)
    requires Run(worlds, actions) && k < l < |worlds[|actions|].successes|
    ensures var w := worlds[|actions|];
      && w.successes[k].id < w.successes[l].id
      && forall i :: 0 <= i < |w.toClient| ==> !Answers(w.toClient[i], w.successes[k].id)
  {
    RunInv(worlds, actions);
    assert SuccessFits(worlds[|actions|], worlds[|actions|].successes[k]);
  }

  /** After a timeout or a disconnect the failure stays and no later exchange succeeds. */
  lemma {:induction false} TerminalIsForever<P>(worlds: seq<World<P>>, actions: seq<Action<P>>, i: nat, j: nat)
    requires Run(worlds, actions) && i <= j <= |actions| && worlds[i].client.terminal.Some?
    ensures worlds[j].client.terminal == worlds[i].client.terminal
    ensures worlds[j].successes == worlds[i].successes
    ensures worlds[j].pc.Idle?
    decreases j
  {
    if i < j {
      TerminalIsForever(worlds, actions, i, j - 1);
      assert Step(worlds[j - 1], actions[j - 1]) == Some(worlds[j]);
    } else {
      TerminalIsIdle(worlds, actions, i);
    }
  }

  lemma {:induction false} TerminalIsIdle<P>(worlds: seq<World<P>>, actions: seq<Action<P>>, i: nat)
    requires Run(worlds, actions) && i <= |actions|
    ensures worlds[i].client.terminal.Some? ==> worlds[i].pc.Idle?
    decreases i
  {
    if i > 0 {
      TerminalIsIdle(worlds, actions, i - 1);
      assert Step(worlds[i - 1], actions[i - 1]) == Some(worlds[i]);
    }
  }

  // An exchange of a run, and the call it is

  /** What a step of a run brings to the exchange in progress. */
  function ArrivalOf<P>(w: World<P>, a: Action<P>): seq<Arrival<P>>
  {
    match a
    case Receive =>
      if w.toClient == [] then []
      else if w.toClient[0].Noise? then [Garbled]
      else [Received(w.toClient[0].frame)]
    case GiveUp(ending) =>
      [match ending case TimeIsUp => DeadlinePassed case AtTheEnd => EndOfFile case Broken => TransportError]
    case _ => []
  }

  /** What the steps from `i` up to `j` bring. */
  function Arrivals<P>(worlds: seq<World<P>>, actions: seq<Action<P>>, i: nat, j: nat): seq<Arrival<P>>
    requires i <= j <= |actions| <= |worlds|
    decreases j
  {
    if i == j then [] else Arrivals(worlds, actions, i, j - 1) + ArrivalOf(worlds[j - 1], actions[j - 1])
  }

  /** Everything that arrived was passed over, and the client is where that leaves it. */
  ghost predicate StillWaiting<P>(start: World<P>, body: P, now: World<P>, arrivals: seq<Arrival<P>>)
  {
    var id := start.nextId + 1;
    && now.pc == Waiting(id, body)
    && (forall k | 0 <= k < |arrivals| :: arrivals[k].Received? && !Reached(AnswerTo(id), arrivals[k].frame))
    && now.client == start.client.PassAll(FramesOf(arrivals), true)
    && now.successes == start.successes
  }

  function FramesOf<P>(arrivals: seq<Arrival<P>>): seq<Frame<P>>
    requires forall k | 0 <= k < |arrivals| :: arrivals[k].Received?
  {
    seq(|arrivals|, k requires 0 <= k < |arrivals| => arrivals[k].frame)
  }

  /** The last arrival stops the call, all others having been passed over. */
  lemma PassedAllButOne<P>(id: int, arrivals: seq<Arrival<P>>, last: Arrival<P>)
    requires forall k | 0 <= k < |arrivals| :: arrivals[k].Received? && !Reached(AnswerTo(id), arrivals[k].frame)
    requires Stops(AnswerTo(id), last)
    ensures Stop(AnswerTo(id), arrivals + [last]) == last
    ensures Frames(AnswerTo(id), arrivals + [last]) == FramesOf(arrivals)
  {
    assert FirstStop(AnswerTo(id), arrivals + [last], |arrivals|);
    PassedIsFirst(AnswerTo(id), arrivals + [last], |arrivals|);
  }

  lemma PassOneMore<P>(from: State<P>, arrivals: seq<Arrival<P>>, frame: Frame<P>)
    requires forall k | 0 <= k < |arrivals| :: arrivals[k].Received?
    ensures forall k | 0 <= k < |arrivals + [Received(frame)]| :: (arrivals + [Received(frame)])[k].Received?
    ensures from.PassAll(FramesOf(arrivals + [Received(frame)]), true) ==
      from.PassAll(FramesOf(arrivals), true).PassOver(frame, true)
  {
    hide State.PassOver, State.PassAll;
    var frames := FramesOf(arrivals + [Received(frame)]);
    assert frames[..|arrivals|] == FramesOf(arrivals) && frames[..|arrivals| + 1] == frames;
    PassOne(from, frames, |arrivals|, true);
  }

  /** Which steps leave an exchange waiting, and what they do to the client. */
  lemma StepsWhileWaiting<P>(now: World<P>, a: Action<P>, next: World<P>)
    requires now.pc.Waiting? && Step(now, a) == Some(next) && next.pc.Waiting?
    ensures next.pc == now.pc && next.successes == now.successes
    ensures
      || (ArrivalOf(now, a) == [] && next.client == now.client)
      || (now.toClient != [] && now.toClient[0].Carries? && ArrivalOf(now, a) == [Received(now.toClient[0].frame)]
          && now.toClient[0].frame.id != Number(now.pc.id)
          && next.client == now.client.PassOver(now.toClient[0].frame, true))
  {
    hide State.PassOver;
  }

  /** A step after which the exchange still waits passes over at most one frame. */
  lemma WaitOn<P>(start: World<P>, body: P, now: World<P>, a: Action<P>, next: World<P>, arrivals: seq<Arrival<P>>)
    requires StillWaiting(start, body, now, arrivals) && Step(now, a) == Some(next) && next.pc.Waiting?
    ensures StillWaiting(start, body, next, arrivals + ArrivalOf(now, a))
  {
    hide State.PassOver, State.PassAll, Step, ArrivalOf, FramesOf;
    StepsWhileWaiting(now, a, next);
    if ArrivalOf(now, a) == [] {
      assert arrivals + ArrivalOf(now, a) == arrivals;
    } else {
      PassOneMore(start.client, arrivals, now.toClient[0].frame);
    }
  }

  /** What the call left: its state, and a success exactly when it returned a frame. */
  ghost predicate Finished<P>(start: World<P>, body: P, result: (State<P>, Result<Frame<P>, Problem>), end: World<P>)
  {
    && end.client == result.0
    && end.successes == start.successes
      + if result.1.Ok? then [Success(start.nextId + 1, body, result.1.value)] else []
  }

  /** The step that ends the exchange ends the call with that last arrival. */
  lemma WaitOver<P>(start: World<P>, body: P, now: World<P>, a: Action<P>, next: World<P>, arrivals: seq<Arrival<P>>)
    requires start.client.terminal.None?
    requires StillWaiting(start, body, now, arrivals) && Step(now, a) == Some(next) && next.pc.Idle?
    ensures Finished(start, body,
      ExchangeStep(start.client, start.nextId + 1, true, Sent, arrivals + ArrivalOf(now, a)), next)
  {
    hide State.PassOver, State.PassAll, Passed;
    var more := ArrivalOf(now, a);
    assert |more| == 1 && Stops(AnswerTo(start.nextId + 1), more[0]);
    assert more == [more[0]];
    PassedAllButOne(start.nextId + 1, arrivals, more[0]);
    assert start.successes + [] == start.successes;
  }

  lemma {:induction false} WaitingFollows<P>(worlds: seq<World<P>>, actions: seq<Action<P>>, i: nat, j: nat)
    requires Run(worlds, actions) && i < j <= |actions|
    requires actions[i].Begin?
    requires forall k :: i < k <= j ==> worlds[k].pc.Waiting?
    ensures StillWaiting(worlds[i], actions[i].body, worlds[j], Arrivals(worlds, actions, i + 1, j))
    ensures worlds[i].client.terminal.None? && actions[i].well && actions[i].sending.Sent?
    decreases j
  {
    hide StillWaiting, Step, ArrivalOf;
    assert Step(worlds[j - 1], actions[j - 1]) == Some(worlds[j]);
    if j == i + 1 {
      Begun(worlds[i], actions[i], worlds[j], []);
    } else {
      WaitingFollows(worlds, actions, i, j - 1);
      WaitOn(worlds[i], actions[i].body, worlds[j - 1], actions[j - 1], worlds[j],
        Arrivals(worlds, actions, i + 1, j - 1));
    }
  }

  lemma Begun<P>(w: World<P>, a: Action<P>, next: World<P>, later: seq<Arrival<P>>)
    requires a.Begin? && Step(w, a) == Some(next)
    ensures next.pc.Waiting? ==>
      StillWaiting(w, a.body, next, []) && w.client.terminal.None? && a.well && a.sending.Sent?
    ensures next.pc.Idle? ==>
      Finished(w, a.body, ExchangeStep(w.client, w.nextId + 1, a.well, a.sending, later), next)
  {
    assert w.successes + [] == w.successes;
    var none: seq<Arrival<P>> := [];
    assert FramesOf(none) == [];
  }

  /**
   Refinement: in every run, from the beginning of an exchange to the step that ends it, whatever the server
   does in between, the exchange is the client's own call on what arrived for it.
   */
  lemma ExchangesAreCalls<P>(worlds: seq<World<P>>, actions: seq<Action<P>>, i: nat, j: nat)
    requires Run(worlds, actions) && i < j <= |actions|
    requires actions[i].Begin? && worlds[j].pc.Idle?
    requires forall k :: i < k < j ==> worlds[k].pc.Waiting?
    ensures var begin := actions[i];
      var call := ExchangeStep(worlds[i].client, worlds[i].nextId + 1, begin.well, begin.sending,
                               Arrivals(worlds, actions, i + 1, j));
      Finished(worlds[i], begin.body, call, worlds[j])
  {
    hide StillWaiting, Step, ArrivalOf, Finished, ExchangeStep, Arrivals, Run;
    StepOf(worlds, actions, j - 1);
    if j == i + 1 {
      Begun(worlds[i], actions[i], worlds[j], Arrivals(worlds, actions, j, j));
    } else {
      ArrivalsNext(worlds, actions, i + 1, j);
      LaterExchangesAreCalls(worlds, actions, i, j);
    }
  }

  lemma LaterExchangesAreCalls<P>(worlds: seq<World<P>>, actions: seq<Action<P>>, i: nat, j: nat)
    requires Run(worlds, actions) && i + 1 < j <= |actions|
    requires actions[i].Begin? && worlds[j].pc.Idle?
    requires forall k :: i < k < j ==> worlds[k].pc.Waiting?
    requires Step(worlds[j - 1], actions[j - 1]) == Some(worlds[j])
    ensures var begin := actions[i];
      var arrivals := Arrivals(worlds, actions, i + 1, j - 1) + ArrivalOf(worlds[j - 1], actions[j - 1]);
      var call := ExchangeStep(worlds[i].client, worlds[i].nextId + 1, begin.well, begin.sending, arrivals);
      Finished(worlds[i], begin.body, call, worlds[j])
  {
    hide StillWaiting, Step, ArrivalOf, Finished, ExchangeStep, Arrivals;
    var before := Arrivals(worlds, actions, i + 1, j - 1);
    WaitingFollows(worlds, actions, i, j - 1);
    assert actions[i].sending == Sent;
    WaitOver(worlds[i], actions[i].body, worlds[j - 1], actions[j - 1], worlds[j], before);
  }

  lemma StepOf<P>(worlds: seq<World<P>>, actions: seq<Action<P>>, k: nat)
    requires Run(worlds, actions) && k < |actions|
    ensures |worlds| == |actions| + 1 && Step(worlds[k], actions[k]) == Some(worlds[k + 1])
  {
    hide Step, Start;
  }

  lemma ArrivalsNext<P>(worlds: seq<World<P>>, actions: seq<Action<P>>, i: nat, j: nat)
    requires i < j <= |actions| <= |worlds|
    ensures Arrivals(worlds, actions, i, j) ==
      Arrivals(worlds, actions, i, j - 1) + ArrivalOf(worlds[j - 1], actions[j - 1])
  {
    hide ArrivalOf;
  }
}
