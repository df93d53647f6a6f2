/**
 * `mfarm run` after its session was created, as a machine over the events that can reach it: signals,
 * internal errors, timer and poll answers, the child, and the settling of the one DELETE.
 */
module RunCommand {
  import opened Wrappers

  const EXIT_FAILURE := 1
  const EXIT_QUEUE_TIMEOUT := 75
  const EXIT_INTERRUPTED := 130
  const POLL_MIN_MS: nat := 500
  const POLL_MAX_MS: nat := 5000

  /** Where the main flow waits. Sleeping ends at `until`, or early when a signal wakes it. */
  datatype Flow = Sleeping(until: int) | Polling | RunningChild | AwaitingRelease

  datatype Line =
    | GaveUp(waitedMs: int)
    | Failed
    | Stopping
    | NotWaiting
    | AlreadyShuttingDown
    | KillingChild
    | InternalError
    | Releasing
    | ReleaseEnded(how: DeleteResult)

  datatype DeleteResult = Released | AlreadyGone | Refused | Aborted

  /**
   * The locals of `run`, its handlers and its release closure. `deletes` counts calls of
   * deleteSession, `spawned` says whether a child was started, `polls` how often the queue was asked;
   * `outcome` is the code the process ends with.
   */
  datatype State = State(
    flow: Flow, interrupted: bool, releasing: bool, abandoned: bool, started: bool, fatal: bool, exitCode: int,
    startedAt: int, deadline: int, delay: nat, polls: nat, spawned: bool, deletes: nat, lines: seq<Line>,
    outcome: Option<int>)

  datatype Poll = Ready | Waiting | Terminal | Error

  datatype Event =
    | SleepEnds(now: int)
    | PollAnswers(poll: Poll, now: int)
    | ChildFails
    | ChildExits(code: Option<int>, signal: nat)
    | Signal
    | Fatal
    | DeleteSettles(how: DeleteResult)

  function Min(a: int, b: int): int {
    if a < b then a else b
  }

  function Max(a: int, b: int): int {
    if a > b then a else b
  }

  function Say(s: State, line: Line): State {
    s.(lines := s.lines + [line])
  }

  /** The release closure: the first call starts the DELETE, later calls wait for the same one. */
  function Release(s: State): State {
    if s.started then s else Say(s, Releasing).(started := true, deletes := s.deletes + 1)
  }

  /** `catch` has decided the exit code; `finally` awaits the release with the guards still on. */
  function Finally(s: State, exitCode: int): State {
    Release(s.(exitCode := exitCode, releasing := true, flow := AwaitingRelease))
  }

  /** Top of the wait loop. */
  function LoopTop(s: State, now: int): State {
    if s.interrupted then Finally(s, EXIT_INTERRUPTED)
    else if now >= s.deadline then Finally(Say(s, GaveUp(now - s.startedAt)), EXIT_QUEUE_TIMEOUT)
    else s.(flow := Sleeping(now + Min(s.delay, Max(0, s.deadline - now))))
  }

  /** A device is there: start the child, unless a signal came meanwhile. */
  function Spawn(s: State): State {
    if s.interrupted then Finally(s, EXIT_INTERRUPTED) else s.(flow := RunningChild, spawned := true)
  }

  /** The hub has answered one more poll. */
  function OnPoll(s: State, poll: Poll, now: int): State {
    match poll
    case Ready => Spawn(s)
    case Waiting => LoopTop(s.(delay := Min(s.delay * 2, POLL_MAX_MS)), now)
    case Terminal => Finally(Say(s, Failed), EXIT_FAILURE)
    case Error => Finally(Say(s, Failed), EXIT_FAILURE)
  }

  function Init(queued: bool, waitMs: nat, now: int): State {
    var s := State(Polling, false, false, false, false, false, EXIT_FAILURE, now, now + waitMs,
                   POLL_MIN_MS, 0, false, 0, [], None);
    if queued then LoopTop(s, now) else Spawn(s)
  }

  function OnSignal(s: State): State {
    if s.releasing then
      if s.abandoned then Say(s, AlreadyShuttingDown) else Say(s, NotWaiting).(abandoned := true)
    else if s.interrupted then Say(s, KillingChild)
    else Say(s, Stopping).(interrupted := true)
  }

  /** None: the event cannot happen here. Nothing happens once the process has ended. */
  function Step(s: State, e: Event): Option<State> {
    if s.outcome.Some? then None
    else match e
      case SleepEnds(now) =>
        if !s.flow.Sleeping? || (now < s.flow.until && !s.interrupted) then None
        else Some(if s.interrupted then Finally(s, EXIT_INTERRUPTED) else s.(flow := Polling))
      case PollAnswers(poll, now) =>
        if s.flow.Polling? then Some(OnPoll(s.(polls := s.polls + 1), poll, now)) else None
      case ChildFails =>
        if s.flow.RunningChild? then Some(Finally(Say(s, Failed), EXIT_FAILURE)) else None
      case ChildExits(code, signal) =>
        if !s.flow.RunningChild? then None
        else Some(Finally(s, if s.interrupted then EXIT_INTERRUPTED
                             else if code.Some? then code.value else 128 + signal))
      case Signal => Some(OnSignal(s))
      case Fatal => Some(Release(Say(s, InternalError).(fatal := true)))
      case DeleteSettles(how) =>
        if !s.started || (how.Aborted? && !s.abandoned) then None
        else
          var said := if how.Aborted? || (how.Refused? && s.abandoned) then s else Say(s, ReleaseEnded(how));
          Some(said.(outcome := Some(if s.fatal then EXIT_FAILURE else s.exitCode)))
  }

  function Run(s: State, events: seq<Event>): Option<State>
    decreases |events|
  {
    if events == [] then Some(s)
    else
      var s' := Step(s, events[0]);
      if s'.None? then None else Run(s'.value, events[1..])
  }

  // ---------------------------------------------------------------- invariant

  /** The delay after `polls` unanswered polls: 500ms, doubling to a 5s ceiling. */
  function Backoff(polls: nat): nat {
    if polls == 0 then 500 else Min(2 * Backoff(polls - 1), 5000)
  }

  predicate Inv(s: State) {
    && s.deletes == (if s.started then 1 else 0)
    && (s.flow.AwaitingRelease? ==> s.started && s.releasing)
    && (s.releasing ==> s.flow.AwaitingRelease?)
    && (s.fatal ==> s.started)
    && (s.started ==> s.fatal || s.flow.AwaitingRelease?)
    && (s.outcome.Some? ==> s.started && s.outcome.value == if s.fatal then EXIT_FAILURE else s.exitCode)
    && (!s.flow.AwaitingRelease? ==> s.exitCode == EXIT_FAILURE)
  }

  /** The waiting discipline: how long each sleep may last, and how the delay grows. */
  predicate Paced(s: State) {
    && (s.flow.Sleeping? ==> s.flow.until <= s.deadline && s.delay == Backoff(s.polls))
    && (s.flow.Polling? ==> s.delay == Backoff(s.polls))
  }

  /** When the run may give up on the queue: not early, only before a child, and only to release. */
  predicate GaveUpRight(s: State) {
    && (s.spawned ==> !s.flow.Sleeping? && !s.flow.Polling?)
    && (forall l <- s.lines :: l.GaveUp? ==>
          l.waitedMs >= s.deadline - s.startedAt && !s.spawned && s.flow.AwaitingRelease?)
  }

  predicate Patient(s: State) {
    Paced(s) && GaveUpRight(s)
  }

  /** What no step undoes: the two clock readings, and an internal error once it happened. */
  predicate Follows(s: State, s': State) {
    s'.startedAt == s.startedAt && s'.deadline == s.deadline && (s.fatal ==> s'.fatal)
  }

  lemma FinallyFollows(s: State, exitCode: int)
    ensures Follows(s, Release(s)) && Follows(s, Finally(s, exitCode))
  {
  }

  lemma PollFollows(s: State, poll: Poll, now: int)
    ensures Follows(s, OnPoll(s, poll, now))
  {
    hide Finally;
    FinallyFollows(s, EXIT_INTERRUPTED);
    FinallyFollows(Say(s, Failed), EXIT_FAILURE);
    var t := s.(delay := Min(s.delay * 2, POLL_MAX_MS));
    FinallyFollows(t, EXIT_INTERRUPTED);
    FinallyFollows(Say(t, GaveUp(now - t.startedAt)), EXIT_QUEUE_TIMEOUT);
  }

  lemma StepFollows(s: State, e: Event)
    requires Step(s, e).Some?
    ensures Follows(s, Step(s, e).value)
  {
    hide Release, Finally, OnPoll;
    match e {
      case PollAnswers(poll, now) => PollFollows(s.(polls := s.polls + 1), poll, now);
      case SleepEnds(_) => FinallyFollows(s, EXIT_INTERRUPTED);
      case ChildFails => FinallyFollows(Say(s, Failed), EXIT_FAILURE);
      case ChildExits(code, signal) =>
        FinallyFollows(s, if s.interrupted then EXIT_INTERRUPTED
                          else if code.Some? then code.value else 128 + signal);
      case Fatal => FinallyFollows(Say(s, InternalError).(fatal := true), EXIT_FAILURE);
      case Signal =>
      case DeleteSettles(_) =>
    }
  }

  lemma FinallyKeeps(s: State, exitCode: int)
    requires Inv(s) && s.outcome.None?
    ensures Inv(Finally(s, exitCode))
  {
  }

  /** Letting go keeps the promise about giving up; so does giving up, if it is time. */
  lemma FinallyPatient(s: State, line: Line, exitCode: int)
    requires GaveUpRight(s)
    requires line.GaveUp? ==> line.waitedMs >= s.deadline - s.startedAt && !s.spawned
    ensures Patient(Finally(s, exitCode)) && Patient(Finally(Say(s, line), exitCode))
  {
  }

  lemma ReleaseKeeps(s: State)
    requires Inv(s) && s.outcome.None?
    ensures Inv(Release(Say(s, InternalError).(fatal := true)))
    ensures Patient(s) ==> Patient(Release(Say(s, InternalError).(fatal := true)))
  {
  }

  lemma LoopTopKeeps(s: State, now: int)
    requires Inv(s) && s.outcome.None? && !s.flow.AwaitingRelease?
    ensures Inv(LoopTop(s, now)) && Inv(Spawn(s))
  {
    hide Release, Finally;
    FinallyKeeps(s, EXIT_INTERRUPTED);
    FinallyKeeps(Say(s, GaveUp(now - s.startedAt)), EXIT_QUEUE_TIMEOUT);
  }

  lemma LoopTopPatient(s: State, now: int)
    requires GaveUpRight(s) && s.flow.Polling? && s.delay == Backoff(s.polls)
    ensures Patient(LoopTop(s, now))
  {
    hide Release, Finally;
    FinallyPatient(s, Failed, EXIT_INTERRUPTED);
    if now >= s.deadline {
      FinallyPatient(s, GaveUp(now - s.startedAt), EXIT_QUEUE_TIMEOUT);
    }
  }

  lemma SpawnPatient(s: State)
    requires GaveUpRight(s) && s.flow.Polling?
    ensures Patient(Spawn(s))
  {
    hide Release, Finally;
    FinallyPatient(s, Failed, EXIT_INTERRUPTED);
  }

  lemma PollKeeps(s: State, poll: Poll, now: int)
    requires Inv(s) && s.outcome.None? && s.flow.Polling?
    ensures Inv(OnPoll(s.(polls := s.polls + 1), poll, now))
    ensures Patient(s) ==> Patient(OnPoll(s.(polls := s.polls + 1), poll, now))
  {
    hide Release, Finally, LoopTop, Spawn;
    var t := s.(polls := s.polls + 1);
    var u := t.(delay := Min(t.delay * 2, POLL_MAX_MS));
    LoopTopKeeps(t, now);
    LoopTopKeeps(u, now);
    FinallyKeeps(Say(t, Failed), EXIT_FAILURE);
    if Patient(s) {
      FinallyPatient(t, Failed, EXIT_FAILURE);
      SpawnPatient(t);
      LoopTopPatient(u, now);
    }
  }

  lemma SignalKeeps(s: State)
    requires Inv(s) && s.outcome.None?
    ensures Inv(OnSignal(s)) && (Patient(s) ==> Patient(OnSignal(s)))
  {
  }

  lemma InitKeeps(queued: bool, waitMs: nat, now: int)
    ensures Inv(Init(queued, waitMs, now)) && Patient(Init(queued, waitMs, now))
  {
    hide LoopTop, Spawn;
    var s := State(Polling, false, false, false, false, false, EXIT_FAILURE, now, now + waitMs,
                   POLL_MIN_MS, 0, false, 0, [], None);
    LoopTopKeeps(s, now);
    LoopTopPatient(s, now);
    SpawnPatient(s);
  }

  lemma StepKeeps(s: State, e: Event)
    requires Inv(s) && Step(s, e).Some?
    ensures Inv(Step(s, e).value)
    ensures Patient(s) ==> Patient(Step(s, e).value)
  {
    hide Release, Finally, OnPoll, OnSignal;
    match e {
      case PollAnswers(poll, now) => PollKeeps(s, poll, now);
      case SleepEnds(_) =>
        FinallyKeeps(s, EXIT_INTERRUPTED);
        if Patient(s) { FinallyPatient(s, Failed, EXIT_INTERRUPTED); }
      case ChildFails =>
        FinallyKeeps(Say(s, Failed), EXIT_FAILURE);
        if Patient(s) { FinallyPatient(s, Failed, EXIT_FAILURE); }
      case ChildExits(code, signal) =>
        var c := if s.interrupted then EXIT_INTERRUPTED else if code.Some? then code.value else 128 + signal;
        FinallyKeeps(s, c);
        if Patient(s) { FinallyPatient(s, Failed, c); }
      case Fatal => ReleaseKeeps(s);
      case Signal => SignalKeeps(s);
      case DeleteSettles(_) =>
    }
  }

  lemma {:induction false} RunKeeps(s: State, events: seq<Event>)
    requires Inv(s) && Patient(s) && Run(s, events).Some?
    ensures Inv(Run(s, events).value) && Patient(Run(s, events).value)
    decreases |events|
  {
    if events != [] {
      hide Step;
      StepKeeps(s, events[0]);
      RunKeeps(Step(s, events[0]).value, events[1..]);
    }
  }

  // ------------------------------------------------------------- main results

  /**
   * After a session was created, on every schedule: deleteSession is never called twice, and it was
   * called once when `run` returns or the process exits.
   */
  lemma ReleasedOnEveryExit(queued: bool, waitMs: nat, now: int, events: seq<Event>)
    requires Run(Init(queued, waitMs, now), events).Some?
    ensures
      var s := Run(Init(queued, waitMs, now), events).value;
      s.deletes <= 1 && (s.outcome.Some? ==> s.deletes == 1)
  {
    InitKeeps(queued, waitMs, now);
    RunKeeps(Init(queued, waitMs, now), events);
  }

  /**
   * No schedule is stuck: until it ends, the flow or the release is waiting for something, and takes whatever
   * the hub or the child answers.
   */
  lemma SomethingIsAwaited(queued: bool, waitMs: nat, now: int, events: seq<Event>, later: int)
    requires Run(Init(queued, waitMs, now), events).Some?
    requires Run(Init(queued, waitMs, now), events).value.outcome.None?
    ensures
      var s := Run(Init(queued, waitMs, now), events).value;
      || Step(s, DeleteSettles(Released)).Some?
      || (s.flow.Sleeping? && (later >= s.flow.until ==> Step(s, SleepEnds(later)).Some?))
      || (s.flow.Polling? && forall poll :: Step(s, PollAnswers(poll, later)).Some?)
      || (s.flow.RunningChild? && Step(s, ChildFails).Some? && forall code, n :: Step(s, ChildExits(code, n)).Some?)
  {
    InitKeeps(queued, waitMs, now);
    RunKeeps(Init(queued, waitMs, now), events);
  }

  /** The same schedule with every DELETE answered well. */
  function Forgiven(events: seq<Event>): seq<Event> {
    if events == [] then []
    else [if events[0].DeleteSettles? then DeleteSettles(Released) else events[0]] + Forgiven(events[1..])
  }

  /** Two states that differ in what was printed only. */
  predicate SameButLines(s: State, t: State) {
    t == s.(lines := t.lines)
  }

  lemma SameFinally(s: State, t: State, exitCode: int)
    requires SameButLines(s, t)
    ensures SameButLines(Release(s), Release(t))
    ensures SameButLines(Finally(s, exitCode), Finally(t, exitCode))
  {
  }

  lemma SameLoopTop(s: State, t: State, now: int)
    requires SameButLines(s, t)
    ensures SameButLines(LoopTop(s, now), LoopTop(t, now))
    ensures SameButLines(Spawn(s), Spawn(t))
  {
    hide Release, Finally;
    var gaveUp := GaveUp(now - s.startedAt);
    SameFinally(s, t, EXIT_INTERRUPTED);
    SameFinally(Say(s, gaveUp), Say(t, gaveUp), EXIT_QUEUE_TIMEOUT);
  }

  lemma SameSignal(s: State, t: State)
    requires SameButLines(s, t)
    ensures SameButLines(OnSignal(s), OnSignal(t))
  {
  }

  lemma SamePoll(s: State, t: State, poll: Poll, now: int)
    requires SameButLines(s, t)
    ensures SameButLines(OnPoll(s, poll, now), OnPoll(t, poll, now))
  {
    hide Release, Finally, LoopTop, Spawn;
    var delay := Min(s.delay * 2, POLL_MAX_MS);
    SameLoopTop(s, t, now);
    SameLoopTop(s.(delay := delay), t.(delay := delay), now);
    SameFinally(Say(s, Failed), Say(t, Failed), EXIT_FAILURE);
  }

  lemma {:induction false} ForgivenRuns(s: State, t: State, events: seq<Event>)
    requires SameButLines(s, t) && Run(s, events).Some?
    ensures Run(t, Forgiven(events)).Some? && SameButLines(Run(s, events).value, Run(t, Forgiven(events)).value)
    decreases |events|
  {
    if events != [] {
      var e := events[0];
      var f := Forgiven(events)[0];
      SameStep(s, t, e);
      hide Step;
      assert Forgiven(events)[1..] == Forgiven(events[1..]);
      ForgivenRuns(Step(s, e).value, Step(t, f).value, events[1..]);
    }
  }

  lemma SameStep(s: State, t: State, e: Event)
    requires SameButLines(s, t) && Step(s, e).Some?
    ensures
      var f := if e.DeleteSettles? then DeleteSettles(Released) else e;
      Step(t, f).Some? && SameButLines(Step(s, e).value, Step(t, f).value)
  {
    hide Release, Finally, OnPoll, OnSignal;
    match e {
      case PollAnswers(poll, now) =>
        SamePoll(s.(polls := s.polls + 1), t.(polls := t.polls + 1), poll, now);
      case SleepEnds(_) => SameFinally(s, t, EXIT_INTERRUPTED);
      case ChildFails => SameFinally(Say(s, Failed), Say(t, Failed), EXIT_FAILURE);
      case ChildExits(code, signal) =>
        SameFinally(s, t, if s.interrupted then EXIT_INTERRUPTED
                          else if code.Some? then code.value else 128 + signal);
      case Fatal =>
        SameFinally(Say(s, InternalError).(fatal := true), Say(t, InternalError).(fatal := true), EXIT_FAILURE);
      case Signal => SameSignal(s, t);
      case DeleteSettles(_) =>
    }
  }

  /** The exit code never depends on how the DELETE ends. */
  lemma ExitCodeIgnoresRelease(queued: bool, waitMs: nat, now: int, events: seq<Event>)
    requires Run(Init(queued, waitMs, now), events).Some?
    ensures
      var s := Init(queued, waitMs, now);
      && Run(s, Forgiven(events)).Some?
      && Run(s, events).value.outcome == Run(s, Forgiven(events)).value.outcome
  {
    ForgivenRuns(Init(queued, waitMs, now), Init(queued, waitMs, now), events);
  }

  /**
   * Once the release has begun the exit code is decided: signals during it change nothing, and only an
   * internal error of the program's own can still turn it into a failure.
   */
  lemma {:induction false} DecidedAtRelease(s: State, events: seq<Event>)
    requires Inv(s) && s.flow.AwaitingRelease? && s.outcome.None? && !s.fatal && Run(s, events).Some?
    ensures
      var t := Run(s, events).value;
      t.outcome.Some? ==> t.outcome.value == s.exitCode || (Fatal in events && t.outcome.value == EXIT_FAILURE)
    decreases |events|
  {
    if events != [] {
      var t := Step(s, events[0]).value;
      StepKeeps(s, events[0]);
      if t.outcome.Some? {
        assert events[1..] == [] by {
          EndedTakesNothing(t, events[1..]);
        }
      } else if t.fatal {
        FatalFails(t, events[1..]);
      } else {
        DecidedAtRelease(t, events[1..]);
      }
    }
  }

  lemma EndedTakesNothing(s: State, events: seq<Event>)
    requires s.outcome.Some? && Run(s, events).Some?
    ensures events == []
  {
  }

  lemma {:induction false} FatalFails(s: State, events: seq<Event>)
    requires Inv(s) && s.fatal && Run(s, events).Some?
    ensures Run(s, events).value.outcome.Some? ==> Run(s, events).value.outcome.value == EXIT_FAILURE
    decreases |events|
  {
    if events != [] {
      StepKeeps(s, events[0]);
      StepFollows(s, events[0]);
      hide Step;
      FatalFails(Step(s, events[0]).value, events[1..]);
    }
  }

  /** A child's own code comes back verbatim, whatever happens while the device is being released. */
  lemma ChildCodeIsVerbatim(s: State, code: int, signal: nat, events: seq<Event>)
    requires Inv(s) && s.flow.RunningChild? && s.outcome.None? && !s.interrupted && !s.fatal && Fatal !in events
    requires Run(s, [ChildExits(Some(code), signal)] + events).Some?
    ensures
      var t := Run(s, [ChildExits(Some(code), signal)] + events).value;
      t.outcome.Some? ==> t.outcome.value == code
  {
    var e := ChildExits(Some(code), signal);
    assert ([e] + events)[1..] == events;
    StepKeeps(s, e);
    DecidedAtRelease(Step(s, e).value, events);
  }

  /**
   * Giving up on the queue is never early and never after a child was started; each sleep ends by the
   * deadline, after a delay that doubles from half a second to five.
   */
  lemma WaitIsHonoured(queued: bool, waitMs: nat, now: int, events: seq<Event>)
    requires Run(Init(queued, waitMs, now), events).Some?
    ensures
      var s := Run(Init(queued, waitMs, now), events).value;
      && (forall l <- s.lines :: l.GaveUp? ==> l.waitedMs >= waitMs && !s.spawned)
      && (s.flow.Sleeping? ==> s.flow.until <= now + waitMs && s.delay == Backoff(s.polls))
  {
    InitKeeps(queued, waitMs, now);
    RunKeeps(Init(queued, waitMs, now), events);
    ClockKeeps(Init(queued, waitMs, now), events);
  }

  lemma {:induction false} ClockKeeps(s: State, events: seq<Event>)
    requires Run(s, events).Some?
    ensures Run(s, events).value.startedAt == s.startedAt && Run(s, events).value.deadline == s.deadline
    decreases |events|
  {
    if events != [] {
      StepFollows(s, events[0]);
      hide Step;
      ClockKeeps(Step(s, events[0]).value, events[1..]);
    }
  }

  // ------------------------------------------------- what the events decide

  /** The hub answered that a device is there, before any signal. */
  ghost predicate BecameReady(events: seq<Event>) {
    exists k :: 0 <= k < |events| && events[k].PollAnswers? && events[k].poll.Ready? && Signal !in events[..k]
  }

  /** The wait was over, before any signal: at once, or when a poll found no device. */
  ghost predicate WaitedOut(queued: bool, waitMs: nat, start: int, events: seq<Event>) {
    || (queued && waitMs == 0)
    || exists k :: 0 <= k < |events| && events[k].PollAnswers? && events[k].poll.Waiting?
                   && events[k].now >= start + waitMs && Signal !in events[..k]
  }

  /** The hub reported the session's end or an error, or the child could not be started. */
  predicate IsFailure(e: Event) {
    e.ChildFails? || (e.PollAnswers? && (e.poll.Terminal? || e.poll.Error?))
  }

  /** The code a child's end gives after these events. */
  function ChildCode(e: Event, before: seq<Event>): int
    requires e.ChildExits?
  {
    if Signal in before then 130 else if e.code.Some? then e.code.value else 128 + e.signal
  }

  /** The exit code, from what happened. */
  ghost predicate Decides(queued: bool, waitMs: nat, start: int, events: seq<Event>, code: int) {
    && (forall k :: 0 <= k < |events| && events[k].ChildExits? ==> code == ChildCode(events[k], events[..k]))
    && (forall k :: 0 <= k < |events| && IsFailure(events[k]) ==> code == 1)
    && (WaitedOut(queued, waitMs, start, events) ==> code == 75)
    && (NothingDecides(queued, waitMs, start, events) ==> code == 130 && Signal in events)
  }

  ghost predicate NothingDecides(queued: bool, waitMs: nat, start: int, events: seq<Event>) {
    && (forall k :: 0 <= k < |events| ==> !events[k].ChildExits? && !IsFailure(events[k]))
    && !WaitedOut(queued, waitMs, start, events)
  }

  function Polls(events: seq<Event>): nat {
    if events == [] then 0 else Polls(events[..|events| - 1]) + if events[|events| - 1].PollAnswers? then 1 else 0
  }

  /** When the hub was heard last; at first, when the wait began. */
  function Heard(start: int, events: seq<Event>): int {
    if events == [] then start
    else if events[|events| - 1].PollAnswers? then events[|events| - 1].now
    else Heard(start, events[..|events| - 1])
  }

  /** What the state after these events owes to them. */
  ghost predicate Owes(queued: bool, waitMs: nat, start: int, s: State, events: seq<Event>) {
    && (s.fatal <==> Fatal in events)
    && (s.spawned <==> !queued || BecameReady(events))
    && (if s.flow.AwaitingRelease? then Decides(queued, waitMs, start, events, s.exitCode)
        else
          && (s.interrupted <==> Signal in events)
          && NothingDecides(queued, waitMs, start, events)
          && (s.flow.RunningChild? <==> s.spawned))
  }

  /** What it owes to the clock. */
  predicate Sleeps(waitMs: nat, start: int, s: State, events: seq<Event>) {
    && s.startedAt == start && s.deadline == start + waitMs && s.polls == Polls(events)
    && (s.flow.Sleeping? ==>
          Heard(start, events) < start + waitMs
          && s.flow.until == Min(Heard(start, events) + Backoff(Polls(events)), start + waitMs))
  }

  lemma Longer(events: seq<Event>, e: Event)
    ensures (events + [e])[..|events|] == events && (events + [e])[|events|] == e
    ensures forall k :: 0 <= k < |events| ==> (events + [e])[k] == events[k] && (events + [e])[..k] == events[..k]
    ensures forall x :: x in events + [e] <==> x in events || x == e
  {
  }

  /** What one more event adds to what happened. */
  lemma ReadyLonger(queued: bool, waitMs: nat, start: int, events: seq<Event>, e: Event)
    ensures BecameReady(events + [e])
            <==> BecameReady(events) || (e.PollAnswers? && e.poll.Ready? && Signal !in events)
    ensures WaitedOut(queued, waitMs, start, events + [e])
            <==> WaitedOut(queued, waitMs, start, events)
                 || (e.PollAnswers? && e.poll.Waiting? && e.now >= start + waitMs && Signal !in events)
  {
    Longer(events, e);
    var all, n := events + [e], |events|;
    if e.PollAnswers? && Signal !in events {
      assert all[n] == e && Signal !in all[..n];
    }
    if k :| 0 <= k < n && events[k].PollAnswers? && events[k].poll.Ready? && Signal !in events[..k] {
      assert all[k] == events[k] && Signal !in all[..k];
    }
    if k :| 0 <= k < n && events[k].PollAnswers? && events[k].poll.Waiting?
            && events[k].now >= start + waitMs && Signal !in events[..k] {
      assert all[k] == events[k] && Signal !in all[..k];
    }
  }

  lemma NothingLonger(queued: bool, waitMs: nat, start: int, events: seq<Event>, e: Event)
    requires NothingDecides(queued, waitMs, start, events)
    ensures NothingDecides(queued, waitMs, start, events + [e])
            <==> !e.ChildExits? && !IsFailure(e)
                 && !(e.PollAnswers? && e.poll.Waiting? && e.now >= start + waitMs && Signal !in events)
    ensures forall code :: Decides(queued, waitMs, start, events + [e], code) <==>
              if e.ChildExits? then code == ChildCode(e, events)
              else if IsFailure(e) then code == 1
              else if WaitedOut(queued, waitMs, start, events + [e]) then code == 75
              else code == 130 && Signal in events + [e]
  {
    Longer(events, e);
    ReadyLonger(queued, waitMs, start, events, e);
    hide WaitedOut;
    assert (events + [e])[|events|] == e;
  }

  /** Once decided, nothing that can still happen decides otherwise. */
  lemma DecidedStays(queued: bool, waitMs: nat, start: int, events: seq<Event>, e: Event, code: int)
    requires Decides(queued, waitMs, start, events, code) && (e.Signal? || e.Fatal? || e.DeleteSettles?)
    ensures Decides(queued, waitMs, start, events + [e], code)
  {
    Longer(events, e);
    ReadyLonger(queued, waitMs, start, events, e);
    hide WaitedOut;
    assert forall k :: 0 <= k < |events| ==> (events + [e])[k] == events[k];
  }

  lemma FinallyIs(s: State, exitCode: int)
    ensures
      var t := Finally(s, exitCode);
      && t.flow.AwaitingRelease? && t.exitCode == exitCode && t.fatal == s.fatal && t.spawned == s.spawned
      && t.interrupted == s.interrupted && t.polls == s.polls && t.startedAt == s.startedAt && t.deadline == s.deadline
  {
  }

  lemma ReleaseIs(s: State)
    ensures
      var t := Release(s);
      && t.flow == s.flow && t.exitCode == s.exitCode && t.fatal == s.fatal && t.spawned == s.spawned
      && t.interrupted == s.interrupted && t.polls == s.polls && t.startedAt == s.startedAt && t.deadline == s.deadline
  {
  }

  /** The step after a poll's answer. */
  lemma PollOwes(queued: bool, waitMs: nat, start: int, s: State, events: seq<Event>, e: Event)
    requires Owes(queued, waitMs, start, s, events) && s.deadline == start + waitMs
    requires s.flow.Polling? && e.PollAnswers?
    ensures Owes(queued, waitMs, start, OnPoll(s.(polls := s.polls + 1), e.poll, e.now), events + [e])
  {
    Longer(events, e);
    ReadyLonger(queued, waitMs, start, events, e);
    NothingLonger(queued, waitMs, start, events, e);
    var t := s.(polls := s.polls + 1);
    var u := t.(delay := Min(t.delay * 2, POLL_MAX_MS));
    FinallyIs(t, EXIT_INTERRUPTED);
    FinallyIs(u, EXIT_INTERRUPTED);
    FinallyIs(Say(u, GaveUp(e.now - u.startedAt)), EXIT_QUEUE_TIMEOUT);
    FinallyIs(Say(t, Failed), EXIT_FAILURE);
    hide Finally, Decides, NothingDecides, BecameReady, WaitedOut;
  }

  lemma OtherOwes(queued: bool, waitMs: nat, start: int, s: State, events: seq<Event>, e: Event)
    requires Inv(s) && Owes(queued, waitMs, start, s, events) && Step(s, e).Some? && !e.PollAnswers?
    ensures Owes(queued, waitMs, start, Step(s, e).value, events + [e])
  {
    Longer(events, e);
    ReadyLonger(queued, waitMs, start, events, e);
    if !s.flow.AwaitingRelease? {
      NothingLonger(queued, waitMs, start, events, e);
    } else {
      DecidedStays(queued, waitMs, start, events, e, s.exitCode);
    }
    FinallyIs(s, EXIT_INTERRUPTED);
    FinallyIs(Say(s, Failed), EXIT_FAILURE);
    ReleaseIs(Say(s, InternalError).(fatal := true));
    if e.ChildExits? {
      FinallyIs(s, ChildCode(e, events));
    }
    hide Finally, Release, Decides, NothingDecides, BecameReady, WaitedOut, OnPoll;
  }

  /** Counting one more event. */
  lemma PollsLonger(start: int, events: seq<Event>, e: Event)
    ensures Polls(events + [e]) == Polls(events) + (if e.PollAnswers? then 1 else 0)
    ensures Heard(start, events + [e]) == if e.PollAnswers? then e.now else Heard(start, events)
  {
    assert (events + [e])[..|events|] == events;
  }

  lemma StepOwes(queued: bool, waitMs: nat, start: int, s: State, events: seq<Event>, e: Event)
    requires Inv(s) && Owes(queued, waitMs, start, s, events) && Sleeps(waitMs, start, s, events) && Step(s, e).Some?
    ensures Owes(queued, waitMs, start, Step(s, e).value, events + [e])
  {
    hide Owes, OnPoll, Finally, Release, OnSignal;
    if e.PollAnswers? {
      PollOwes(queued, waitMs, start, s, events, e);
    } else {
      OtherOwes(queued, waitMs, start, s, events, e);
    }
  }

  /** A step that is no poll's answer leaves the clock alone; only what slept still sleeps. */
  predicate SameClock(s: State, t: State) {
    && t.startedAt == s.startedAt && t.deadline == s.deadline && t.polls == s.polls
    && (t.flow.Sleeping? ==> t.flow == s.flow)
  }

  lemma LoopTopSleeps(s: State, now: int)
    ensures
      var t := LoopTop(s, now);
      && t.startedAt == s.startedAt && t.deadline == s.deadline && t.polls == s.polls
      && (t.flow.Sleeping? ==> now < s.deadline && t.flow.until == Min(now + s.delay, s.deadline))
  {
    FinallyIs(s, EXIT_INTERRUPTED);
    FinallyIs(Say(s, GaveUp(now - s.startedAt)), EXIT_QUEUE_TIMEOUT);
    hide Finally;
  }

  lemma NoPollSleeps(s: State, e: Event)
    requires Step(s, e).Some? && !e.PollAnswers?
    ensures SameClock(s, Step(s, e).value)
  {
    FinallyIs(s, EXIT_INTERRUPTED);
    FinallyIs(Say(s, Failed), EXIT_FAILURE);
    ReleaseIs(Say(s, InternalError).(fatal := true));
    if e.ChildExits? {
      FinallyIs(s, if s.interrupted then EXIT_INTERRUPTED
                   else if e.code.Some? then e.code.value else 128 + e.signal);
    }
    hide Finally, Release, OnPoll;
  }

  lemma PollSleeps(s: State, poll: Poll, now: int)
    ensures
      var t := OnPoll(s, poll, now);
      && t.startedAt == s.startedAt && t.deadline == s.deadline && t.polls == s.polls
      && (t.flow.Sleeping? ==>
            now < s.deadline && t.flow.until == Min(now + Min(s.delay * 2, POLL_MAX_MS), s.deadline))
  {
    LoopTopSleeps(s.(delay := Min(s.delay * 2, POLL_MAX_MS)), now);
    FinallyIs(s, EXIT_INTERRUPTED);
    FinallyIs(Say(s, Failed), EXIT_FAILURE);
    hide Finally, LoopTop;
  }

  lemma BackoffDoubles(polls: nat)
    ensures Backoff(polls + 1) == Min(2 * Backoff(polls), 5000)
  {
  }

  lemma AnswerSleeps(waitMs: nat, start: int, s: State, events: seq<Event>, e: Event)
    requires Paced(s) && Sleeps(waitMs, start, s, events) && s.flow.Polling? && e.PollAnswers?
    ensures Sleeps(waitMs, start, OnPoll(s.(polls := s.polls + 1), e.poll, e.now), events + [e])
  {
    hide OnPoll, Polls, Heard, Backoff;
    PollsLonger(start, events, e);
    PollSleeps(s.(polls := s.polls + 1), e.poll, e.now);
    BackoffDoubles(s.polls);
  }

  lemma StepSleeps(waitMs: nat, start: int, s: State, events: seq<Event>, e: Event)
    requires Patient(s) && Sleeps(waitMs, start, s, events) && Step(s, e).Some?
    ensures Sleeps(waitMs, start, Step(s, e).value, events + [e])
  {
    hide OnPoll, Polls, Heard, Backoff, Release, Finally, OnSignal;
    if e.PollAnswers? {
      AnswerSleeps(waitMs, start, s, events, e);
    } else {
      PollsLonger(start, events, e);
      NoPollSleeps(s, e);
    }
  }

  lemma InitOwes(queued: bool, waitMs: nat, start: int)
    ensures Owes(queued, waitMs, start, Init(queued, waitMs, start), [])
    ensures Sleeps(waitMs, start, Init(queued, waitMs, start), [])
  {
  }

  lemma {:induction false} RunOwes(queued: bool, waitMs: nat, start: int, s: State, done: seq<Event>,
                                   events: seq<Event>)
    requires Inv(s) && Patient(s) && Owes(queued, waitMs, start, s, done) && Sleeps(waitMs, start, s, done)
    requires Run(s, events).Some?
    ensures Owes(queued, waitMs, start, Run(s, events).value, done + events)
    ensures Sleeps(waitMs, start, Run(s, events).value, done + events)
    decreases |events|
  {
    hide Step, Owes, Sleeps, Inv, Patient;
    if events == [] {
      assert done + events == done;
    } else {
      var e := events[0];
      StepKeeps(s, e);
      StepSleeps(waitMs, start, s, done, e);
      StepOwes(queued, waitMs, start, s, done, e);
      RunOwes(queued, waitMs, start, Step(s, e).value, done + [e], events[1..]);
      assert done + [e] + events[1..] == done + events;
    }
  }

  /**
   * Over every run, the child was started exactly if the session was not queued, or the hub reported its device
   * ready before any signal came.
   */
  lemma ChildIsStartedExactly(queued: bool, waitMs: nat, start: int, events: seq<Event>)
    requires Run(Init(queued, waitMs, start), events).Some?
    ensures Run(Init(queued, waitMs, start), events).value.spawned <==> !queued || BecameReady(events)
  {
    HistoryTells(queued, waitMs, start, events);
  }

  lemma HistoryTells(queued: bool, waitMs: nat, start: int, events: seq<Event>)
    requires Run(Init(queued, waitMs, start), events).Some?
    ensures
      var s := Run(Init(queued, waitMs, start), events).value;
      Inv(s) && Owes(queued, waitMs, start, s, events) && Sleeps(waitMs, start, s, events)
  {
    hide Owes, Sleeps, Inv, Patient, Init;
    InitKeeps(queued, waitMs, start);
    InitOwes(queued, waitMs, start);
    RunKeeps(Init(queued, waitMs, start), events);
    RunOwes(queued, waitMs, start, Init(queued, waitMs, start), [], events);
    assert [] + events == events;
  }

  /**
   * Every run that ended without an internal error has its exit code from what happened: the child's own code, or
   * 128 plus the signal that killed it, unless a signal had come before; 1 if the hub or the start failed; 75
   * exactly if the wait was over before a device and before a signal; and 130 otherwise, and then a signal came.
   */
  lemma OutcomeExactly(queued: bool, waitMs: nat, start: int, events: seq<Event>)
    requires Run(Init(queued, waitMs, start), events).Some? && Fatal !in events
    requires Run(Init(queued, waitMs, start), events).value.outcome.Some?
    ensures
      var code := Run(Init(queued, waitMs, start), events).value.outcome.value;
      && (forall k :: 0 <= k < |events| && events[k].ChildExits? ==>
            code == if Signal in events[..k] then 130
                    else if events[k].code.Some? then events[k].code.value else 128 + events[k].signal)
      && (forall k :: 0 <= k < |events| && IsFailure(events[k]) ==> code == 1)
      && (WaitedOut(queued, waitMs, start, events) ==> code == 75)
      && (NothingDecides(queued, waitMs, start, events) ==> code == 130 && Signal in events)
  {
    HistoryTells(queued, waitMs, start, events);
  }

  /** An internal error ends the process with 1, whatever else happened. */
  lemma FatalOutcome(queued: bool, waitMs: nat, start: int, events: seq<Event>)
    requires Run(Init(queued, waitMs, start), events).Some? && Fatal in events
    ensures Run(Init(queued, waitMs, start), events).value.outcome.Some?
            ==> Run(Init(queued, waitMs, start), events).value.outcome == Some(1)
  {
    HistoryTells(queued, waitMs, start, events);
  }

  /**
   * A sleep lasts from the hub's last answer for half a second, doubling with each poll to five, and is cut at
   * the deadline; nobody sleeps past it.
   */
  lemma SleepsExactly(queued: bool, waitMs: nat, start: int, events: seq<Event>)
    requires Run(Init(queued, waitMs, start), events).Some?
    requires Run(Init(queued, waitMs, start), events).value.flow.Sleeping?
    ensures
      var heard := Heard(start, events);
      && heard < start + waitMs
      && Run(Init(queued, waitMs, start), events).value.flow.until
         == Min(heard + Backoff(Polls(events)), start + waitMs)
  {
    HistoryTells(queued, waitMs, start, events);
  }

  // ------------------------------------------------------------- what is said

  /** The flags are what was said about signals. */
  predicate Told(s: State) {
    (s.interrupted <==> Stopping in s.lines) && (s.abandoned <==> NotWaiting in s.lines)
  }

  /** What is said without a signal. */
  predicate Quiet(s: State, t: State) {
    && t.interrupted == s.interrupted && t.abandoned == s.abandoned
    && (Stopping in t.lines <==> Stopping in s.lines) && (NotWaiting in t.lines <==> NotWaiting in s.lines)
  }

  lemma SayQuiet(s: State, line: Line)
    requires line != Stopping && line != NotWaiting
    ensures Quiet(s, Say(s, line))
  {
  }

  lemma FinallyQuiet(s: State, exitCode: int)
    ensures Quiet(s, Finally(s, exitCode)) && Quiet(s, Release(s))
  {
  }

  lemma QuietSame(s: State, t: State)
    requires t.lines == s.lines && t.interrupted == s.interrupted && t.abandoned == s.abandoned
    ensures Quiet(s, t)
  {
  }

  lemma QuietThen(s: State, t: State, u: State)
    requires Quiet(s, t) && Quiet(t, u)
    ensures Quiet(s, u)
  {
  }

  lemma LoopTopQuiet(s: State, now: int)
    ensures Quiet(s, LoopTop(s, now)) && Quiet(s, Spawn(s))
  {
    hide Quiet, Finally;
    var said := Say(s, GaveUp(now - s.startedAt));
    FinallyQuiet(s, EXIT_INTERRUPTED);
    SayQuiet(s, GaveUp(now - s.startedAt));
    FinallyQuiet(said, EXIT_QUEUE_TIMEOUT);
    QuietThen(s, said, Finally(said, EXIT_QUEUE_TIMEOUT));
    QuietSame(s, s.(flow := RunningChild, spawned := true));
    QuietSame(s, s.(flow := Sleeping(now + Min(s.delay, Max(0, s.deadline - now)))));
  }

  lemma FailQuiet(s: State, exitCode: int)
    ensures Quiet(s, Finally(Say(s, Failed), exitCode))
  {
    hide Quiet, Finally;
    SayQuiet(s, Failed);
    FinallyQuiet(Say(s, Failed), exitCode);
    QuietThen(s, Say(s, Failed), Finally(Say(s, Failed), exitCode));
  }

  lemma PollQuiet(s: State, poll: Poll, now: int)
    ensures Quiet(s, OnPoll(s, poll, now))
  {
    hide Quiet, Finally, LoopTop, Spawn;
    var u := s.(delay := Min(s.delay * 2, POLL_MAX_MS));
    LoopTopQuiet(s, now);
    LoopTopQuiet(u, now);
    QuietSame(s, u);
    QuietThen(s, u, LoopTop(u, now));
    FailQuiet(s, EXIT_FAILURE);
  }

  lemma QuietTold(s: State, t: State)
    requires Told(s) && Quiet(s, t)
    ensures Told(t)
  {
  }

  lemma SignalTold(s: State)
    requires Told(s)
    ensures Told(OnSignal(s))
  {
  }

  lemma FatalQuiet(s: State)
    ensures Quiet(s, Release(Say(s, InternalError).(fatal := true)))
  {
    hide Quiet, Release;
    var said := Say(s, InternalError);
    SayQuiet(s, InternalError);
    QuietSame(said, said.(fatal := true));
    FinallyQuiet(said.(fatal := true), EXIT_FAILURE);
    QuietThen(s, said, said.(fatal := true));
    QuietThen(s, said.(fatal := true), Release(said.(fatal := true)));
  }

  lemma StepTold(s: State, e: Event)
    requires Told(s) && Step(s, e).Some?
    ensures Told(Step(s, e).value)
  {
    hide Told, Quiet, Finally, Release, OnPoll, OnSignal;
    var t := Step(s, e).value;
    match e {
      case PollAnswers(poll, now) =>
        var u := s.(polls := s.polls + 1);
        QuietSame(s, u);
        PollQuiet(u, poll, now);
        QuietThen(s, u, t);
      case SleepEnds(_) =>
        QuietSame(s, s.(flow := Polling));
        FinallyQuiet(s, EXIT_INTERRUPTED);
      case ChildFails => FailQuiet(s, EXIT_FAILURE);
      case ChildExits(code, signal) =>
        FinallyQuiet(s, if s.interrupted then EXIT_INTERRUPTED
                        else if code.Some? then code.value else 128 + signal);
      case Fatal => FatalQuiet(s);
      case DeleteSettles(how) =>
        QuietSame(s, s);
        SayQuiet(s, ReleaseEnded(how));
        QuietSame(s, s.(outcome := t.outcome));
        QuietSame(Say(s, ReleaseEnded(how)), Say(s, ReleaseEnded(how)).(outcome := t.outcome));
        QuietThen(s, Say(s, ReleaseEnded(how)), Say(s, ReleaseEnded(how)).(outcome := t.outcome));
      case Signal => SignalTold(s);
    }
    if !e.Signal? {
      QuietTold(s, t);
    }
  }

  lemma {:induction false} RunTold(s: State, events: seq<Event>)
    requires Told(s) && Run(s, events).Some?
    ensures Told(Run(s, events).value)
    decreases |events|
  {
    if events != [] {
      hide Step, Told;
      StepTold(s, events[0]);
      RunTold(Step(s, events[0]).value, events[1..]);
    }
  }

  lemma InitTold(queued: bool, waitMs: nat, start: int)
    ensures Told(Init(queued, waitMs, start))
  {
  }

  /**
   * No signal goes unanswered while the process lives. Before the release the first stops the run and the next
   * ones kill the child; during it the first gives up waiting for the hub, which is only then possible, and the
   * next ones are told that it is already shutting down. A release that was not given up reports how it ended.
   */
  lemma SignalsExactly(queued: bool, waitMs: nat, start: int, events: seq<Event>, how: DeleteResult)
    requires Run(Init(queued, waitMs, start), events).Some?
    requires Run(Init(queued, waitMs, start), events).value.outcome.None?
    ensures
      var s := Run(Init(queued, waitMs, start), events).value;
      var givenUp := NotWaiting in s.lines;
      var (signalled, ended) := (Step(s, Signal), Step(s, DeleteSettles(how)));
      && signalled.Some?
      && signalled.value.lines == s.lines + [if s.flow.AwaitingRelease? then
                                               if givenUp then AlreadyShuttingDown else NotWaiting
                                             else if Stopping in s.lines then KillingChild else Stopping]
      && (ended.Some? <==> s.started && (how.Aborted? ==> givenUp))
      && (ended.Some? ==>
            ended.value.lines
            == s.lines + if how.Aborted? || (how.Refused? && givenUp) then [] else [ReleaseEnded(how)])
  {
    InitTold(queued, waitMs, start);
    RunTold(Init(queued, waitMs, start), events);
    HistoryTells(queued, waitMs, start, events);
    hide Owes, Sleeps, Init;
  }

  /** A signal wakes a sleeping wait at once, and the hub is not asked again. */
  lemma SignalWakes(queued: bool, waitMs: nat, start: int, events: seq<Event>, now: int)
    requires Run(Init(queued, waitMs, start), events).Some? && Signal in events
    requires Run(Init(queued, waitMs, start), events).value.flow.Sleeping?
    requires Run(Init(queued, waitMs, start), events).value.outcome.None?
    ensures
      var r := Step(Run(Init(queued, waitMs, start), events).value, SleepEnds(now));
      r.Some? && r.value.flow.AwaitingRelease? && r.value.exitCode == 130
  {
    HistoryTells(queued, waitMs, start, events);
    hide NothingDecides, Init;
  }
}
