/**
 * The MCP server of `mfarm mcp` as a machine whose steps are the code between two awaits. Requests
 * are handled concurrently, so any job may take its next step at any time.
 */
module Mcp {
  import opened Wrappers

  type SessionId = nat

  /** What a request asks for, reduced to where it waits. */
  datatype Call =
    | Instant                       // initialize, ping, tools/list, and every method or tool that is refused
    | Api                           // list_devices and list_apps: one control-plane read
    | StartSession(argsOk: bool)    // argsOk: platform and ttlMinutes pass validation
    | EndSession
    | DeviceTool                    // screenshot, tap, ...: one or more hub commands

  /**
   * A line of input. `Null` is the JSON value null, whose `id` cannot be read: the promise of its handling
   * rejects, has left `pending` by then, and nobody ever listens to it.
   */
  datatype Line = Unparsable | Null | Message(isRequest: bool, call: Call)

  datatype Sig = SigInt | SigTerm

  datatype Job =
    | Finishing                     // its answer is decided; the response goes out next
    | AwaitApi
    | Rejecting                     // start_session with bad arguments, unwinding
    | AwaitNewSession
    | AwaitDescribe(id: SessionId)
    | AwaitCommand(id: SessionId)
    | AwaitDelete

  /** Who waits inside `releaseActive`: an end_session call, a signal handler, or `serve` at its end. */
  datatype Waiter = Tool(t: nat) | Handler(sig: Sig) | Serve

  datatype Phase = Reading | Draining | FinalDelete | Returned | Exited | Crashed

  /**
   * `active` and `starting` are the server's fields and `jobs` its `pending` set, by line number.
   * `releases` are the deletions in flight, `handled` the signals whose handler, installed once, has
   * run, and `doomed` says that a rejection nobody listens to is about to end the process. The rest is
   * history: every line read, every session the hub handed out, every id passed to deleteSession, those
   * whose deletion succeeded and those whose deletion failed, every line answered, and the session the
   * hub handed to a process already gone.
   */
  datatype State = State(
    active: Option<SessionId>, starting: bool, jobs: map<nat, Job>, phase: Phase, handled: set<Sig>,
    releases: map<Waiter, SessionId>, doomed: bool, lines: seq<Line>, granted: seq<SessionId>,
    deleted: seq<SessionId>, freed: set<SessionId>, refused: set<SessionId>, sent: seq<nat>, late: Option<SessionId>)

  const INIT := State(None, false, map[], Reading, {}, map[], false, [], [], [], {}, {}, [], None)

  datatype Event =
    | Read(line: Line)
    | Settle(t: nat, ok: bool)              // the read, rejection, description or deletion a job waits for
    | HubAnswers(t: nat, id: Option<SessionId>)
    | CommandSettles(t: nat, more: bool)
    | Finish(t: nat)
    | InputCloses
    | Drained
    | FinalDeleteSettles(ok: bool)
    | Signal(sig: Sig)
    | ShutdownSettles(sig: Sig, ok: bool)
    | Crash

  /** `releaseActive` up to its await: forget the session, then ask for its deletion. */
  function ReleaseActive(s: State, w: Waiter): State {
    if s.active.None? then s
    else
      var id := s.active.value;
      s.(active := None, deleted := s.deleted + [id], releases := s.releases[w := id])
  }

  /** `releaseActive` after its await, whichever way the deletion ended. */
  function Released(s: State, w: Waiter, ok: bool): State {
    if w !in s.releases then s
    else
      var id := s.releases[w];
      s.(releases := s.releases - {w},
         freed := if ok then s.freed + {id} else s.freed,
         refused := if ok then s.refused else s.refused + {id})
  }

  /** A message is dispatched up to its first await. */
  function Dispatch(s: State, t: nat, call: Call): State {
    match call
    case Instant => s.(jobs := s.jobs[t := Finishing])
    case Api => s.(jobs := s.jobs[t := AwaitApi])
    case StartSession(argsOk) =>
      if s.active.Some? || s.starting then s.(jobs := s.jobs[t := Finishing])
      else s.(starting := true, jobs := s.jobs[t := if argsOk then AwaitNewSession else Rejecting])
    case EndSession =>
      if s.active.None? then s.(jobs := s.jobs[t := Finishing])
      else ReleaseActive(s, Tool(t)).(jobs := s.jobs[t := AwaitDelete])
    case DeviceTool =>
      s.(jobs := s.jobs[t := if s.active.Some? then AwaitCommand(s.active.value) else Finishing])
  }

  predicate Ended(s: State) {
    s.phase.Exited? || s.phase.Crashed?
  }

  /** The hub finishes an allocation that outlived the process which asked for it. */
  function GrantLate(s: State, t: nat, id: SessionId): Option<State> {
    if t !in s.jobs || !s.jobs[t].AwaitNewSession? || s.late.Some? || id in s.granted then None
    else Some(s.(late := Some(id), granted := s.granted + [id]))
  }

  /**
   * What can still happen before the rejection is reported: lines already read in and promises already
   * settled, and nothing that has to arrive from outside.
   */
  predicate SameTurn(s: State, e: Event) {
    e.Read? || e.Finish? || e.InputCloses? || e.Drained? || (e.Settle? && e.t in s.jobs && s.jobs[e.t].Rejecting?)
  }

  /** `serve` has returned and nothing keeps the process alive. */
  predicate AtRest(s: State) {
    s.phase.Returned? && s.releases == map[]
  }

  /**
   * None: the event cannot happen here. A session id the hub hands out is new. A signal whose handler
   * has run already ends the process at once.
   */
  function Step(s: State, e: Event): Option<State> {
    if Ended(s) then
      if e.HubAnswers? && e.id.Some? then GrantLate(s, e.t, e.id.value) else None
    else if e.Crash? then
      if s.doomed then Some(s.(phase := Crashed)) else None
    else if AtRest(s) || (s.doomed && !SameTurn(s, e)) then None
    else match e
      case Read(line) =>
        if !s.phase.Reading? then None
        else
          var s' := s.(lines := s.lines + [line]);
          (match line
           case Unparsable => Some(s')
           case Null => Some(s'.(doomed := true))
           case Message(_, call) => Some(Dispatch(s', |s.lines|, call)))
      case Settle(t, ok) =>
        if t !in s.jobs then None
        else (match s.jobs[t]
          case AwaitApi => Some(s.(jobs := s.jobs[t := Finishing]))
          case AwaitDelete => Some(Released(s, Tool(t), ok).(jobs := s.jobs[t := Finishing]))
          case Rejecting => Some(s.(starting := false, jobs := s.jobs[t := Finishing]))
          case AwaitDescribe(_) => Some(s.(starting := false, jobs := s.jobs[t := Finishing]))
          case _ => None)
      case HubAnswers(t, id) =>
        if t !in s.jobs || !s.jobs[t].AwaitNewSession? then None
        else if id.None? then Some(s.(starting := false, jobs := s.jobs[t := Finishing]))
        else if id.value in s.granted then None
        else Some(s.(active := id, granted := s.granted + [id.value], jobs := s.jobs[t := AwaitDescribe(id.value)]))
      case CommandSettles(t, more) =>
        if t !in s.jobs || !s.jobs[t].AwaitCommand? then None
        else Some(if more then s else s.(jobs := s.jobs[t := Finishing]))
      case Finish(t) =>
        if t !in s.jobs || !s.jobs[t].Finishing? then None
        else
          var answered := t < |s.lines| && s.lines[t].Message? && s.lines[t].isRequest;
          Some(s.(jobs := s.jobs - {t}, sent := if answered then s.sent + [t] else s.sent))
      case InputCloses => if s.phase.Reading? then Some(s.(phase := Draining)) else None
      case Drained =>
        if !s.phase.Draining? || s.jobs != map[] then None
        else Some(ReleaseActive(s, Serve).(phase := if s.active.Some? then FinalDelete else Returned))
      case FinalDeleteSettles(ok) =>
        if s.phase.FinalDelete? then Some(Released(s, Serve, ok).(phase := Returned)) else None
      case Signal(sig) =>
        Some(if sig in s.handled || s.active.None? then s.(phase := Exited, handled := s.handled + {sig})
             else ReleaseActive(s, Handler(sig)).(handled := s.handled + {sig}))
      case ShutdownSettles(sig, ok) =>
        if Handler(sig) !in s.releases then None else Some(Released(s, Handler(sig), ok).(phase := Exited))
  }

  function Run(s: State, events: seq<Event>): Option<State>
    decreases |events|
  {
    if events == [] then Some(s)
    else
      var s' := Step(s, events[0]);
      if s'.None? then None else Run(s'.value, events[1..])
  }

  // ---------------------------------------------------------------- invariant

  predicate IsStarting(j: Job) {
    j.Rejecting? || j.AwaitNewSession? || j.AwaitDescribe?
  }

  /** One allocation at a time, and none while a session is active. */
  ghost predicate OneDevice(s: State) {
    && (forall t <- s.jobs :: IsStarting(s.jobs[t]) ==> s.starting)
    && (forall t, u :: t in s.jobs && u in s.jobs && IsStarting(s.jobs[t]) && IsStarting(s.jobs[u]) ==> t == u)
    && (forall t <- s.jobs :: s.jobs[t].AwaitNewSession? ==> s.active.None?)
  }

  /** Each session handed out is active, was passed to deleteSession once, or came too late. */
  ghost predicate Accounted(s: State) {
    && Distinct(s.granted) && Distinct(s.deleted)
    && (forall id :: id in s.granted <==> id in s.deleted || s.active == Some(id) || s.late == Some(id))
    && (s.active.Some? ==> s.active.value !in s.deleted)
    && (s.late.Some? ==> s.late.value !in s.deleted && s.active.None?)
    && (forall t <- s.jobs :: KnownIds(s.jobs[t], s))
  }

  /** Commands and descriptions are about sessions the hub handed out. */
  predicate KnownIds(j: Job, s: State) {
    j.AwaitDescribe? || j.AwaitCommand? ==> j.id in s.granted
  }

  predicate IsRequest(s: State, t: nat) {
    t < |s.lines| && s.lines[t].Message? && s.lines[t].isRequest
  }

  /** A request is answered once it is no longer pending, and nothing else is. */
  ghost predicate Answered(s: State) {
    && Distinct(s.sent)
    && (forall t <- s.jobs :: t < |s.lines|)
    && (forall t: nat :: t in s.sent <==> IsRequest(s, t) && t !in s.jobs)
  }

  /** Each session passed to deleteSession is freed, refused, or waited for by exactly one caller. */
  ghost predicate Settled(s: State) {
    && (forall w, v :: w in s.releases && v in s.releases && s.releases[w] == s.releases[v] ==> w == v)
    && (forall id :: id in s.deleted <==> id in s.freed || id in s.refused || id in s.releases.Values)
    && (forall id <- s.releases.Values :: id !in s.freed && id !in s.refused)
    && s.freed !! s.refused
  }

  /** Who waits for a deletion is really there. */
  ghost predicate Waiters(s: State) {
    && (forall t: nat :: Tool(t) in s.releases <==> t in s.jobs && s.jobs[t].AwaitDelete?)
    && (forall sig :: Handler(sig) in s.releases ==> sig in s.handled)
    && (Serve in s.releases ==> s.phase.FinalDelete? || Ended(s))
    && (s.phase.FinalDelete? ==> Serve in s.releases)
  }

  /** Only a null line dooms the process, and it dies of nothing else then. */
  predicate Doomed(s: State) {
    && (s.doomed <==> Null in s.lines)
    && (s.phase.Crashed? ==> s.doomed)
    && (s.phase.Exited? ==> !s.doomed)
  }

  ghost predicate Core(s: State) {
    && OneDevice(s) && Accounted(s) && Answered(s)
    && (s.phase.FinalDelete? || s.phase.Returned? ==> s.active.None? && s.jobs == map[])
    && (s.late.Some? ==> Ended(s) && exists t <- s.jobs :: s.jobs[t].AwaitNewSession?)
  }

  /** The flag is up only while a start_session is under way. */
  ghost predicate StartsInTurn(s: State) {
    s.starting ==> exists t <- s.jobs :: IsStarting(s.jobs[t])
  }

  ghost predicate Inv(s: State) {
    Core(s) && StartsInTurn(s) && Settled(s) && Waiters(s) && Doomed(s)
  }

  lemma ReleaseKeeps(s: State, w: Waiter)
    requires OneDevice(s) && Accounted(s)
    ensures
      var r := ReleaseActive(s, w);
      && OneDevice(r) && Accounted(r) && r.active.None?
      && r == s.(active := None, deleted := r.deleted, releases := r.releases)
  {
  }

  /** A job that is not an allocation may be put in any place. */
  lemma JobKeeps(s: State, t: nat, j: Job)
    requires OneDevice(s) && Accounted(s) && !IsStarting(j) && KnownIds(j, s)
    ensures OneDevice(s.(jobs := s.jobs[t := j])) && Accounted(s.(jobs := s.jobs[t := j]))
  {
  }

  /** The one allocation ends. */
  lemma AllocationEnds(s: State, t: nat)
    requires OneDevice(s) && Accounted(s) && t in s.jobs && IsStarting(s.jobs[t])
    ensures
      var s' := s.(starting := false, jobs := s.jobs[t := Finishing]);
      OneDevice(s') && Accounted(s')
  {
  }

  /** Reading a line leaves exactly that request unanswered and pending. */
  lemma ReadAnswers(s: State, line: Line, s': State)
    requires Answered(s) && s'.sent == s.sent && s'.lines == s.lines + [line]
    requires if line.Message? then s'.jobs.Keys == s.jobs.Keys + {|s.lines|} else s'.jobs == s.jobs
    ensures Answered(s')
  {
    assert forall u: nat :: u in s.sent <==> IsRequest(s, u) && u !in s.jobs;
  }

  lemma AllocationBegins(s: State, t: nat, j: Job)
    requires OneDevice(s) && Accounted(s) && s.active.None? && !s.starting
    requires j.AwaitNewSession? || j.Rejecting?
    ensures
      var s' := s.(starting := true, jobs := s.jobs[t := j]);
      OneDevice(s') && Accounted(s')
  {
  }

  lemma DispatchKeeps(s: State, t: nat, call: Call)
    requires OneDevice(s) && Accounted(s)
    ensures
      var s' := Dispatch(s, t, call);
      && OneDevice(s') && Accounted(s') && s'.jobs.Keys == s.jobs.Keys + {t}
      && s'.sent == s.sent && s'.lines == s.lines && s'.phase == s.phase && s'.late == s.late
  {
    hide OneDevice, Accounted;
    match call
    case EndSession =>
      if s.active.Some? {
        ReleaseKeeps(s, Tool(t));
        JobKeeps(ReleaseActive(s, Tool(t)), t, AwaitDelete);
      }
      JobKeeps(s, t, Finishing);
    case StartSession(argsOk) =>
      if s.active.None? && !s.starting {
        AllocationBegins(s, t, if argsOk then AwaitNewSession else Rejecting);
      }
      JobKeeps(s, t, Finishing);
    case DeviceTool =>
      if s.active.Some? {
        ActiveIsKnown(s);
        JobKeeps(s, t, AwaitCommand(s.active.value));
      }
      JobKeeps(s, t, Finishing);
    case _ =>
      JobKeeps(s, t, Finishing);
      JobKeeps(s, t, AwaitApi);
  }

  lemma ActiveIsKnown(s: State)
    requires Accounted(s) && s.active.Some?
    ensures s.active.value in s.granted
  {
  }

  lemma ReadKeeps(s: State, line: Line)
    requires Core(s) && Step(s, Read(line)).Some?
    ensures Core(Step(s, Read(line)).value)
  {
    hide Accounted, OneDevice, Dispatch, Answered;
    assert |s.lines| !in s.jobs by {
      LinesBound(s);
    }
    var s1 := s.(lines := s.lines + [line]);
    SameDevices(s, s1);
    SameDevices(s, s1.(doomed := true));
    if line.Message? {
      DispatchKeeps(s1, |s.lines|, line.call);
    }
    ReadAnswers(s, line, Step(s, Read(line)).value);
  }

  lemma LinesBound(s: State)
    requires Answered(s)
    ensures |s.lines| !in s.jobs
  {
  }

  lemma SameDevices(s: State, s': State)
    requires OneDevice(s) && Accounted(s)
    requires s'.jobs == s.jobs
    ensures
      (s'.active == s.active && s'.starting == s.starting && s'.granted == s.granted && s'.deleted == s.deleted
       && s'.late == s.late) ==> OneDevice(s') && Accounted(s')
  {
  }

  lemma FinishKeeps(s: State, t: nat)
    requires Core(s) && Step(s, Finish(t)).Some?
    ensures Core(Step(s, Finish(t)).value)
  {
  }

  lemma HubKeeps(s: State, t: nat, id: Option<SessionId>)
    requires Core(s) && Step(s, HubAnswers(t, id)).Some?
    ensures s.active.None?
    ensures Core(Step(s, HubAnswers(t, id)).value)
  {
    var s' := Step(s, HubAnswers(t, id)).value;
    forall u, v | u in s'.jobs && v in s'.jobs && IsStarting(s'.jobs[u]) && IsStarting(s'.jobs[v])
      ensures u == v
    {
      assert IsStarting(s.jobs[t]) && IsStarting(s.jobs[u]) && IsStarting(s.jobs[v]);
    }
  }

  /** A job moves on: who is pending, and who was answered, stays the same. */
  lemma SameAnswers(s: State, s': State)
    requires Answered(s) && s'.sent == s.sent && s'.lines == s.lines && s'.jobs.Keys == s.jobs.Keys
    ensures Answered(s')
  {
    assert forall t :: t in s'.jobs.Keys <==> t in s.jobs.Keys;
    forall t: nat
      ensures t in s'.sent <==> IsRequest(s', t) && t !in s'.jobs
    {
      assert t in s.sent <==> IsRequest(s, t) && t !in s.jobs;
    }
  }

  lemma SettleKeeps(s: State, t: nat)
    requires Core(s) && !Ended(s) && t in s.jobs
    ensures Core(s.(jobs := s.jobs[t := Finishing])) || IsStarting(s.jobs[t])
    ensures IsStarting(s.jobs[t]) ==> Core(s.(starting := false, jobs := s.jobs[t := Finishing]))
  {
    if IsStarting(s.jobs[t]) {
      AllocationEnds(s, t);
    }
    JobKeeps(s, t, Finishing);
    SameAnswers(s, s.(jobs := s.jobs[t := Finishing]));
    SameAnswers(s, s.(starting := false, jobs := s.jobs[t := Finishing]));
    hide OneDevice, Accounted, Answered;
  }

  lemma ReleasedIs(s: State, w: Waiter, ok: bool)
    ensures
      var r := Released(s, w, ok);
      r == s.(releases := r.releases, freed := r.freed, refused := r.refused)
  {
  }

  lemma CoreKeeps(s: State, e: Event)
    requires Core(s) && Step(s, e).Some?
    ensures Core(Step(s, e).value)
  {
    hide OneDevice, Accounted, Answered, ReleaseActive, Released;
    var s' := Step(s, e).value;
    match e
    case Read(line) => ReadKeeps(s, line);
    case Finish(t) => FinishKeeps(s, t);
    case HubAnswers(t, id) => HubKeeps(s, t, id);
    case Settle(t, ok) =>
      SettleKeeps(s, t);
      ReleasedIs(s, Tool(t), ok);
      if s.jobs[t].AwaitDelete? {
        SameDevices(s.(jobs := s.jobs[t := Finishing]), s');
        SameAnswers(s, s');
      }
    case CommandSettles(t, _) => SettleKeeps(s, t);
    case FinalDeleteSettles(ok) =>
      ReleasedIs(s, Serve, ok);
      SameDevices(s, s');
      SameAnswers(s, s');
    case ShutdownSettles(sig, ok) =>
      ReleasedIs(s, Handler(sig), ok);
      SameDevices(s, s');
      SameAnswers(s, s');
    case Signal(sig) =>
      ReleaseKeeps(s, Handler(sig));
      SameDevices(s, s');
      SameDevices(ReleaseActive(s, Handler(sig)), s');
      SameAnswers(s, s');
    case _ =>
      ReleaseKeeps(s, Serve);
      SameDevices(s, s');
      SameDevices(ReleaseActive(s, Serve), s');
      SameAnswers(s, s');
  }

  // --------------------------------------------------------------- deletions

  lemma ReleaseSettles(s: State, w: Waiter)
    requires Accounted(s) && Settled(s) && w !in s.releases
    ensures Settled(ReleaseActive(s, w))
  {
    if s.active.Some? {
      var r := ReleaseActive(s, w);
      assert s.active.value !in s.deleted;
      assert forall v <- s.releases :: s.releases[v] in s.releases.Values;
      assert r.releases.Values == s.releases.Values + {s.active.value} by {
        assert r.releases[w] == s.active.value;
        assert forall v <- s.releases :: r.releases[v] == s.releases[v];
      }
    }
  }

  lemma ReleasedSettles(s: State, w: Waiter, ok: bool)
    requires Settled(s)
    ensures Settled(Released(s, w, ok))
  {
    if w in s.releases {
      var r := Released(s, w, ok);
      assert s.releases[w] in s.releases.Values;
      assert r.releases.Values == s.releases.Values - {s.releases[w]} by {
        assert forall v <- r.releases :: r.releases[v] == s.releases[v] && v in s.releases;
        forall id | id in s.releases.Values && id != s.releases[w]
          ensures id in r.releases.Values
        {
          var v :| v in s.releases && s.releases[v] == id;
          assert r.releases[v] == id;
        }
      }
    }
  }

  lemma SameSettled(s: State, s': State)
    requires Settled(s)
    requires s'.releases == s.releases && s'.deleted == s.deleted && s'.freed == s.freed && s'.refused == s.refused
    ensures Settled(s')
  {
  }

  /** Nobody waits yet under the name of a caller that is about to. */
  lemma NewWaiter(s: State, e: Event)
    requires Core(s) && Waiters(s) && Step(s, e).Some? && !Ended(s)
    ensures e.Read? ==> |s.lines| !in s.jobs && Tool(|s.lines|) !in s.releases
    ensures e.Signal? && e.sig !in s.handled ==> Handler(e.sig) !in s.releases
    ensures e.Drained? ==> Serve !in s.releases
  {
    LinesBound(s);
  }

  lemma SettledKeeps(s: State, e: Event)
    requires Inv(s) && Step(s, e).Some?
    ensures Settled(Step(s, e).value)
  {
    hide OneDevice, Accounted, Answered, Settled, ReleaseActive, Released;
    var s' := Step(s, e).value;
    if !Ended(s) {
      NewWaiter(s, e);
    }
    hide Waiters, Doomed;
    match e
    case Read(line) =>
      SettledRead(s, line);
    case Drained =>
      ReleaseSettles(s, Serve);
      SameSettled(ReleaseActive(s, Serve), s');
    case Signal(sig) =>
      if sig !in s.handled {
        ReleaseSettles(s, Handler(sig));
        SameSettled(ReleaseActive(s, Handler(sig)), ReleaseActive(s, Handler(sig)).(handled := s.handled + {sig}));
      }
      SameSettled(s, s.(phase := Exited, handled := s.handled + {sig}));
    case Settle(t, ok) =>
      ReleasedSettles(s, Tool(t), ok);
      SameSettled(Released(s, Tool(t), ok), Released(s, Tool(t), ok).(jobs := s.jobs[t := Finishing]));
      if !s.jobs[t].AwaitDelete? {
        SameSettled(s, s');
      }
    case FinalDeleteSettles(ok) =>
      ReleasedSettles(s, Serve, ok);
      SameSettled(Released(s, Serve, ok), s');
    case ShutdownSettles(sig, ok) =>
      ReleasedSettles(s, Handler(sig), ok);
      SameSettled(Released(s, Handler(sig), ok), s');
    case _ =>
      SameSettled(s, s');
  }

  lemma DispatchSettles(s: State, t: nat, call: Call)
    requires Accounted(s) && Settled(s) && Tool(t) !in s.releases
    ensures Settled(Dispatch(s, t, call))
  {
    ReleaseSettles(s, Tool(t));
    hide Accounted, Settled;
    var s' := Dispatch(s, t, call);
    if call.EndSession? && s.active.Some? {
      SameSettled(ReleaseActive(s, Tool(t)), s');
    } else {
      SameSettled(s, s');
    }
  }

  lemma SettledRead(s: State, line: Line)
    requires OneDevice(s) && Accounted(s) && Settled(s) && Step(s, Read(line)).Some? && Tool(|s.lines|) !in s.releases
    ensures Settled(Step(s, Read(line)).value)
  {
    var s1 := s.(lines := s.lines + [line]);
    SameSettled(s, s1);
    SameDevices(s, s1);
    hide Accounted, Settled, Dispatch;
    if line.Message? {
      DispatchSettles(s1, |s.lines|, line.call);
    } else {
      SameSettled(s, Step(s, Read(line)).value);
    }
  }

  /** A step without a release changes nothing for those who wait. */
  lemma SameWaiters(s: State, s': State)
    requires Waiters(s) && s'.releases == s.releases && s.handled <= s'.handled
    requires s'.phase.FinalDelete? <==> s.phase.FinalDelete? && !Ended(s')
    requires Ended(s) ==> Ended(s')
    requires forall t: nat :: t in s'.jobs && s'.jobs[t].AwaitDelete? <==> t in s.jobs && s.jobs[t].AwaitDelete?
    ensures Waiters(s')
  {
  }

  lemma DispatchWaits(s: State, t: nat, call: Call)
    requires Waiters(s) && t !in s.jobs
    ensures Waiters(Dispatch(s, t, call))
  {
    if !call.EndSession? {
      SameWaiters(s, Dispatch(s, t, call)) by {
        hide Waiters;
      }
    }
  }

  lemma WaitersRead(s: State, line: Line)
    requires Waiters(s) && |s.lines| !in s.jobs && Step(s, Read(line)).Some?
    ensures Waiters(Step(s, Read(line)).value)
  {
    var s1 := s.(lines := s.lines + [line]);
    SameWaiters(s, s1);
    hide Waiters, Dispatch;
    if line.Message? {
      DispatchWaits(s1, |s.lines|, line.call);
    } else {
      SameWaiters(s, Step(s, Read(line)).value);
    }
  }

  lemma WaitersSettle(s: State, t: nat, ok: bool)
    requires Waiters(s) && Step(s, Settle(t, ok)).Some?
    ensures Waiters(Step(s, Settle(t, ok)).value)
  {
    if !s.jobs[t].AwaitDelete? {
      SameWaiters(s, Step(s, Settle(t, ok)).value);
    }
  }

  lemma WaitersRelease(s: State, e: Event)
    requires Waiters(s) && Step(s, e).Some? && (e.Drained? || e.Signal? || e.FinalDeleteSettles? || e.ShutdownSettles?)
    ensures Waiters(Step(s, e).value)
  {
    hide Dispatch;
  }

  lemma WaitersKeep(s: State, e: Event)
    requires Inv(s) && Step(s, e).Some?
    ensures Waiters(Step(s, e).value)
  {
    LinesBound(s);
    hide Core, Settled, Doomed, Dispatch, ReleaseActive, Released;
    match e
    case Read(line) => WaitersRead(s, line);
    case Settle(t, ok) => WaitersSettle(s, t, ok);
    case HubAnswers(_, _) => SameWaiters(s, Step(s, e).value);
    case CommandSettles(_, _) => SameWaiters(s, Step(s, e).value);
    case Finish(_) => SameWaiters(s, Step(s, e).value);
    case InputCloses => SameWaiters(s, Step(s, e).value);
    case Crash => SameWaiters(s, Step(s, e).value);
    case _ => WaitersRelease(s, e);
  }

  lemma DispatchIs(s: State, t: nat, call: Call)
    ensures
      var s' := Dispatch(s, t, call);
      s'.lines == s.lines && s'.phase == s.phase && s'.doomed == s.doomed
  {
  }

  lemma DoomedRead(s: State, line: Line)
    requires Doomed(s) && !Ended(s)
    ensures Step(s, Read(line)).Some? ==> Doomed(Step(s, Read(line)).value)
    ensures Step(s, Read(line)).Some? && s.doomed ==> Step(s, Read(line)).value.doomed
  {
    var lines := s.lines + [line];
    assert Null in lines <==> Null in s.lines || line == Null;
    if line.Message? {
      DispatchIs(s.(lines := lines), |s.lines|, line.call);
    }
    hide Dispatch;
  }

  lemma DoomedKeeps(s: State, e: Event)
    requires Doomed(s) && Step(s, e).Some?
    ensures Doomed(Step(s, e).value)
    ensures s.doomed ==> Step(s, e).value.doomed
  {
    hide Dispatch;
    if e.Read? {
      DoomedRead(s, e.line);
    }
  }

  /** A job other than the one that is starting comes, goes or moves on. */
  lemma StartStays(s: State, s': State, t: nat)
    requires StartsInTurn(s) && s'.starting == s.starting
    requires t in s.jobs ==> !IsStarting(s.jobs[t])
    requires forall u :: u != t && u in s.jobs ==> u in s'.jobs && s'.jobs[u] == s.jobs[u]
    ensures StartsInTurn(s')
  {
    if s.starting {
      var u :| u in s.jobs && IsStarting(s.jobs[u]);
      assert u in s'.jobs && IsStarting(s'.jobs[u]);
    }
  }

  lemma DispatchStarts(s: State, t: nat, call: Call)
    requires StartsInTurn(s) && t !in s.jobs
    ensures StartsInTurn(Dispatch(s, t, call))
  {
    var s' := Dispatch(s, t, call);
    if s'.starting == s.starting {
      StartStays(s, s', t) by {
        hide StartsInTurn;
      }
    } else {
      assert IsStarting(s'.jobs[t]);
    }
  }

  lemma StartsKeep(s: State, e: Event)
    requires Inv(s) && Step(s, e).Some?
    ensures StartsInTurn(Step(s, e).value)
  {
    LinesBound(s);
    hide Core, Settled, Waiters, Doomed, Dispatch, ReleaseActive, Released, StartsInTurn;
    var s' := Step(s, e).value;
    match e
    case Read(line) =>
      var s1 := s.(lines := s.lines + [line]);
      StartStays(s, s1, |s.lines|);
      if line.Message? {
        DispatchStarts(s1, |s.lines|, line.call);
      } else {
        StartStays(s, s', |s.lines|);
      }
    case Settle(t, ok) => StartSettles(s, t, ok);
    case HubAnswers(t, id) => StartAnswered(s, t, id);
    case CommandSettles(t, _) => StartStays(s, s', t);
    case Finish(t) => StartStays(s, s', t);
    case _ =>
      ReleaseIs(s, e);
      StartStays(s, s', |s.lines|);
  }

  /** What a release leaves alone. */
  lemma ReleaseIs(s: State, e: Event)
    requires Step(s, e).Some? && !e.Read? && !e.Settle? && !e.HubAnswers? && !e.CommandSettles? && !e.Finish?
    ensures Step(s, e).value.jobs == s.jobs && Step(s, e).value.starting == s.starting
  {
    hide Dispatch;
  }

  lemma StartSettles(s: State, t: nat, ok: bool)
    requires StartsInTurn(s) && Step(s, Settle(t, ok)).Some?
    ensures StartsInTurn(Step(s, Settle(t, ok)).value)
  {
    hide Dispatch, StartsInTurn;
    var s' := Step(s, Settle(t, ok)).value;
    ReleasedIs(s, Tool(t), ok);
    if !IsStarting(s.jobs[t]) {
      StartStays(s, s', t);
    } else {
      NothingStarts(s');
    }
  }

  lemma StartAnswered(s: State, t: nat, id: Option<SessionId>)
    requires StartsInTurn(s) && Step(s, HubAnswers(t, id)).Some?
    ensures StartsInTurn(Step(s, HubAnswers(t, id)).value)
  {
    hide Dispatch;
    var s' := Step(s, HubAnswers(t, id)).value;
    assert s'.starting ==> IsStarting(s'.jobs[t]);
  }

  lemma NothingStarts(s: State)
    requires !s.starting
    ensures StartsInTurn(s)
  {
  }

  lemma StepKeeps(s: State, e: Event)
    requires Inv(s) && Step(s, e).Some?
    ensures Inv(Step(s, e).value)
  {
    hide Step, Core, Settled, Waiters, Doomed, StartsInTurn;
    CoreKeeps(s, e);
    StartsKeep(s, e);
    SettledKeeps(s, e);
    WaitersKeep(s, e);
    DoomedKeeps(s, e);
  }

  lemma {:induction false} RunKeeps(s: State, events: seq<Event>)
    requires Inv(s) && Run(s, events).Some?
    ensures Inv(Run(s, events).value)
    decreases |events|
  {
    if events != [] {
      StepKeeps(s, events[0]);
      RunKeeps(Step(s, events[0]).value, events[1..]);
    }
  }

  // ------------------------------------------------------------- main results

  /**
   * In every interleaving: at most one session is being allocated, none while another is active, and
   * the session the hub hands out never overwrites one.
   */
  lemma OneDeviceAtATime(events: seq<Event>)
    requires Run(INIT, events).Some?
    ensures
      var s := Run(INIT, events).value;
      && (forall t, u :: t in s.jobs && u in s.jobs && s.jobs[t].AwaitNewSession? && s.jobs[u].AwaitNewSession?
                         ==> t == u)
      && (forall t, id :: Step(s, HubAnswers(t, id)).Some? ==> s.active.None?)
      && (forall t <- s.jobs :: s.jobs[t].AwaitCommand? ==> s.jobs[t].id in s.granted)
  {
    RunKeeps(INIT, events);
    var s := Run(INIT, events).value;
    forall t, id | Step(s, HubAnswers(t, id)).Some?
      ensures s.active.None?
    {
      HubKeeps(s, t, id);
    }
  }

  /** Whether some start_session is being refused for its arguments, waits for the hub, or is described. */
  ghost predicate Starts(jobs: map<nat, Job>) {
    exists t <- jobs :: jobs[t].Rejecting? || jobs[t].AwaitNewSession? || jobs[t].AwaitDescribe?
  }

  /** What a message's job waits for, from the session that is open and the jobs under way. */
  ghost predicate WaitsFor(j: Job, call: Call, active: Option<SessionId>, jobs: map<nat, Job>) {
    match call
    case StartSession(argsOk) =>
      j == if active.Some? || Starts(jobs) then Finishing else if argsOk then AwaitNewSession else Rejecting
    case EndSession => j == if active.Some? then AwaitDelete else Finishing
    case DeviceTool => j == if active.Some? then AwaitCommand(active.value) else Finishing
    case Api => j == AwaitApi
    case Instant => j == Finishing
  }

  /**
   * After every run, what a message read next makes its job wait for. A start_session goes to the hub exactly
   * when no session is open and no other start_session is under way: an earlier one that was refused, failed
   * or ended does not stand in its way. The other calls wait on the session that is open, if there is one;
   * only an end_session closes it.
   */
  lemma CallsWaitExactly(events: seq<Event>, isRequest: bool, call: Call)
    requires Run(INIT, events).Some? && Run(INIT, events).value.phase.Reading?
    ensures
      var s := Run(INIT, events).value;
      var r := Step(s, Read(Message(isRequest, call)));
      && r.Some? && |s.lines| !in s.jobs && |s.lines| in r.value.jobs
      && r.value.jobs == s.jobs[|s.lines| := r.value.jobs[|s.lines|]]
      && WaitsFor(r.value.jobs[|s.lines|], call, s.active, s.jobs)
      && r.value.active == (if call.EndSession? then None else s.active)
  {
    RunKeeps(INIT, events);
    var s := Run(INIT, events).value;
    LinesBound(s);
    FlagIsJob(s);
    hide Inv, Run, WaitsFor, Step, Dispatch, Starts;
    ReadIs(s, isRequest, call);
    DispatchWaitsFor(s.(lines := s.lines + [Message(isRequest, call)]), |s.lines|, call);
  }

  lemma ReadIs(s: State, isRequest: bool, call: Call)
    requires s.phase.Reading?
    ensures
      var line := Message(isRequest, call);
      Step(s, Read(line)) == Some(Dispatch(s.(lines := s.lines + [line]), |s.lines|, call))
  {
    hide Dispatch;
  }

  lemma DispatchWaitsFor(s: State, t: nat, call: Call)
    requires s.starting <==> Starts(s.jobs)
    ensures
      var s' := Dispatch(s, t, call);
      && t in s'.jobs && s'.jobs == s.jobs[t := s'.jobs[t]] && WaitsFor(s'.jobs[t], call, s.active, s.jobs)
      && s'.active == (if call.EndSession? then None else s.active)
  {
    hide Starts;
  }

  lemma FlagIsJob(s: State)
    requires OneDevice(s) && StartsInTurn(s)
    ensures s.starting <==> Starts(s.jobs)
  {
    if t :| t in s.jobs && IsStarting(s.jobs[t]) {
      assert Starts(s.jobs);
    }
    if t :| t in s.jobs && (s.jobs[t].Rejecting? || s.jobs[t].AwaitNewSession? || s.jobs[t].AwaitDescribe?) {
      assert IsStarting(s.jobs[t]);
    }
  }

  /** What an event makes of a pending job: None, if it leaves. */
  function Moved(j: Job, t: nat, e: Event): Option<Job> {
    if e == Finish(t) then None
    else if e == CommandSettles(t, false) then Some(Finishing)
    else if e.Settle? && e.t == t then Some(Finishing)
    else if e.HubAnswers? && e.t == t then Some(if e.id.Some? then AwaitDescribe(e.id.value) else Finishing)
    else Some(j)
  }

  /** The event is one this job waits for, or none that is meant for it. */
  predicate Fitting(j: Job, t: nat, e: Event) {
    && (e == Finish(t) ==> j.Finishing?)
    && (e.CommandSettles? && e.t == t ==> j.AwaitCommand?)
    && (e.HubAnswers? && e.t == t ==> j.AwaitNewSession?)
    && (e.Settle? && e.t == t ==> j.AwaitApi? || j.AwaitDelete? || j.Rejecting? || j.AwaitDescribe?)
  }

  function JobIn(s: State, t: nat): Option<Job> {
    if t in s.jobs then Some(s.jobs[t]) else None
  }

  /**
   * Over every run: a pending job moves only by what it waits for itself, an allocation is described next, a
   * tool goes on until its last command has settled, and only a job whose answer is decided leaves.
   */
  lemma JobsMoveExactly(events: seq<Event>, e: Event, t: nat)
    requires Run(INIT, events).Some? && Step(Run(INIT, events).value, e).Some?
    requires t in Run(INIT, events).value.jobs && !Ended(Run(INIT, events).value)
    ensures
      var s := Run(INIT, events).value;
      JobIn(Step(s, e).value, t) == Moved(s.jobs[t], t, e) && Fitting(s.jobs[t], t, e)
  {
    RunKeeps(INIT, events);
    var s := Run(INIT, events).value;
    LinesBound(s);
    hide Inv, Step, Run, Fitting, Moved;
    if e.Read? {
      ReadMoves(s, e.line, t);
    } else if e.Settle? || e.HubAnswers? || e.CommandSettles? || e.Finish? {
      AnswerMoves(s, e, t);
    } else {
      ReleaseIs(s, e);
      NotMoved(s.jobs[t], t, e);
    }
  }

  lemma NotMoved(j: Job, t: nat, e: Event)
    requires !e.Settle? && !e.HubAnswers? && !e.CommandSettles? && !e.Finish?
    ensures Moved(j, t, e) == Some(j) && Fitting(j, t, e)
  {
  }

  lemma AnswerMoves(s: State, e: Event, t: nat)
    requires t in s.jobs && !Ended(s) && Step(s, e).Some?
    requires e.Settle? || e.HubAnswers? || e.CommandSettles? || e.Finish?
    ensures JobIn(Step(s, e).value, t) == Moved(s.jobs[t], t, e) && Fitting(s.jobs[t], t, e)
  {
    hide Dispatch, ReleaseActive, Released;
    if e.Settle? {
      ReleasedIs(s, Tool(e.t), e.ok);
    }
  }

  lemma ReadMoves(s: State, line: Line, t: nat)
    requires t in s.jobs && !Ended(s) && Step(s, Read(line)).Some? && |s.lines| !in s.jobs
    ensures JobIn(Step(s, Read(line)).value, t) == Some(s.jobs[t])
    ensures Moved(s.jobs[t], t, Read(line)) == Some(s.jobs[t]) && Fitting(s.jobs[t], t, Read(line))
  {
    if line.Message? {
      KeepsOthers(s.(lines := s.lines + [line]), |s.lines|, line.call);
    }
    hide Dispatch, ReleaseActive, Released;
  }

  lemma KeepsOthers(s: State, t: nat, call: Call)
    ensures forall u :: u != t && u in s.jobs ==>
              u in Dispatch(s, t, call).jobs && Dispatch(s, t, call).jobs[u] == s.jobs[u]
  {
  }

  // ----------------------------------------------------------------- progress

  /** The answers that finish a job, whatever it waits for; here the hub refuses an allocation. */
  function Answers(j: Job, t: nat): seq<Event> {
    match j
    case Finishing => [Finish(t)]
    case AwaitNewSession => [HubAnswers(t, None), Finish(t)]
    case AwaitCommand(_) => [CommandSettles(t, false), Finish(t)]
    case _ => [Settle(t, true), Finish(t)]
  }

  /** A server that neither ended nor has read a null line. */
  predicate Alive(s: State) {
    !Ended(s) && !s.doomed
  }

  lemma OneEvent(s: State, e: Event)
    ensures Run(s, [e]) == Step(s, e)
  {
    hide Step;
    assert [e][1..] == [];
  }

  lemma TwoEvents(s: State, e: Event, f: Event)
    requires Step(s, e).Some?
    ensures Run(s, [e, f]) == Step(Step(s, e).value, f)
  {
    hide Step;
    assert [e, f][1..] == [f];
    OneEvent(Step(s, e).value, f);
  }

  /** What a job waits for makes it finish, and changes no other job. */
  lemma JobSettles(s: State, t: nat)
    requires Alive(s) && !AtRest(s) && t in s.jobs && !s.jobs[t].Finishing?
    ensures
      var r := Step(s, Answers(s.jobs[t], t)[0]);
      && r.Some? && r.value.jobs == s.jobs[t := Finishing] && Alive(r.value) && r.value.phase == s.phase
      && r.value.lines == s.lines && r.value.sent == s.sent
  {
    hide Dispatch, ReleaseActive;
    ReleasedIs(s, Tool(t), true);
  }

  lemma JobLeaves(s: State, t: nat)
    requires Alive(s) && !AtRest(s) && t in s.jobs && s.jobs[t].Finishing?
    ensures
      var r := Step(s, Finish(t));
      && r.Some? && r.value.jobs == s.jobs - {t} && Alive(r.value) && r.value.phase == s.phase
      && (IsRequest(s, t) ==> t in r.value.sent)
  {
    hide Dispatch, ReleaseActive;
  }

  /** No job waits for something that cannot come: answered, it is gone, and a request has its response. */
  lemma JobFinishes(s: State, t: nat)
    requires Inv(s) && Alive(s) && t in s.jobs
    ensures
      var r := Run(s, Answers(s.jobs[t], t));
      && r.Some? && r.value.jobs == s.jobs - {t} && Alive(r.value) && r.value.phase == s.phase
      && (IsRequest(s, t) ==> t in r.value.sent)
  {
    AlivePhase(s, t);
    hide Step, Inv;
    if s.jobs[t].Finishing? {
      JobLeaves(s, t);
      OneEvent(s, Finish(t));
    } else {
      var e := Answers(s.jobs[t], t)[0];
      JobSettles(s, t);
      var s1 := Step(s, e).value;
      JobLeaves(s1, t);
      TwoEvents(s, e, Finish(t));
      assert s.jobs[t := Finishing] - {t} == s.jobs - {t};
      assert IsRequest(s1, t) <==> IsRequest(s, t);
    }
  }

  lemma AlivePhase(s: State, t: nat)
    requires Inv(s) && Alive(s) && t in s.jobs
    ensures s.phase.Reading? || s.phase.Draining?
  {
  }

  ghost predicate CanReturn(s: State) {
    exists more: seq<Event> :: Run(s, more).Some? && Run(s, more).value.phase.Returned?
  }

  lemma CanReturnAfter(s: State, more: seq<Event>)
    requires Run(s, more).Some? && CanReturn(Run(s, more).value)
    ensures CanReturn(s)
  {
    var t := Run(s, more).value;
    var rest: seq<Event> :| Run(t, rest).Some? && Run(t, rest).value.phase.Returned?;
    RunAppend(s, more, rest);
  }

  /** With no job left and the input closed, the server returns. */
  lemma ReturnsDrained(s: State)
    requires Inv(s) && Alive(s) && s.jobs == map[] && !s.phase.Reading?
    ensures CanReturn(s)
  {
    hide OneDevice, Accounted, Answered, Settled;
    match s.phase
    case Draining =>
      OneEvent(s, Drained);
      if s.active.None? {
        assert Run(s, [Drained]).value.phase.Returned?;
      } else {
        TwoEvents(s, Drained, FinalDeleteSettles(true));
        assert Run(s, [Drained, FinalDeleteSettles(true)]).value.phase.Returned?;
      }
    case FinalDelete =>
      OneEvent(s, FinalDeleteSettles(true));
      assert Run(s, [FinalDeleteSettles(true)]).value.phase.Returned?;
    case Returned =>
      assert Run(s, []) == Some(s);
  }

  lemma ReturnsAtOnce(s: State)
    requires Inv(s) && Alive(s) && s.jobs == map[]
    ensures CanReturn(s)
  {
    hide Inv;
    if s.phase.Reading? {
      OneEvent(s, InputCloses);
      StepKeeps(s, InputCloses);
      ReturnsDrained(Step(s, InputCloses).value);
      CanReturnAfter(s, [InputCloses]);
    } else {
      ReturnsDrained(s);
    }
  }

  lemma {:induction false} CanReturnFrom(s: State)
    requires Inv(s) && Alive(s)
    ensures CanReturn(s)
    decreases |s.jobs|
  {
    if s.jobs == map[] {
      ReturnsAtOnce(s);
    } else {
      var t :| t in s.jobs;
      var more := Answers(s.jobs[t], t);
      JobFinishes(s, t);
      RunStays(s, more);
      FewerJobs(s.jobs, t);
      CanReturnFrom(Run(s, more).value);
      CanReturnAfter(s, more);
    }
  }

  lemma FewerJobs(jobs: map<nat, Job>, t: nat)
    requires t in jobs
    ensures |jobs - {t}| < |jobs|
  {
    assert (jobs - {t}).Keys == jobs.Keys - {t};
    assert |jobs - {t}| == |(jobs - {t}).Keys| && |jobs| == |jobs.Keys|;
  }

  lemma RunStays(s: State, events: seq<Event>)
    requires Inv(s) && Run(s, events).Some?
    ensures Inv(Run(s, events).value)
  {
    RunKeeps(s, events);
  }

  /** The end of the deletion this caller waits for, with this result. */
  function DeletionEnds(w: Waiter, ok: bool): Event {
    match w
    case Tool(t) => Settle(t, ok)
    case Handler(sig) => ShutdownSettles(sig, ok)
    case Serve => FinalDeleteSettles(ok)
  }

  lemma DeletionCanEnd(s: State, w: Waiter, ok: bool)
    requires Inv(s) && Alive(s) && w in s.releases
    ensures
      var r := Step(s, DeletionEnds(w, ok));
      && r.Some? && r.value.releases == s.releases - {w}
      && r.value.freed == s.freed + (if ok then {s.releases[w]} else {})
      && r.value.refused == s.refused + if ok then {} else {s.releases[w]}
  {
    hide OneDevice, Accounted, Answered, Settled, Dispatch;
  }

  lemma HubCanGrant(s: State, t: nat, id: SessionId)
    requires Inv(s) && Alive(s) && t in s.jobs && s.jobs[t].AwaitNewSession? && id !in s.granted
    ensures
      var r := Step(s, HubAnswers(t, Some(id)));
      r.Some? && r.value.active == Some(id) && r.value.granted == s.granted + [id]
  {
    AlivePhase(s, t);
  }

  /**
   * A signal, after every run that goes on: the first of its kind gives the open session back and lets the
   * process live until that deletion has ended; with no session open, or a second time, it ends the process and
   * gives nothing back. When a signal's deletion ends, either way, the process does.
   */
  lemma SignalsExactly(events: seq<Event>, sig: Sig, ok: bool)
    requires Run(INIT, events).Some? && Alive(Run(INIT, events).value) && !AtRest(Run(INIT, events).value)
    ensures
      var s := Run(INIT, events).value;
      var r := Step(s, Signal(sig));
      && r.Some?
      && (if sig !in s.handled && s.active.Some? then
            && r.value.phase == s.phase && r.value.active.None? && r.value.deleted == s.deleted + [s.active.value]
            && r.value.releases == s.releases[Handler(sig) := s.active.value]
          else
            r.value.phase.Exited? && r.value.deleted == s.deleted && r.value.active == s.active)
      && (Handler(sig) in s.releases ==>
            Step(s, ShutdownSettles(sig, ok)).Some? && Step(s, ShutdownSettles(sig, ok)).value.phase.Exited?)
  {
    hide Run, Step;
    var s := Run(INIT, events).value;
    SignalDoes(s, sig);
    if Handler(sig) in s.releases {
      ShutdownDoes(s, sig, ok);
    }
  }

  lemma SignalDoes(s: State, sig: Sig)
    requires Alive(s) && !AtRest(s)
    ensures
      var r := Step(s, Signal(sig));
      && r.Some?
      && if sig !in s.handled && s.active.Some? then
           && r.value.phase == s.phase && r.value.active.None? && r.value.deleted == s.deleted + [s.active.value]
           && r.value.releases == s.releases[Handler(sig) := s.active.value]
         else
           r.value.phase.Exited? && r.value.deleted == s.deleted && r.value.active == s.active
  {
    hide Dispatch, Released;
  }

  lemma ShutdownDoes(s: State, sig: Sig, ok: bool)
    requires Alive(s) && !AtRest(s) && Handler(sig) in s.releases
    ensures Step(s, ShutdownSettles(sig, ok)).Some? && Step(s, ShutdownSettles(sig, ok)).value.phase.Exited?
  {
    hide Dispatch, ReleaseActive;
  }

  /**
   * The server is never stuck: after every run that neither ended nor read a null line, each pending request
   * can still be answered, the hub can grant a session to one that waits for it, each deletion in flight can
   * still end either way, and `serve` can still return.
   */
  lemma NeverStuck(events: seq<Event>, t: nat)
    requires Run(INIT, events).Some? && Alive(Run(INIT, events).value)
    ensures
      var s := Run(INIT, events).value;
      && CanReturn(s)
      && (IsRequest(s, t) ==> t in s.sent || exists more :: Run(s, more).Some? && t in Run(s, more).value.sent)
      && (forall w, ok :: w in s.releases ==>
            var r := Step(s, DeletionEnds(w, ok));
            && r.Some? && r.value.releases == s.releases - {w}
            && r.value.freed == s.freed + (if ok then {s.releases[w]} else {})
            && r.value.refused == s.refused + if ok then {} else {s.releases[w]})
      && (forall id :: t in s.jobs && s.jobs[t].AwaitNewSession? && id !in s.granted ==>
            Step(s, HubAnswers(t, Some(id))).Some? && Step(s, HubAnswers(t, Some(id))).value.active == Some(id))
  {
    RunKeeps(INIT, events);
    var s := Run(INIT, events).value;
    forall id | t in s.jobs && s.jobs[t].AwaitNewSession? && id !in s.granted
      ensures Step(s, HubAnswers(t, Some(id))).Some? && Step(s, HubAnswers(t, Some(id))).value.active == Some(id)
    {
      HubCanGrant(s, t, id);
    }
    forall w, ok | w in s.releases
      ensures
        var r := Step(s, DeletionEnds(w, ok));
        && r.Some? && r.value.releases == s.releases - {w}
        && r.value.freed == s.freed + (if ok then {s.releases[w]} else {})
        && r.value.refused == s.refused + if ok then {} else {s.releases[w]}
    {
      DeletionCanEnd(s, w, ok);
    }
    CanReturnFrom(s);
    if IsRequest(s, t) && t !in s.sent {
      JobFinishes(s, t);
      assert t in Run(s, Answers(s.jobs[t], t)).value.sent;
    }
  }

  /**
   * When `serve` returns, every session the hub handed out was passed to deleteSession exactly once, and
   * nothing else was; each of these deletions has ended, or a signal handler still waits for it.
   */
  lemma ReturnReleasesAll(events: seq<Event>)
    requires Run(INIT, events).Some? && Run(INIT, events).value.phase.Returned?
    ensures
      var s := Run(INIT, events).value;
      && s.active.None?
      && (forall id :: multiset(s.deleted)[id] == (if id in s.granted then 1 else 0))
      && (forall id <- s.granted ::
            id in s.freed || id in s.refused || exists sig <- s.handled :: Waits(s, Handler(sig), id))
  {
    RunKeeps(INIT, events);
    var s := Run(INIT, events).value;
    forall id: SessionId
      ensures multiset(s.deleted)[id] == (if id in s.granted then 1 else 0)
    {
      CountDistinct(s.deleted, id);
    }
    forall id | id in s.granted && id !in s.freed && id !in s.refused
      ensures exists sig <- s.handled :: Waits(s, Handler(sig), id)
    {
      assert id in s.releases.Values;
      var w :| w in s.releases && s.releases[w] == id;
      assert w.Handler?;
      assert Waits(s, Handler(w.sig), id);
    }
  }

  predicate Waits(s: State, w: Waiter, id: SessionId) {
    w in s.releases && s.releases[w] == id
  }

  /** When `serve` returns, each request has one response and each notification none. */
  lemma ReturnAnswersAll(events: seq<Event>)
    requires Run(INIT, events).Some? && Run(INIT, events).value.phase.Returned?
    ensures
      var s := Run(INIT, events).value;
      forall t: nat | t < |s.lines| :: multiset(s.sent)[t] == if IsRequest(s, t) then 1 else 0
  {
    RunKeeps(INIT, events);
    var s := Run(INIT, events).value;
    forall t: nat | t < |s.lines|
      ensures multiset(s.sent)[t] == if IsRequest(s, t) then 1 else 0
    {
      CountDistinct(s.sent, t);
    }
  }

  lemma {:induction false} CountDistinct(xs: seq<nat>, x: nat)
    requires Distinct(xs)
    ensures multiset(xs)[x] == if x in xs then 1 else 0
  {
    if xs != [] {
      assert xs == [xs[0]] + xs[1..];
      CountDistinct(xs[1..], x);
    }
  }

  /** A process that ended goes on holding something only by what the hub still answers. */
  lemma {:induction false} EndedRuns(s: State, events: seq<Event>)
    requires Inv(s) && Ended(s) && Run(s, events).Some?
    ensures
      var t := Run(s, events).value;
      && t == s.(granted := t.granted, late := t.late)
      && ((t.late == s.late && t.granted == s.granted) || (t.late.Some? && t.granted == s.granted + [t.late.value]))
      && (t.late.Some? ==> Allocating(s))
    decreases |events|
  {
    if events != [] {
      var s' := Step(s, events[0]).value;
      StepKeeps(s, events[0]);
      hide Inv;
      EndedRuns(s', events[1..]);
    }
  }

  /** Whatever the hub still answers, every session handed out was passed to deleteSession. */
  ghost predicate NothingForgotten(s: State) {
    forall more: seq<Event>, id: SessionId ::
      Run(s, more).Some? && id in Run(s, more).value.granted ==> id in Run(s, more).value.deleted
  }

  /** Whatever the hub still answers, the deletion of every session handed out succeeded. */
  ghost predicate NothingHeld(s: State) {
    forall more: seq<Event>, id: SessionId ::
      Run(s, more).Some? && id in Run(s, more).value.granted ==> id in Run(s, more).value.freed
  }

  predicate Allocating(s: State) {
    exists t <- s.jobs :: s.jobs[t].AwaitNewSession?
  }

  /** No session is open, no deletion is in flight and none has failed. */
  predicate Quiet(s: State) {
    s.active.None? && s.releases == map[] && s.refused == {}
  }

  /**
   * Exactly when a process that exited on a signal, or crashed, leaves nothing behind. It has passed every
   * session to deleteSession if none was active and none being allocated at that moment, and there is one
   * exception at most. It has given every session back if, further, no deletion was in flight, for an
   * end_session, a signal or the end of the input, and none had failed.
   */
  lemma EndHoldsExactly(events: seq<Event>)
    requires Run(INIT, events).Some? && Ended(Run(INIT, events).value)
    ensures
      var s := Run(INIT, events).value;
      && (NothingForgotten(s) <==> s.active.None? && !Allocating(s))
      && !(s.active.Some? && Allocating(s))
      && (NothingHeld(s) <==> Quiet(s) && !Allocating(s))
  {
    RunKeeps(INIT, events);
    var s := Run(INIT, events).value;
    if Allocating(s) {
      HeldWhileAllocating(s);
    } else {
      EndsForgetting(s);
      EndsHolding(s);
    }
  }

  lemma EndsForgetting(s: State)
    requires Inv(s) && Ended(s) && !Allocating(s)
    ensures NothingForgotten(s) <==> s.active.None?
  {
    forall more: seq<Event>, id: SessionId |
      s.active.None? && Run(s, more).Some? && id in Run(s, more).value.granted
      ensures id in Run(s, more).value.deleted
    {
      EndedRuns(s, more);
    }
    if s.active.Some? {
      assert Run(s, []) == Some(s);
      assert s.active.value in s.granted && s.active.value !in s.deleted;
    }
  }

  lemma EndsHolding(s: State)
    requires Inv(s) && Ended(s) && !Allocating(s)
    ensures NothingHeld(s) <==> Quiet(s)
  {
    assert Run(s, []) == Some(s);
    if Quiet(s) {
      forall more: seq<Event>, id: SessionId | Run(s, more).Some? && id in Run(s, more).value.granted
        ensures id in Run(s, more).value.freed
      {
        EndedRuns(s, more);
        assert id in s.deleted;
      }
    } else {
      var id := Unfreed(s);
      assert id in s.granted && id !in s.freed;
    }
  }

  /** A session that is open, being deleted, or whose deletion failed. */
  ghost function Unfreed(s: State): (id: SessionId)
    requires Accounted(s) && Settled(s) && !Quiet(s)
    ensures id in s.granted && id !in s.freed
  {
    if s.active.Some? then s.active.value
    else if s.refused != {} then
      var id :| id in s.refused;
      id
    else
      var w :| w in s.releases;
      assert s.releases[w] in s.releases.Values;
      s.releases[w]
  }

  lemma HeldWhileAllocating(s: State)
    requires Inv(s) && Ended(s) && Allocating(s)
    ensures !NothingForgotten(s) && !NothingHeld(s) && s.active.None?
  {
    var t :| t in s.jobs && s.jobs[t].AwaitNewSession?;
    if s.late.Some? {
      assert Run(s, []) == Some(s);
      assert s.late.value in s.granted && s.late.value !in s.deleted && s.late.value !in s.freed;
    } else {
      var id := Fresh(s.granted);
      var e := HubAnswers(t, Some(id));
      assert [e][1..] == [];
      var s' := Step(s, e).value;
      assert Run(s, [e]) == Run(s', []) == Some(s');
      StepKeeps(s, e);
      assert id in s'.granted && id !in s'.deleted && id !in s'.freed;
    }
  }

  function Fresh(ids: seq<SessionId>): (id: SessionId)
    ensures forall x <- ids :: x < id
  {
    if ids == [] then 0
    else
      var rest := Fresh(ids[1..]);
      assert ids == [ids[0]] + ids[1..];
      if ids[0] < rest then rest else ids[0] + 1
  }

  /** At no time is more than one session that the hub handed out not passed to deleteSession. */
  lemma ExitMayHoldOne(events: seq<Event>)
    requires Run(INIT, events).Some?
    ensures
      var s := Run(INIT, events).value;
      forall a, b :: a in s.granted && b in s.granted && a !in s.deleted && b !in s.deleted ==> a == b
  {
    RunKeeps(INIT, events);
  }

  // -------------------------------------------------- the runs the promise fails on

  const START := Read(Message(true, StartSession(true)))
  const OPENED := INIT.(active := Some(7), jobs := map[0 := Finishing], lines := [START.line], granted := [7])

  /** A signal while the hub is still looking for a device. */
  lemma ExitDuringAllocation(sig: Sig, id: SessionId)
    ensures
      var atExit, later := Run(INIT, [START, Signal(sig)]), Run(INIT, [START, Signal(sig), HubAnswers(0, Some(id))]);
      && atExit.Some? && atExit.value.phase.Exited? && atExit.value.granted == []
      && later.Some? && later.value.phase.Exited? && later.value.granted == [id] && later.value.deleted == []
  {
    var s1 := Step(INIT, START).value;
    var s2 := Step(s1, Signal(sig)).value;
    var answer := HubAnswers(0, Some(id));
    assert [START, Signal(sig)][1..] == [Signal(sig)];
    assert [START, Signal(sig), answer][1..] == [Signal(sig), answer];
    assert [Signal(sig), answer][1..] == [answer];
    assert Run(s2, [answer]) == Step(s2, answer);
    assert Run(s1, [Signal(sig)]) == Some(s2);
  }

  lemma OpensOne()
    ensures Run(INIT, [START, HubAnswers(0, Some(7)), Settle(0, true)]) == Some(OPENED)
  {
    var s1 := Step(INIT, START).value;
    var s2 := Step(s1, HubAnswers(0, Some(7))).value;
    assert s2.lines == OPENED.lines && s2.granted == OPENED.granted && s2.jobs[0 := Finishing] == OPENED.jobs;
    assert Step(s2, Settle(0, true)) == Some(OPENED);
    hide Step;
    assert Run(s2, [Settle(0, true)]) == Step(s2, Settle(0, true));
    assert [START, HubAnswers(0, Some(7)), Settle(0, true)][1..] == [HubAnswers(0, Some(7)), Settle(0, true)];
    assert [HubAnswers(0, Some(7)), Settle(0, true)][1..] == [Settle(0, true)];
  }

  /** A signal while an end_session waits: nothing is active, so the process exits before the hub answers. */
  lemma ExitDuringDelete(sig: Sig)
    ensures
      var r := Run(INIT, [START, HubAnswers(0, Some(7)), Settle(0, true)]
                         + [Read(Message(true, EndSession)), Signal(sig)]);
      && r.Some? && r.value.phase.Exited? && r.value.granted == r.value.deleted == [7]
      && r.value.active.None? && 7 !in r.value.freed
  {
    OpensOne();
    var end := Read(Message(true, EndSession));
    RunAppend(INIT, [START, HubAnswers(0, Some(7)), Settle(0, true)], [end, Signal(sig)]);
    var s1 := Step(OPENED, end).value;
    assert [end, Signal(sig)][1..] == [Signal(sig)];
    assert Run(s1, [Signal(sig)]) == Step(s1, Signal(sig));
  }

  /** The process waits for one session's deletion while the next one is opened. */
  lemma ExitHoldingOne(sig: Sig)
    ensures
      var r := Run(INIT, ([START, HubAnswers(0, Some(7)), Settle(0, true)] + [Signal(sig)])
                         + [START, HubAnswers(1, Some(8)), ShutdownSettles(sig, true)]);
      && r.Some? && r.value.phase.Exited? && r.value.active == Some(8)
      && 8 in r.value.granted && 8 !in r.value.deleted
  {
    OpensOne();
    var open := [START, HubAnswers(0, Some(7)), Settle(0, true)];
    RunAppend(INIT, open, [Signal(sig)]);
    assert Run(OPENED, [Signal(sig)]) == Step(OPENED, Signal(sig));
    HeldAtExit(Step(OPENED, Signal(sig)).value, sig);
    hide Step;
    RunAppend(INIT, open + [Signal(sig)], [START, HubAnswers(1, Some(8)), ShutdownSettles(sig, true)]);
  }

  /** A second session opens while the handler waits for the first one's deletion. */
  function Reopened(s: State): State {
    s.(starting := true, jobs := s.jobs[1 := AwaitDescribe(8)], lines := s.lines + [START.line],
       active := Some(8), granted := s.granted + [8])
  }

  lemma Reopens(s: State)
    requires s.phase.Reading? && !s.doomed && s.active.None? && !s.starting && |s.lines| == 1 && s.granted == [7]
    ensures
      var s1 := Step(s, START);
      s1.Some? && Step(s1.value, HubAnswers(1, Some(8))) == Some(Reopened(s))
  {
    var s1 := s.(starting := true, jobs := s.jobs[1 := AwaitNewSession], lines := s.lines + [START.line]);
    assert Step(s, START) == Some(s1);
    assert s1.jobs[1 := AwaitDescribe(8)] == s.jobs[1 := AwaitDescribe(8)];
  }

  lemma HeldAtExit(s: State, sig: Sig)
    requires Some(s) == Step(OPENED, Signal(sig))
    ensures
      var r := Run(s, [START, HubAnswers(1, Some(8)), ShutdownSettles(sig, true)]);
      && r.Some? && r.value.phase.Exited? && r.value.active == Some(8)
      && 8 in r.value.granted && 8 !in r.value.deleted
  {
    var answer, settled := HubAnswers(1, Some(8)), ShutdownSettles(sig, true);
    var s2 := Reopened(s);
    assert Step(s2, settled) == Some(Released(s2, Handler(sig), true).(phase := Exited));
    Reopens(s);
    hide Step;
    assert Run(s2, [settled]) == Step(s2, settled);
    assert [START, answer, settled][1..] == [answer, settled];
    assert [answer, settled][1..] == [settled];
  }

  lemma {:induction false} RunAppend(s: State, a: seq<Event>, b: seq<Event>)
    requires Run(s, a).Some?
    ensures Run(s, a + b) == Run(Run(s, a).value, b)
    decreases |a|
  {
    hide Step;
    if a == [] {
      assert a + b == b;
    } else {
      assert (a + b)[1..] == a[1..] + b;
      RunAppend(Step(s, a[0]).value, a[1..], b);
    }
  }

  // --------------------------------------------------------------- null lines

  lemma DoomedStep(s: State, e: Event)
    requires Inv(s) && s.doomed && Step(s, e).Some?
    ensures
      var t := Step(s, e).value;
      t.doomed && t.freed == s.freed && (Quiet(t) <==> Quiet(s))
  {
    hide OneDevice, Accounted, Answered, Settled, Waiters;
    if s.active.Some? && !Ended(s) {
      var w := if e.Read? then Tool(|s.lines|) else Serve;
      assert w in ReleaseActive(s, w).releases;
    }
  }

  lemma {:induction false} DoomedRun(s: State, events: seq<Event>)
    requires Inv(s) && s.doomed && Run(s, events).Some?
    ensures
      var t := Run(s, events).value;
      Inv(t) && t.doomed && t.freed == s.freed && (Quiet(t) <==> Quiet(s))
    decreases |events|
  {
    if events != [] {
      DoomedStep(s, events[0]);
      StepKeeps(s, events[0]);
      hide Step, Inv, Quiet;
      DoomedRun(Step(s, events[0]).value, events[1..]);
    }
  }

  /**
   * A line that is the JSON value null is fatal, wherever the input ends: nothing else ends the process
   * any more, and no deletion succeeds any more. The crash leaves nothing held exactly when all was given
   * back by the time the line was read, and no line read in the same turn has started an allocation.
   */
  lemma NullLineIsFatal(before: seq<Event>, after: seq<Event>)
    requires Run(INIT, before).Some? && Step(Run(INIT, before).value, Read(Null)).Some?
    requires Run(Step(Run(INIT, before).value, Read(Null)).value, after).Some?
    ensures
      var s := Run(INIT, before).value;
      var t := Run(Step(s, Read(Null)).value, after).value;
      && t.freed == s.freed
      && !t.phase.Exited? && (t.phase.Crashed? || Step(t, Crash) == Some(t.(phase := Crashed)))
      && (t.phase.Crashed? ==> (NothingHeld(t) <==> Quiet(s) && !Allocating(t)))
  {
    RunKeeps(INIT, before);
    var s := Run(INIT, before).value;
    var s1 := Step(s, Read(Null)).value;
    StepKeeps(s, Read(Null));
    DoomedRun(s1, after);
    var t := Run(s1, after).value;
    if t.phase.Crashed? {
      if Allocating(t) {
        HeldWhileAllocating(t);
      } else {
        EndsHolding(t);
      }
    }
  }

  /** Nothing but a null line crashes the process. */
  lemma OnlyNullCrashes(events: seq<Event>)
    requires Run(INIT, events).Some? && Run(INIT, events).value.phase.Crashed?
    ensures Null in Run(INIT, events).value.lines
  {
    RunKeeps(INIT, events);
  }
}
