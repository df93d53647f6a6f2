/**
 * The content-addressed blob store (`appstore.ts`) as file-system steps. Any number of puts and
 * removes interleave at every await, any file operation may fail, and the process may crash between
 * any two steps.
 */
module AppStore {
  import opened Bytes
  import opened Wrappers

  /** sha256, taken to be injective: a digest is told apart by the content it was computed from. */
  datatype Digest = Sha(of: bytes)

  datatype Path = Temp(put: nat) | Final(digest: Digest)

  /** The temp file's stream opens asynchronously, and `close` fires only after that. */
  datatype Sink = Opening | Open | OpenFailed

  datatype Stage =
    | Piping                        // chunks arrive, are counted, hashed and written
    | Failing(tooLarge: bool)       // the pipeline rejected; waiting for the sink to close
    | Closed(tooLarge: bool)        // closed; about to unlink
    | Piped                         // every byte written and the sink closed
    | DroppingCopy(size: nat)       // the blob is already there; about to unlink
    | Renaming                      // about to mkdir and rename
    | Threw(tooLarge: bool)
    | Done(digest: Digest, size: nat, created: bool)

  datatype Put = Put(limit: nat, hashed: bytes, sink: Sink, stage: Stage)

  /**
   * `puts` are the calls this process has made since it started. `used` are the temp names ever
   * taken, `stuck` the puts whose last file operation failed with the temp file in place, and
   * `limits` the limit under which each blob was last created.
   */
  datatype State = State(
    files: map<Path, bytes>, puts: map<nat, Put>, used: set<nat>, stuck: set<nat>, limits: map<Digest, nat>)

  const INIT := State(map[], map[], {}, {}, map[])

  datatype Event =
    | Begin(p: nat, limit: nat)
    | OpenLands(p: nat)
    | OpenFails(p: nat)
    | Chunk(p: nat, chunk: bytes)
    | Write(p: nat, upTo: nat)
    | PipeFails(p: nat)             // the source breaks off, or a write fails
    | SourceEnds(p: nat)
    | Closes(p: nat)
    | Unlink(p: nat, ok: bool)
    | Stat(p: nat, found: bool)
    | Rename(p: nat, ok: bool)
    | Remove(d: Digest, ok: bool)
    | Crash

  predicate Settled(q: Put) {
    q.stage.Threw? || q.stage.Done?
  }

  /** What an unlink settles to: the stage the code then throws or returns from. */
  function AfterUnlink(q: Put): Option<Stage> {
    match q.stage
    case Closed(tooLarge) => Some(Threw(tooLarge))
    case Piped => if q.hashed == [] then Some(Threw(false)) else None
    case DroppingCopy(size) => Some(Done(Sha(q.hashed), size, false))
    case _ => None
  }

  function Move(s: State, p: nat, q: Put): State {
    s.(puts := s.puts[p := q])
  }

  /** Steps of the upload, up to the end of the pipeline. */
  function PipeStep(s: State, e: Event): Option<State>
    requires e.OpenLands? || e.OpenFails? || e.Chunk? || e.Write? || e.PipeFails? || e.SourceEnds? || e.Closes?
  {
    if e.p !in s.puts then None
    else
      var p, q := e.p, s.puts[e.p];
      var running := q.stage.Piping? || q.stage.Failing?;
      match e
      case OpenLands(_) =>
        if !running || q.sink != Opening then None
        else Some(Move(s, p, q.(sink := Open)).(files := s.files[Temp(p) := []]))
      case OpenFails(_) =>
        if !running || q.sink != Opening then None
        else Some(Move(s, p, q.(sink := OpenFailed, stage := if q.stage.Piping? then Failing(false) else q.stage)))
      case Chunk(_, chunk) =>
        if !q.stage.Piping? then None
        else if |q.hashed| + |chunk| > q.limit then Some(Move(s, p, q.(stage := Failing(true))))
        else Some(Move(s, p, q.(hashed := q.hashed + chunk)))
      case Write(_, upTo) =>
        if !running || q.sink != Open || Temp(p) !in s.files || !(|s.files[Temp(p)]| <= upTo <= |q.hashed|) then None
        else Some(s.(files := s.files[Temp(p) := q.hashed[..upTo]]))
      case PipeFails(_) => if q.stage.Piping? then Some(Move(s, p, q.(stage := Failing(false)))) else None
      case SourceEnds(_) =>
        if !q.stage.Piping? || q.sink != Open || Temp(p) !in s.files || |s.files[Temp(p)]| != |q.hashed| then None
        else Some(Move(s, p, q.(stage := Piped)))
      case Closes(_) =>
        if !q.stage.Failing? || q.sink == Opening then None
        else Some(Move(s, p, q.(stage := Closed(q.stage.tooLarge))))
  }

  /** Steps after the pipeline: unlink, stat, rename. */
  function FileStep(s: State, e: Event): Option<State>
    requires e.Unlink? || e.Stat? || e.Rename?
  {
    if e.p !in s.puts then None
    else
      var p, q := e.p, s.puts[e.p];
      var final := Final(Sha(q.hashed));
      match e
      case Unlink(_, ok) =>
        (match AfterUnlink(q)
         case None => None
         case Some(stage) =>
           var s' := Move(s, p, q.(stage := stage));
           Some(if Temp(p) !in s.files then s'
                else if ok then s'.(files := s.files - {Temp(p)})
                else s'.(stuck := s.stuck + {p})))
      case Stat(_, found) =>
        if !q.stage.Piped? || q.hashed == [] || (found && final !in s.files) then None
        else Some(Move(s, p, q.(stage := if found then DroppingCopy(|s.files[final]|) else Renaming)))
      case Rename(_, ok) =>
        if !q.stage.Renaming? || Temp(p) !in s.files then None
        else if !ok then Some(Move(s, p, q.(stage := Threw(false))).(stuck := s.stuck + {p}))
        else Some(Move(s, p, q.(stage := Done(Sha(q.hashed), |q.hashed|, true)))
                  .(files := (s.files - {Temp(p)})[final := s.files[Temp(p)]], limits := s.limits[Sha(q.hashed) := q.limit]))
  }

  function Step(s: State, e: Event): Option<State> {
    match e
    case Begin(p, limit) =>
      if p in s.used then None
      else Some(Move(s, p, Put(limit, [], Opening, Piping)).(used := s.used + {p}))
    case Remove(d, ok) => Some(if ok then s.(files := s.files - {Final(d)}) else s)
    case Crash => Some(s.(puts := map[]))
    case Unlink(_, _) => FileStep(s, e)
    case Stat(_, _) => FileStep(s, e)
    case Rename(_, _) => FileStep(s, e)
    case _ => PipeStep(s, e)
  }

  function Run(s: State, events: seq<Event>): Option<State>
    decreases |events|
  {
    if events == [] then Some(s)
    else
      var s' := Step(s, events[0]);
      if s'.None? then None else Run(s'.value, events[1..])
  }

  // ---------------------------------------------------------------- invariant

  /** Every file at a final path hashes to that path, within the limit it was created under. */
  ghost predicate Addressed(s: State) {
    forall d :: Final(d) in s.files ==>
      d == Sha(s.files[Final(d)]) && d in s.limits && |s.files[Final(d)]| <= s.limits[d]
  }

  /** What is known of a put's temp file. */
  predicate TempOk(q: Put, temp: Option<bytes>, stuck: bool) {
    && |q.hashed| <= q.limit
    && (match q.stage
        case Piping => !stuck && Partial(q, temp)
        case Failing(_) => !stuck && Partial(q, temp)
        case Closed(_) => !stuck && Partial(q, temp) && q.sink != Opening
        case Piped => !stuck && temp == Some(q.hashed)
        case DroppingCopy(size) => !stuck && temp == Some(q.hashed) && size == |q.hashed|
        case Renaming => !stuck && temp == Some(q.hashed) && q.hashed != []
        case Threw(_) => stuck == temp.Some?
        case Done(digest, size, _) => stuck == temp.Some? && digest == Sha(q.hashed) && size == |q.hashed|)
  }

  /** While bytes flow: no file before the open lands, then some prefix of what was hashed. */
  predicate Partial(q: Put, temp: Option<bytes>) {
    if q.sink == Open then temp.Some? && temp.value <= q.hashed else temp.None?
  }

  function TempOf(s: State, p: nat): Option<bytes> {
    if Temp(p) in s.files then Some(s.files[Temp(p)]) else None
  }

  ghost predicate Inv(s: State) {
    && Addressed(s)
    && Named(s)
    && (forall p <- s.puts :: TempOk(s.puts[p], TempOf(s, p), p in s.stuck))
  }

  /** Temp names are taken once. */
  ghost predicate Named(s: State) {
    && (forall p <- s.puts :: p in s.used)
    && (forall p :: Temp(p) in s.files ==> p in s.used)
    && s.stuck <= s.used
  }

  lemma PipeOwn(s: State, e: Event)
    requires !(e.Unlink? || e.Stat? || e.Rename? || e.Begin? || e.Remove? || e.Crash?)
    requires PipeStep(s, e).Some? && TempOk(s.puts[e.p], TempOf(s, e.p), e.p in s.stuck)
    ensures
      var s' := PipeStep(s, e).value;
      e.p in s'.puts && TempOk(s'.puts[e.p], TempOf(s', e.p), e.p in s'.stuck)
  {
    if e.SourceEnds? {
      var q, written := s.puts[e.p], s.files[Temp(e.p)];
      assert written == q.hashed[..|written|] == q.hashed;
    }
  }

  lemma PipeOthers(s: State, e: Event, p: nat)
    requires !(e.Unlink? || e.Stat? || e.Rename? || e.Begin? || e.Remove? || e.Crash?)
    requires PipeStep(s, e).Some? && p != e.p
    ensures
      var s' := PipeStep(s, e).value;
      && (p in s'.puts <==> p in s.puts) && (p in s.puts ==> s'.puts[p] == s.puts[p])
      && TempOf(s', p) == TempOf(s, p) && (p in s'.stuck <==> p in s.stuck)
  {
  }

  lemma PipeNames(s: State, e: Event)
    requires Inv(s) && !(e.Unlink? || e.Stat? || e.Rename? || e.Begin? || e.Remove? || e.Crash?)
    requires PipeStep(s, e).Some?
    ensures Addressed(PipeStep(s, e).value) && Named(PipeStep(s, e).value)
  {
    hide TempOk;
  }

  lemma PipeKeeps(s: State, e: Event)
    requires Inv(s) && !(e.Unlink? || e.Stat? || e.Rename? || e.Begin? || e.Remove? || e.Crash?)
    requires PipeStep(s, e).Some?
    ensures Inv(PipeStep(s, e).value)
  {
    PipeNames(s, e);
    assert e.p in s.puts;
    hide Addressed, Named, TempOk, TempOf, PipeStep;
    PipeOwn(s, e);
    forall p | p != e.p && p in PipeStep(s, e).value.puts
      ensures TempOk(PipeStep(s, e).value.puts[p], TempOf(PipeStep(s, e).value, p), p in PipeStep(s, e).value.stuck)
    {
      PipeOthers(s, e, p);
    }
  }

  lemma FileOwn(s: State, e: Event)
    requires (e.Unlink? || e.Stat? || e.Rename?)
    requires Addressed(s) && FileStep(s, e).Some? && TempOk(s.puts[e.p], TempOf(s, e.p), e.p in s.stuck)
    ensures
      var s' := FileStep(s, e).value;
      e.p in s'.puts && TempOk(s'.puts[e.p], TempOf(s', e.p), e.p in s'.stuck)
  {
  }

  lemma FileOthers(s: State, e: Event, p: nat)
    requires (e.Unlink? || e.Stat? || e.Rename?)
    requires FileStep(s, e).Some? && p != e.p
    ensures
      var s' := FileStep(s, e).value;
      && (p in s'.puts <==> p in s.puts) && (p in s.puts ==> s'.puts[p] == s.puts[p])
      && TempOf(s', p) == TempOf(s, p) && (p in s'.stuck <==> p in s.stuck)
  {
  }

  lemma FileNames(s: State, e: Event)
    requires Inv(s) && (e.Unlink? || e.Stat? || e.Rename?)
    requires FileStep(s, e).Some?
    ensures Addressed(FileStep(s, e).value) && Named(FileStep(s, e).value)
  {
    assert TempOk(s.puts[e.p], TempOf(s, e.p), e.p in s.stuck);
  }

  lemma FileKeeps(s: State, e: Event)
    requires Inv(s) && (e.Unlink? || e.Stat? || e.Rename?)
    requires FileStep(s, e).Some?
    ensures Inv(FileStep(s, e).value)
  {
    FileNames(s, e);
    assert e.p in s.puts;
    hide Addressed, Named, TempOk, TempOf, FileStep;
    FileOwn(s, e);
    forall p | p != e.p && p in FileStep(s, e).value.puts
      ensures TempOk(FileStep(s, e).value.puts[p], TempOf(FileStep(s, e).value, p), p in FileStep(s, e).value.stuck)
    {
      FileOthers(s, e, p);
    }
  }

  lemma StepKeeps(s: State, e: Event)
    requires Inv(s) && Step(s, e).Some?
    ensures Inv(Step(s, e).value)
  {
    hide PipeStep, FileStep, TempOk;
    var s' := Step(s, e).value;
    match e
    case Begin(p, limit) =>
      FreshPut(limit);
      assert forall q <- s.puts :: TempOf(s', q) == TempOf(s, q);
      assert TempOf(s', p).None?;
    case Remove(d, ok) =>
      assert forall q <- s.puts :: TempOf(s', q) == TempOf(s, q);
    case Crash =>
    case Unlink(_, _) => FileKeeps(s, e);
    case Stat(_, _) => FileKeeps(s, e);
    case Rename(_, _) => FileKeeps(s, e);
    case _ => PipeKeeps(s, e);
  }

  lemma FreshPut(limit: nat)
    ensures TempOk(Put(limit, [], Opening, Piping), None, false)
  {
  }

  lemma {:induction false} RunKeeps(s: State, events: seq<Event>)
    requires Inv(s) && Run(s, events).Some?
    ensures Inv(Run(s, events).value)
    decreases |events|
  {
    if events != [] {
      StepKeeps(s, events[0]);
      RunKeeps(Step(s, events[0]).value, events[1..]);
    }
  }

  // ------------------------------------------------------------- main results

  /**
   * Under any interleaving, crashes and failures included: every file at a digest's path hashes to
   * that digest and is within the limit it was created under.
   */
  lemma FilesAreAddressed(events: seq<Event>)
    requires Run(INIT, events).Some?
    ensures Addressed(Run(INIT, events).value)
  {
    RunKeeps(INIT, events);
  }

  /**
   * A put that returned names the digest and size of exactly the bytes it accepted, and those are
   * within its limit.
   */
  lemma ResultsDescribeUpload(events: seq<Event>, p: nat)
    requires Run(INIT, events).Some? && p in Run(INIT, events).value.puts
    ensures
      var q := Run(INIT, events).value.puts[p];
      |q.hashed| <= q.limit && (q.stage.Done? ==> q.stage.digest == Sha(q.hashed) && q.stage.size == |q.hashed|)
  {
    hide Step, Addressed, Named;
    RunKeeps(INIT, events);
    var s := Run(INIT, events).value;
    assert TempOk(s.puts[p], TempOf(s, p), p in s.stuck);
  }

  /**
   * A put that returned or threw leaves its temp file behind exactly when the unlink, mkdir or rename
   * that would have taken it away failed. Closing before unlinking is what makes this true of an
   * open that lands late.
   */
  lemma TempFilesAreCleaned(events: seq<Event>, p: nat)
    requires Run(INIT, events).Some? && p in Run(INIT, events).value.puts
    ensures
      var s := Run(INIT, events).value;
      Settled(s.puts[p]) ==> (Temp(p) in s.files <==> p in s.stuck)
  {
    hide Step, Addressed, Named;
    RunKeeps(INIT, events);
    var s := Run(INIT, events).value;
    assert TempOk(s.puts[p], TempOf(s, p), p in s.stuck);
  }

  predicate Faultless(e: Event) {
    !e.Crash? && (e.Unlink? || e.Rename? ==> e.ok)
  }

  lemma FaultlessKeeps(s: State, e: Event)
    requires Faultless(e) && Step(s, e).Some? && s.stuck == {} && s.used == s.puts.Keys
    ensures Step(s, e).value.stuck == {} && Step(s, e).value.used == Step(s, e).value.puts.Keys
  {
  }

  lemma {:induction false} RunFaultless(s: State, events: seq<Event>)
    requires (forall i :: 0 <= i < |events| ==> Faultless(events[i])) && Run(s, events).Some?
    requires s.stuck == {} && s.used == s.puts.Keys
    ensures Run(s, events).value.stuck == {} && Run(s, events).value.used == Run(s, events).value.puts.Keys
    decreases |events|
  {
    if events != [] {
      FaultlessKeeps(s, events[0]);
      RunFaultless(Step(s, events[0]).value, events[1..]);
    }
  }

  /** With no crash and no failed unlink, mkdir or rename, every temp file belongs to a put still running. */
  lemma NoFaultNoLeak(events: seq<Event>)
    requires (forall i :: 0 <= i < |events| ==> Faultless(events[i])) && Run(INIT, events).Some?
    ensures
      var s := Run(INIT, events).value;
      forall p :: Temp(p) in s.files ==> p in s.puts && !Settled(s.puts[p])
  {
    RunKeeps(INIT, events);
    RunFaultless(INIT, events);
    forall p | Temp(p) in Run(INIT, events).value.files
      ensures p in Run(INIT, events).value.puts && !Settled(Run(INIT, events).value.puts[p])
    {
      TempFilesAreCleaned(events, p);
    }
  }

  /** A rename takes a put's temp file to this digest's path. */
  predicate Brings(s: State, e: Event, d: Digest) {
    e.Rename? && e.ok && e.p in s.puts && Sha(s.puts[e.p].hashed) == d
  }

  /** What one step does to the file at a digest's path. */
  lemma FinalAfter(s: State, e: Event, d: Digest)
    requires Step(s, e).Some?
    ensures Final(d) in Step(s, e).value.files <==> Brings(s, e, d) || (Final(d) in s.files && e != Remove(d, true))
  {
  }

  /** Some removal of the digest succeeded, and nothing brought the file back since. */
  ghost predicate LeftRemoved(s: State, events: seq<Event>, d: Digest)
    requires Run(s, events).Some?
    decreases |events|
  {
    events != []
    && (LeftRemoved(Step(s, events[0]).value, events[1..], d)
        || (events[0] == Remove(d, true) && !Brought(Step(s, events[0]).value, events[1..], d)))
  }

  ghost predicate Brought(s: State, events: seq<Event>, d: Digest)
    requires Run(s, events).Some?
    decreases |events|
  {
    events != [] && (Brings(s, events[0], d) || Brought(Step(s, events[0]).value, events[1..], d))
  }

  /** Over a run, a file is there at the end if it was there or came, and was not left removed. */
  lemma {:induction false} FinalAfterRun(s: State, events: seq<Event>, d: Digest)
    requires Run(s, events).Some?
    ensures
      Final(d) in Run(s, events).value.files
      <==> (Final(d) in s.files || Brought(s, events, d)) && !LeftRemoved(s, events, d)
    decreases |events|
  {
    if events != [] {
      FinalAfter(s, events[0], d);
      hide Step, Brings;
      FinalAfterRun(Step(s, events[0]).value, events[1..], d);
    }
  }

  /**
   * From a put's stat on, its blob is there exactly if it was there or a rename brought it, and no removal
   * of the digest was left without a later rename to it. Once the put has returned, having found the blob or
   * created it, only the removals matter.
   */
  lemma ReturnedBlobIsThereExactly(before: seq<Event>, p: nat, found: bool, between: seq<Event>)
    requires Run(INIT, before).Some? && p in Run(INIT, before).value.puts
    requires Step(Run(INIT, before).value, Stat(p, found)).Some?
    requires Run(Step(Run(INIT, before).value, Stat(p, found)).value, between).Some?
    ensures
      var s := Step(Run(INIT, before).value, Stat(p, found)).value;
      var t := Run(s, between).value;
      var d := Sha(Run(INIT, before).value.puts[p].hashed);
      && (p in t.puts && t.puts[p].stage.Done? ==> t.puts[p].stage.digest == d && t.puts[p].stage.created == !found)
      && (Final(d) in t.files <==> (Final(d) in s.files || Brought(s, between, d)) && !LeftRemoved(s, between, d))
      && (p in t.puts && t.puts[p].stage.Done? ==> (Final(d) in t.files <==> !LeftRemoved(s, between, d)))
  {
    var s0 := Run(INIT, before).value;
    var s := Step(s0, Stat(p, found)).value;
    var d := Sha(s0.puts[p].hashed);
    hide Step, Inv, LeftRemoved;
    RunKeeps(INIT, before);
    StepKeeps(s0, Stat(p, found));
    StatLeads(s0, p, found);
    FinalAfterRun(s, between, d);
    StatDecides(s, p, between);
    if !found {
      RenamedIsBrought(s, p, between, d);
    }
  }

  lemma StatLeads(s: State, p: nat, found: bool)
    requires p in s.puts && Step(s, Stat(p, found)).Some?
    ensures
      var t := Step(s, Stat(p, found)).value;
      && p in t.puts && t.puts[p].hashed == s.puts[p].hashed
      && (found ==> Final(Sha(s.puts[p].hashed)) in t.files)
      && (if found then t.puts[p].stage.DroppingCopy? else t.puts[p].stage.Renaming?)
  {
  }

  /** A put that waits for its rename to this digest, or will never return. */
  predicate Renames(s: State, p: nat, d: Digest) {
    p in s.used && (p in s.puts ==> s.puts[p].stage.Threw? || (s.puts[p].stage.Renaming? && Sha(s.puts[p].hashed) == d))
  }

  lemma RenamesStep(s: State, e: Event, p: nat, d: Digest)
    requires Renames(s, p, d) && Step(s, e).Some?
    ensures Renames(Step(s, e).value, p, d) || Brings(s, e, d)
  {
  }

  /** The rename that makes a put return brings its blob. */
  lemma {:induction false} RenamedIsBrought(s: State, p: nat, events: seq<Event>, d: Digest)
    requires Renames(s, p, d) && Run(s, events).Some?
    ensures
      var t := Run(s, events).value;
      p in t.puts && t.puts[p].stage.Done? ==> Brought(s, events, d)
    decreases |events|
  {
    if events != [] {
      RenamesStep(s, events[0], p, d);
      hide Step, Brings, Renames;
      if !Brings(s, events[0], d) {
        RenamedIsBrought(Step(s, events[0]).value, p, events[1..], d);
      }
    }
  }

  /** Where a put that has done its stat can be. */
  predicate Decided(q: Put, d: Digest, created: bool) {
    && Sha(q.hashed) == d
    && match q.stage
       case DroppingCopy(_) => !created
       case Renaming => created
       case Threw(_) => true
       case Done(digest, _, c) => digest == d && c == created
       case _ => false
  }

  lemma DecidedStays(s: State, e: Event, p: nat, d: Digest, created: bool)
    requires Step(s, e).Some? && p in s.used && (p in s.puts ==> Decided(s.puts[p], d, created))
    ensures
      var t := Step(s, e).value;
      p in t.used && (p in t.puts ==> Decided(t.puts[p], d, created))
  {
  }

  lemma {:induction false} StatDecidesRun(s: State, p: nat, events: seq<Event>, d: Digest, created: bool)
    requires Run(s, events).Some? && p in s.used && (p in s.puts ==> Decided(s.puts[p], d, created))
    ensures
      var t := Run(s, events).value;
      p in t.puts ==> Decided(t.puts[p], d, created)
    decreases |events|
  {
    if events != [] {
      DecidedStays(s, events[0], p, d, created);
      hide Step, Decided;
      StatDecidesRun(Step(s, events[0]).value, p, events[1..], d, created);
    }
  }

  lemma StatDecides(s: State, p: nat, events: seq<Event>)
    requires Inv(s) && Run(s, events).Some? && p in s.puts && (s.puts[p].stage.DroppingCopy? || s.puts[p].stage.Renaming?)
    ensures
      var t := Run(s, events).value;
      p in t.puts && t.puts[p].stage.Done? ==>
        t.puts[p].stage.digest == Sha(s.puts[p].hashed) && t.puts[p].stage.created == s.puts[p].stage.Renaming?
  {
    hide Step;
    StatDecidesRun(s, p, events, Sha(s.puts[p].hashed), s.puts[p].stage.Renaming?);
  }

  function Upload(p: nat, content: bytes): seq<Event> {
    [Begin(p, |content|), OpenLands(p)] + ([Chunk(p, content), Write(p, |content|)] + [SourceEnds(p)])
  }

  /** The stages of one whole upload: its temp file open, every byte written, ready for its stat. */
  function Opened(s: State, p: nat, limit: nat): State {
    s.(files := s.files[Temp(p) := []], puts := s.puts[p := Put(limit, [], Open, Piping)], used := s.used + {p})
  }

  function Written(s: State, p: nat, content: bytes): State {
    s.(files := s.files[Temp(p) := content], puts := s.puts[p := Put(|content|, content, Open, Piping)])
  }

  function Ended(s: State, p: nat, content: bytes): State {
    s.(puts := s.puts[p := Put(|content|, content, Open, Piped)])
  }

  function Uploaded(s: State, p: nat, content: bytes): State {
    Ended(Written(Opened(s, p, |content|), p, content), p, content)
  }

  /** What an upload leaves behind, for the put and for the files. */
  lemma UploadedIs(s: State, p: nat, content: bytes)
    ensures
      var t := Uploaded(s, p, content);
      && t.files == s.files[Temp(p) := content] && t.puts == s.puts[p := Put(|content|, content, Open, Piped)]
      && t.used == s.used + {p} && t.stuck == s.stuck && t.limits == s.limits
  {
  }

  /**
   * A put may return the name of a blob that is no longer there: a remove can land between its stat
   * and its return.
   */
  lemma ReturnedBlobMayBeGone(content: bytes)
    requires content != []
    ensures
      var first := Upload(0, content) + [Stat(0, false), Rename(0, true)];
      var second := Upload(1, content) + ([Stat(1, true), Remove(Sha(content), true)] + [Unlink(1, true)]);
      Run(INIT, first + second).Some? &&
      var s := Run(INIT, first + second).value;
      && 1 in s.puts && s.puts[1].stage == Done(Sha(content), |content|, false)
      && Final(Sha(content)) !in s.files
  {
    hide Step, Uploaded;
    var first := Upload(0, content) + [Stat(0, false), Rename(0, true)];
    var second := Upload(1, content) + ([Stat(1, true), Remove(Sha(content), true)] + [Unlink(1, true)]);
    CreatesBlob(content);
    var s := Created(content);
    RunUpload(s, 1, content);
    RunAppend(s, Upload(1, content), [Stat(1, true), Remove(Sha(content), true)] + [Unlink(1, true)]);
    LosesBlob(content);
    RunAppend(INIT, first, second);
  }

  function Created(content: bytes): State {
    State(map[Final(Sha(content)) := content],
          map[0 := Put(|content|, content, Open, Done(Sha(content), |content|, true))],
          {0}, {}, map[Sha(content) := |content|])
  }

  lemma CreatesBlob(content: bytes)
    requires content != []
    ensures Run(INIT, Upload(0, content) + [Stat(0, false), Rename(0, true)]) == Some(Created(content))
  {
    var s := Uploaded(INIT, 0, content);
    hide Step, Uploaded, Created;
    RunUpload(INIT, 0, content);
    RunAppend(INIT, Upload(0, content), [Stat(0, false), Rename(0, true)]);
    FirstCreates(content);
    Run2(s, Stat(0, false), Rename(0, true));
  }

  lemma FirstCreates(content: bytes)
    requires content != []
    ensures
      var s := Uploaded(INIT, 0, content);
      && Step(s, Stat(0, false)).Some?
      && Step(Step(s, Stat(0, false)).value, Rename(0, true)) == Some(Created(content))
  {
    UploadedIs(INIT, 0, content);
    hide Uploaded;
    var s := Uploaded(INIT, 0, content);
    var s' := Step(s, Stat(0, false)).value;
    var t := Step(s', Rename(0, true)).value;
    assert t.files == Created(content).files;
    assert t.puts == Created(content).puts && t.used == Created(content).used;
  }

  lemma LosesBlob(content: bytes)
    requires content != []
    ensures
      var r := Run(Uploaded(Created(content), 1, content), [Stat(1, true), Remove(Sha(content), true)] + [Unlink(1, true)]);
      && r.Some? && 1 in r.value.puts && r.value.puts[1].stage == Done(Sha(content), |content|, false)
      && Final(Sha(content)) !in r.value.files
  {
    var s := Uploaded(Created(content), 1, content);
    var stat, remove, unlink := Stat(1, true), Remove(Sha(content), true), Unlink(1, true);
    LostInBetween(s, content);
    hide Step, Uploaded, Created;
    var s' := Step(Step(s, stat).value, remove).value;
    Run2(s, stat, remove);
    RunAppend(s, [stat, remove], [unlink]);
    assert Run(s', [unlink]) == Step(s', unlink);
  }

  /** A removal between the stat and the return. */
  lemma LostInBetween(s: State, content: bytes)
    requires s == Uploaded(Created(content), 1, content) && content != []
    ensures
      && Step(s, Stat(1, true)).Some?
      && var s1 := Step(s, Stat(1, true)).value;
      && Step(s1, Remove(Sha(content), true)).Some?
      && var s2 := Step(s1, Remove(Sha(content), true)).value;
      && Step(s2, Unlink(1, true)).Some?
      && var t := Step(s2, Unlink(1, true)).value;
      && 1 in t.puts && t.puts[1].stage == Done(Sha(content), |content|, false) && Final(Sha(content)) !in t.files
  {
    UploadedIs(Created(content), 1, content);
    hide Uploaded;
  }

  lemma RunUpload(s: State, p: nat, content: bytes)
    requires p !in s.used
    ensures Run(s, Upload(p, content)) == Some(Uploaded(s, p, content))
  {
    var s2 := Opened(s, p, |content|);
    var s4 := Written(s2, p, content);
    assert s2.puts[p] == Put(|content|, [], Open, Piping) && s2.files[Temp(p)] == [];
    assert s4.puts[p] == Put(|content|, content, Open, Piping) && s4.files[Temp(p)] == content;
    hide Run, Step, Opened, Written, Ended;
    OpensTemp(s, p, |content|);
    WritesTemp(s2, p, content);
    EndsUpload(s4, p, content);
    RunAppend(s2, [Chunk(p, content), Write(p, |content|)], [SourceEnds(p)]);
    RunAppend(s, [Begin(p, |content|), OpenLands(p)], [Chunk(p, content), Write(p, |content|)] + [SourceEnds(p)]);
  }

  lemma EndsUpload(s: State, p: nat, content: bytes)
    requires p in s.puts && s.puts[p] == Put(|content|, content, Open, Piping)
    requires Temp(p) in s.files && s.files[Temp(p)] == content
    ensures Run(s, [SourceEnds(p)]) == Some(Ended(s, p, content))
  {
    assert Run(s, [SourceEnds(p)]) == Step(s, SourceEnds(p));
  }

  lemma OpensTemp(s: State, p: nat, limit: nat)
    requires p !in s.used
    ensures Run(s, [Begin(p, limit), OpenLands(p)]) == Some(Opened(s, p, limit))
  {
    Run2(s, Begin(p, limit), OpenLands(p));
    assert s.puts[p := Put(limit, [], Opening, Piping)][p := Put(limit, [], Open, Piping)]
        == s.puts[p := Put(limit, [], Open, Piping)];
  }

  lemma WritesTemp(s: State, p: nat, content: bytes)
    requires p in s.puts && s.puts[p] == Put(|content|, [], Open, Piping) && Temp(p) in s.files && s.files[Temp(p)] == []
    ensures Run(s, [Chunk(p, content), Write(p, |content|)]) == Some(Written(s, p, content))
  {
    assert [] + content == content == content[..|content|];
    Run2(s, Chunk(p, content), Write(p, |content|));
  }

  lemma Run2(s: State, a: Event, b: Event)
    requires Step(s, a).Some? && Step(Step(s, a).value, b).Some?
    ensures Run(s, [a, b]) == Step(Step(s, a).value, b)
  {
    hide Step;
    assert [a, b][1..] == [b];
    assert Run(Step(s, a).value, [b]) == Step(Step(s, a).value, b);
  }

  lemma {:induction false} RunAppend(s: State, a: seq<Event>, b: seq<Event>)
    requires Run(s, a).Some?
    ensures Run(s, a + b) == Run(Run(s, a).value, b)
    decreases |a|
  {
    hide Step;
    if a == [] {
      assert a + b == b;
    } else {
      assert (a + b)[1..] == a[1..] + b;
      RunAppend(Step(s, a[0]).value, a[1..], b);
    }
  }

  // ------------------------------------------------- what a put comes to, and why

  /** Everything that was sent to a put, and how much. */
  function SentTo(events: seq<Event>, p: nat): bytes {
    if events == [] then []
    else
      var e := events[|events| - 1];
      SentTo(events[..|events| - 1], p) + if e.Chunk? && e.p == p then e.chunk else []
  }

  /** The upload broke off, the temp file could not be opened, or the rename failed. */
  predicate Failed(events: seq<Event>, p: nat) {
    OpenFails(p) in events || PipeFails(p) in events || Rename(p, false) in events
  }

  /** The stage, from what was sent and what failed. */
  predicate Earned(q: Put, events: seq<Event>, p: nat) {
    var sent := SentTo(events, p);
    && Begin(p, q.limit) in events
    && (|sent| <= q.limit ==> q.hashed == sent)
    && match q.stage
       case Failing(tooLarge) => if tooLarge then |sent| > q.limit else |sent| <= q.limit && Failed(events, p)
       case Closed(tooLarge) => if tooLarge then |sent| > q.limit else |sent| <= q.limit && Failed(events, p)
       case Threw(tooLarge) =>
         if tooLarge then |sent| > q.limit else |sent| <= q.limit && (Failed(events, p) || sent == [])
       case Renaming => |sent| <= q.limit && !Failed(events, p) && sent != []
       case DroppingCopy(_) => |sent| <= q.limit && !Failed(events, p) && sent != []
       case Done(_, _, _) => |sent| <= q.limit && !Failed(events, p) && sent != []
       case _ => |sent| <= q.limit && !Failed(events, p)
  }

  /** Nothing happens to a put that has not begun. */
  predicate Untouched(events: seq<Event>, p: nat) {
    SentTo(events, p) == [] && !Failed(events, p)
  }

  ghost predicate AllEarned(s: State, events: seq<Event>) {
    && (forall p <- s.puts :: p in s.used && Earned(s.puts[p], events, p))
    && (forall p: nat :: p !in s.used ==> Untouched(events, p))
  }

  lemma SentLonger(events: seq<Event>, e: Event, p: nat)
    ensures SentTo(events + [e], p) == SentTo(events, p) + if e.Chunk? && e.p == p then e.chunk else []
    ensures Failed(events + [e], p)
            <==> Failed(events, p) || e == OpenFails(p) || e == PipeFails(p) || e == Rename(p, false)
  {
    assert (events + [e])[..|events|] == events;
  }

  /** An event about another put, or about none. */
  predicate Elsewhere(e: Event, p: nat) {
    e.Remove? || e.Crash? || e.p != p
  }

  lemma ElsewhereEarned(s: State, events: seq<Event>, e: Event, p: nat)
    requires Step(s, e).Some? && Elsewhere(e, p)
    requires p in s.puts ==> Earned(s.puts[p], events, p)
    requires p !in s.used ==> Untouched(events, p)
    ensures
      var t := Step(s, e).value;
      && (p in t.puts ==> p in s.puts && Earned(t.puts[p], events + [e], p))
      && (p !in t.used ==> p !in s.used && Untouched(events + [e], p))
      && (p in s.used ==> p in t.used)
  {
    SentLonger(events, e, p);
    hide SentTo, Failed, AfterUnlink;
  }

  lemma BeginEarned(s: State, events: seq<Event>, p: nat, limit: nat)
    requires Step(s, Begin(p, limit)).Some? && (p !in s.used ==> Untouched(events, p))
    ensures
      var (t, all) := (Step(s, Begin(p, limit)).value, events + [Begin(p, limit)]);
      p in t.used && p in t.puts && Earned(t.puts[p], all, p)
  {
    SentLonger(events, Begin(p, limit), p);
    hide SentTo, Failed;
  }

  lemma PipeEarned(s: State, events: seq<Event>, e: Event)
    requires e.OpenLands? || e.OpenFails? || e.Chunk? || e.Write? || e.PipeFails? || e.SourceEnds? || e.Closes?
    requires PipeStep(s, e).Some? && e.p in s.puts && Earned(s.puts[e.p], events, e.p)
    requires |s.puts[e.p].hashed| <= s.puts[e.p].limit
    ensures
      var t := PipeStep(s, e).value;
      t.used == s.used && e.p in t.puts && Earned(t.puts[e.p], events + [e], e.p)
  {
    SentLonger(events, e, e.p);
    hide SentTo, Failed;
  }

  lemma FileEarned(s: State, events: seq<Event>, e: Event)
    requires e.Unlink? || e.Stat? || e.Rename?
    requires FileStep(s, e).Some? && e.p in s.puts && Earned(s.puts[e.p], events, e.p)
    requires |s.puts[e.p].hashed| <= s.puts[e.p].limit
    ensures
      var t := FileStep(s, e).value;
      t.used == s.used && e.p in t.puts && Earned(t.puts[e.p], events + [e], e.p)
  {
    SentLonger(events, e, e.p);
    hide SentTo, Failed;
  }

  lemma OwnEarned(s: State, events: seq<Event>, e: Event)
    requires Step(s, e).Some? && !e.Remove? && !e.Crash?
    requires e.p in s.puts ==> e.p in s.used && Earned(s.puts[e.p], events, e.p)
    requires e.p !in s.used ==> Untouched(events, e.p)
    requires e.p in s.puts ==> |s.puts[e.p].hashed| <= s.puts[e.p].limit
    ensures
      var t := Step(s, e).value;
      e.p in t.used && e.p in t.puts && Earned(t.puts[e.p], events + [e], e.p)
  {
    hide Earned, Untouched;
    match e
    case Begin(p, limit) => BeginEarned(s, events, p, limit);
    case Unlink(_, _) => FileEarned(s, events, e);
    case Stat(_, _) => FileEarned(s, events, e);
    case Rename(_, _) => FileEarned(s, events, e);
    case _ => PipeEarned(s, events, e);
  }

  lemma StepEarned(s: State, events: seq<Event>, e: Event)
    requires Inv(s) && AllEarned(s, events) && Step(s, e).Some?
    ensures AllEarned(Step(s, e).value, events + [e])
  {
    var t := Step(s, e).value;
    forall p: nat
      ensures p in t.puts ==> p in t.used && Earned(t.puts[p], events + [e], p)
      ensures p !in t.used ==> Untouched(events + [e], p)
    {
      WithinLimit(s, p);
      hide Inv, Step, Earned, Untouched;
      if Elsewhere(e, p) {
        ElsewhereEarned(s, events, e, p);
      } else {
        OwnEarned(s, events, e);
      }
    }
  }

  lemma WithinLimit(s: State, p: nat)
    requires Inv(s)
    ensures p in s.puts ==> |s.puts[p].hashed| <= s.puts[p].limit
  {
    hide Addressed, Named;
    assert p in s.puts ==> TempOk(s.puts[p], TempOf(s, p), p in s.stuck);
  }

  lemma {:induction false} RunEarned(s: State, done: seq<Event>, events: seq<Event>)
    requires Inv(s) && AllEarned(s, done) && Run(s, events).Some?
    ensures AllEarned(Run(s, events).value, done + events)
    decreases |events|
  {
    hide Step, Inv, AllEarned;
    if events == [] {
      assert done + events == done;
    } else {
      StepKeeps(s, events[0]);
      StepEarned(s, done, events[0]);
      RunEarned(Step(s, events[0]).value, done + [events[0]], events[1..]);
      assert done + [events[0]] + events[1..] == done + events;
    }
  }

  /**
   * Over every run, what an ended put came to: too large exactly if the chunks sent to it add up to more than
   * its limit; otherwise thrown exactly if something of its own failed or nothing was sent; otherwise it returned
   * the digest and size of exactly what was sent.
   */
  lemma OutcomeExactly(events: seq<Event>, p: nat)
    requires Run(INIT, events).Some? && p in Run(INIT, events).value.puts
    ensures
      var q, sent := Run(INIT, events).value.puts[p], SentTo(events, p);
      && Begin(p, q.limit) in events
      && (Settled(q) ==>
            if |sent| > q.limit then q.stage == Threw(true)
            else if Failed(events, p) || sent == [] then q.stage == Threw(false)
            else q.stage.Done? && q.stage.digest == Sha(sent) && q.stage.size == |sent|)
  {
    var s := Run(INIT, events).value;
    assert [] + events == events;
    NothingEarned();
    RunEarned(INIT, [], events);
    ResultsDescribeUpload(events, p);
    hide Run, SentTo, Failed, Inv;
    EarnedOutcome(s.puts[p], events, p);
  }

  lemma EarnedOutcome(q: Put, events: seq<Event>, p: nat)
    requires Earned(q, events, p) && |q.hashed| <= q.limit
    requires q.stage.Done? ==> q.stage.digest == Sha(q.hashed) && q.stage.size == |q.hashed|
    ensures
      var sent := SentTo(events, p);
      && Begin(p, q.limit) in events
      && (Settled(q) ==>
            if |sent| > q.limit then q.stage == Threw(true)
            else if Failed(events, p) || sent == [] then q.stage == Threw(false)
            else q.stage.Done? && q.stage.digest == Sha(sent) && q.stage.size == |sent|)
  {
    hide SentTo, Failed;
  }

  lemma NothingEarned()
    ensures Inv(INIT) && AllEarned(INIT, [])
  {
    hide Failed;
    forall p: nat
      ensures !Failed([], p)
    {
      NothingFailed(p);
    }
  }

  lemma NothingFailed(p: nat)
    ensures !Failed([], p)
  {
  }

  /** What a put that has not ended waits for; each of these can come next, and nothing else about it can. */
  predicate Awaits(s: State, p: nat, e: Event)
    requires p in s.puts
  {
    var q := s.puts[p];
    match q.stage
    case Piping =>
      || e.Chunk? || e.PipeFails? || (q.sink == Opening && (e.OpenLands? || e.OpenFails?))
      || (q.sink == Open && e.SourceEnds? && TempOf(s, p) == Some(q.hashed))
      || (q.sink == Open && e.Write? && TempOf(s, p).Some? && |TempOf(s, p).value| <= e.upTo <= |q.hashed|)
    case Failing(_) =>
      || (q.sink == Opening && (e.OpenLands? || e.OpenFails?)) || (q.sink != Opening && e.Closes?)
      || (q.sink == Open && e.Write? && TempOf(s, p).Some? && |TempOf(s, p).value| <= e.upTo <= |q.hashed|)
    case Closed(_) => e.Unlink?
    case Piped => if q.hashed == [] then e.Unlink? else e.Stat? && (e.found ==> Final(Sha(q.hashed)) in s.files)
    case DroppingCopy(_) => e.Unlink?
    case Renaming => e.Rename?
    case _ => false
  }

  lemma AwaitsExactly(s: State, p: nat, e: Event)
    requires Inv(s) && p in s.puts && !Elsewhere(e, p) && !e.Begin?
    ensures Step(s, e).Some? <==> Awaits(s, p, e)
  {
    hide Addressed, Named;
    assert TempOk(s.puts[p], TempOf(s, p), p in s.stuck);
    var q := s.puts[p];
    if q.stage.Piping? && q.sink == Open {
      WholePrefix(TempOf(s, p).value, q.hashed);
    }
  }

  lemma WholePrefix(a: bytes, b: bytes)
    requires a <= b
    ensures |a| == |b| <==> a == b
  {
  }

  /**
   * Over every run, exactly the events a put waits for can come next; there is one until it has ended, and both
   * outcomes of every file operation are possible.
   */
  lemma PutsAreNeverStuck(events: seq<Event>, p: nat, e: Event)
    requires Run(INIT, events).Some? && p in Run(INIT, events).value.puts
    ensures
      var s := Run(INIT, events).value;
      && (!Elsewhere(e, p) && !e.Begin? ==> (Step(s, e).Some? <==> Awaits(s, p, e)))
      && (Settled(s.puts[p]) || exists next: Event :: !Elsewhere(next, p) && Step(s, next).Some?)
  {
    var s := Run(INIT, events).value;
    RunKeeps(INIT, events);
    hide Run, Inv, Step, Awaits;
    if !Elsewhere(e, p) && !e.Begin? {
      AwaitsExactly(s, p, e);
    }
    if !Settled(s.puts[p]) {
      NextIsAwaited(s, p);
      AwaitsExactly(s, p, Next(s, p));
    }
  }

  lemma NextIsAwaited(s: State, p: nat)
    requires p in s.puts && !Settled(s.puts[p])
    ensures Awaits(s, p, Next(s, p)) && !Elsewhere(Next(s, p), p) && !Next(s, p).Begin?
  {
  }

  function Next(s: State, p: nat): Event
    requires p in s.puts
  {
    match s.puts[p].stage
    case Piping => PipeFails(p)
    case Failing(_) => if s.puts[p].sink == Opening then OpenLands(p) else Closes(p)
    case Piped => if s.puts[p].hashed == [] then Unlink(p, true) else Stat(p, false)
    case Renaming => Rename(p, true)
    case _ => Unlink(p, true)
  }
}
