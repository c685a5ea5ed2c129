/** The Framer SDK session: concurrent callers share one child process through a lock, with
    timeouts, cancellation, recoverable errors and an explicit close.

    The protocol is a state machine whose steps are the stretches of code between two awaits,
    interleaved with steps of the child process. */
module FramerSession {
  import opened Collections

  datatype Code =
    | SessionClosed | InvalidArguments | ToolUnavailable | RequestTimeout
    | TransportClosed | ProtocolError | ResponseIdMismatch | Other(name: string)

  datatype Outcome = Returned | Failed(code: Code) | Cancelled

  /** What the child writes: its ready line, a reply to a request, or anything else. */
  datatype Body = Result(isToolList: bool) | Error(code: Code) | NoResult
  datatype Line = Ready(protocol: bool, ready: bool) | Reply(id: nat, body: Body) | Garbage

  datatype Kind = ListTools | CallTool | Close

  /** Where a call is suspended. `Stopping` waits for the child to exit, with or without the lock. */
  datatype Phase =
    | Waiting
    | Draining(id: nat)
    | Reading(id: nat)
    | Stopping(outcome: Outcome, locked: bool)
    | Done(outcome: Outcome)

  datatype Call = Call(kind: Kind, phase: Phase)

  /** How far `__aenter__` has come. */
  datatype Entry = NotEntered | Spawning | AwaitReady | EntryStopping | Opened | EntryFailed

  datatype Process = Absent | Live(stdinOpen: bool) | Exited

  datatype State = State(
    entered: bool,
    usable: bool,
    entry: Entry,
    process: Process,
    lock: Option<nat>,
    calls: map<nat, Call>,
    inbox: seq<nat>,             // requests the child has not answered yet
    outbox: seq<Line>,           // lines the session has not read yet
    readySent: bool,
    written: seq<(nat, nat)>     // every request written, as (call, request id)
  )

  const INITIAL := State(false, false, NotEntered, Absent, None, map[], [], [], false, [])

  datatype Trouble = Timeout | Cancel | EndOfStream | OsError

  datatype Step =
    // __aenter__
    | Enter(hasProject: bool)
    | Spawned(ok: bool)
    | ReadReady
    | ReadyTrouble
    | EntryStopped
    | EntryCancelled
    // list_tools, call_tool, close
    | Start(c: nat, kind: Kind)
    | Acquire(c: nat, id: nat, encodable: bool, writes: bool)
    | Drained(c: nat)
    | ReadReply(c: nat)
    | Troubled(c: nat, trouble: Trouble)
    | Stopped(c: nat)
    | CancelCall(c: nat)
    // the child process
    | ChildReady(protocol: bool, ready: bool)
    | ChildAnswer(body: Body)
    | ChildSays(line: Line)
    | ChildExits

  // ---------------------------------------------------------------------------
  // The stretches between awaits
  // ---------------------------------------------------------------------------

  /** The synchronous start of `_stop_process`: a live child loses its stdin. */
  function CloseStdin(p: Process): Process {
    if p.Live? then Live(false) else p
  }

  function Put(s: State, c: nat, phase: Phase): State
    requires c in s.calls
  {
    s.(calls := s.calls[c := s.calls[c].(phase := phase)])
  }

  function Release(s: State, c: nat): State {
    if s.lock == Some(c) then s.(lock := None) else s
  }

  /** A call leaves `_request`: the lock is released, and `close` goes on to its finally clause. */
  function Leave(s: State, c: nat, outcome: Outcome): State
    requires c in s.calls
  {
    var free := Release(s, c);
    if s.calls[c].kind == Close
    then Put(free.(usable := false, process := CloseStdin(s.process)), c, Stopping(outcome, false))
    else Put(free, c, Done(outcome))
  }

  /** An error that invalidates the session while the lock is held. */
  function Invalidate(s: State, c: nat, outcome: Outcome): State
    requires c in s.calls
  {
    Put(s.(usable := false, process := CloseStdin(s.process), lock := Some(c)), c, Stopping(outcome, true))
  }

  function Recoverable(code: Code): bool {
    code == InvalidArguments || code == ToolUnavailable
  }

  /** What a line read for the request `id` means: the call ends, the session breaks, or a
      `list_tools` result has the wrong shape. */
  datatype Verdict = Ends(outcome: Outcome) | Breaks(code: Code) | NotAToolList

  function Judge(kind: Kind, id: nat, line: Line): Verdict {
    match line
    case Garbage => Breaks(ProtocolError)
    case Ready(_, _) => Breaks(ResponseIdMismatch)
    case Reply(rid, body) =>
      if rid != id then Breaks(ResponseIdMismatch)
      else
        match body
        case Error(code) => if Recoverable(code) then Ends(Failed(code)) else Breaks(code)
        case NoResult => Breaks(ProtocolError)
        case Result(isToolList) => if kind == ListTools && !isToolList then NotAToolList else Ends(Returned)
  }

  function AfterReply(s: State, c: nat, v: Verdict): State
    requires c in s.calls
  {
    match v
    case Ends(outcome) => Leave(s, c, outcome)
    case Breaks(code) => Invalidate(s, c, Failed(code))
    case NotAToolList =>
      Put(Release(s, c).(usable := false, process := CloseStdin(s.process)), c, Stopping(Failed(ProtocolError), false))
  }

  function TroubleOutcome(t: Trouble): Outcome {
    match t
    case Timeout => Failed(RequestTimeout)
    case Cancel => Cancelled
    case EndOfStream => Failed(TransportClosed)
    case OsError => Failed(TransportClosed)
  }

  predicate Enabled(s: State, step: Step) {
    match step
    case Enter(_) => true
    case Spawned(_) => s.entry == Spawning
    case ReadReady => s.entry == AwaitReady && s.outbox != []
    case ReadyTrouble => s.entry == AwaitReady
    case EntryStopped => s.entry == EntryStopping && !s.process.Live?
    case EntryCancelled => s.entry == EntryStopping
    case Start(c, _) => c !in s.calls
    case Acquire(c, id, _, _) => c in s.calls && s.calls[c].phase == Waiting && s.lock == None && Fresh(s, id)
    case Drained(c) => c in s.calls && s.calls[c].phase.Draining?
    case ReadReply(c) => c in s.calls && s.calls[c].phase.Reading? && s.outbox != []
    case Troubled(c, t) =>
      && c in s.calls && (s.calls[c].phase.Draining? || s.calls[c].phase.Reading?)
      && (t == EndOfStream ==> s.calls[c].phase.Reading? && s.outbox == [])
    case Stopped(c) => c in s.calls && s.calls[c].phase.Stopping? && !s.process.Live?
    case CancelCall(c) => c in s.calls && (s.calls[c].phase.Waiting? || s.calls[c].phase.Stopping?)
    case ChildReady(_, _) => s.process.Live? && !s.readySent
    case ChildAnswer(_) => s.process.Live? && s.readySent && s.inbox != []
    case ChildSays(_) => s.process.Live?
    case ChildExits => s.process.Live?
  }

  /** Request ids come from uuid4; two requests never share one. */
  predicate Fresh(s: State, id: nat) {
    forall w :: w in s.written ==> w.1 != id
  }

  function Apply(s: State, step: Step): State
    requires Enabled(s, step)
  {
    match step
    case Enter(hasProject) =>
      if s.entered then s
      else if !hasProject then s.(entered := true, entry := EntryFailed)
      else s.(entered := true, entry := Spawning)
    case Spawned(ok) =>
      if ok then s.(entry := AwaitReady, process := Live(true)) else s.(entry := EntryFailed)
    case ReadReady =>
      var rest := s.(outbox := s.outbox[1..]);
      if s.outbox[0] == Ready(true, true) then rest.(usable := true, entry := Opened)
      else rest.(entry := EntryStopping, process := CloseStdin(s.process))
    case ReadyTrouble => s.(entry := EntryStopping, process := CloseStdin(s.process))
    case EntryStopped => s.(entry := EntryFailed)
    case EntryCancelled => s.(entry := EntryFailed)
    case Start(c, kind) =>
      var made := s.(calls := s.calls[c := Call(kind, Waiting)]);
      if s.usable && !s.process.Absent? then made
      else if kind == Close then Leave(made, c, Returned)
      else Put(made, c, Done(Failed(SessionClosed)))
    case Acquire(c, id, encodable, writes) =>
      if !s.usable then Leave(s, c, Failed(SessionClosed))
      else if !encodable then Leave(s, c, Failed(InvalidArguments))
      else if !writes then Invalidate(s, c, Failed(TransportClosed))
      else Put(s.(lock := Some(c),
                  inbox := if s.process == Live(true) then s.inbox + [id] else s.inbox,
                  written := s.written + [(c, id)]), c, Draining(id))
    case Drained(c) => Put(s, c, Reading(s.calls[c].phase.id))
    case ReadReply(c) => AfterReply(s.(outbox := s.outbox[1..]), c,
        Judge(s.calls[c].kind, s.calls[c].phase.id, s.outbox[0]))
    case Troubled(c, t) => Invalidate(s, c, TroubleOutcome(t))
    case Stopped(c) =>
      if s.calls[c].phase.locked then Leave(s, c, s.calls[c].phase.outcome)
      else Put(s, c, Done(s.calls[c].phase.outcome))
    case CancelCall(c) =>
      if s.calls[c].phase.Stopping? && !s.calls[c].phase.locked then Put(s, c, Done(Cancelled))
      else Leave(s, c, Cancelled)
    case ChildReady(protocol, ready) => s.(readySent := true, outbox := s.outbox + [Ready(protocol, ready)])
    case ChildAnswer(body) => s.(inbox := s.inbox[1..], outbox := s.outbox + [Reply(s.inbox[0], body)])
    case ChildSays(line) => s.(outbox := s.outbox + [line])
    case ChildExits => s.(process := Exited)
  }

  /** The state after a run, where every step is enabled in turn. */
  ghost predicate Runs(s: State, steps: seq<Step>, t: State)
    decreases steps
  {
    if steps == [] then s == t
    else Enabled(s, steps[0]) && Runs(Apply(s, steps[0]), steps[1..], t)
  }

  lemma RunCons(s: State, step: Step, steps: seq<Step>, t: State)
    requires Enabled(s, step) && Runs(Apply(s, step), steps, t)
    ensures Runs(s, [step] + steps, t)
  {
    assert ([step] + steps)[1..] == steps;
  }

  lemma {:induction false} RunsOn(s: State, steps: seq<Step>, t: State, step: Step)
    requires Runs(s, steps, t) && Enabled(t, step)
    ensures Runs(s, steps + [step], Apply(t, step))
    decreases steps
  {
    if steps == [] {
      RunCons(s, step, [], Apply(t, step));
      assert steps + [step] == [step] + [];
    } else {
      RunsOn(Apply(s, steps[0]), steps[1..], t, step);
      assert (steps + [step])[0] == steps[0] && (steps + [step])[1..] == steps[1..] + [step];
    }
  }

  /** A child that answers each request once, in order, with its id. */
  ghost predicate AllHonest(steps: seq<Step>) {
    forall step :: step in steps ==> IsHonest(step)
  }

  ghost predicate IsHonest(step: Step) {
    !step.ChildSays? && (step.ChildAnswer? ==> step.body != Error(ResponseIdMismatch))
  }

  /** A ready line that was sent has not been read. */
  predicate ReadyIsComing(s: State) {
    s.readySent ==> s.outbox != []
  }

  // ---------------------------------------------------------------------------
  // What every step keeps, whatever the child does
  // ---------------------------------------------------------------------------

  predicate HoldsLock(p: Phase) {
    p.Draining? || p.Reading? || (p.Stopping? && p.locked)
  }

  ghost predicate AtMostOneOutstanding(calls: map<nat, Call>) {
    forall a, b :: a in calls && b in calls && IsOutstanding(calls[a].phase) && IsOutstanding(calls[b].phase) ==> a == b
  }

  predicate IsOutstanding(p: Phase) {
    p.Draining? || p.Reading?
  }

  ghost predicate LockInvariant(s: State) {
    && (forall c :: c in s.calls && HoldsLock(s.calls[c].phase) ==> s.lock == Some(c))
    && (s.lock.Some? ==> s.lock.value in s.calls && HoldsLock(s.calls[s.lock.value].phase))
  }

  /** Every write belongs to a call that is past waiting; no call and no id appears twice. */
  ghost predicate WriteInvariant(s: State) {
    && (forall w :: w in s.written ==> w.0 in s.calls && s.calls[w.0].phase != Waiting)
    && forall i, j :: 0 <= i < j < |s.written| ==> s.written[i].0 != s.written[j].0 && s.written[i].1 != s.written[j].1
  }

  ghost predicate EntryInvariant(s: State) {
    && (s.usable ==> s.entry == Opened)
    && (s.entry == NotEntered <==> !s.entered)
    && (s.entry == NotEntered || s.entry == Spawning ==> s.process.Absent? && s.outbox == [] && !s.readySent)
    && (s.entry == AwaitReady || s.entry == EntryStopping || s.entry == Opened ==> !s.process.Absent?)
    && (s.entry != Opened ==> s.lock == None && s.written == [])
  }

  ghost predicate Invariant(s: State) {
    LockInvariant(s) && WriteInvariant(s) && EntryInvariant(s)
  }

  lemma LeaveKeeps(s: State, c: nat, outcome: Outcome)
    requires Invariant(s) && c in s.calls && (s.lock == None || s.lock == Some(c))
    ensures Invariant(Leave(s, c, outcome))
    ensures Leave(s, c, outcome).lock == None
  {
    LeaveLocks(s, c, outcome);
    LeaveWrites(s, c, outcome);
  }

  lemma LeaveLocks(s: State, c: nat, outcome: Outcome)
    requires LockInvariant(s) && c in s.calls && (s.lock == None || s.lock == Some(c))
    ensures LockInvariant(Leave(s, c, outcome)) && Leave(s, c, outcome).lock == None
  {
  }

  lemma LeaveWrites(s: State, c: nat, outcome: Outcome)
    requires WriteInvariant(s) && EntryInvariant(s) && c in s.calls
    ensures WriteInvariant(Leave(s, c, outcome)) && EntryInvariant(Leave(s, c, outcome))
  {
  }

  lemma InvalidateKeeps(s: State, c: nat, outcome: Outcome)
    requires Invariant(s) && c in s.calls && s.entry == Opened && (s.lock == None || s.lock == Some(c))
    ensures Invariant(Invalidate(s, c, outcome))
  {
  }

  lemma AfterReplyKeeps(s: State, c: nat, v: Verdict)
    requires Invariant(s) && s.lock == Some(c) && c in s.calls && s.entry == Opened
    ensures Invariant(AfterReply(s, c, v))
  {
    match v
    case Ends(outcome) => LeaveKeeps(s, c, outcome);
    case Breaks(code) => InvalidateKeeps(s, c, Failed(code));
    case NotAToolList =>
  }

  lemma StartKeeps(s: State, c: nat, kind: Kind)
    requires Invariant(s) && c !in s.calls
    ensures Invariant(Apply(s, Start(c, kind)))
  {
    var made := s.(calls := s.calls[c := Call(kind, Waiting)]);
    NewKeeps(s, c, kind);
    WaitingLeaves(made, c, Returned);
    EndKeeps(made, c, Failed(SessionClosed));
  }

  lemma NewKeeps(s: State, c: nat, kind: Kind)
    requires Invariant(s) && c !in s.calls
    ensures Invariant(s.(calls := s.calls[c := Call(kind, Waiting)]))
  {
  }

  /** A call that does not hold the lock ends. */
  lemma EndKeeps(s: State, c: nat, outcome: Outcome)
    requires Invariant(s) && c in s.calls && !HoldsLock(s.calls[c].phase)
    ensures Invariant(Put(s, c, Done(outcome)))
  {
  }

  lemma AcquireKeeps(s: State, c: nat, id: nat, encodable: bool, writes: bool)
    requires Invariant(s) && Enabled(s, Acquire(c, id, encodable, writes))
    ensures Invariant(Apply(s, Acquire(c, id, encodable, writes)))
  {
    LeaveKeeps(s, c, Failed(SessionClosed));
    LeaveKeeps(s, c, Failed(InvalidArguments));
    if s.usable {
      InvalidateKeeps(s, c, Failed(TransportClosed));
      var t := Apply(s, Acquire(c, id, encodable, writes));
      if encodable && writes {
        forall i, j | 0 <= i < j < |t.written|
          ensures t.written[i].0 != t.written[j].0 && t.written[i].1 != t.written[j].1
        {
          if j == |s.written| { assert s.written[i] in s.written; }
        }
      }
    }
  }

  /** Every step keeps the lock exclusive and the writes unique. */
  lemma StepKeeps(s: State, step: Step)
    requires Invariant(s) && Enabled(s, step)
    ensures Invariant(Apply(s, step))
  {
    match step
    case Start(c, kind) => StartKeeps(s, c, kind);
    case Acquire(c, id, encodable, writes) => AcquireKeeps(s, c, id, encodable, writes);
    case ReadReply(c) =>
      AfterReplyKeeps(s.(outbox := s.outbox[1..]), c, Judge(s.calls[c].kind, s.calls[c].phase.id, s.outbox[0]));
    case Troubled(c, t) => InvalidateKeeps(s, c, TroubleOutcome(t));
    case Stopped(c) => StoppedKeeps(s, c);
    case CancelCall(c) => CancelKeeps(s, c);
    case Drained(c) => DrainedKeeps(s, c);
    case _ =>
  }

  lemma DrainedKeeps(s: State, c: nat)
    requires Invariant(s) && Enabled(s, Drained(c))
    ensures Invariant(Apply(s, Drained(c)))
  {
  }

  lemma StoppedKeeps(s: State, c: nat)
    requires Invariant(s) && Enabled(s, Stopped(c))
    ensures Invariant(Apply(s, Stopped(c)))
  {
    if s.calls[c].phase.locked {
      LeaveKeeps(s, c, s.calls[c].phase.outcome);
    } else {
      EndKeeps(s, c, s.calls[c].phase.outcome);
    }
  }

  lemma CancelKeeps(s: State, c: nat)
    requires Invariant(s) && Enabled(s, CancelCall(c))
    ensures Invariant(Apply(s, CancelCall(c)))
  {
    if s.calls[c].phase.Stopping? && s.calls[c].phase.locked {
      LeaveKeeps(s, c, Cancelled);
    } else if s.calls[c].phase.Waiting? {
      WaitingLeaves(s, c, Cancelled);
    } else {
      EndKeeps(s, c, Cancelled);
    }
  }

  /** A call that waits for the lock can leave while another call holds it. */
  lemma WaitingLeaves(s: State, c: nat, outcome: Outcome)
    requires Invariant(s) && c in s.calls && s.calls[c].phase.Waiting?
    ensures Invariant(Leave(s, c, outcome))
  {
    assert s.lock != Some(c);
    LeaveWrites(s, c, outcome);
  }

  lemma InitialInvariant()
    ensures Invariant(INITIAL)
  {
  }

  lemma {:induction false} RunKeeps(s: State, steps: seq<Step>, t: State)
    requires Invariant(s) && Runs(s, steps, t)
    ensures Invariant(t)
    decreases steps
  {
    if steps != [] {
      StepKeeps(s, steps[0]);
      RunKeeps(Apply(s, steps[0]), steps[1..], t);
    }
  }

  /** Over every run from a new session: at most one request is outstanding, and no call and no
      request id is ever written twice. */
  lemma WritesAreUnique(steps: seq<Step>, t: State)
    requires Runs(INITIAL, steps, t)
    ensures AtMostOneOutstanding(t.calls)
    ensures forall i, j :: 0 <= i < j < |t.written| ==>
            t.written[i].0 != t.written[j].0 && t.written[i].1 != t.written[j].1
  {
    InitialInvariant();
    RunKeeps(INITIAL, steps, t);
  }

  // ---------------------------------------------------------------------------
  // A session that stops being usable stays unusable
  // ---------------------------------------------------------------------------

  /** Entry can still succeed: it has not started, or the next line can be a good ready line. */
  predicate CanOpen(s: State) {
    || s.entry == NotEntered || s.entry == Spawning
    || (s.entry == AwaitReady && if s.outbox == [] then s.process.Live? else s.outbox[0] == Ready(true, true))
  }

  /** Entry is decided and the session is not usable. */
  ghost predicate Dead(s: State) {
    !CanOpen(s) && !s.usable
  }

  /** The phases of a call that never writes again and never succeeds. */
  ghost predicate GivesUp(p: Phase) {
    match p
    case Waiting => true
    case Draining(_) => false
    case Reading(_) => false
    case Stopping(o, locked) => !locked && (o == Failed(SessionClosed) || o == Cancelled)
    case Done(o) => o == Failed(SessionClosed) || o == Cancelled
  }

  /** What a step from `s` to `t` does to calls that give up, once the session is dead. */
  ghost predicate StaysDead(s: State, t: State) {
    && Dead(t) && t.written == s.written
    && forall c :: c in s.calls ==> c in t.calls && (GivesUp(s.calls[c].phase) ==> GivesUp(t.calls[c].phase))
  }

  lemma DeadStart(s: State, c: nat, kind: Kind)
    requires Dead(s) && c !in s.calls
    ensures StaysDead(s, Apply(s, Start(c, kind)))
  {
  }

  lemma DeadAcquire(s: State, step: Step)
    requires Dead(s) && step.Acquire? && Enabled(s, step)
    ensures StaysDead(s, Apply(s, step))
  {
  }

  lemma DeadReply(s: State, c: nat, v: Verdict)
    requires Dead(s) && c in s.calls && s.calls[c].phase.Reading?
    ensures StaysDead(s, AfterReply(s, c, v))
  {
    match v
    case Ends(outcome) => DeadLeave(s, c, outcome);
    case Breaks(code) => DeadTrouble(s, c, Failed(code));
    case NotAToolList => DeadNotAList(s, c);
  }

  lemma DeadNotAList(s: State, c: nat)
    requires Dead(s) && c in s.calls && s.calls[c].phase.Reading?
    ensures StaysDead(s, AfterReply(s, c, NotAToolList))
  {
  }

  lemma DeadTrouble(s: State, c: nat, outcome: Outcome)
    requires Dead(s) && c in s.calls && IsOutstanding(s.calls[c].phase)
    ensures StaysDead(s, Invalidate(s, c, outcome))
  {
  }

  lemma DeadLeave(s: State, c: nat, outcome: Outcome)
    requires Dead(s) && c in s.calls && (GivesUp(s.calls[c].phase) ==> GivesUp(Done(outcome)))
    ensures StaysDead(s, Leave(s, c, outcome))
  {
  }

  lemma DeadPut(s: State, c: nat, outcome: Outcome)
    requires Dead(s) && c in s.calls && (GivesUp(s.calls[c].phase) ==> GivesUp(Done(outcome)))
    ensures StaysDead(s, Put(s, c, Done(outcome)))
  {
  }

  lemma DeadEnd(s: State, c: nat, outcome: Outcome, locked: bool)
    requires Dead(s) && c in s.calls && (GivesUp(s.calls[c].phase) ==> GivesUp(Done(outcome)))
    ensures StaysDead(s, if locked then Leave(s, c, outcome) else Put(s, c, Done(outcome)))
  {
    DeadLeave(s, c, outcome);
    DeadPut(s, c, outcome);
  }

  lemma DeadStep(s: State, step: Step)
    requires Invariant(s) && Dead(s) && Enabled(s, step)
    ensures StaysDead(s, Apply(s, step))
  {
    match step
    case Start(c, kind) => DeadStart(s, c, kind);
    case Acquire(_, _, _, _) => DeadAcquire(s, step);
    case ReadReply(c) =>
      DeadReply(s.(outbox := s.outbox[1..]), c, Judge(s.calls[c].kind, s.calls[c].phase.id, s.outbox[0]));
    case Troubled(c, t) => DeadTrouble(s, c, TroubleOutcome(t));
    case Stopped(c) => DeadEnd(s, c, s.calls[c].phase.outcome, s.calls[c].phase.locked);
    case CancelCall(c) => DeadEnd(s, c, Cancelled, !(s.calls[c].phase.Stopping? && !s.calls[c].phase.locked));
    case _ =>
  }

  lemma {:induction false} DeadSteps(s: State, steps: seq<Step>, t: State)
    requires Invariant(s) && Dead(s) && Runs(s, steps, t)
    ensures StaysDead(s, t)
    decreases steps
  {
    if steps != [] {
      DeadStep(s, steps[0]);
      StepKeeps(s, steps[0]);
      DeadSteps(Apply(s, steps[0]), steps[1..], t);
    }
  }

  // ---------------------------------------------------------------------------
  // Once usable, once
  // ---------------------------------------------------------------------------

  /** In every run, once the session has been usable and is not, it never is again. */
  lemma UsableNeverReturns(s: State, steps: seq<Step>, t: State)
    requires Invariant(s) && s.entry == Opened && !s.usable && Runs(s, steps, t)
    ensures !t.usable && t.written == s.written
  {
    DeadSteps(s, steps, t);
  }

  /** What a caller can rely on between two states: nothing written is taken back, and a session
      that is closed or can no longer open stays so and writes nothing. */
  ghost predicate Advances(s: State, t: State) {
    && s.written <= t.written
    && (s.entry == Opened ==> t.entry == Opened)
    && (s.entry == Opened && !s.usable ==> !t.usable && t.written == s.written)
    && (Dead(s) ==> Dead(t) && t.written == s.written)
  }

  lemma StepAdvances(s: State, step: Step)
    requires Invariant(s) && Enabled(s, step)
    ensures Advances(s, Apply(s, step))
  {
    StepWrites(s, step);
    if s.entry == Opened {
      StepStaysOpen(s, step);
    }
    if Dead(s) {
      DeadStep(s, step);
    }
  }

  lemma StepStaysOpen(s: State, step: Step)
    requires Invariant(s) && Enabled(s, step) && s.entry == Opened
    ensures Apply(s, step).entry == Opened
  {
  }

  lemma StepWrites(s: State, step: Step)
    requires Enabled(s, step)
    ensures s.written <= Apply(s, step).written
  {
    match step
    case Start(c, kind) =>
    case Acquire(c, id, encodable, writes) =>
    case ReadReply(c) =>
      ReplyWrites(s.(outbox := s.outbox[1..]), c, Judge(s.calls[c].kind, s.calls[c].phase.id, s.outbox[0]));
    case Stopped(c) =>
    case CancelCall(c) =>
    case _ =>
  }

  lemma ReplyWrites(s: State, c: nat, v: Verdict)
    requires c in s.calls
    ensures AfterReply(s, c, v).written == s.written
  {
  }

  lemma {:induction false} OpenedStays(s: State, steps: seq<Step>, t: State)
    requires Invariant(s) && s.entry == Opened && Runs(s, steps, t)
    ensures t.entry == Opened
    decreases steps
  {
    if steps != [] {
      StepKeeps(s, steps[0]);
      StepStaysOpen(s, steps[0]);
      OpenedStays(Apply(s, steps[0]), steps[1..], t);
    }
  }

  /** Over every run of a new session: usable, then not usable, then never usable again, and
      nothing is written from the moment it stops being usable. */
  lemma UsableOnce(early: seq<Step>, s: State, middle: seq<Step>, t: State, late: seq<Step>, u: State)
    requires Runs(INITIAL, early, s) && Runs(s, middle, t) && Runs(t, late, u)
    requires s.usable && !t.usable
    ensures !u.usable && u.written == t.written
  {
    InitialInvariant();
    RunKeeps(INITIAL, early, s);
    RunKeeps(s, middle, t);
    OpenedStays(s, middle, t);
    UsableNeverReturns(t, late, u);
  }
}
