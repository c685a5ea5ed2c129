/** The session object: each method is one stretch of `FramerNodeSession` between two awaits,
    written on the object's fields and proved to be the corresponding protocol step. `Perform` lets
    any schedule of callers, child and clock drive the object. */
module FramerNodeSession {
  import opened Collections
  import opened P = FramerSession
  import opened FramerTraffic
  import opened FramerTables

  class Session {
    var entered: bool
    var usable: bool
    var entry: Entry
    var process: Process
    var lock: Option<nat>
    var calls: map<nat, Call>
    var inbox: seq<nat>
    var outbox: seq<Line>
    var readySent: bool
    var written: seq<(nat, nat)>

    function Snapshot(): State
      reads this
    {
      State(entered, usable, entry, process, lock, calls, inbox, outbox, readySent, written)
    }

    /** One call holds the lock at most, no request is written twice, and entry explains usability. */
    ghost predicate Valid()
      reads this
    {
      Invariant(Snapshot())
    }

    /** Since `before`, nothing written was taken back, and a closed session stayed closed and silent. */
    ghost predicate IsLaterThan(before: State)
      reads this
    {
      Advances(before, Snapshot())
    }

    constructor ()
      ensures Valid() && Snapshot() == INITIAL
    {
      entered, usable, entry, process, lock := false, false, NotEntered, Absent, None;
      calls, inbox, outbox, readySent, written := map[], [], [], false, [];
      new;
      InitialInvariant();
    }

    /** What every enabled step will give its caller. */
    lemma Foresee(step: Step)
      requires Valid() && Enabled(Snapshot(), step)
      ensures Invariant(Apply(Snapshot(), step)) && Advances(Snapshot(), Apply(Snapshot(), step))
    {
      StepKeeps(Snapshot(), step);
      StepAdvances(Snapshot(), step);
    }

    /** `__aenter__` up to the spawning of the child. */
    method Enter(hasProject: bool) returns (alreadyEntered: bool)
      requires Valid()
      modifies this
      ensures Snapshot() == Apply(old(Snapshot()), Step.Enter(hasProject))
      ensures Valid() && IsLaterThan(old(Snapshot()))
      ensures alreadyEntered == old(entered)
      ensures Snapshot() == if old(entered) then old(Snapshot()) else
                old(Snapshot()).(entered := true, entry := if hasProject then Spawning else EntryFailed)
    {
      Foresee(Step.Enter(hasProject));
      alreadyEntered := entered;
      if entered {
        return;
      }
      entered := true;
      entry := if hasProject then Spawning else EntryFailed;
    }

    method Spawned(ok: bool)
      requires Valid() && entry == Spawning
      modifies this
      ensures Snapshot() == Apply(old(Snapshot()), Step.Spawned(ok))
      ensures Valid() && IsLaterThan(old(Snapshot()))
      ensures Snapshot() == if ok then old(Snapshot()).(entry := AwaitReady, process := Live(true))
                else old(Snapshot()).(entry := EntryFailed)
    {
      Foresee(Step.Spawned(ok));
      if ok {
        process := Live(true);
        entry := AwaitReady;
      } else {
        entry := EntryFailed;
      }
    }

    /** `__aenter__` after its read: only a good ready line makes the session usable. */
    method ReadReady() returns (ok: bool)
      requires Valid() && entry == AwaitReady && outbox != []
      modifies this
      ensures Snapshot() == Apply(old(Snapshot()), Step.ReadReady)
      ensures Valid() && IsLaterThan(old(Snapshot()))
      ensures IsReadyRead(old(Snapshot()), Snapshot())
      ensures ok == (old(outbox)[0] == Ready(true, true))
    {
      EntryTable(Snapshot(), true, true);
      Foresee(Step.ReadReady);
      var line := outbox[0];
      outbox := outbox[1..];
      ok := line.Ready? && line.protocol && line.ready;
      if ok {
        usable := true;
        entry := Opened;
      } else {
        StopProcess();
        entry := EntryStopping;
      }
    }

    /** The synchronous part of `_stop_process`. */
    method StopProcess()
      modifies this`process
      ensures process == CloseStdin(old(process))
    {
      if process.Live? {
        process := Live(false);
      }
    }

    method SetPhase(c: nat, phase: Phase)
      requires c in calls
      modifies this`calls
      ensures calls == old(calls)[c := old(calls)[c].(phase := phase)]
    {
      calls := calls[c := Call(calls[c].kind, phase)];
    }

    /** A call leaves `_request`; `close` runs its finally clause. */
    method LeaveRequest(c: nat, outcome: Outcome)
      requires c in calls
      modifies this
      ensures Snapshot() == Leave(old(Snapshot()), c, outcome)
    {
      if lock == Some(c) {
        lock := None;
      }
      if calls[c].kind == Close {
        usable := false;
        StopProcess();
        SetPhase(c, Stopping(outcome, false));
      } else {
        SetPhase(c, Done(outcome));
      }
    }

    /** The error handlers of `_request` that invalidate the session. */
    method Break(c: nat, outcome: Outcome)
      requires c in calls
      modifies this
      ensures Snapshot() == Invalidate(old(Snapshot()), c, outcome)
    {
      lock := Some(c);
      usable := false;
      StopProcess();
      SetPhase(c, Stopping(outcome, true));
    }

    /** `list_tools`, `call_tool` or `close` up to the lock. */
    method Start(c: nat, kind: Kind)
      requires Valid() && c !in calls
      modifies this
      ensures Snapshot() == Apply(old(Snapshot()), Step.Start(c, kind))
      ensures Valid() && IsLaterThan(old(Snapshot()))
      ensures IsStarted(old(Snapshot()), Snapshot(), c, kind)
    {
      StartTable(Snapshot(), c, kind);
      Foresee(Step.Start(c, kind));
      calls := calls[c := Call(kind, Waiting)];
      if usable && process != Absent {
        return;
      }
      if kind == Close {
        LeaveRequest(c, Returned);
      } else {
        SetPhase(c, Done(Failed(SessionClosed)));
      }
    }

    /** `_request` from the lock to the drain. */
    method Acquire(c: nat, id: nat, encodable: bool, writes: bool)
      requires Valid() && Enabled(Snapshot(), Step.Acquire(c, id, encodable, writes))
      modifies this
      ensures Snapshot() == Apply(old(Snapshot()), Step.Acquire(c, id, encodable, writes))
      ensures Valid() && IsLaterThan(old(Snapshot()))
      ensures IsAcquired(old(Snapshot()), Snapshot(), c, id, encodable, writes)
      ensures written == old(written) + if old(usable) && encodable && writes then [(c, id)] else []
    {
      AcquireTable(Snapshot(), c, id, encodable, writes);
      Foresee(Step.Acquire(c, id, encodable, writes));
      if !usable {
        LeaveRequest(c, Failed(SessionClosed));
        return;
      }
      if !encodable {
        LeaveRequest(c, Failed(InvalidArguments));
        return;
      }
      if !writes {
        Break(c, Failed(TransportClosed));
        return;
      }
      lock := Some(c);
      written := written + [(c, id)];
      if process == Live(true) {
        inbox := inbox + [id];
      }
      SetPhase(c, Draining(id));
    }

    method Drained(c: nat)
      requires Valid() && Enabled(Snapshot(), Step.Drained(c))
      modifies this
      ensures Snapshot() == Apply(old(Snapshot()), Step.Drained(c))
      ensures Valid() && IsLaterThan(old(Snapshot()))
    {
      Foresee(Step.Drained(c));
      SetPhase(c, Reading(calls[c].phase.id));
    }

    /** Two error codes leave the session usable. */
    method ReplyError(c: nat, code: Code)
      requires c in calls
      modifies this
      ensures Snapshot() ==
              if Recoverable(code) then Leave(old(Snapshot()), c, Failed(code))
              else Invalidate(old(Snapshot()), c, Failed(code))
    {
      if code == InvalidArguments || code == ToolUnavailable {
        LeaveRequest(c, Failed(code));
      } else {
        Break(c, Failed(code));
      }
    }

    /** `list_tools` checks the shape of its result after the lock is released. */
    method ReplyResult(c: nat, isToolList: bool)
      requires c in calls
      modifies this
      ensures Snapshot() ==
              if old(calls[c].kind) == ListTools && !isToolList then AfterReply(old(Snapshot()), c, NotAToolList)
              else Leave(old(Snapshot()), c, Returned)
    {
      if calls[c].kind == ListTools && !isToolList {
        if lock == Some(c) {
          lock := None;
        }
        usable := false;
        StopProcess();
        SetPhase(c, Stopping(Failed(ProtocolError), false));
      } else {
        LeaveRequest(c, Returned);
      }
    }

    /** `_request`, and the caller's own check, after a line has been read. */
    method ReadReply(c: nat)
      requires Valid() && Enabled(Snapshot(), Step.ReadReply(c))
      modifies this
      ensures Snapshot() == Apply(old(Snapshot()), Step.ReadReply(c))
      ensures Valid() && IsLaterThan(old(Snapshot()))
      ensures IsReplyRead(old(Snapshot()), Snapshot(), c)
      ensures written == old(written) && (usable ==> old(usable) && lock == None)
    {
      ReplyTable(Snapshot(), c);
      Foresee(Step.ReadReply(c));
      var line, id := outbox[0], calls[c].phase.id;
      outbox := outbox[1..];
      if line.Garbage? {
        Break(c, Failed(ProtocolError));
      } else if line.Ready? || line.id != id {
        Break(c, Failed(ResponseIdMismatch));
      } else {
        match line.body
        case Error(code) => ReplyError(c, code);
        case NoResult => Break(c, Failed(ProtocolError));
        case Result(isToolList) => ReplyResult(c, isToolList);
      }
    }

    method Troubled(c: nat, trouble: Trouble)
      requires Valid() && Enabled(Snapshot(), Step.Troubled(c, trouble))
      modifies this
      ensures Snapshot() == Apply(old(Snapshot()), Step.Troubled(c, trouble))
      ensures Valid() && IsLaterThan(old(Snapshot()))
      ensures IsTroubled(old(Snapshot()), Snapshot(), c, trouble)
      ensures !usable && written == old(written)
    {
      TroubleTable(Snapshot(), c, trouble);
      Foresee(Step.Troubled(c, trouble));
      match trouble
      case Timeout => Break(c, Failed(RequestTimeout));
      case Cancel => Break(c, Cancelled);
      case EndOfStream => Break(c, Failed(TransportClosed));
      case OsError => Break(c, Failed(TransportClosed));
    }

    /** The child has exited: the error is raised, or `close` returns. */
    method Stopped(c: nat)
      requires Valid() && Enabled(Snapshot(), Step.Stopped(c))
      modifies this
      ensures Snapshot() == Apply(old(Snapshot()), Step.Stopped(c))
      ensures Valid() && IsLaterThan(old(Snapshot()))
      ensures IsStopped(old(Snapshot()), Snapshot(), c)
    {
      StoppedTable(Snapshot(), c);
      Foresee(Step.Stopped(c));
      var outcome := calls[c].phase.outcome;
      if calls[c].phase.locked {
        LeaveRequest(c, outcome);
      } else {
        SetPhase(c, Done(outcome));
      }
    }

    method CancelCall(c: nat)
      requires Valid() && Enabled(Snapshot(), Step.CancelCall(c))
      modifies this
      ensures Snapshot() == Apply(old(Snapshot()), Step.CancelCall(c))
      ensures Valid() && IsLaterThan(old(Snapshot()))
      ensures IsCancelled(old(Snapshot()), Snapshot(), c)
    {
      CancelTable(Snapshot(), c);
      Foresee(Step.CancelCall(c));
      if calls[c].phase.Stopping? && !calls[c].phase.locked {
        SetPhase(c, Done(Cancelled));
      } else {
        LeaveRequest(c, Cancelled);
      }
    }

    /** `__aenter__` when its read fails, times out or is cancelled. */
    method ReadyTrouble()
      requires Valid() && entry == AwaitReady
      modifies this
      ensures Snapshot() == Apply(old(Snapshot()), Step.ReadyTrouble)
      ensures Valid() && IsLaterThan(old(Snapshot()))
    {
      Foresee(Step.ReadyTrouble);
      StopProcess();
      entry := EntryStopping;
    }

    method EntryStopped()
      requires Valid() && entry == EntryStopping && !process.Live?
      modifies this
      ensures Snapshot() == Apply(old(Snapshot()), Step.EntryStopped)
      ensures Valid() && IsLaterThan(old(Snapshot()))
    {
      Foresee(Step.EntryStopped);
      entry := EntryFailed;
    }

    /** `__aenter__` cancelled while it waits for the child to exit. */
    method EntryCancelled()
      requires Valid() && entry == EntryStopping
      modifies this
      ensures Snapshot() == Apply(old(Snapshot()), Step.EntryCancelled)
      ensures Valid() && IsLaterThan(old(Snapshot()))
    {
      Foresee(Step.EntryCancelled);
      entry := EntryFailed;
    }

    /** What the child does on its own: answer, say anything, or exit. */
    method ChildActs(step: Step)
      requires Valid() && Enabled(Snapshot(), step)
      requires step.ChildReady? || step.ChildAnswer? || step.ChildSays? || step.ChildExits?
      modifies this
      ensures Snapshot() == Apply(old(Snapshot()), step)
      ensures Valid() && IsLaterThan(old(Snapshot()))
    {
      Foresee(step);
      match step
      case ChildReady(protocol, ready) =>
        readySent := true;
        outbox := outbox + [Ready(protocol, ready)];
      case ChildAnswer(body) =>
        outbox := outbox + [Reply(inbox[0], body)];
        inbox := inbox[1..];
      case ChildSays(line) => outbox := outbox + [line];
      case ChildExits => process := Exited;
    }

    /** One step of a schedule. */
    method Perform(step: Step)
      requires Valid() && Enabled(Snapshot(), step)
      modifies this
      ensures Snapshot() == Apply(old(Snapshot()), step)
      ensures Valid() && IsLaterThan(old(Snapshot()))
    {
      match step
      case Enter(hasProject) => var _ := Enter(hasProject);
      case Spawned(ok) => Spawned(ok);
      case ReadReady => var _ := ReadReady();
      case ReadyTrouble => ReadyTrouble();
      case EntryStopped => EntryStopped();
      case EntryCancelled => EntryCancelled();
      case Start(c, kind) => Start(c, kind);
      case Acquire(c, id, encodable, writes) => Acquire(c, id, encodable, writes);
      case Drained(c) => Drained(c);
      case ReadReply(c) => ReadReply(c);
      case Troubled(c, trouble) => Troubled(c, trouble);
      case Stopped(c) => Stopped(c);
      case CancelCall(c) => CancelCall(c);
      case ChildReady(_, _) => ChildActs(step);
      case ChildAnswer(_) => ChildActs(step);
      case ChildSays(_) => ChildActs(step);
      case ChildExits => ChildActs(step);
    }

    /** Follow a schedule until it asks for a step that cannot happen. The object goes through a run
        of the protocol; with an honest child its traffic stays in order. */
    method Follow(steps: seq<Step>) returns (done: nat)
      requires Valid()
      modifies this
      ensures done <= |steps| && Runs(old(Snapshot()), steps[..done], Snapshot())
      ensures done < |steps| ==> !Enabled(Snapshot(), steps[done])
      ensures Valid() && IsLaterThan(old(Snapshot()))
      ensures old(HonestInvariant(Snapshot())) && AllHonest(steps) ==> HonestInvariant(Snapshot())
    {
      done := 0;
      ghost var start := Snapshot();
      FollowsNothing(start, steps);
      while done < |steps| && Enabled(Snapshot(), steps[done])
        invariant done <= |steps| && Valid() && Followed(start, steps, done, Snapshot())
      {
        ghost var here := Snapshot();
        Perform(steps[done]);
        FollowsFurther(start, steps, done, here, Snapshot());
        done := done + 1;
      }
    }
  }

  /** The state `t` is reached from `s` by the first `n` steps. */
  ghost predicate Followed(s: State, steps: seq<Step>, n: nat, t: State) {
    && n <= |steps| && Runs(s, steps[..n], t) && Advances(s, t)
    && (HonestInvariant(s) && AllHonest(steps) ==> HonestInvariant(t))
  }

  lemma FollowsNothing(s: State, steps: seq<Step>)
    ensures Followed(s, steps, 0, s)
  {
    assert steps[..0] == [];
  }

  lemma FollowsFurther(s: State, steps: seq<Step>, n: nat, t: State, u: State)
    requires Followed(s, steps, n, t) && n < |steps| && Enabled(t, steps[n]) && u == Apply(t, steps[n])
            && Advances(t, u)
    ensures Followed(s, steps, n + 1, u)
  {
    RunsFurther(s, steps, n, t);
    AdvancesFurther(s, t, u);
    if HonestInvariant(s) && AllHonest(steps) {
      HonestStep(t, steps[n]);
    }
  }

  lemma RunsFurther(s: State, steps: seq<Step>, n: nat, t: State)
    requires n < |steps| && Runs(s, steps[..n], t) && Enabled(t, steps[n])
    ensures Runs(s, steps[..n + 1], Apply(t, steps[n]))
  {
    assert steps[..n + 1] == steps[..n] + [steps[n]];
    RunsOn(s, steps[..n], t, steps[n]);
  }

  lemma AdvancesFurther(s: State, t: State, u: State)
    requires Advances(s, t) && Advances(t, u)
    ensures Advances(s, u)
  {
  }

  /** Any schedule on a new session: at most one request is outstanding, none is written twice, and
      with an honest child no call sees a mismatch and a free usable session has nothing in flight. */
  method Drive(steps: seq<Step>) returns (session: Session, done: nat)
    ensures fresh(session) && done <= |steps| && Runs(INITIAL, steps[..done], session.Snapshot())
    ensures AtMostOneOutstanding(session.calls)
    ensures forall i, j :: 0 <= i < j < |session.written| ==> session.written[i].0 != session.written[j].0
    ensures AllHonest(steps) ==> forall c :: c in session.calls ==> MismatchFree(session.calls[c].phase)
    ensures AllHonest(steps) && session.usable && session.lock == None ==> session.inbox == [] && session.outbox == []
  {
    session := new Session();
    done := session.Follow(steps);
    WritesAreUnique(steps[..done], session.Snapshot());
    if AllHonest(steps) {
      NoMismatch(steps[..done], session.Snapshot());
    }
  }
}
