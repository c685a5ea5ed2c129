/** How calls and sessions of the Framer protocol end: nobody waits for ever, and what a close settles. */
module FramerEnding {
  import opened Collections
  import opened FramerSession

  // ---------------------------------------------------------------------------
  // Nobody waits for ever
  // ---------------------------------------------------------------------------

  /** The call whose code a step runs. */
  function Actor(step: Step): Option<nat> {
    match step
    case Acquire(c, _, _, _) => Some(c)
    case Drained(c) => Some(c)
    case ReadReply(c) => Some(c)
    case Troubled(c, _) => Some(c)
    case Stopped(c) => Some(c)
    case CancelCall(c) => Some(c)
    case _ => None
  }

  /** How many steps of its own a call can still take. */
  function Rank(p: Phase): nat {
    match p
    case Waiting => 5
    case Draining(_) => 4
    case Reading(_) => 3
    case Stopping(_, locked) => if locked then 2 else 1
    case Done(_) => 0
  }

  lemma OthersStay(s: State, step: Step, c: nat)
    requires Enabled(s, step) && c in s.calls && Actor(step) != Some(c)
    ensures c in Apply(s, step).calls && Apply(s, step).calls[c] == s.calls[c]
  {
    match step
    case Start(_, _) => StartOthers(s, step, c);
    case Acquire(_, _, _, _) => AcquireOthers(s, step, c);
    case Troubled(_, _) => TroubleOthers(s, step, c);
    case Drained(_) => TroubleOthers(s, step, c);
    case ReadReply(d) =>
      ReplyOthers(s.(outbox := s.outbox[1..]), d, Judge(s.calls[d].kind, s.calls[d].phase.id, s.outbox[0]), c);
    case Stopped(_) => EndOthers(s, step, c);
    case CancelCall(_) => EndOthers(s, step, c);
    case _ =>
  }

  lemma StartOthers(s: State, step: Step, c: nat)
    requires step.Start? && Enabled(s, step) && c in s.calls
    ensures c in Apply(s, step).calls && Apply(s, step).calls[c] == s.calls[c]
  {
  }

  lemma AcquireOthers(s: State, step: Step, c: nat)
    requires step.Acquire? && Enabled(s, step) && c in s.calls && step.c != c
    ensures c in Apply(s, step).calls && Apply(s, step).calls[c] == s.calls[c]
  {
    LeaveOthers(s, step.c, Failed(SessionClosed), c);
    LeaveOthers(s, step.c, Failed(InvalidArguments), c);
  }

  lemma TroubleOthers(s: State, step: Step, c: nat)
    requires (step.Troubled? || step.Drained?) && Enabled(s, step) && c in s.calls && step.c != c
    ensures c in Apply(s, step).calls && Apply(s, step).calls[c] == s.calls[c]
  {
  }

  lemma EndOthers(s: State, step: Step, c: nat)
    requires (step.Stopped? || step.CancelCall?) && Enabled(s, step) && c in s.calls && step.c != c
    ensures c in Apply(s, step).calls && Apply(s, step).calls[c] == s.calls[c]
  {
    if step.CancelCall? {
      LeaveOthers(s, step.c, Cancelled, c);
    } else {
      LeaveOthers(s, step.c, s.calls[step.c].phase.outcome, c);
    }
  }

  lemma LeaveOthers(s: State, d: nat, outcome: Outcome, c: nat)
    requires d in s.calls && c in s.calls && c != d
    ensures c in Leave(s, d, outcome).calls && Leave(s, d, outcome).calls[c] == s.calls[c]
  {
  }

  lemma ReplyOthers(s: State, d: nat, v: Verdict, c: nat)
    requires d in s.calls && c in s.calls && c != d
    ensures c in AfterReply(s, d, v).calls && AfterReply(s, d, v).calls[c] == s.calls[c]
  {
  }

  /** Every step of a call brings it nearer to its end, in every session. */
  lemma OwnStepLowers(s: State, step: Step, c: nat)
    requires Enabled(s, step) && Actor(step) == Some(c)
    ensures c in s.calls && c in Apply(s, step).calls
    ensures Rank(Apply(s, step).calls[c].phase) < Rank(s.calls[c].phase)
  {
  }

  function CountOwn(steps: seq<Step>, c: nat): nat
    decreases steps
  {
    if steps == [] then 0 else (if Actor(steps[0]) == Some(c) then 1 else 0) + CountOwn(steps[1..], c)
  }

  /** In every run a call takes at most as many steps as its rank, so at most five. */
  lemma {:induction false} OwnStepsBounded(s: State, steps: seq<Step>, t: State, c: nat)
    requires Runs(s, steps, t) && c in s.calls
    ensures c in t.calls && CountOwn(steps, c) + Rank(t.calls[c].phase) <= Rank(s.calls[c].phase)
    decreases steps
  {
    if steps != [] {
      if Actor(steps[0]) == Some(c) {
        OwnStepLowers(s, steps[0], c);
      } else {
        OthersStay(s, steps[0], c);
      }
      OwnStepsBounded(Apply(s, steps[0]), steps[1..], t, c);
    }
  }

  /** A step a call takes of itself: no cancellation, no timeout and no error of the system. */
  predicate IsNatural(step: Step) {
    || step.Acquire? || step.Drained? || step.ReadReply? || step.Stopped?
    || (step.Troubled? && step.trouble == EndOfStream)
  }

  /** The child has exited, and no call can take a step of itself. */
  ghost predicate IsComplete(s: State) {
    !s.process.Live? && forall step :: IsNatural(step) ==> !Enabled(s, step)
  }

  lemma {:induction false} LargerId(written: seq<(nat, nat)>) returns (id: nat)
    ensures forall w :: w in written ==> w.1 < id
  {
    id := 0;
    if written != [] {
      var init, last := written[..|written| - 1], written[|written| - 1];
      id := LargerId(init);
      id := if id <= last.1 then last.1 + 1 else id;
      assert written == init + [last];
    }
  }

  /** Once the child has exited, a call that is not done and does not wait for another can go on. */
  lemma CanMove(s: State, c: nat) returns (step: Step)
    requires !s.process.Live? && c in s.calls && !s.calls[c].phase.Done?
    requires s.calls[c].phase.Waiting? ==> s.lock == None
    ensures IsNatural(step) && Enabled(s, step) && Actor(step) == Some(c)
  {
    match s.calls[c].phase
    case Waiting =>
      var id := LargerId(s.written);
      step := Acquire(c, id, true, true);
    case Draining(_) => step := Drained(c);
    case Reading(_) => step := if s.outbox == [] then Troubled(c, EndOfStream) else ReadReply(c);
    case Stopping(_, _) => step := Stopped(c);
  }

  /** There is no deadlock: once the child has exited, some call can go on until all are done. */
  lemma NoDeadlock(s: State, c: nat)
    requires Invariant(s) && IsComplete(s) && c in s.calls
    ensures s.calls[c].phase.Done?
  {
    if !s.calls[c].phase.Done? {
      var d := if s.calls[c].phase.Waiting? && s.lock.Some? then s.lock.value else c;
      var step := CanMove(s, d);
    }
  }

  /** The phases of a call that can only end in a closed session. */
  ghost predicate WillFail(p: Phase) {
    match p
    case Waiting => true
    case Draining(_) => false
    case Reading(_) => false
    case Stopping(o, locked) => !locked && o == Failed(SessionClosed)
    case Done(o) => o == Failed(SessionClosed)
  }

  lemma FailStep(s: State, step: Step, w: nat)
    requires Dead(s) && Enabled(s, step) && w in s.calls && WillFail(s.calls[w].phase) && step != CancelCall(w)
    ensures w in Apply(s, step).calls && WillFail(Apply(s, step).calls[w].phase)
  {
    if Actor(step) != Some(w) {
      OthersStay(s, step, w);
    }
  }

  lemma {:induction false} FailRun(s: State, steps: seq<Step>, t: State, w: nat)
    requires Invariant(s) && Dead(s) && Runs(s, steps, t) && CancelCall(w) !in steps
    requires w in s.calls && WillFail(s.calls[w].phase)
    ensures w in t.calls && WillFail(t.calls[w].phase)
    decreases steps
  {
    if steps != [] {
      assert steps[0] in steps;
      FailStep(s, steps[0], w);
      DeadStep(s, steps[0]);
      StepKeeps(s, steps[0]);
      FailRun(Apply(s, steps[0]), steps[1..], t, w);
    }
  }

  /** From a dead state on nothing is written, and a call that waits never writes and never succeeds.
      When the child has exited and the calls have gone on as far as they can, it has failed or was
      cancelled, and it has failed with a closed session if nobody cancelled it. */
  lemma DeadRun(s: State, steps: seq<Step>, t: State)
    requires Invariant(s) && Dead(s) && Runs(s, steps, t)
    ensures StaysDead(s, t)
    ensures IsComplete(t) ==> forall w :: w in s.calls && s.calls[w].phase == Waiting ==>
            w in t.calls && HasFailed(t.calls[w].phase)
    ensures IsComplete(t) ==> forall w :: w in s.calls && s.calls[w].phase == Waiting && CancelCall(w) !in steps ==>
                                w in t.calls && t.calls[w].phase == Done(Failed(SessionClosed))
  {
    DeadSteps(s, steps, t);
    RunKeeps(s, steps, t);
    if IsComplete(t) {
      forall w | w in s.calls && s.calls[w].phase == Waiting
        ensures w in t.calls && HasFailed(t.calls[w].phase)
        ensures CancelCall(w) !in steps ==> t.calls[w].phase == Done(Failed(SessionClosed))
      {
        NoDeadlock(t, w);
        if CancelCall(w) !in steps {
          FailRun(s, steps, t, w);
        }
      }
    }
  }

  ghost predicate HasFailed(p: Phase) {
    p == Done(Failed(SessionClosed)) || p == Done(Cancelled)
  }

  ghost predicate AllNatural(steps: seq<Step>) {
    forall step :: step in steps ==> IsNatural(step)
  }

  lemma NaturalStaysExited(s: State, step: Step)
    requires Enabled(s, step) && IsNatural(step) && !s.process.Live?
    ensures !Apply(s, step).process.Live?
  {
  }

  /** A step of the lock holder: it keeps the lock, nearer to its end, or frees it. */
  lemma HolderMoves(s: State, d: nat, step: Step)
    requires Invariant(s) && s.lock == Some(d) && d in s.calls && Enabled(s, step) && IsNatural(step)
            && Actor(step) == Some(d)
    ensures Apply(s, step).lock == None || Apply(s, step).lock == Some(d)
  {
    assert HoldsLock(s.calls[d].phase);
  }

  /** The lock holder of a dead session with an exited child gets out, and the others stay. */
  lemma {:induction false} Unlock(s: State, w: nat) returns (steps: seq<Step>, t: State)
    requires Invariant(s) && Dead(s) && !s.process.Live? && w in s.calls && s.calls[w].phase == Waiting
    ensures Runs(s, steps, t) && AllNatural(steps) && t.lock == None
    ensures Invariant(t) && Dead(t) && !t.process.Live? && w in t.calls && t.calls[w] == s.calls[w]
    decreases if s.lock.Some? && s.lock.value in s.calls then Rank(s.calls[s.lock.value].phase) else 0
  {
    if s.lock == None {
      steps, t := [], s;
    } else {
      var d := s.lock.value;
      var step := CanMove(s, d);
      OwnStepLowers(s, step, d);
      HolderMoves(s, d, step);
      OthersStay(s, step, w);
      NaturalStaysExited(s, step);
      StepKeeps(s, step);
      DeadStep(s, step);
      var more;
      more, t := Unlock(Apply(s, step), w);
      RunCons(s, step, more, t);
      steps := [step] + more;
    }
  }

  /** Every waiting call of a dead session with an exited child has a run of natural steps to its end. */
  lemma WaiterFails(s: State, w: nat) returns (steps: seq<Step>, t: State)
    requires Invariant(s) && Dead(s) && !s.process.Live? && w in s.calls && s.calls[w].phase == Waiting
    ensures Runs(s, steps, t) && AllNatural(steps)
    ensures w in t.calls && t.calls[w].phase == Done(Failed(SessionClosed))
  {
    var first, free := Unlock(s, w);
    var step := CanMove(free, w);
    var gone := Apply(free, step);
    NaturalStaysExited(free, step);
    steps := first + [step];
    RunsOn(s, first, free, step);
    t := gone;
    if gone.calls[w].phase.Stopping? {
      t := Apply(gone, Stopped(w));
      RunsOn(s, steps, gone, Stopped(w));
      steps := steps + [Stopped(w)];
    }
  }

  // ---------------------------------------------------------------------------
  // Close
  // ---------------------------------------------------------------------------

  /** A close issued after entry was decided: past its request, the session is dead. */
  ghost predicate ClosesFinally(s: State, c: nat) {
    && !CanOpen(s) && c in s.calls && s.calls[c].kind == Close
    && (s.calls[c].phase.Done? || (s.calls[c].phase.Stopping? && !s.calls[c].phase.locked) ==> !s.usable)
  }

  lemma CloseReply(s: State, d: nat, v: Verdict, c: nat)
    requires d in s.calls && s.calls[d].phase.Reading? && ClosesFinally(s, c)
    requires v.NotAToolList? ==> d != c
    ensures ClosesFinally(AfterReply(s, d, v), c)
  {
    match v
    case Ends(outcome) => CloseLeave(s, d, outcome, c);
    case Breaks(code) =>
    case NotAToolList =>
  }

  lemma CloseLeave(s: State, d: nat, outcome: Outcome, c: nat)
    requires d in s.calls && ClosesFinally(s, c)
    ensures ClosesFinally(Leave(s, d, outcome), c)
  {
  }

  lemma CloseStart(s: State, step: Step, c: nat)
    requires step.Start? && Enabled(s, step) && ClosesFinally(s, c)
    ensures ClosesFinally(Apply(s, step), c)
  {
  }

  lemma CloseAcquire(s: State, step: Step, c: nat)
    requires step.Acquire? && Enabled(s, step) && ClosesFinally(s, c)
    ensures ClosesFinally(Apply(s, step), c)
  {
  }

  lemma CloseStopped(s: State, d: nat, c: nat)
    requires Enabled(s, Stopped(d)) && ClosesFinally(s, c)
    ensures ClosesFinally(Apply(s, Stopped(d)), c)
  {
  }

  lemma CloseCancel(s: State, d: nat, c: nat)
    requires Enabled(s, CancelCall(d)) && ClosesFinally(s, c)
    ensures ClosesFinally(Apply(s, CancelCall(d)), c)
  {
  }

  lemma CloseStep(s: State, step: Step, c: nat)
    requires Enabled(s, step) && Invariant(s) && ClosesFinally(s, c)
    ensures ClosesFinally(Apply(s, step), c)
  {
    match step
    case Start(_, _) => CloseStart(s, step, c);
    case Acquire(_, _, _, _) => CloseAcquire(s, step, c);
    case ReadReply(d) =>
      CloseReply(s.(outbox := s.outbox[1..]), d, Judge(s.calls[d].kind, s.calls[d].phase.id, s.outbox[0]), c);
    case Stopped(d) => CloseStopped(s, d, c);
    case CancelCall(d) => CloseCancel(s, d, c);
    case _ =>
  }

  lemma {:induction false} CloseRun(s: State, steps: seq<Step>, t: State, c: nat)
    requires Invariant(s) && ClosesFinally(s, c) && Runs(s, steps, t)
    ensures ClosesFinally(t, c)
    decreases steps
  {
    if steps != [] {
      CloseStep(s, steps[0], c);
      StepKeeps(s, steps[0]);
      CloseRun(Apply(s, steps[0]), steps[1..], t, c);
    }
  }

  /** A close issued once entry is decided is final: after it has finished, no run writes anything,
      the session is never usable again, and a call that was waiting never writes and never succeeds;
      once the child has exited and the calls have gone on as far as they can, it has failed or was
      cancelled, and it has failed if nobody cancelled it. */
  lemma CloseIsFinal(s: State, c: nat, steps: seq<Step>, t: State, more: seq<Step>, u: State)
    requires Invariant(s) && !CanOpen(s) && c !in s.calls
    requires Runs(Apply(s, Start(c, Close)), steps, t)
    requires c in t.calls && t.calls[c].phase.Done?
    requires Runs(t, more, u)
    ensures !u.usable && u.written == t.written
    ensures forall w :: w in t.calls && t.calls[w].phase == Waiting ==> w in u.calls && GivesUp(u.calls[w].phase)
    ensures IsComplete(u) ==> forall w :: w in t.calls && t.calls[w].phase == Waiting ==>
            w in u.calls && HasFailed(u.calls[w].phase)
    ensures IsComplete(u) ==> forall w :: w in t.calls && t.calls[w].phase == Waiting && CancelCall(w) !in more ==>
                                w in u.calls && u.calls[w].phase == Done(Failed(SessionClosed))
  {
    var started := Apply(s, Start(c, Close));
    StepKeeps(s, Start(c, Close));
    CloseRun(started, steps, t, c);
    RunKeeps(started, steps, t);
    DeadRun(t, more, u);
  }

  /** A waiting entry that reads a good ready line opens the session. */
  lemma OpensNow(s: State) returns (steps: seq<Step>, t: State)
    requires s.entry == AwaitReady && s.outbox != [] && s.outbox[0] == Ready(true, true)
    ensures Runs(s, steps, t) && t.usable && t.calls == s.calls && AllHonest(steps)
  {
    t := Apply(s, ReadReady);
    RunCons(s, ReadReady, [], t);
    steps := [ReadReady] + [];
  }

  /** Entry that has not spawned the child yet can go on to open the session. */
  lemma OpensLater(s: State) returns (steps: seq<Step>, t: State)
    requires EntryInvariant(s) && (s.entry == NotEntered || s.entry == Spawning)
    ensures Runs(s, steps, t) && t.usable && t.calls == s.calls && AllHonest(steps)
    decreases s.entry == NotEntered
  {
    if s.entry == NotEntered {
      var more;
      more, t := OpensLater(Apply(s, Enter(true)));
      RunCons(s, Enter(true), more, t);
      steps := [Enter(true)] + more;
    } else {
      var s1 := Apply(s, Spawned(true));
      var s2 := Apply(s1, ChildReady(true, true));
      var more;
      more, t := OpensNow(s2);
      RunCons(s1, ChildReady(true, true), more, t);
      RunCons(s, Spawned(true), [ChildReady(true, true)] + more, t);
      steps := [Spawned(true)] + ([ChildReady(true, true)] + more);
    }
  }

  /** With the close waiting for the child, the child says it is ready and exits. */
  lemma OpensWhileClosing(s: State, c: nat) returns (steps: seq<Step>, t: State)
    requires s.entry == AwaitReady && CanOpen(s)
    requires c in s.calls && s.calls[c] == Call(Close, Stopping(Returned, false))
    ensures Runs(s, steps, t) && t.usable && c in t.calls && t.calls[c] == Call(Close, Done(Returned))
    ensures ReadyIsComing(s) ==> AllHonest(steps)
    decreases s.outbox == [], s.process.Live?
  {
    if s.outbox == [] {
      var step := if s.readySent then ChildSays(Ready(true, true)) else ChildReady(true, true);
      var more;
      more, t := OpensWhileClosing(Apply(s, step), c);
      RunCons(s, step, more, t);
      steps := [step] + more;
    } else if s.process.Live? {
      var more;
      more, t := OpensWhileClosing(Apply(s, ChildExits), c);
      RunCons(s, ChildExits, more, t);
      steps := [ChildExits] + more;
    } else {
      var more;
      more, t := OpensNow(Apply(s, Stopped(c)));
      RunCons(s, Stopped(c), more, t);
      steps := [Stopped(c)] + more;
    }
  }

  /** A close issued while entry can still succeed is not final: the session may yet open. */
  lemma EarlyCloseIsNotFinal(s: State, c: nat) returns (steps: seq<Step>, t: State)
    requires Invariant(s) && CanOpen(s) && c !in s.calls
    ensures Runs(Apply(s, Start(c, Close)), steps, t)
    ensures t.usable && c in t.calls && t.calls[c].phase.Done?
    ensures s.entry != AwaitReady || ReadyIsComing(s) ==> AllHonest(steps)
  {
    var s1 := Apply(s, Start(c, Close));
    if s.entry == AwaitReady {
      steps, t := OpensWhileClosing(s1, c);
    } else {
      StepKeeps(s, Start(c, Close));
      var more;
      more, t := OpensLater(Apply(s1, Stopped(c)));
      RunCons(s1, Stopped(c), more, t);
      steps := [Stopped(c)] + more;
    }
  }

  /** A run in which the close issued in `s` finishes and the session is usable afterwards. */
  ghost predicate OutlivesClose(s: State, c: nat, steps: seq<Step>, t: State)
    requires c !in s.calls
  {
    Runs(Apply(s, Start(c, Close)), steps, t) && c in t.calls && t.calls[c].phase.Done? && t.usable
  }

  /** Exactly when a close is final: no session outlives it if and only if entry is decided. */
  lemma CloseFinalExactly(s: State, c: nat)
    requires Invariant(s) && c !in s.calls
    ensures (exists steps, t :: OutlivesClose(s, c, steps, t)) <==> CanOpen(s)
  {
    if CanOpen(s) {
      var steps, t := EarlyCloseIsNotFinal(s, c);
      assert OutlivesClose(s, c, steps, t);
    } else {
      forall steps, t ensures !OutlivesClose(s, c, steps, t) {
        if OutlivesClose(s, c, steps, t) {
          assert Runs(t, [], t);
          CloseIsFinal(s, c, steps, t, [], t);
        }
      }
    }
  }
}
