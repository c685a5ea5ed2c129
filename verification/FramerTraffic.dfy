/** The lines between a Framer session and a child that answers each request once, in order. */
module FramerTraffic {
  import opened Collections
  import opened FramerSession
  import opened FramerEnding

  // ---------------------------------------------------------------------------
  // A child that answers each request once, in order, with its id
  // ---------------------------------------------------------------------------

  /** Nothing is in flight between session and child. */
  ghost predicate Quiet(s: State) {
    s.inbox == [] && s.outbox == []
  }

  /** Only the request `id` is in flight, if anything. */
  ghost predicate OnlyInFlight(s: State, id: nat) {
    || Quiet(s)
    || (s.inbox == [id] && s.outbox == [])
    || (s.inbox == [] && |s.outbox| == 1 && s.outbox[0].Reply? && s.outbox[0].id == id
        && s.outbox[0].body != Error(ResponseIdMismatch))
  }

  ghost predicate MismatchFree(p: Phase) {
    (p.Stopping? || p.Done?) ==> p.outcome != Failed(ResponseIdMismatch)
  }

  ghost predicate HonestInvariant(s: State) {
    Invariant(s) && TrafficInvariant(s)
  }

  /** What is in flight between session and child. */
  ghost predicate TrafficInvariant(s: State) {
    && (s.entry == AwaitReady ==> ReadyIsComing(s))
    && (s.entry != Opened ==> s.inbox == [] && (s.outbox == [] || (s.readySent && |s.outbox| == 1)))
    && (s.entry == Opened ==> s.readySent)
    && (s.usable && s.lock == None ==> Quiet(s))
    && (forall c :: c in s.calls && IsOutstanding(s.calls[c].phase) ==> OnlyInFlight(s, s.calls[c].phase.id))
    && (s.usable && s.lock.Some? ==> s.lock.value in s.calls && IsOutstanding(s.calls[s.lock.value].phase))
    && (forall c :: c in s.calls ==> MismatchFree(s.calls[c].phase))
  }

  /** A call without a request in flight ends; the lock, if it held it, becomes free. */
  lemma TrafficLeave(s: State, c: nat, outcome: Outcome)
    requires Invariant(s) && TrafficInvariant(s) && c in s.calls && outcome != Failed(ResponseIdMismatch)
    requires s.usable && s.lock == Some(c) ==> Quiet(s)
    ensures TrafficInvariant(Leave(s, c, outcome))
  {
    if s.calls[c].kind == Close {
      TrafficClose(s, c, outcome);
    }
  }

  lemma TrafficClose(s: State, c: nat, outcome: Outcome)
    requires Invariant(s) && TrafficInvariant(s) && c in s.calls && outcome != Failed(ResponseIdMismatch)
    requires s.calls[c].kind == Close
    ensures TrafficInvariant(Leave(s, c, outcome))
  {
  }

  lemma TrafficPut(s: State, c: nat, phase: Phase)
    requires Invariant(s) && TrafficInvariant(s) && c in s.calls && s.lock != Some(c)
    requires !IsOutstanding(phase) && MismatchFree(phase)
    ensures TrafficInvariant(Put(s, c, phase))
  {
  }

  lemma TrafficInvalidate(s: State, c: nat, outcome: Outcome)
    requires Invariant(s) && TrafficInvariant(s) && c in s.calls && outcome != Failed(ResponseIdMismatch)
    ensures TrafficInvariant(Invalidate(s, c, outcome))
  {
  }

  /** The line read for the only request in flight is its reply. */
  lemma TrafficReply(s: State, c: nat)
    requires HonestInvariant(s) && Enabled(s, ReadReply(c))
    ensures s.lock == Some(c) && |s.outbox| == 1
    ensures var v := Judge(s.calls[c].kind, s.calls[c].phase.id, s.outbox[0]);
            (v.Ends? ==> v.outcome != Failed(ResponseIdMismatch)) && (v.Breaks? ==> v.code != ResponseIdMismatch)
    ensures Quiet(s.(outbox := s.outbox[1..]))
  {
    assert OnlyInFlight(s, s.calls[c].phase.id);
  }

  lemma TrafficRead(s: State, c: nat)
    requires HonestInvariant(s) && Enabled(s, ReadReply(c))
    ensures var t := s.(outbox := s.outbox[1..]); Invariant(t) && TrafficInvariant(t)
  {
    TrafficReply(s, c);
  }

  lemma TrafficNotAList(s: State, c: nat)
    requires Invariant(s) && TrafficInvariant(s) && c in s.calls
    ensures TrafficInvariant(AfterReply(s, c, NotAToolList))
  {
  }

  lemma HonestReply(s: State, c: nat)
    requires HonestInvariant(s) && Enabled(s, ReadReply(c))
    ensures TrafficInvariant(Apply(s, ReadReply(c)))
  {
    var t, v := s.(outbox := s.outbox[1..]), Judge(s.calls[c].kind, s.calls[c].phase.id, s.outbox[0]);
    TrafficReply(s, c);
    TrafficRead(s, c);
    match v
    case Ends(outcome) => TrafficLeave(t, c, outcome);
    case Breaks(code) => TrafficInvalidate(t, c, Failed(code));
    case NotAToolList => TrafficNotAList(t, c);
  }

  lemma TrafficNew(s: State, c: nat, kind: Kind)
    requires HonestInvariant(s) && c !in s.calls
    ensures var t := s.(calls := s.calls[c := Call(kind, Waiting)]); Invariant(t) && TrafficInvariant(t)
  {
  }

  lemma HonestStart(s: State, c: nat, kind: Kind)
    requires HonestInvariant(s) && c !in s.calls
    ensures TrafficInvariant(Apply(s, Start(c, kind)))
  {
    var t := s.(calls := s.calls[c := Call(kind, Waiting)]);
    TrafficNew(s, c, kind);
    TrafficLeave(t, c, Returned);
    TrafficPut(t, c, Done(Failed(SessionClosed)));
  }

  lemma TrafficWrite(s: State, c: nat, id: nat)
    requires HonestInvariant(s) && c in s.calls && s.lock == None && s.usable
    ensures var t := s.(lock := Some(c), inbox := if s.process == Live(true) then s.inbox + [id] else s.inbox,
                        written := s.written + [(c, id)]);
            TrafficInvariant(Put(t, c, Draining(id)))
  {
  }

  lemma HonestAcquire(s: State, c: nat, id: nat, encodable: bool, writes: bool)
    requires HonestInvariant(s) && Enabled(s, Acquire(c, id, encodable, writes))
    ensures TrafficInvariant(Apply(s, Acquire(c, id, encodable, writes)))
  {
    TrafficLeave(s, c, Failed(SessionClosed));
    TrafficLeave(s, c, Failed(InvalidArguments));
    TrafficInvalidate(s, c, Failed(TransportClosed));
    if s.usable {
      TrafficWrite(s, c, id);
    }
  }

  lemma HonestDrained(s: State, c: nat)
    requires HonestInvariant(s) && Enabled(s, Drained(c))
    ensures TrafficInvariant(Apply(s, Drained(c)))
  {
  }

  /** A call that holds the lock without a request in flight has made the session unusable. */
  lemma LockedIsUnusable(s: State, c: nat)
    requires HonestInvariant(s) && c in s.calls && s.calls[c].phase.Stopping?
    ensures s.usable ==> s.lock != Some(c)
  {
  }

  lemma HonestStopped(s: State, c: nat)
    requires HonestInvariant(s) && Enabled(s, Stopped(c))
    ensures TrafficInvariant(Apply(s, Stopped(c)))
  {
    LockedIsUnusable(s, c);
    if s.calls[c].phase.locked {
      TrafficLeave(s, c, s.calls[c].phase.outcome);
    } else {
      assert s.lock != Some(c);
      TrafficPut(s, c, Done(s.calls[c].phase.outcome));
    }
  }

  lemma HonestCancel(s: State, c: nat)
    requires HonestInvariant(s) && Enabled(s, CancelCall(c))
    ensures TrafficInvariant(Apply(s, CancelCall(c)))
  {
    if s.calls[c].phase.Stopping? {
      LockedIsUnusable(s, c);
    } else {
      assert s.lock != Some(c);
    }
    if s.calls[c].phase.Stopping? && !s.calls[c].phase.locked {
      assert s.lock != Some(c);
      TrafficPut(s, c, Done(Cancelled));
    } else {
      TrafficLeave(s, c, Cancelled);
    }
  }

  lemma HonestChild(s: State, step: Step)
    requires HonestInvariant(s) && (step.ChildAnswer? || step.ChildReady?) && IsHonest(step) && Enabled(s, step)
    ensures TrafficInvariant(Apply(s, step))
  {
  }

  lemma HonestStep(s: State, step: Step)
    requires HonestInvariant(s) && Enabled(s, step) && IsHonest(step)
    ensures HonestInvariant(Apply(s, step))
  {
    StepKeeps(s, step);
    match step
    case Start(c, kind) => HonestStart(s, c, kind);
    case Acquire(c, id, encodable, writes) => HonestAcquire(s, c, id, encodable, writes);
    case ReadReply(c) => HonestReply(s, c);
    case Troubled(c, t) => TrafficInvalidate(s, c, TroubleOutcome(t));
    case Drained(c) => HonestDrained(s, c);
    case Stopped(c) => HonestStopped(s, c);
    case CancelCall(c) => HonestCancel(s, c);
    case ChildAnswer(_) => HonestChild(s, step);
    case ChildReady(_, _) => HonestChild(s, step);
    case _ =>
  }

  lemma {:induction false} HonestRun(s: State, steps: seq<Step>, t: State)
    requires HonestInvariant(s) && Runs(s, steps, t)
    requires AllHonest(steps)
    ensures HonestInvariant(t)
    decreases steps
  {
    if steps != [] {
      HonestStep(s, steps[0]);
      HonestRun(Apply(s, steps[0]), steps[1..], t);
    }
  }

  /** With an honest child too, a session outlives a close if and only if entry could still
      succeed when the close was issued. */
  lemma HonestCloseFinalExactly(s: State, c: nat)
    requires HonestInvariant(s) && c !in s.calls
    ensures (exists steps, t :: AllHonest(steps) && OutlivesClose(s, c, steps, t)) <==> CanOpen(s)
  {
    if CanOpen(s) {
      var steps, t := EarlyCloseIsNotFinal(s, c);
      assert AllHonest(steps) && OutlivesClose(s, c, steps, t);
    } else {
      CloseFinalExactly(s, c);
    }
  }

  /** For every interleaving of callers, timeouts, cancellations and recoverable errors: with an
      honest child no call ever sees a response-id mismatch, and a usable session with a free
      lock has no request and no reply in flight. */
  lemma NoMismatch(steps: seq<Step>, t: State)
    requires Runs(INITIAL, steps, t)
    requires AllHonest(steps)
    ensures forall c :: c in t.calls ==> MismatchFree(t.calls[c].phase)
    ensures t.usable && t.lock == None ==> Quiet(t)
  {
    InitialInvariant();
    HonestRun(INITIAL, steps, t);
  }
}
