/** What each stretch of the Framer session does, written out case by case. */
module FramerTables {
  import opened Collections
  import opened FramerSession

  /** `_stop_process` closes the stdin of a live child and leaves any other alone. */
  predicate StdinCloses(before: Process, after: Process) {
    after == if before.Live? then Live(false) else before
  }

  /** Everything but usability, lock, child, the lines read and the call `c` is as it was. */
  ghost predicate OnlyCall(s: State, t: State, c: nat) {
    && t.entered == s.entered && t.entry == s.entry && t.inbox == s.inbox && t.readySent == s.readySent
    && t.written == s.written && t.calls.Keys == s.calls.Keys + {c}
    && (forall d :: d in s.calls && d != c ==> t.calls[d] == s.calls[d])
    && (c in s.calls ==> t.calls[c].kind == s.calls[c].kind)
  }

  /** The call leaves the lock: a close goes on to stop the child, any other call is done. */
  ghost predicate LeavesLock(s: State, t: State, c: nat, outcome: Outcome)
    requires c in t.calls
  {
    && t.lock == (if s.lock == Some(c) then None else s.lock)
    && if t.calls[c].kind == Close
       then t.calls[c].phase == Stopping(outcome, false) && !t.usable && StdinCloses(s.process, t.process)
       else t.calls[c].phase == Done(outcome) && t.usable == s.usable && t.process == s.process
  }

  /** The session breaks while the call holds the lock. */
  ghost predicate BreaksSession(s: State, t: State, c: nat, outcome: Outcome)
    requires c in t.calls
  {
    t.calls[c].phase == Stopping(outcome, true) && !t.usable && t.lock == Some(c) && StdinCloses(s.process, t.process)
  }

  lemma LeaveTable(s: State, c: nat, outcome: Outcome)
    requires c in s.calls
    ensures var t := Leave(s, c, outcome);
            c in t.calls && OnlyCall(s, t, c) && t.outbox == s.outbox && LeavesLock(s, t, c, outcome)
  {
  }

  lemma BreakTable(s: State, c: nat, outcome: Outcome)
    requires c in s.calls
    ensures var t := Invalidate(s, c, outcome);
            c in t.calls && OnlyCall(s, t, c) && t.outbox == s.outbox && BreaksSession(s, t, c, outcome)
  {
  }

  // ---------------------------------------------------------------------------
  // Entry
  // ---------------------------------------------------------------------------

  /** A second entry changes nothing; a first one needs a project, a child, and a good ready line. */
  lemma EntryTable(s: State, hasProject: bool, ok: bool)
    ensures Apply(s, Enter(hasProject)) ==
            if s.entered then s else s.(entered := true, entry := if hasProject then Spawning else EntryFailed)
    ensures s.entry == Spawning ==>
            Apply(s, Spawned(ok)) == if ok then s.(entry := AwaitReady, process := Live(true))
                else s.(entry := EntryFailed)
    ensures s.entry == AwaitReady && s.outbox != [] ==> IsReadyRead(s, Apply(s, ReadReady))
  {
  }

  /** The session becomes usable exactly on the ready line of the right protocol. */
  ghost predicate IsReadyRead(s: State, t: State)
    requires s.outbox != []
  {
    && t.outbox == s.outbox[1..] && t.calls == s.calls && t.lock == s.lock && t.written == s.written
    && t.inbox == s.inbox && t.entered == s.entered && t.readySent == s.readySent
    && if s.outbox[0] == Ready(true, true) then t.usable && t.entry == Opened && t.process == s.process
       else t.usable == s.usable && t.entry == EntryStopping && StdinCloses(s.process, t.process)
  }

  // ---------------------------------------------------------------------------
  // Calls
  // ---------------------------------------------------------------------------

  /** A call on a usable session waits; on another, a close stops the child and any other call fails. */
  ghost predicate IsStarted(s: State, t: State, c: nat, kind: Kind) {
    && OnlyCall(s, t, c) && t.outbox == s.outbox && t.calls[c].kind == kind && t.lock == s.lock
    && if s.usable && !s.process.Absent? then
         t.calls[c].phase == Waiting && t.usable && t.process == s.process
       else if kind == Close then
         t.calls[c].phase == Stopping(Returned, false) && !t.usable && StdinCloses(s.process, t.process)
       else t.calls[c].phase == Done(Failed(SessionClosed)) && t.usable == s.usable && t.process == s.process
  }

  lemma StartTable(s: State, c: nat, kind: Kind)
    requires Invariant(s) && c !in s.calls
    ensures IsStarted(s, Apply(s, Start(c, kind)), c, kind)
  {
    assert s.lock != Some(c);
  }

  /** With the lock: a closed session and a payload that does not encode fail and free it, a failed write
      breaks the session, and else the request is on its way. */
  ghost predicate IsAcquired(s: State, t: State, c: nat, id: nat, encodable: bool, writes: bool)
    requires c in s.calls && c in t.calls
  {
    && t.outbox == s.outbox
    && if !s.usable then OnlyCall(s, t, c) && LeavesLock(s, t, c, Failed(SessionClosed))
       else if !encodable then OnlyCall(s, t, c) && LeavesLock(s, t, c, Failed(InvalidArguments))
       else if !writes then OnlyCall(s, t, c) && BreaksSession(s, t, c, Failed(TransportClosed))
       else
         && OnlyCall(s, t.(inbox := s.inbox, written := s.written), c)
         && t.calls[c].phase == Draining(id) && t.lock == Some(c) && t.usable && t.process == s.process
         && t.written == s.written + [(c, id)] && t.inbox == s.inbox + if s.process == Live(true) then [id] else []
  }

  lemma AcquireTable(s: State, c: nat, id: nat, encodable: bool, writes: bool)
    requires Enabled(s, Acquire(c, id, encodable, writes))
    ensures c in Apply(s, Acquire(c, id, encodable, writes)).calls
    ensures IsAcquired(s, Apply(s, Acquire(c, id, encodable, writes)), c, id, encodable, writes)
  {
    LeaveTable(s, c, Failed(SessionClosed));
    LeaveTable(s, c, Failed(InvalidArguments));
    BreakTable(s, c, Failed(TransportClosed));
  }

  /** What the line that is read does. A reply with the id of the request: an error of one of the two
      recoverable codes, or a result, releases the lock, unless `list_tools` gets no tool list; any other
      error, or no result, breaks the session. Any other line breaks it too. */
  ghost predicate IsReplyRead(s: State, t: State, c: nat)
    requires c in s.calls && c in t.calls && s.calls[c].phase.Reading? && s.outbox != []
  {
    var line, own := s.outbox[0], IsReplyTo(s.outbox[0], s.calls[c].phase.id);
    && OnlyCall(s, t, c) && t.outbox == s.outbox[1..]
    && if own && line.body.Error? then
         if line.body.code == InvalidArguments || line.body.code == ToolUnavailable
         then LeavesLock(s, t, c, Failed(line.body.code))
         else BreaksSession(s, t, c, Failed(line.body.code))
       else if own && line.body.Result? then
         if s.calls[c].kind == ListTools && !line.body.isToolList
         then
           && t.calls[c].phase == Stopping(Failed(ProtocolError), false) && !t.usable
           && t.lock == (if s.lock == Some(c) then None else s.lock) && StdinCloses(s.process, t.process)
         else LeavesLock(s, t, c, Returned)
       else if own || line.Garbage? then BreaksSession(s, t, c, Failed(ProtocolError))
       else BreaksSession(s, t, c, Failed(ResponseIdMismatch))
  }

  predicate IsReplyTo(line: Line, id: nat) {
    line.Reply? && line.id == id
  }

  lemma ReplyTable(s: State, c: nat)
    requires Enabled(s, ReadReply(c))
    ensures c in Apply(s, ReadReply(c)).calls && IsReplyRead(s, Apply(s, ReadReply(c)), c)
  {
    var read, v := s.(outbox := s.outbox[1..]), Judge(s.calls[c].kind, s.calls[c].phase.id, s.outbox[0]);
    match v
    case Ends(outcome) => LeaveTable(read, c, outcome);
    case Breaks(code) => BreakTable(read, c, Failed(code));
    case NotAToolList => NotAListTable(read, c);
  }

  lemma NotAListTable(s: State, c: nat)
    requires c in s.calls
    ensures var t := AfterReply(s, c, NotAToolList);
            && c in t.calls && OnlyCall(s, t, c) && t.outbox == s.outbox
            && t.calls[c].phase == Stopping(Failed(ProtocolError), false) && !t.usable
            && t.lock == (if s.lock == Some(c) then None else s.lock) && StdinCloses(s.process, t.process)
  {
  }

  /** After a reply the session is usable exactly if it was, the call is no close, and the reply was a good
      result or one of the two recoverable errors. */
  lemma UsableAfterReply(s: State, c: nat)
    requires Enabled(s, ReadReply(c))
    ensures var line, kind := s.outbox[0], s.calls[c].kind;
            Apply(s, ReadReply(c)).usable <==>
            && s.usable && kind != Close && IsReplyTo(line, s.calls[c].phase.id)
            && (line.body == Error(InvalidArguments) || line.body == Error(ToolUnavailable)
                || (line.body.Result? && (kind == ListTools ==> line.body.isToolList)))
  {
    ReplyTable(s, c);
  }

  /** Timeout, cancellation, end of stream and an error of the system, each with its own outcome. */
  ghost predicate IsTroubled(s: State, t: State, c: nat, trouble: Trouble)
    requires c in t.calls
  {
    && OnlyCall(s, t, c) && t.outbox == s.outbox
    && match trouble
       case Timeout => BreaksSession(s, t, c, Failed(RequestTimeout))
       case Cancel => BreaksSession(s, t, c, Cancelled)
       case EndOfStream => BreaksSession(s, t, c, Failed(TransportClosed))
       case OsError => BreaksSession(s, t, c, Failed(TransportClosed))
  }

  lemma TroubleTable(s: State, c: nat, trouble: Trouble)
    requires Enabled(s, Troubled(c, trouble))
    ensures c in Apply(s, Troubled(c, trouble)).calls && IsTroubled(s, Apply(s, Troubled(c, trouble)), c, trouble)
  {
    BreakTable(s, c, TroubleOutcome(trouble));
  }

  lemma DrainedTable(s: State, c: nat)
    requires Enabled(s, Drained(c))
    ensures var t := Apply(s, Drained(c));
            && OnlyCall(s, t, c) && t.outbox == s.outbox && t.usable == s.usable && t.lock == s.lock
            && t.process == s.process && t.calls[c].phase == Reading(s.calls[c].phase.id)
  {
  }

  /** When the child has exited, an error raised under the lock releases it, and a close is done. */
  ghost predicate IsStopped(s: State, t: State, c: nat)
    requires c in s.calls && c in t.calls && s.calls[c].phase.Stopping?
  {
    && OnlyCall(s, t, c) && t.outbox == s.outbox
    && if s.calls[c].phase.locked then LeavesLock(s, t, c, s.calls[c].phase.outcome)
       else
         && t.calls[c].phase == Done(s.calls[c].phase.outcome)
         && t.usable == s.usable && t.lock == s.lock && t.process == s.process
  }

  lemma StoppedTable(s: State, c: nat)
    requires Enabled(s, Stopped(c))
    ensures c in Apply(s, Stopped(c)).calls && IsStopped(s, Apply(s, Stopped(c)), c)
  {
    LeaveTable(s, c, s.calls[c].phase.outcome);
    EndTable(s, c, s.calls[c].phase.outcome);
  }

  /** A cancelled call leaves the queue for the lock, or the wait for the child. */
  ghost predicate IsCancelled(s: State, t: State, c: nat)
    requires c in s.calls && c in t.calls
  {
    && OnlyCall(s, t, c) && t.outbox == s.outbox
    && if s.calls[c].phase.Stopping? && !s.calls[c].phase.locked
       then t.calls[c].phase == Done(Cancelled) && t.usable == s.usable && t.lock == s.lock && t.process == s.process
       else LeavesLock(s, t, c, Cancelled)
  }

  lemma CancelTable(s: State, c: nat)
    requires Enabled(s, CancelCall(c))
    ensures c in Apply(s, CancelCall(c)).calls && IsCancelled(s, Apply(s, CancelCall(c)), c)
  {
    LeaveTable(s, c, Cancelled);
    EndTable(s, c, Cancelled);
  }

  lemma EndTable(s: State, c: nat, outcome: Outcome)
    requires c in s.calls
    ensures var t := Put(s, c, Done(outcome));
            && c in t.calls && OnlyCall(s, t, c) && t.outbox == s.outbox && t.calls[c].phase == Done(outcome)
            && t.usable == s.usable && t.lock == s.lock && t.process == s.process
  {
  }
}
