/** One cooperative deadline shared by nested scopes, and the batch scan that spends it. */
module DeadlineBudget {
  import opened Collections

  /** What a program does with the budget: let time pass, run a command that would take `needs`
      seconds under its own cap, do two things in turn, open a scope, or catch what is raised inside. */
  datatype Work =
    | Idle(time: real)
    | Command(cap: real, needs: real)
    | Then(first: Work, second: Work)
    | Scope(seconds: Option<real>, body: Work)
    | Try(body: Work)

  /** One command that was started, with the absolute deadlines of all scopes open around it. */
  datatype Started = Started(start: real, end: real, limits: seq<real>)

  function Min(a: real, b: real): real {
    if b < a then b else a
  }

  /** The context variable holds the tightest deadline of the open scopes. */
  ghost predicate IsTightest(deadline: Option<real>, limits: seq<real>) {
    match deadline
    case None => limits == []
    case Some(d) => d in limits && forall l :: l in limits ==> d <= l
  }

  ghost predicate MeetsLimits(c: Started) {
    c.start <= c.end && forall l :: l in c.limits ==> c.end <= l
  }

  /** A command ran inside `limits`, possibly inside further scopes. */
  ghost predicate RanInside(c: Started, from: real, limits: seq<real>) {
    from <= c.start && limits <= c.limits && MeetsLimits(c)
  }

  /** When a program that starts at `now` under `deadline` ends, and whether it raises. */
  function After(work: Work, now: real, deadline: Option<real>): (real, bool) {
    match work
    case Idle(time) => (if time > 0.0 then now + time else now, false)
    case Command(cap, needs) =>
      if deadline.Some? && deadline.value <= now then (now, true)
      else
        var grant := if deadline.Some? then Min(cap, deadline.value - now) else cap;
        var used := Min(needs, grant);
        (if used > 0.0 then now + used else now, needs > grant)
    case Then(first, second) =>
      var (middle, raised) := After(first, now, deadline);
      if raised then (middle, true) else After(second, middle, deadline)
    case Scope(seconds, body) =>
      if seconds.None? then After(body, now, deadline)
      else if seconds.value <= 0.0 then (now, true)
      else
        var limit := now + seconds.value;
        After(body, now, Some(if deadline.Some? then Min(deadline.value, limit) else limit))
    case Try(body) => (After(body, now, deadline).0, false)
  }

  /** The commands of a program. */
  function Commands(work: Work): nat {
    match work
    case Idle(_) => 0
    case Command(_, _) => 1
    case Then(first, second) => Commands(first) + Commands(second)
    case Scope(_, body) => Commands(body)
    case Try(body) => Commands(body)
  }

  predicate CatchesNothing(work: Work) {
    match work
    case Idle(_) => true
    case Command(_, _) => true
    case Then(first, second) => CatchesNothing(first) && CatchesNothing(second)
    case Scope(_, body) => CatchesNothing(body)
    case Try(_) => false
  }

  /** Past its deadline a program that runs a command raises, unless it catches that. */
  lemma {:induction false} ExhaustedRaises(work: Work, now: real, deadline: real)
    requires deadline <= now && CatchesNothing(work) && Commands(work) > 0
    ensures After(work, now, Some(deadline)).1
  {
    match work
    case Idle(_) =>
    case Command(_, _) =>
    case Then(first, second) =>
      AfterGrows(first, now, Some(deadline));
      if Commands(first) > 0 {
        ExhaustedRaises(first, now, deadline);
      } else {
        ExhaustedRaises(second, After(first, now, Some(deadline)).0, deadline);
      }
    case Scope(seconds, body) =>
      if seconds.None? {
        ExhaustedRaises(body, now, deadline);
      } else if seconds.value > 0.0 {
        ExhaustedRaises(body, now, Min(deadline, now + seconds.value));
      }
    case Try(_) =>
  }

  lemma {:induction false} AfterGrows(work: Work, now: real, deadline: Option<real>)
    ensures After(work, now, deadline).0 >= now
  {
    match work
    case Idle(_) =>
    case Command(_, _) =>
    case Then(first, second) =>
      AfterGrows(first, now, deadline);
      AfterGrows(second, After(first, now, deadline).0, deadline);
    case Scope(seconds, body) =>
      if seconds.None? {
        AfterGrows(body, now, deadline);
      } else if seconds.value > 0.0 {
        var limit := now + seconds.value;
        AfterGrows(body, now, Some(if deadline.Some? then Min(deadline.value, limit) else limit));
      }
    case Try(body) => AfterGrows(body, now, deadline);
  }

  /** The clock and the context variable. */
  class Budget {
    var now: real
    var deadline: Option<real>
    ghost var log: seq<Started>

    constructor (start: real)
      ensures now == start && deadline == None && log == []
    {
      now, deadline, log := start, None, [];
    }

    /** The timeout a command may use, or nothing when the batch is exhausted. */
    method CommandTimeout(cap: real) returns (grant: Option<real>)
      ensures deadline.None? ==> grant == Some(cap)
      ensures deadline.Some? ==> (grant.None? <==> deadline.value <= now)
      ensures deadline.Some? && grant.Some? ==>
              grant.value <= cap && grant.value <= deadline.value - now
              && (grant.value == cap || now + grant.value == deadline.value)
    {
      if deadline.None? {
        return Some(cap);
      }
      var remaining := deadline.value - now;
      if remaining <= 0.0 {
        return None;
      }
      return Some(Min(cap, remaining));
    }

    /** Run a command; it is killed when its timeout is over. */
    method RunCommand(cap: real, needs: real, ghost limits: seq<real>) returns (raised: bool)
      requires IsTightest(deadline, limits)
      modifies this
      ensures deadline == old(deadline) && now >= old(now)
      ensures old(log) <= log
      ensures forall i :: |old(log)| <= i < |log| ==> RanInside(log[i], old(now), limits)
      ensures (now, raised) == After(Command(cap, needs), old(now), deadline)
      ensures deadline.Some? && deadline.value <= old(now) ==> raised && log == old(log)
      ensures !(deadline.Some? && deadline.value <= old(now)) ==> log == old(log) + [Started(old(now), now, limits)]
    {
      var grant := CommandTimeout(cap);
      if grant.None? {
        return true;
      }
      var used := Min(needs, grant.value);
      used := if used < 0.0 then 0.0 else used;
      log := log + [Started(now, now + used, limits)];
      now := now + used;
      return needs > grant.value;
    }

    /** Any well-nested program: every command that starts ends within every deadline open around
        it, and leaving a scope, normally or by an exception, restores the outer deadline. */
    method Run(work: Work, ghost limits: seq<real>) returns (raised: bool)
      requires IsTightest(deadline, limits)
      modifies this
      ensures deadline == old(deadline)
      ensures now >= old(now)
      ensures old(log) <= log
      ensures forall i :: |old(log)| <= i < |log| ==> RanInside(log[i], old(now), limits)
      ensures (now, raised) == After(work, old(now), deadline)
      ensures |log| <= |old(log)| + Commands(work)
      ensures CatchesNothing(work) && !raised ==> |log| == |old(log)| + Commands(work)
      ensures deadline.Some? && deadline.value <= old(now) ==> log == old(log)
      decreases work
    {
      match work
      case Idle(time) =>
        now := if time > 0.0 then now + time else now;
        return false;
      case Command(cap, needs) =>
        raised := RunCommand(cap, needs, limits);
      case Then(first, second) =>
        raised := Run(first, limits);
        if raised {
          return;
        }
        ghost var middle, begun := now, log;
        raised := Run(second, limits);
        assert forall i :: |old(log)| <= i < |begun| ==> log[i] == begun[i];
      case Scope(seconds, body) =>
        if seconds.None? {
          raised := Run(body, limits);
          return;
        }
        if seconds.value <= 0.0 {
          return true;
        }
        var outer, limit := deadline, now + seconds.value;
        deadline := Some(if outer.Some? then Min(outer.value, limit) else limit);
        raised := Run(body, limits + [limit]);
        deadline := outer;
        assert limits <= limits + [limit];
      case Try(body) =>
        raised := Run(body, limits);
        raised := false;
    }
  }

  // ---------------------------------------------------------------------------
  // The batch scan
  // ---------------------------------------------------------------------------

  /** A repository check turns every exception into its own error row. */
  datatype Row = Scanned(name: string, failed: bool) | NotScanned(name: string)

  /** The visit of one entry: which it was, when it was reached and left, and the row it got. */
  datatype Visit = Visit(which: nat, reached: real, left: real, row: Row)

  /** Visits of wanted ones among the first `n` entries, in order, one after the other.
      An entry is not scanned exactly if the deadline is over when it is reached; else its check runs, says
      whether it failed, and ends when the entry is left. */
  ghost predicate IsSchedule(names: seq<string>, wanted: string -> bool, checks: seq<Work>, n: nat,
                             deadline: Option<real>,
                             start: real, end: real, visits: seq<Visit>)
    requires n <= |names| == |checks|
  {
    && (forall i :: 0 <= i < |visits| ==> IsVisit(visits[i], names, wanted, checks, n, deadline))
    && (forall i, j :: 0 <= i < j < |visits| ==> visits[i].which < visits[j].which)
    && (forall i, j :: 0 <= i && j == i + 1 < |visits| ==> visits[j].reached == visits[i].left)
    && (if visits == [] then start == end else visits[0].reached == start && visits[|visits| - 1].left == end)
  }

  ghost predicate IsVisit(v: Visit, names: seq<string>, wanted: string -> bool, checks: seq<Work>, n: nat,
                          deadline: Option<real>)
    requires n <= |names| == |checks|
  {
    && v.which < n && wanted(names[v.which]) && v.row.name == names[v.which]
    && if deadline.Some? && deadline.value <= v.reached then v.row.NotScanned? && v.left == v.reached
       else v.row.Scanned? && (v.left, v.row.failed) == After(checks[v.which], v.reached, deadline)
  }

  lemma ScheduleSkips(names: seq<string>, wanted: string -> bool, checks: seq<Work>, n: nat, deadline: Option<real>,
                      start: real, end: real, visits: seq<Visit>)
    requires n < |names| == |checks| && !wanted(names[n])
    requires IsSchedule(names, wanted, checks, n, deadline, start, end, visits)
    ensures IsSchedule(names, wanted, checks, n + 1, deadline, start, end, visits)
  {
    assert forall i :: 0 <= i < |visits| ==> IsVisit(visits[i], names, wanted, checks, n, deadline);
  }

  lemma ScheduleVisits(names: seq<string>, wanted: string -> bool, checks: seq<Work>, n: nat, deadline: Option<real>,
                       start: real, end: real, visits: seq<Visit>, v: Visit)
    requires n < |names| == |checks| && v.which == n && v.reached == end
    requires IsVisit(v, names, wanted, checks, n + 1, deadline)
    requires IsSchedule(names, wanted, checks, n, deadline, start, end, visits)
    ensures IsSchedule(names, wanted, checks, n + 1, deadline, start, v.left, visits + [v])
  {
    VisitsStay(names, wanted, checks, n, deadline, visits, v);
  }

  lemma VisitsStay(names: seq<string>, wanted: string -> bool, checks: seq<Work>, n: nat, deadline: Option<real>,
                   visits: seq<Visit>, v: Visit)
    requires n < |names| == |checks| && IsVisit(v, names, wanted, checks, n + 1, deadline) && v.which == n
    requires forall i :: 0 <= i < |visits| ==> IsVisit(visits[i], names, wanted, checks, n, deadline)
    requires forall i, j :: 0 <= i < j < |visits| ==> visits[i].which < visits[j].which
    ensures var more := visits + [v];
            && (forall i :: 0 <= i < |more| ==> IsVisit(more[i], names, wanted, checks, n + 1, deadline))
            && forall i, j :: 0 <= i < j < |more| ==> more[i].which < more[j].which
  {
  }

  /** The commands logged since `before` ran inside `limits`. */
  ghost predicate LoggedInside(before: seq<Started>, log: seq<Started>, from: real, limits: seq<real>) {
    before <= log && forall i :: |before| <= i < |log| ==> RanInside(log[i], from, limits)
  }

  lemma LoggedOn(a: seq<Started>, b: seq<Started>, c: seq<Started>, from: real, later: real, limits: seq<real>)
    requires LoggedInside(a, b, from, limits) && LoggedInside(b, c, later, limits) && from <= later
    ensures LoggedInside(a, c, from, limits)
  {
    forall i | |a| <= i < |c| ensures RanInside(c[i], from, limits) {
      if i < |b| {
        assert c[i] == b[i];
      }
    }
  }

  /** One entry: not scanned if the batch is exhausted, and else its check is run. */
  method VisitEntry(budget: Budget, name: string, cap: real, check: Work, ghost limits: seq<real>) returns (row: Row)
    requires IsTightest(budget.deadline, limits)
    modifies budget
    ensures budget.deadline == old(budget.deadline) && budget.now >= old(budget.now) && row.name == name
    ensures LoggedInside(old(budget.log), budget.log, old(budget.now), limits)
    ensures if budget.deadline.Some? && budget.deadline.value <= old(budget.now)
            then row.NotScanned? && budget.now == old(budget.now) && budget.log == old(budget.log)
            else row.Scanned? && (budget.now, row.failed) == After(check, old(budget.now), budget.deadline)
  {
    var grant := budget.CommandTimeout(cap);
    if grant.None? {
      return NotScanned(name);
    }
    var raised := budget.Run(check, limits);
    return Scanned(name, raised);
  }

  function NameOf(row: Row): string {
    row.name
  }

  function RowOf(v: Visit): Row {
    v.row
  }

  /** What a scan has done with the first `n` entries: a row for each wanted one, in order, as scheduled. */
  ghost predicate ScannedSoFar(names: seq<string>, wanted: string -> bool, checks: seq<Work>, n: nat,
                               deadline: Option<real>, start: real, end: real, rows: seq<Row>, visits: seq<Visit>)
    requires n <= |names| == |checks|
  {
    && Map(rows, NameOf) == Where(names[..n], wanted) && rows == Map(visits, RowOf)
    && IsSchedule(names, wanted, checks, n, deadline, start, end, visits)
  }

  lemma SkipEntry(names: seq<string>, wanted: string -> bool, checks: seq<Work>, n: nat, deadline: Option<real>,
                  start: real, end: real, rows: seq<Row>, visits: seq<Visit>)
    requires n < |names| == |checks| && !wanted(names[n])
    requires ScannedSoFar(names, wanted, checks, n, deadline, start, end, rows, visits)
    ensures ScannedSoFar(names, wanted, checks, n + 1, deadline, start, end, rows, visits)
  {
    assert names[..n + 1] == names[..n] + [names[n]];
    WhereAppend(names[..n], names[n], wanted);
    ScheduleSkips(names, wanted, checks, n, deadline, start, end, visits);
  }

  lemma TakeEntry(names: seq<string>, wanted: string -> bool, checks: seq<Work>, n: nat, deadline: Option<real>,
                  start: real, end: real, rows: seq<Row>, visits: seq<Visit>, v: Visit)
    requires n < |names| == |checks| && v.which == n && v.reached == end
    requires IsVisit(v, names, wanted, checks, n + 1, deadline)
    requires ScannedSoFar(names, wanted, checks, n, deadline, start, end, rows, visits)
    ensures ScannedSoFar(names, wanted, checks, n + 1, deadline, start, v.left, rows + [v.row], visits + [v])
  {
    assert names[..n + 1] == names[..n] + [names[n]];
    WhereAppend(names[..n], names[n], wanted);
    MapAppend(rows, v.row, NameOf);
    MapAppend(visits, v, RowOf);
    ScheduleVisits(names, wanted, checks, n, deadline, start, end, visits, v);
  }

  /** One row per selected entry, in order, as the schedule says; once the deadline is over nothing more is
      scanned, and every command of every check ends within the deadlines open around the scan. */
  method Scan(budget: Budget, names: seq<string>, wanted: string -> bool, cap: real, checks: seq<Work>,
              ghost limits: seq<real>)
    returns (rows: seq<Row>, ghost visits: seq<Visit>)
    requires |checks| == |names| && IsTightest(budget.deadline, limits)
    modifies budget
    ensures budget.deadline == old(budget.deadline) && budget.now >= old(budget.now)
    ensures LoggedInside(old(budget.log), budget.log, old(budget.now), limits)
    ensures Map(rows, NameOf) == Where(names, wanted) && rows == Map(visits, RowOf)
    ensures IsSchedule(names, wanted, checks, |names|, budget.deadline, old(budget.now), budget.now, visits)
    ensures forall i, j :: 0 <= i < j < |rows| && rows[i].NotScanned? ==> rows[j].NotScanned?
  {
    rows, visits := [], [];
    for k := 0 to |names|
      invariant budget.deadline == old(budget.deadline) && budget.now >= old(budget.now)
      invariant LoggedInside(old(budget.log), budget.log, old(budget.now), limits)
      invariant ScannedSoFar(names, wanted, checks, k, budget.deadline, old(budget.now), budget.now, rows, visits)
    {
      if !wanted(names[k]) {
        SkipEntry(names, wanted, checks, k, budget.deadline, old(budget.now), budget.now, rows, visits);
        continue;
      }
      ghost var log, here := budget.log, budget.now;
      var row := VisitEntry(budget, names[k], cap, checks[k], limits);
      LoggedOn(old(budget.log), log, budget.log, old(budget.now), here, limits);
      ghost var visit := Visit(k, here, budget.now, row);
      TakeEntry(names, wanted, checks, k, budget.deadline, old(budget.now), here, rows, visits, visit);
      rows, visits := rows + [row], visits + [visit];
    }
    assert names[..|names|] == names;
    ExhaustedStays(names, wanted, checks, budget.deadline, old(budget.now), budget.now, visits, rows);
  }

  /** Once an entry is not scanned, none of the later ones is. */
  lemma ExhaustedStays(names: seq<string>, wanted: string -> bool, checks: seq<Work>, deadline: Option<real>,
                       start: real, end: real, visits: seq<Visit>, rows: seq<Row>)
    requires |names| == |checks| && IsSchedule(names, wanted, checks, |names|, deadline, start, end, visits)
    requires rows == Map(visits, RowOf)
    ensures forall i, j :: 0 <= i < j < |rows| && rows[i].NotScanned? ==> rows[j].NotScanned?
  {
    forall i, j | 0 <= i < j < |rows| && rows[i].NotScanned? ensures rows[j].NotScanned? {
      LaterVisit(names, wanted, checks, deadline, start, end, visits, i, j);
    }
  }

  lemma {:induction false} LaterVisit(names: seq<string>, wanted: string -> bool, checks: seq<Work>,
                                      deadline: Option<real>, start: real, end: real, visits: seq<Visit>,
                                      i: nat, j: nat)
    requires |names| == |checks| && IsSchedule(names, wanted, checks, |names|, deadline, start, end, visits)
    requires i < j < |visits| && visits[i].row.NotScanned?
    ensures visits[j].row.NotScanned?
    decreases j
  {
    var before := j - 1;
    assert visits[j].reached == visits[before].left;
    assert IsVisit(visits[before], names, wanted, checks, |names|, deadline);
    assert IsVisit(visits[j], names, wanted, checks, |names|, deadline);
    if i < before {
      LaterVisit(names, wanted, checks, deadline, start, end, visits, i, before);
    }
  }
}
