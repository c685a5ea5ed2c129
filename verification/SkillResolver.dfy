/** The skill dependency resolver: Kahn's algorithm over in-degree counters,
    an adjacency list that may repeat edges, and a work queue kept sorted. */
module SkillResolver {
  import opened Text

  datatype Skill = Skill(name: string, depends: seq<string>)

  datatype Outcome =
    | Resolved(ordered: seq<Skill>)
    | MissingDependency(skill: string, dep: string)
    | Circular

  // ---------------------------------------------------------------------------
  // What a resolution is
  // ---------------------------------------------------------------------------

  ghost function Names(skills: seq<Skill>): set<string> {
    set s | s in skills :: s.name
  }

  ghost predicate Distinct<T>(s: seq<T>) {
    forall i, j :: 0 <= i < j < |s| ==> s[i] != s[j]
  }

  ghost predicate DistinctNames(skills: seq<Skill>) {
    forall i, j :: 0 <= i < j < |skills| ==> skills[i].name != skills[j].name
  }

  ghost predicate AllPresent(skills: seq<Skill>) {
    forall s, d :: s in skills && d in s.depends ==> d in Names(skills)
  }

  /** Every dependency of every skill called `n` is in `emitted`. */
  ghost predicate Satisfied(skills: seq<Skill>, n: string, emitted: seq<string>) {
    forall s, d :: s in skills && s.name == n && d in s.depends ==> d in emitted
  }

  /** `order` lists each skill name once, every skill after all its dependencies. */
  ghost predicate IsTopological(skills: seq<Skill>, order: seq<string>) {
    && Distinct(order)
    && (forall n :: n in order <==> n in Names(skills))
    && forall i :: 0 <= i < |order| ==> Satisfied(skills, order[i], order[..i])
  }

  /** Lexicographic order on sequences of names, by first difference. */
  ghost predicate ComesBefore(a: seq<string>, b: seq<string>) {
    exists i :: 0 <= i < |a| && i < |b| && a[..i] == b[..i] && LexLess(a[i], b[i])
  }

  ghost predicate IsLeastTopological(skills: seq<Skill>, order: seq<string>) {
    && IsTopological(skills, order)
    && forall t :: IsTopological(skills, t) ==> t == order || ComesBefore(order, t)
  }

  function NamesOf(ordered: seq<Skill>): (names: seq<string>)
    ensures |names| == |ordered|
    ensures forall i :: 0 <= i < |ordered| ==> names[i] == ordered[i].name
  {
    seq(|ordered|, i requires 0 <= i < |ordered| => ordered[i].name)
  }

  /** The dependency at (i, j) is absent, and no earlier one is. */
  ghost predicate FirstMissing(skills: seq<Skill>, i: nat, j: nat) {
    && i < |skills| && j < |skills[i].depends|
    && skills[i].depends[j] !in Names(skills)
    && (forall k :: 0 <= k < j ==> skills[i].depends[k] in Names(skills))
    && (forall k, d :: 0 <= k < i && d in skills[k].depends ==> d in Names(skills))
  }

  /** What the resolver promises for any list of skills. */
  ghost predicate IsResolution(skills: seq<Skill>, out: Outcome) {
    match out
    case Resolved(ordered) =>
      && AllPresent(skills) && DistinctNames(skills)
      && (forall s :: s in ordered ==> s in skills)
      && IsLeastTopological(skills, NamesOf(ordered))
    case MissingDependency(skill, dep) =>
      exists i: nat, j: nat :: FirstMissing(skills, i, j) && skill == skills[i].name && dep == skills[i].depends[j]
    case Circular =>
      && AllPresent(skills)
      && (!DistinctNames(skills) || !exists t :: IsTopological(skills, t))
  }

  // ---------------------------------------------------------------------------
  // Counting edges with multiplicity
  // ---------------------------------------------------------------------------

  ghost function Outstanding(deps: seq<string>, done: seq<string>): nat {
    if deps == [] then 0
    else Outstanding(deps[..|deps| - 1], done) + (if deps[|deps| - 1] in done then 0 else 1)
  }

  /** Dependency edges of the name `n` whose target is not in `done`. */
  ghost function Pending(skills: seq<Skill>, n: string, done: seq<string>): nat {
    if skills == [] then 0
    else
      var last := skills[|skills| - 1];
      Pending(skills[..|skills| - 1], n, done) + (if last.name == n then Outstanding(last.depends, done) else 0)
  }

  /** How often the edge n -> d occurs. */
  ghost function EdgeCount(skills: seq<Skill>, n: string, d: string): nat {
    if skills == [] then 0
    else
      var last := skills[|skills| - 1];
      EdgeCount(skills[..|skills| - 1], n, d) + (if last.name == n then multiset(last.depends)[d] else 0)
  }

  lemma {:induction false} OutstandingZero(deps: seq<string>, done: seq<string>)
    ensures Outstanding(deps, done) == 0 <==> forall d :: d in deps ==> d in done
  {
    if deps != [] {
      OutstandingZero(deps[..|deps| - 1], done);
      assert deps == deps[..|deps| - 1] + [deps[|deps| - 1]];
    }
  }

  lemma {:induction false} PendingZero(skills: seq<Skill>, n: string, done: seq<string>)
    ensures Pending(skills, n, done) == 0 <==>
            forall s, d :: s in skills && s.name == n && d in s.depends ==> d in done
  {
    if skills != [] {
      var last := skills[|skills| - 1];
      PendingZero(skills[..|skills| - 1], n, done);
      OutstandingZero(last.depends, done);
      assert skills == skills[..|skills| - 1] + [last];
    }
  }

  lemma {:induction false} OutstandingStep(deps: seq<string>, done: seq<string>, x: string)
    requires x !in done
    ensures Outstanding(deps, done) == Outstanding(deps, done + [x]) + multiset(deps)[x]
  {
    if deps != [] {
      OutstandingStep(deps[..|deps| - 1], done, x);
      assert deps == deps[..|deps| - 1] + [deps[|deps| - 1]];
    }
  }

  /** Emitting `x` lowers the pending count of `n` by the multiplicity of n -> x. */
  lemma {:induction false} PendingStep(skills: seq<Skill>, n: string, done: seq<string>, x: string)
    requires x !in done
    ensures Pending(skills, n, done) == Pending(skills, n, done + [x]) + EdgeCount(skills, n, x)
  {
    if skills != [] {
      PendingStep(skills[..|skills| - 1], n, done, x);
      OutstandingStep(skills[|skills| - 1].depends, done, x);
    }
  }

  // ---------------------------------------------------------------------------
  // Sorting the queue
  // ---------------------------------------------------------------------------

  ghost predicate Sorted(q: seq<string>) {
    forall i, j :: 0 <= i < j < |q| ==> !LexLess(q[j], q[i])
  }

  function Insert(x: string, q: seq<string>): (r: seq<string>)
    requires Sorted(q)
    ensures Sorted(r)
    ensures multiset(r) == multiset(q) + multiset{x}
  {
    if q == [] || !LexLess(q[0], x) then
      assert Sorted([x] + q) by { SortedCons(x, q); }
      [x] + q
    else
      assert q == [q[0]] + q[1..];
      var rest := Insert(x, q[1..]);
      assert Sorted([q[0]] + rest) by { SortedInserted(x, q, rest); }
      [q[0]] + rest
  }

  lemma SortedCons(x: string, q: seq<string>)
    requires Sorted(q)
    requires q == [] || !LexLess(q[0], x)
    ensures Sorted([x] + q)
  {
    forall j | 0 <= j < |q| ensures !LexLess(q[j], x) {
      if j > 0 && LexLess(q[j], x) {
        LexTotal(q[0], q[j]);
        if LexLess(q[0], q[j]) { LexTransitive(q[0], q[j], x); }
      }
    }
  }

  lemma SortedInserted(x: string, q: seq<string>, rest: seq<string>)
    requires Sorted(q) && q != [] && LexLess(q[0], x)
    requires Sorted(rest) && multiset(rest) == multiset(q[1..]) + multiset{x}
    ensures Sorted([q[0]] + rest)
  {
    forall j | 0 <= j < |rest| ensures !LexLess(rest[j], q[0]) {
      assert rest[j] in multiset(rest);
      if rest[j] == x {
        if LexLess(x, q[0]) { LexTransitive(q[0], x, q[0]); LexIrreflexive(q[0]); }
      } else {
        assert rest[j] in q[1..];
      }
    }
  }

  /** Python's `sorted` on strings. */
  function SortNames(q: seq<string>): (r: seq<string>)
    ensures Sorted(r)
    ensures multiset(r) == multiset(q)
  {
    if q == [] then [] else
    assert q == [q[0]] + q[1..];
    Insert(q[0], SortNames(q[1..]))
  }

  lemma SameElements<T>(a: seq<T>, b: seq<T>)
    requires multiset(a) == multiset(b)
    ensures forall x :: x in a <==> x in b
    ensures Distinct(a) <==> Distinct(b)
  {
    forall x ensures x in a <==> x in b {
      assert x in a <==> x in multiset(a);
    }
    DistinctByCount(a);
    DistinctByCount(b);
  }

  lemma {:induction false} DistinctByCount<T>(s: seq<T>)
    ensures Distinct(s) <==> forall x :: multiset(s)[x] <= 1
  {
    if s != [] {
      var init, last := s[..|s| - 1], s[|s| - 1];
      assert s == init + [last];
      DistinctByCount(init);
      if Distinct(s) {
        assert last !in multiset(init);
      } else if Distinct(init) {
        var i, j :| 0 <= i < j < |s| && s[i] == s[j];
        assert init[i] == last && last in multiset(init);
        assert multiset(s)[last] > 1;
      } else {
        var x :| multiset(init)[x] > 1;
        assert multiset(s)[x] > 1;
      }
    }
  }

  // ---------------------------------------------------------------------------
  // Greedy orders are least, and a stuck queue means a cycle
  // ---------------------------------------------------------------------------

  /** `n` could be emitted next, after exactly `emitted`. */
  ghost predicate Available(skills: seq<Skill>, emitted: seq<string>, n: string) {
    n in Names(skills) && n !in emitted && Satisfied(skills, n, emitted)
  }

  /** Each emitted name was available, and no smaller name was. */
  ghost predicate Greedy(skills: seq<Skill>, order: seq<string>) {
    forall i :: 0 <= i < |order| ==> GreedyAt(skills, order[..i], order[i])
  }

  ghost predicate GreedyAt(skills: seq<Skill>, emitted: seq<string>, pick: string) {
    && Available(skills, emitted, pick)
    && forall n :: Available(skills, emitted, n) ==> !LexLess(n, pick)
  }

  lemma GreedyDistinct(skills: seq<Skill>, order: seq<string>)
    requires Greedy(skills, order)
    ensures Distinct(order)
  {
    forall i, j | 0 <= i < j < |order| ensures order[i] != order[j] {
      assert GreedyAt(skills, order[..j], order[j]);
      assert order[..j][i] == order[i];
    }
  }

  lemma GreedyExtends(skills: seq<Skill>, order: seq<string>, pick: string)
    requires Greedy(skills, order) && GreedyAt(skills, order, pick)
    ensures Greedy(skills, order + [pick])
  {
    var more := order + [pick];
    forall i | 0 <= i < |more| ensures GreedyAt(skills, more[..i], more[i]) {
      assert more[..i] == order[..i];
      assert order[..|order|] == order;
    }
  }

  ghost function FirstDifference(a: seq<string>, b: seq<string>): (i: nat)
    requires |a| == |b| && a != b
    ensures i < |a| && a[..i] == b[..i] && a[i] != b[i]
  {
    if a[0] != b[0] then 0
    else
      assert a == [a[0]] + a[1..] && b == [b[0]] + b[1..];
      var k := FirstDifference(a[1..], b[1..]);
      assert a[..k + 1] == [a[0]] + a[1..][..k] && b[..k + 1] == [b[0]] + b[1..][..k];
      k + 1
  }

  /** A complete greedy order is the least topological order. */
  lemma GreedyIsLeast(skills: seq<Skill>, order: seq<string>)
    requires Greedy(skills, order)
    requires forall n :: n in Names(skills) ==> n in order
    ensures IsLeastTopological(skills, order)
  {
    GreedyDistinct(skills, order);
    forall i | 0 <= i < |order| ensures order[i] in Names(skills) && Satisfied(skills, order[i], order[..i]) {
      assert GreedyAt(skills, order[..i], order[i]);
    }
    forall t | IsTopological(skills, t) && t != order ensures ComesBefore(order, t) {
      SameLength(order, t);
      var i := FirstDifference(order, t);
      assert GreedyAt(skills, order[..i], order[i]);
      assert Available(skills, order[..i], t[i]) by {
        assert t[i] in t;
        assert Satisfied(skills, t[i], t[..i]);
      }
      LexTotal(order[i], t[i]);
    }
  }

  lemma SameLength(a: seq<string>, b: seq<string>)
    requires Distinct(a) && Distinct(b)
    requires forall n :: n in a <==> n in b
    ensures |a| == |b|
  {
    DistinctCardinality(a);
    DistinctCardinality(b);
    assert (set n | n in a) == (set n | n in b);
  }

  lemma {:induction false} DistinctCardinality(s: seq<string>)
    requires Distinct(s)
    ensures |set n | n in s| == |s|
  {
    if s != [] {
      var init, last := s[..|s| - 1], s[|s| - 1];
      DistinctCardinality(init);
      assert s == init + [last];
      assert (set n | n in s) == (set n | n in init) + {last};
    }
  }

  lemma {:induction false} NamesCardinality(skills: seq<Skill>)
    ensures |Names(skills)| <= |skills|
    ensures |Names(skills)| == |skills| <==> DistinctNames(skills)
  {
    if skills != [] {
      var init, last := skills[..|skills| - 1], skills[|skills| - 1];
      NamesCardinality(init);
      assert skills == init + [last];
      assert Names(skills) == Names(init) + {last.name};
      LastName(init, last);
      if last.name in Names(init) {
        assert Names(skills) == Names(init);
      }
    }
  }

  /** One more skill keeps the names distinct exactly when its name is new. */
  lemma LastName(init: seq<Skill>, last: Skill)
    ensures DistinctNames(init + [last]) <==> DistinctNames(init) && last.name !in Names(init)
  {
    var skills := init + [last];
    if DistinctNames(skills) {
      forall i, j | 0 <= i < j < |init| ensures init[i].name != init[j].name {
        assert skills[i] == init[i] && skills[j] == init[j];
      }
      forall s | s in init ensures s.name != last.name {
        var i :| 0 <= i < |init| && init[i] == s;
        assert skills[i].name != skills[|init|].name;
      }
    }
    if DistinctNames(init) && last.name !in Names(init) {
      forall i, j | 0 <= i < j < |skills| ensures skills[i].name != skills[j].name {
        assert skills[i] == init[i] && init[i].name in Names(init);
      }
    }
  }

  /** When nothing is available but some name is left, there is no topological order. */
  lemma StuckMeansCyclic(skills: seq<Skill>, emitted: seq<string>, t: seq<string>)
    requires forall n :: !Available(skills, emitted, n)
    requires exists n :: n in Names(skills) && n !in emitted
    ensures !IsTopological(skills, t)
  {
    if IsTopological(skills, t) {
      var n :| n in Names(skills) && n !in emitted;
      var i := FirstOutside(t, emitted, n);
      assert Satisfied(skills, t[i], t[..i]);
      assert t[i] in t;
      assert Available(skills, emitted, t[i]);
    }
  }

  lemma FirstOutside(t: seq<string>, emitted: seq<string>, n: string) returns (i: nat)
    requires n in t && n !in emitted
    ensures i < |t| && t[i] !in emitted
    ensures forall d :: d in t[..i] ==> d in emitted
  {
    i := 0;
    while t[i] in emitted
      invariant i < |t|
      invariant forall d :: d in t[..i] ==> d in emitted
      invariant n in t[i..]
      decreases |t| - i
    {
      assert t[..i + 1] == t[..i] + [t[i]];
      assert t[i..] == [t[i]] + t[i + 1..];
      i := i + 1;
    }
  }

  // ---------------------------------------------------------------------------
  // The algorithm
  // ---------------------------------------------------------------------------

  method CheckDependencies(skills: seq<Skill>) returns (out: Outcome)
    ensures out == Circular ==> AllPresent(skills)
    ensures out != Circular ==> out.MissingDependency? && IsResolution(skills, out)
  {
    var names := set s | s in skills :: s.name;
    for i := 0 to |skills|
      invariant forall k, d :: 0 <= k < i && d in skills[k].depends ==> d in names
    {
      var deps := skills[i].depends;
      for j := 0 to |deps|
        invariant forall k :: 0 <= k < j ==> deps[k] in names
      {
        if deps[j] !in names {
          assert FirstMissing(skills, i, j);
          return MissingDependency(skills[i].name, deps[j]);
        }
      }
    }
    return Circular;
  }

  /** The counters and the adjacency list record exactly the edges of `skills`. */
  ghost predicate Counts(skills: seq<Skill>, names: set<string>, degree: map<string, int>, dependents: map<string,
                         seq<string>>) {
    && degree.Keys == names
    && (forall n :: n in names ==> degree[n] == Pending(skills, n, []))
    && Adjacency(skills, names, dependents)
  }

  ghost predicate Adjacency(skills: seq<Skill>, names: set<string>, dependents: map<string, seq<string>>) {
    && dependents.Keys == names
    && forall d, n :: d in names ==> multiset(dependents[d])[n] == EdgeCount(skills, n, d)
  }

  lemma {:induction false} EdgeStartsAtSkill(skills: seq<Skill>, n: string, d: string)
    ensures EdgeCount(skills, n, d) > 0 ==> n in Names(skills)
  {
    if skills != [] {
      EdgeStartsAtSkill(skills[..|skills| - 1], n, d);
    }
  }

  lemma KidsAreSkills(skills: seq<Skill>, kids: seq<string>, d: string)
    requires forall n :: multiset(kids)[n] == EdgeCount(skills, n, d)
    ensures forall n :: n in kids ==> n in Names(skills)
  {
    forall n | n in kids ensures n in Names(skills) {
      assert n in multiset(kids);
      EdgeStartsAtSkill(skills, n, d);
    }
  }

  /** `skills[..i]` followed by the first `j` dependencies of `skills[i]`. */
  ghost function Scanned(skills: seq<Skill>, i: nat, j: nat): seq<Skill>
    requires i < |skills| && j <= |skills[i].depends|
  {
    skills[..i] + [skills[i].(depends := skills[i].depends[..j])]
  }

  lemma ScanDependency(skills: seq<Skill>, i: nat, j: nat, n: string, d: string)
    requires i < |skills| && j < |skills[i].depends|
    ensures Pending(Scanned(skills, i, j + 1), n, []) ==
            Pending(Scanned(skills, i, j), n, []) + (if n == skills[i].name then 1 else 0)
    ensures EdgeCount(Scanned(skills, i, j + 1), n, d) ==
            EdgeCount(Scanned(skills, i, j), n, d) + (if n == skills[i].name && d == skills[i].depends[j] then 1 else 0)
  {
    var deps := skills[i].depends;
    assert Scanned(skills, i, j)[..i] == Scanned(skills, i, j + 1)[..i] == skills[..i];
    assert deps[..j + 1][..j] == deps[..j];
    assert deps[..j + 1] == deps[..j] + [deps[j]];
  }

  lemma CountsStep(skills: seq<Skill>, i: nat, j: nat, names: set<string>,
                   degree: map<string, int>, dependents: map<string, seq<string>>)
    requires i < |skills| && j < |skills[i].depends|
    requires skills[i].name in names && skills[i].depends[j] in names
    requires Counts(Scanned(skills, i, j), names, degree, dependents)
    ensures var s, dep := skills[i].name, skills[i].depends[j];
            Counts(Scanned(skills, i, j + 1), names,
                   degree[s := degree[s] + 1], dependents[dep := dependents[dep] + [s]])
  {
    var s, dep := skills[i].name, skills[i].depends[j];
    var next, longer := Scanned(skills, i, j + 1), dependents[dep := dependents[dep] + [s]];
    forall n | n in names { ScanDependency(skills, i, j, n, dep); }
    forall d, n | d in names ensures multiset(longer[d])[n] == EdgeCount(next, n, d) {
      ScanDependency(skills, i, j, n, d);
    }
  }

  lemma CountsEnds(skills: seq<Skill>, i: nat)
    requires i < |skills|
    ensures Scanned(skills, i, |skills[i].depends|) == skills[..i + 1]
    ensures forall n :: Pending(Scanned(skills, i, 0), n, []) == Pending(skills[..i], n, [])
    ensures forall n, d :: EdgeCount(Scanned(skills, i, 0), n, d) == EdgeCount(skills[..i], n, d)
  {
    var deps := skills[i].depends;
    assert deps[..|deps|] == deps;
    assert Scanned(skills, i, 0)[..i] == skills[..i];
  }

  method CountSkill(skills: seq<Skill>, i: nat, degree0: map<string, int>, dependents0: map<string, seq<string>>)
      returns (degree: map<string, int>, dependents: map<string, seq<string>>)
    requires i < |skills| && AllPresent(skills)
    requires Counts(skills[..i], Names(skills), degree0, dependents0)
    ensures Counts(skills[..i + 1], Names(skills), degree, dependents)
  {
    var s := skills[i];
    degree, dependents := degree0, dependents0;
    CountsEnds(skills, i);
    for j := 0 to |s.depends|
      invariant Counts(Scanned(skills, i, j), Names(skills), degree, dependents)
    {
      var dep := s.depends[j];
      CountsStep(skills, i, j, Names(skills), degree, dependents);
      degree := degree[s.name := degree[s.name] + 1];
      dependents := dependents[dep := dependents[dep] + [s.name]];
    }
  }

  method BuildGraph(skills: seq<Skill>) returns (degree: map<string, int>, dependents: map<string, seq<string>>)
    requires AllPresent(skills)
    ensures Counts(skills, Names(skills), degree, dependents)
  {
    degree := map s | s in skills :: s.name := 0;
    dependents := map s | s in skills :: s.name := [];
    for i := 0 to |skills|
      invariant Counts(skills[..i], Names(skills), degree, dependents)
    {
      degree, dependents := CountSkill(skills, i, degree, dependents);
    }
    assert skills[..|skills|] == skills;
  }

  /** One pass of the inner loop: decrement every dependent, collect those that reach zero. */
  lemma OneMore(s: seq<string>, j: nat)
    requires j < |s|
    ensures multiset(s[..j + 1]) == multiset(s[..j])[s[j] := multiset(s[..j])[s[j]] + 1]
    ensures multiset(s[..j + 1])[s[j]] <= multiset(s)[s[j]]
    ensures forall n :: n in s[..j + 1] <==> n in s[..j] || n == s[j]
  {
    assert s[..j + 1] == s[..j] + [s[j]];
    assert s == s[..j + 1] + s[j + 1..];
    assert multiset(s) == multiset(s[..j + 1]) + multiset(s[j + 1..]);
  }

  method Release(dependents: seq<string>, degree: map<string, int>)
      returns (lowered: map<string, int>, freed: seq<string>)
    requires forall n :: n in dependents ==> n in degree && multiset(dependents)[n] <= degree[n]
    ensures lowered.Keys == degree.Keys
    ensures forall n :: n in degree ==> lowered[n] == degree[n] - multiset(dependents)[n]
    ensures Distinct(freed)
    ensures forall n :: n in freed <==> n in dependents && lowered[n] == 0
  {
    lowered, freed := degree, [];
    for j := 0 to |dependents|
      invariant lowered.Keys == degree.Keys
      invariant forall n :: n in degree ==> lowered[n] == degree[n] - multiset(dependents[..j])[n]
      invariant Distinct(freed)
      invariant forall n :: n in freed <==> n in dependents[..j] && lowered[n] == 0
    {
      var child := dependents[j];
      OneMore(dependents, j);
      lowered := lowered[child := lowered[child] - 1];
      if lowered[child] == 0 {
        freed := freed + [child];
      }
    }
    assert dependents[..|dependents|] == dependents;
  }

  /** The loop state of Kahn's algorithm. */
  ghost predicate KahnInvariant(skills: seq<Skill>, degree: map<string, int>, queue: seq<string>, order: seq<string>) {
    && degree.Keys == Names(skills)
    && (forall n :: n in degree ==> degree[n] == Pending(skills, n, order))
    && Greedy(skills, order)
    && Sorted(queue) && Distinct(queue)
    && forall n :: n in queue <==> Available(skills, order, n)
  }

  lemma ZeroMeansSatisfied(skills: seq<Skill>, n: string, order: seq<string>)
    ensures Pending(skills, n, order) == 0 <==> Satisfied(skills, n, order)
  {
    PendingZero(skills, n, order);
  }

  /** One emission, seen from a single name: it stays queued, is freed, or keeps waiting. */
  lemma NameStep(skills: seq<Skill>, order: seq<string>, name: string, n: string)
    requires Available(skills, order, name)
    requires n in Names(skills) && n != name
    ensures Pending(skills, n, order) == Pending(skills, n, order + [name]) + EdgeCount(skills, n, name)
    ensures Available(skills, order, n) ==> Available(skills, order + [name], n)
    ensures Available(skills, order + [name], n) <==> n !in order && Pending(skills, n, order + [name]) == 0
    ensures Available(skills, order, n) <==> n !in order && Pending(skills, n, order) == 0
  {
    PendingStep(skills, n, order, name);
    ZeroMeansSatisfied(skills, n, order);
    ZeroMeansSatisfied(skills, n, order + [name]);
  }

  /** The queue after one step holds exactly what has become available. */
  lemma QueueStep(skills: seq<Skill>, degree: map<string, int>, lowered: map<string, int>,
                  rest: seq<string>, freed: seq<string>, order: seq<string>, name: string, kids: seq<string>)
    requires KahnInvariant(skills, degree, [name] + rest, order)
    requires forall n :: multiset(kids)[n] == EdgeCount(skills, n, name)
    requires lowered.Keys == degree.Keys
    requires forall n :: n in degree ==> lowered[n] == degree[n] - multiset(kids)[n]
    requires forall n :: n in freed <==> n in kids && n in lowered && lowered[n] == 0
    ensures forall n :: n in degree ==> lowered[n] == Pending(skills, n, order + [name])
    ensures forall n :: n in rest || n in freed <==> Available(skills, order + [name], n)
    ensures forall n :: n in rest ==> n !in freed
  {
    var queue := [name] + rest;
    KidsAreSkills(skills, kids, name);
    assert forall n :: n in queue <==> n == name || n in rest;
    assert name !in rest by {
      forall j | 0 <= j < |rest| ensures rest[j] != name { assert queue[0] == name && queue[j + 1] == rest[j]; }
    }
    forall n | n in degree
      ensures lowered[n] == Pending(skills, n, order + [name])
    {
      PendingStep(skills, n, order, name);
    }
    forall n
      ensures n in rest || n in freed <==> Available(skills, order + [name], n)
      ensures n in rest ==> n !in freed
    {
      if n == name {
        SelfLoopStaysOut(skills, degree, lowered, kids, order, name);
      } else if n in Names(skills) {
        NameStep(skills, order, name, n);
        EmittedStaysSatisfied(skills, order, n);
        assert n in kids <==> multiset(kids)[n] > 0;
      }
    }
  }

  /** The emitted name has no edge to itself, so it is not freed again. */
  lemma SelfLoopStaysOut(skills: seq<Skill>, degree: map<string, int>, lowered: map<string, int>,
                         kids: seq<string>, order: seq<string>, name: string)
    requires Available(skills, order, name) && name in degree
    requires degree[name] == Pending(skills, name, order)
    requires multiset(kids)[name] == EdgeCount(skills, name, name)
    ensures name !in kids
  {
    PendingStep(skills, name, order, name);
    ZeroMeansSatisfied(skills, name, order);
    assert name in kids <==> multiset(kids)[name] > 0;
  }

  /** Names already emitted have no pending edge. */
  lemma EmittedStaysSatisfied(skills: seq<Skill>, order: seq<string>, n: string)
    requires Greedy(skills, order)
    ensures n in order ==> Pending(skills, n, order) == 0
  {
    if n in order {
      var i :| 0 <= i < |order| && order[i] == n;
      assert GreedyAt(skills, order[..i], order[i]);
      ZeroMeansSatisfied(skills, n, order);
      assert forall d :: d in order[..i] ==> d in order;
    }
  }

  /** The names with no dependency edge, in the order the counters were created. */
  function InitialQueue(skills: seq<Skill>, degree: map<string, int>): (q: seq<string>)
    requires forall s :: s in skills ==> s.name in degree
    ensures Distinct(q)
    ensures forall n :: n in q <==> (exists s :: s in skills && s.name == n && degree[n] == 0)
  {
    if skills == [] then [] else
    var init, last := skills[..|skills| - 1], skills[|skills| - 1];
    assert skills == init + [last];
    var q := InitialQueue(init, degree);
    if last.name in q || degree[last.name] != 0 then q else q + [last.name]
  }

  /** A dictionary keyed by name keeps the last skill of each name. */
  function ByName(skills: seq<Skill>, n: string): (s: Skill)
    requires exists s :: s in skills && s.name == n
    ensures s in skills && s.name == n
  {
    var init, last := skills[..|skills| - 1], skills[|skills| - 1];
    assert skills == init + [last];
    if last.name == n then last else ByName(init, n)
  }

  lemma InitialInvariant(skills: seq<Skill>, degree: map<string, int>, queue: seq<string>)
    requires degree.Keys == Names(skills)
    requires forall n :: n in degree ==> degree[n] == Pending(skills, n, [])
    requires queue == SortNames(InitialQueue(skills, degree))
    ensures KahnInvariant(skills, degree, queue, [])
  {
    var first := InitialQueue(skills, degree);
    SameElements(queue, first);
    forall n ensures n in queue <==> Available(skills, [], n) {
      ZeroMeansSatisfied(skills, n, []);
    }
  }

  /** The head of the sorted queue is the greedy choice. */
  lemma HeadIsGreedy(skills: seq<Skill>, degree: map<string, int>, queue: seq<string>, order: seq<string>)
    requires KahnInvariant(skills, degree, queue, order) && queue != []
    ensures GreedyAt(skills, order, queue[0])
  {
    assert queue[0] in queue;
    forall n | Available(skills, order, n) ensures !LexLess(n, queue[0]) {
      var i :| 0 <= i < |queue| && queue[i] == n;
      LexIrreflexive(n);
    }
  }

  /** No counter is asked to go below zero. */
  lemma EdgesFit(skills: seq<Skill>, degree: map<string, int>, kids: seq<string>, order: seq<string>, name: string)
    requires forall n :: n in degree ==> degree[n] == Pending(skills, n, order)
    requires name !in order
    requires forall n :: n in degree ==> multiset(kids)[n] == EdgeCount(skills, n, name)
    ensures forall n :: n in degree ==> multiset(kids)[n] <= degree[n]
  {
    forall n | n in degree ensures multiset(kids)[n] <= degree[n] {
      PendingStep(skills, n, order, name);
    }
  }

  lemma DistinctConcat(a: seq<string>, b: seq<string>)
    requires Distinct(a) && Distinct(b)
    requires forall n :: n in a ==> n !in b
    ensures Distinct(a + b)
  {
    forall i, j | 0 <= i < j < |a + b| ensures (a + b)[i] != (a + b)[j] {
      if i < |a| <= j { assert a[i] in a && b[j - |a|] in b; }
    }
  }

  /** Once the queue is empty, the length comparison tells the two outcomes apart. */
  lemma Finish(skills: seq<Skill>, order: seq<string>)
    requires Greedy(skills, order)
    requires forall n :: !Available(skills, order, n)
    ensures |order| == |skills| ==> DistinctNames(skills) && IsLeastTopological(skills, order)
    ensures |order| != |skills| ==> !DistinctNames(skills) || !exists t :: IsTopological(skills, t)
  {
    GreedyDistinct(skills, order);
    DistinctCardinality(order);
    NamesCardinality(skills);
    var emitted := set n | n in order;
    forall n | n in order ensures n in Names(skills) {
      var i :| 0 <= i < |order| && order[i] == n;
      assert GreedyAt(skills, order[..i], order[i]);
    }
    assert emitted <= Names(skills);
    SubsetCardinality(emitted, Names(skills));
    if emitted == Names(skills) {
      forall n | n in Names(skills) ensures n in order { assert n in emitted; }
      GreedyIsLeast(skills, order);
    } else {
      var n :| n in Names(skills) && n !in emitted;
      assert n !in order;
      forall t ensures !IsTopological(skills, t) { StuckMeansCyclic(skills, order, t); }
    }
  }

  lemma SubsetCardinality(a: set<string>, b: set<string>)
    requires a <= b
    ensures |a| <= |b|
    ensures |a| == |b| ==> a == b
  {
    assert |b - a| + |a| == |b| by { assert (b - a) + a == b; }
    if |a| == |b| { assert b - a == {}; }
  }

  /** One turn of the main loop. */
  method EmitNext(skills: seq<Skill>, dependents: map<string, seq<string>>,
                  degree: map<string, int>, queue: seq<string>, ghost order: seq<string>)
      returns (name: string, degree': map<string, int>, queue': seq<string>)
    requires queue != [] && KahnInvariant(skills, degree, queue, order)
    requires Adjacency(skills, Names(skills), dependents)
    ensures name == queue[0] && GreedyAt(skills, order, name)
    ensures KahnInvariant(skills, degree', queue', order + [name])
  {
    name := queue[0];
    var rest := queue[1..];
    assert queue == [name] + rest;
    HeadIsGreedy(skills, degree, queue, order);
    EdgesFit(skills, degree, dependents[name], order, name);
    KidsAreSkills(skills, dependents[name], name);
    var freed;
    degree', freed := Release(dependents[name], degree);
    QueueStep(skills, degree, degree', rest, freed, order, name, dependents[name]);
    queue' := SortNames(rest + freed);
    DistinctConcat(rest, freed);
    SameElements(queue', rest + freed);
    GreedyExtends(skills, order, name);
  }

  method Conclude(skills: seq<Skill>, order: seq<string>) returns (out: Outcome)
    requires AllPresent(skills) && Greedy(skills, order)
    requires forall n :: !Available(skills, order, n)
    ensures IsResolution(skills, out)
  {
    Finish(skills, order);
    if |order| != |skills| {
      return Circular;
    }
    out := Resolved(seq(|order|, i requires 0 <= i < |order| => ByName(skills, order[i])));
    assert NamesOf(out.ordered) == order;
  }

  method ResolveDependenciesOrdered(skills: seq<Skill>) returns (out: Outcome)
    ensures IsResolution(skills, out)
  {
    out := CheckDependencies(skills);
    if out != Circular {
      return;
    }
    var degree, dependents := BuildGraph(skills);
    var queue := SortNames(InitialQueue(skills, degree));
    InitialInvariant(skills, degree, queue);
    var order: seq<string> := [];
    while queue != []
      invariant KahnInvariant(skills, degree, queue, order)
      decreases Names(skills) - (set m | m in order)
    {
      var name;
      name, degree, queue := EmitNext(skills, dependents, degree, queue, order);
      assert name in Names(skills) - (set m | m in order);
      order := order + [name];
    }
    out := Conclude(skills, order);
  }

  // ---------------------------------------------------------------------------
  // The outcome does not depend on the order of the input
  // ---------------------------------------------------------------------------

  lemma ComesBeforeAsymmetric(a: seq<string>, b: seq<string>)
    requires ComesBefore(a, b)
    ensures a != b && !ComesBefore(b, a)
  {
    var i :| 0 <= i < |a| && i < |b| && a[..i] == b[..i] && LexLess(a[i], b[i]);
    LexIrreflexive(a[i]);
    if ComesBefore(b, a) {
      var j :| 0 <= j < |b| && j < |a| && b[..j] == a[..j] && LexLess(b[j], a[j]);
      LexIrreflexive(b[j]);
      if i == j {
        LexTransitive(a[i], b[i], a[i]);
      }
    }
  }

  lemma SameSkills(skills: seq<Skill>, shuffled: seq<Skill>)
    requires multiset(skills) == multiset(shuffled)
    ensures forall s :: s in skills <==> s in shuffled
    ensures Names(skills) == Names(shuffled)
    ensures AllPresent(skills) <==> AllPresent(shuffled)
    ensures forall t :: IsTopological(skills, t) <==> IsTopological(shuffled, t)
    ensures DistinctNames(skills) <==> DistinctNames(shuffled)
  {
    SameElements(skills, shuffled);
    assert Names(skills) == Names(shuffled);
    NamesCardinality(skills);
    NamesCardinality(shuffled);
    assert |skills| == |multiset(skills)| == |shuffled|;
    forall t ensures IsTopological(skills, t) <==> IsTopological(shuffled, t) {
      assert forall i :: 0 <= i < |t| ==> (Satisfied(skills, t[i], t[..i]) <==> Satisfied(shuffled, t[i], t[..i]));
    }
  }

  lemma SkillByName(skills: seq<Skill>, s: Skill, s': Skill)
    requires DistinctNames(skills) && s in skills && s' in skills && s.name == s'.name
    ensures s == s'
  {
    var i :| 0 <= i < |skills| && skills[i] == s;
    var j :| 0 <= j < |skills| && skills[j] == s';
  }

  /** Resolutions of the same skills in any input order agree, down to which error is raised
      (a missing dependency may be reported for a different skill). */
  lemma ResolutionIgnoresInputOrder(skills: seq<Skill>, shuffled: seq<Skill>, a: Outcome, b: Outcome)
    requires multiset(skills) == multiset(shuffled)
    requires IsResolution(skills, a) && IsResolution(shuffled, b)
    ensures a == b || (a.MissingDependency? && b.MissingDependency?)
  {
    SameSkills(skills, shuffled);
    MissingMeansAbsent(skills, a);
    MissingMeansAbsent(shuffled, b);
    if a.Resolved? && b.Resolved? {
      var x, y := NamesOf(a.ordered), NamesOf(b.ordered);
      if x != y {
        ComesBeforeAsymmetric(x, y);
      }
      forall i | 0 <= i < |x| ensures a.ordered[i] == b.ordered[i] {
        assert x[i] == y[i];
        SkillByName(skills, a.ordered[i], b.ordered[i]);
      }
    }
  }

  lemma MissingMeansAbsent(skills: seq<Skill>, out: Outcome)
    requires IsResolution(skills, out)
    ensures out.MissingDependency? <==> !AllPresent(skills)
  {
    if out.MissingDependency? {
      var i: nat, j: nat :| FirstMissing(skills, i, j);
      assert skills[i] in skills && skills[i].depends[j] in skills[i].depends;
    }
  }

  /** Success and the circular error are told apart exactly by the existence of a
      topological order; repeated names always end in the circular error. */
  lemma OutcomeExactly(skills: seq<Skill>, out: Outcome)
    requires IsResolution(skills, out) && AllPresent(skills)
    ensures out.Resolved? <==> DistinctNames(skills) && exists t :: IsTopological(skills, t)
    ensures out.Circular? <==> !DistinctNames(skills) || !exists t :: IsTopological(skills, t)
  {
    MissingMeansAbsent(skills, out);
    if out.Resolved? {
      assert IsTopological(skills, NamesOf(out.ordered));
    }
  }

  /** Two skills with one name and no dependencies: there is a topological order of the names, and
      every resolution is the circular error. */
  lemma RepeatedNameIsCircular(name: string, out: Outcome)
    requires IsResolution([Skill(name, []), Skill(name, [])], out)
    ensures IsTopological([Skill(name, []), Skill(name, [])], [name])
    ensures out == Circular
  {
    var skills := [Skill(name, []), Skill(name, [])];
    assert Names(skills) == {name};
    assert skills[0].name == skills[1].name;
    MissingMeansAbsent(skills, out);
  }
}
