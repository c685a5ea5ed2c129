/** Regenerating one adapter's pointer block: search for an equivalent pull request, compare-and-swap
    push of the generated branch, then refresh or open the pull request, with other writers acting on
    the same remote in between. */
module PointerRegeneration {
  import opened Collections
  import opened Text
  import opened PrEquivalence

  // ---------------------------------------------------------------------------
  // The remote repository
  // ---------------------------------------------------------------------------

  /** A branch value: a commit, with the files it changes against the base. */
  datatype Commit = Commit(id: nat, files: seq<File>)

  /** An open pull request; one from the generated head (`own`) shows whatever the branch holds. */
  datatype OpenPr = OpenPr(row: PullRequest, own: bool, files: seq<File>)

  datatype World = World(branch: Option<Commit>, prs: seq<OpenPr>)

  function FilesOf(pr: OpenPr, branch: Option<Commit>): seq<File> {
    if pr.own then (if branch.Some? then branch.value.files else []) else pr.files
  }

  function Content(pr: OpenPr, branch: Option<Commit>): PullRequest {
    pr.row.(files := Some(FilesOf(pr, branch)))
  }

  /** The open pull requests with their current file lists. */
  function Contents(w: World): (rows: seq<PullRequest>)
    ensures |rows| == |w.prs|
    ensures forall k :: 0 <= k < |rows| ==> rows[k] == Content(w.prs[k], w.branch)
  {
    seq(|w.prs|, k requires 0 <= k < |w.prs| => Content(w.prs[k], w.branch))
  }

  /** A pull request as the list endpoint gives it: without its files. */
  function Listed(pr: OpenPr): PullRequest {
    pr.row.(files := None)
  }

  /** What the search sees of the open pull requests: the files of those that have a number. */
  function Shown(w: World): (rows: seq<PullRequest>)
    ensures |rows| == |w.prs|
    ensures forall k :: 0 <= k < |rows| ==> rows[k] == ShownRow(w.prs[k], w.branch)
  {
    seq(|w.prs|, k requires 0 <= k < |w.prs| => ShownRow(w.prs[k], w.branch))
  }

  function ShownRow(pr: OpenPr, branch: Option<Commit>): PullRequest {
    if pr.row.number.Some? then Content(pr, branch) else Listed(pr)
  }

  /** Some open pull request already carries the generated change. */
  ghost predicate Carried(w: World, path: string, blob: string) {
    exists k :: 0 <= k < |w.prs| && Carries(Contents(w)[k], path, blob)
  }

  function OwnCount(prs: seq<OpenPr>): nat {
    if prs == [] then 0 else OwnCount(prs[..|prs| - 1]) + (if prs[|prs| - 1].own then 1 else 0)
  }

  /** What a run did to the remote, and the lookups its writes rest on. */
  datatype Event =
    | SearchedNone
    | Granted
    | ReadBranch(value: Option<Commit>)
    | Pushed(expected: Option<Commit>, before: Option<Commit>, after: Commit)
    | PushRejected(expected: Option<Commit>, actual: Option<Commit>)
    | NoOwnPr
    | UpdatedPr
    | CreatedPr

  predicate IsWrite(e: Event) {
    e.Pushed? || e.UpdatedPr? || e.CreatedPr?
  }

  /** What became of a push at the remote. */
  datatype PushResult = Unsent | Rejected | Accepted

  /** The remote as this run sees it. Unless it is `reliable`, every operation may fail; when `quiet`, nobody
      else writes;
      when `current`, the files endpoint shows what the generated branch holds now, and otherwise it
      may still show anything for a pull request from that branch. */
  class Remote {
    const quiet: bool
    const current: bool
    const reliable: bool
    var world: World
    ghost var log: seq<Event>

    constructor (quiet: bool, current: bool, reliable: bool, world: World)
      ensures this.quiet == quiet && this.current == current && this.reliable == reliable
      ensures this.world == world && log == []
    {
      this.quiet, this.current, this.reliable, this.world, this.log := quiet, current, reliable, world, [];
    }

    /** Nothing fails, nobody interferes, and every answer is current and complete. */
    ghost predicate RunsSmoothly(w: World) {
      reliable && quiet && current && AllResolved(w, README)
    }

    /** Anything other writers may do between two operations of this run. */
    method OtherWriters()
      modifies this`world
      ensures quiet ==> world == old(world)
    {
      if !quiet {
        world := *;
      }
    }

    method ListOpenPrs() returns (r: Option<seq<OpenPr>>)
      ensures (r.Some? ==> r.value == world.prs) && (reliable ==> r.Some?)
    {
      var fails: bool := *;
      if !reliable && fails {
        return None;
      }
      return Some(world.prs);
    }

    /** The files endpoint; a pull request that is gone cannot be read. */
    method PrFiles(pr: OpenPr) returns (r: Option<seq<File>>)
      ensures r.Some? && (current || !pr.own) ==> r.value == FilesOf(pr, world.branch)
      ensures reliable ==> r.Some?
    {
      var fails: bool := *;
      if !reliable && fails {
        return None;
      }
      if !current && pr.own {
        var stale: seq<File> := *;
        return Some(stale);
      }
      return Some(FilesOf(pr, world.branch));
    }

    /** List, resolve and compare, with other writers between any two calls. */
    method Search(path: string, blob: string, title: string) returns (r: Option<Search>)
      modifies this`world
      ensures quiet ==> world == old(world)
      ensures quiet && current && r.Some? ==> IsAnswer(Shown(world), path, blob, title, r.value)
      ensures reliable ==> r.Some?
    {
      r := None;
      var listed := ListOpenPrs();
      if listed.None? {
        return;
      }
      var rows: seq<PullRequest> := [];
      for k := 0 to |listed.value|
        invariant |rows| == k
        invariant quiet ==> world == old(world)
        invariant quiet && current ==> forall j :: 0 <= j < k ==> rows[j] == Shown(world)[j]
      {
        OtherWriters();
        var row := Listed(listed.value[k]);
        if NeedsLookup(row, path) {
          var files := PrFiles(listed.value[k]);
          if files.None? {
            return;
          }
          row := WithFiles(row, files.value);
        }
        rows := rows + [row];
      }
      assert quiet && current ==> rows == Shown(world);
      var s := FindEquivalentPr(rows, path, blob, title);
      return Some(s);
    }

    /** Whether an equivalent pull request exists; a failed lookup or an unresolved candidate is an error. */
    method FindEquivalent(path: string, blob: string, title: string) returns (found: Option<bool>)
      modifies this
      ensures log == if found == Some(false) then old(log) + [SearchedNone] else old(log)
      ensures quiet ==> world == old(world)
      ensures quiet && current && found.Some? ==> (found.value <==> Carried(world, path, blob))
      ensures reliable && quiet && current && AllResolved(world, path) ==> found.Some?
    {
      var r := Search(path, blob, title);
      if r.None? || r.value.Unresolved? {
        return None;
      }
      if quiet && current {
        FoundMeansCarried(world, path, blob, title, r.value);
      }
      if r.value.NotFound? {
        log := log + [SearchedNone];
      }
      return Some(r.value.Found?);
    }

    /** Granted, denied and unknown; only a confirmed grant counts. */
    method EnsurePushTarget() returns (granted: bool)
      modifies this`log
      ensures log == if granted then old(log) + [Granted] else old(log)
      ensures reliable ==> granted
    {
      granted := *;
      granted := granted || reliable;
      if granted {
        log := log + [Granted];
      }
    }

    method RemoteBranchSha() returns (r: Option<Option<Commit>>)
      modifies this`log
      ensures r.Some? ==> r.value == world.branch && log == old(log) + [ReadBranch(r.value)]
      ensures r.None? ==> log == old(log) && !reliable
    {
      var fails: bool := *;
      if !reliable && fails {
        return None;
      }
      log := log + [ReadBranch(world.branch)];
      return Some(world.branch);
    }

    /** `git push --force-with-lease`: the branch changes only while it holds the expected value.
        The command may report failure even though the remote accepted the push. */
    method Push(expected: Option<Commit>, commit: Commit) returns (ok: bool, ghost result: PushResult)
      modifies this
      ensures ok ==> result.Accepted?
      ensures reliable && old(world).branch == expected ==> ok
      ensures match result
              case Unsent => log == old(log) && world == old(world)
              case Rejected =>
                && old(world).branch != expected && world == old(world)
                && log == old(log) + [PushRejected(expected, old(world).branch)]
              case Accepted =>
                && old(world).branch == expected && world == old(world).(branch := Some(commit))
                && log == old(log) + [Pushed(expected, old(world).branch, commit)]
    {
      var fails: bool := *;
      if !reliable && fails {
        return false, Unsent;
      }
      if world.branch != expected {
        log := log + [PushRejected(expected, world.branch)];
        return false, Rejected;
      }
      log := log + [Pushed(expected, world.branch, commit)];
      world := world.(branch := Some(commit));
      ok, result := *, Accepted;
      ok := ok || reliable;
    }

    /** The open pull request from the generated head, if there is one. */
    method FindOpenPr() returns (r: Option<Option<nat>>)
      modifies this`log
      ensures r.Some? && r.value.Some? ==>
              r.value.value < |world.prs| && world.prs[r.value.value].own && log == old(log)
      ensures r.Some? && r.value.None? ==>
              (forall k :: 0 <= k < |world.prs| ==> !world.prs[k].own) && log == old(log) + [NoOwnPr]
      ensures r.Some? && r.value.Some? ==> FirstAt(world.prs, IsOwn, r.value.value)
      ensures r.None? ==> log == old(log) && !reliable
    {
      var fails: bool := *;
      if !reliable && fails {
        return None;
      }
      for k := 0 to |world.prs|
        invariant forall j :: 0 <= j < k ==> !world.prs[j].own
      {
        if world.prs[k].own {
          return Some(Some(k));
        }
      }
      log := log + [NoOwnPr];
      return Some(None);
    }

    /** Title and body of an open pull request; its content and its head stay as they are. */
    method UpdatePr(k: nat, title: string) returns (ok: bool)
      modifies this
      ensures (log == old(log) && world == old(world) && !ok)
           || (log == old(log) + [UpdatedPr] && k < |old(world).prs| && world == Retitled(old(world), k, title))
      ensures reliable && k < |old(world).prs| ==> ok
      ensures SameContent(old(world), world)
    {
      if k >= |world.prs| {
        return false;
      }
      var fails: bool := *;
      if !reliable && fails {
        return false;
      }
      log := log + [UpdatedPr];
      var pr := world.prs[k];
      world := world.(prs := world.prs[k := pr.(row := pr.row.(title := title))]);
      ok := *;
      ok := ok || reliable;
    }

    method CreatePr(row: PullRequest) returns (ok: bool)
      modifies this
      ensures (log == old(log) && world == old(world) && !ok)
           || (log == old(log) + [CreatedPr] && world == old(world).(prs := old(world).prs + [OpenPr(row, true, [])]))
      ensures reliable ==> ok
    {
      var fails: bool := *;
      if !reliable && fails {
        return false;
      }
      log := log + [CreatedPr];
      world := world.(prs := world.prs + [OpenPr(row, true, [])]);
      ok := *;
      ok := ok || reliable;
    }
  }

  predicate IsOwn(pr: OpenPr) {
    pr.own
  }

  /** The world with another title on pull request `k`. */
  function Retitled(w: World, k: nat, title: string): World
    requires k < |w.prs|
  {
    w.(prs := w.prs[k := w.prs[k].(row := w.prs[k].row.(title := title))])
  }

  /** The content of every open pull request can be told. */
  ghost predicate AllResolved(w: World, path: string) {
    forall k :: 0 <= k < |w.prs| ==> !IsUnresolved(Shown(w)[k], path)
  }

  /** Same branch, and the same pull requests up to titles. */
  ghost predicate SameContent(a: World, b: World) {
    && a.branch == b.branch && |a.prs| == |b.prs|
    && forall k :: 0 <= k < |a.prs| ==> a.prs[k].own == b.prs[k].own && a.prs[k].files == b.prs[k].files
  }

  // ---------------------------------------------------------------------------
  // One run
  // ---------------------------------------------------------------------------

  datatype Status = Current | Regenerated | Missing | Error | Duplicate
  datatype Action = NoAction | WouldOpenPr | ReusedPr | RefreshedPr | OpenedPr | Incomplete
  datatype Row = Row(status: Status, action: Action)

  datatype Generated = Unchanged | Changed | GeneratorError

  /** What the clone and the local commands answered. `blob` is the id of the regenerated file,
      `commit` the id of the new commit; both are absent when their command failed. */
  datatype Local = Local(
    hasUrl: bool, cloned: bool, hasReadme: bool, generated: Generated, onlyReadme: bool, dryRun: bool,
    blob: Option<string>, isGeneratedBranch: bool, commit: Option<nat>, cleaned: bool)

  const README := "README.md"

  predicate IsHex(c: char) {
    '0' <= c <= '9' || 'a' <= c <= 'f'
  }

  predicate IsGitSha(s: string) {
    (|s| == 40 || |s| == 64) && forall c :: c in s ==> IsHex(c)
  }

  /** A git hash: 40 or 64 digits, the letters in lower case. */
  lemma ShaExactly(s: string)
    ensures IsGitSha(s) <==>
            (|s| == 40 || |s| == 64) && forall i :: 0 <= i < |s| ==> s[i] in "0123456789abcdef"
  {
    forall i | 0 <= i < |s| ensures IsHex(s[i]) <==> s[i] in "0123456789abcdef" {
      HexDigit(s[i]);
    }
    assert forall c :: c in s ==> exists i :: 0 <= i < |s| && s[i] == c;
  }

  lemma HexDigit(c: char)
    ensures IsHex(c) <==> c in "0123456789abcdef"
  {
    var digits := "0123456789abcdef";
    if '0' <= c <= '9' {
      assert digits[c as int - '0' as int] == c;
    } else if 'a' <= c <= 'f' {
      assert digits[10 + (c as int - 'a' as int)] == c;
    }
  }

  ghost predicate HasRejection(log: seq<Event>) {
    exists i :: 0 <= i < |log| && log[i].PushRejected?
  }

  ghost predicate HasWrite(log: seq<Event>) {
    exists i :: 0 <= i < |log| && IsWrite(log[i])
  }

  ghost predicate HasPush(log: seq<Event>) {
    exists i :: 0 <= i < |log| && log[i].Pushed?
  }

  /** What a run may do next, given its log so far. Every write needs a finished search that found
      nothing and a confirmed grant; the branch is replaced only at the value that was read; a pull
      request is opened only after the push, a lookup without an own pull request, and a second
      empty search; nothing follows a rejected push. */
  ghost predicate MayFollow(log: seq<Event>, e: Event) {
    && !HasRejection(log)
    && (IsWrite(e) ==> SearchedNone in log && Granted in log)
    && (e.Pushed? ==> e.before == e.expected && ReadBranch(e.expected) in log)
    && (e.PushRejected? ==> e.actual != e.expected)
    && (e.CreatedPr? ==> NoOwnPr in log && log[|log| - 1] == SearchedNone && HasPush(log))
  }

  ghost predicate Disciplined(log: seq<Event>) {
    forall i :: 0 <= i < |log| ==> MayFollow(log[..i], log[i])
  }

  lemma KindsGrow(log: seq<Event>, e: Event)
    ensures HasRejection(log + [e]) <==> HasRejection(log) || e.PushRejected?
    ensures HasWrite(log + [e]) <==> HasWrite(log) || IsWrite(e)
    ensures HasPush(log + [e]) <==> HasPush(log) || e.Pushed?
  {
    var more := log + [e];
    assert more[|log|] == e;
    assert forall i :: 0 <= i < |log| ==> more[i] == log[i];
  }

  lemma Extend(log: seq<Event>, e: Event)
    requires Disciplined(log) && MayFollow(log, e)
    ensures Disciplined(log + [e])
    ensures HasRejection(log + [e]) <==> e.PushRejected?
    ensures HasWrite(log + [e]) <==> HasWrite(log) || IsWrite(e)
    ensures HasPush(log + [e]) <==> HasPush(log) || e.Pushed?
  {
    var more := log + [e];
    forall i | 0 <= i < |more| ensures MayFollow(more[..i], more[i]) {
      assert more[..i] == log[..i];
      assert log[..|log|] == log;
    }
    KindsGrow(log, e);
  }

  /** The log so far is in order and the run may go on. */
  ghost predicate InOrder(log: seq<Event>) {
    Disciplined(log) && !HasRejection(log)
  }

  ghost predicate MayWrite(log: seq<Event>) {
    InOrder(log) && SearchedNone in log && Granted in log
  }

  /** Every push is of the commit this run made, on the generated branch, and holds just `files`. */
  ghost predicate PushesAre(log: seq<Event>, local: Local, files: seq<File>) {
    forall i :: 0 <= i < |log| && log[i].Pushed? ==>
      local.isGeneratedBranch && local.commit == Some(log[i].after.id) && log[i].after.files == files
  }

  /** A later part of a run that pushes nothing. */
  ghost predicate NoMorePushes(log: seq<Event>, more: seq<Event>) {
    log <= more && forall i :: |log| <= i < |more| ==> !more[i].Pushed?
  }

  /** Commit the regenerated file and push it under a lease on the value read from the remote. */
  method CommitAndPush(remote: Remote, local: Local, files: seq<File>) returns (ok: bool, ghost pushed: Commit)
    requires MayWrite(remote.log)
    modifies remote
    ensures Disciplined(remote.log) && (ok ==> MayWrite(remote.log) && HasPush(remote.log))
    ensures pushed.files == files && (local.commit.Some? ==> pushed.id == local.commit.value)
    ensures remote.reliable && remote.quiet && local.isGeneratedBranch && local.commit.Some? ==> ok
    ensures PushesAre(old(remote.log), local, files) ==> PushesAre(remote.log, local, files)
    ensures HasWrite(old(remote.log)) ==> HasWrite(remote.log)
    ensures remote.quiet ==>
            remote.world == old(remote.world) || remote.world == old(remote.world).(branch := Some(pushed))
    ensures remote.quiet && ok ==> remote.world == old(remote.world).(branch := Some(pushed))
    ensures remote.quiet && !HasWrite(remote.log) ==> remote.world == old(remote.world)
  {
    ok, pushed := false, Commit(if local.commit.Some? then local.commit.value else 0, files);
    if !local.isGeneratedBranch {
      return;
    }
    remote.OtherWriters();
    var expected := remote.RemoteBranchSha();
    if expected.None? {
      return;
    }
    Extend(old(remote.log), ReadBranch(expected.value));
    PushesGrow(old(remote.log), ReadBranch(expected.value), local, files);
    if local.commit.None? {
      return;
    }
    var commit := Commit(local.commit.value, files);
    pushed := commit;
    remote.OtherWriters();
    ghost var read, actual := remote.log, remote.world.branch;
    ghost var result;
    ok, result := remote.Push(expected.value, commit);
    if result.Accepted? {
      Extend(read, Pushed(expected.value, actual, commit));
      PushesGrow(read, Pushed(expected.value, actual, commit), local, files);
    } else if result.Rejected? {
      Extend(read, PushRejected(expected.value, actual));
      PushesGrow(read, PushRejected(expected.value, actual), local, files);
    }
  }

  lemma PushesGrow(log: seq<Event>, e: Event, local: Local, files: seq<File>)
    requires e.Pushed? ==> local.isGeneratedBranch && local.commit == Some(e.after.id) && e.after.files == files
    ensures PushesAre(log, local, files) ==> PushesAre(log + [e], local, files)
  {
  }

  /** What a run may do to a remote nobody else writes to. */
  ghost predicate QuietEffect(before: World, after: World, path: string, blob: string, log: seq<Event>, row: Row,
                              current: bool) {
    && (!HasWrite(log) ==> after == before)
    && (OwnCount(after.prs) == OwnCount(before.prs) || (OwnCount(before.prs) == 0 && OwnCount(after.prs) == 1))
    && ((current && row.status == Duplicate) || row.action == OpenedPr || row.action == RefreshedPr ==>
        Carried(after, path, blob))
  }

  lemma {:induction false} TrimHex(s: string)
    requires forall c :: c in s ==> !IsSpace(c)
    ensures Strip(s) == s
  {
  }

  lemma ReadmeStripped()
    ensures Strip(README) == README
  {
  }

  /** A pull request from the generated head carries what was pushed. */
  lemma OwnCarries(w: World, k: nat, commit: Commit, blob: string)
    requires k < |w.prs| && w.prs[k].own && w.branch == Some(commit)
    requires commit.files == [File(README, blob)] && IsGitSha(blob)
    ensures Carried(w, README, blob)
  {
    ReadmeStripped();
    assert forall c :: c in blob ==> IsHex(c) && !IsSpace(c);
    TrimHex(blob);
    assert Carries(Contents(w)[k], README, blob);
  }

  /** A found pull request carries the change, and none does when nothing is found or unresolved. */
  lemma FoundMeansCarried(w: World, path: string, blob: string, title: string, r: Search)
    requires IsAnswer(Shown(w), path, blob, title, r) && !r.Unresolved?
    ensures r.Found? <==> Carried(w, path, blob)
  {
    if r.Found? {
      assert Carries(Shown(w)[r.index], path, blob);
      assert Carries(Contents(w)[r.index], path, blob);
    } else {
      forall k | 0 <= k < |w.prs| ensures !Carries(Contents(w)[k], path, blob) {
        assert !IsUnresolved(Shown(w)[k], path) && !Carries(Shown(w)[k], path, blob);
      }
    }
  }

  lemma {:induction false} OwnCountKept(a: seq<OpenPr>, b: seq<OpenPr>)
    requires |a| == |b| && forall k :: 0 <= k < |a| ==> a[k].own == b[k].own
    ensures OwnCount(a) == OwnCount(b)
  {
    if a != [] {
      OwnCountKept(a[..|a| - 1], b[..|b| - 1]);
    }
  }

  lemma {:induction false} OwnCountZero(a: seq<OpenPr>)
    ensures OwnCount(a) == 0 <==> forall k :: 0 <= k < |a| ==> !a[k].own
  {
    if a != [] {
      OwnCountZero(a[..|a| - 1]);
      assert forall k :: 0 <= k < |a| - 1 ==> a[..|a| - 1][k] == a[k];
    }
  }

  lemma OwnCountAdded(a: seq<OpenPr>, pr: OpenPr)
    requires pr.own
    ensures OwnCount(a + [pr]) == OwnCount(a) + 1
  {
    assert (a + [pr])[..|a|] == a;
  }

  /** What the rest of a run does once the branch holds the pushed commit. */
  ghost predicate PushedEffect(before: World, after: World, blob: string, row: Row, current: bool) {
    && (OwnCount(after.prs) == OwnCount(before.prs) || (OwnCount(before.prs) == 0 && OwnCount(after.prs) == 1))
    && ((current && row.status == Duplicate) || row.action == OpenedPr || row.action == RefreshedPr ==>
        Carried(after, README, blob))
  }

  lemma SameWorld(w: World, blob: string, row: Row, current: bool)
    ensures row.action != OpenedPr && row.action != RefreshedPr
            && (current && row.status == Duplicate ==> Carried(w, README, blob)) ==>
              PushedEffect(w, w, blob, row, current)
  {
  }

  lemma RefreshEffect(before: World, after: World, k: nat, commit: Commit, blob: string, row: Row, current: bool)
    requires SameContent(before, after) && k < |before.prs| && before.prs[k].own && before.branch == Some(commit)
    requires commit.files == [File(README, blob)] && IsGitSha(blob)
    ensures PushedEffect(before, after, blob, row, current)
  {
    OwnCountKept(before.prs, after.prs);
    OwnCarries(after, k, commit, blob);
  }

  lemma CreateEffect(before: World, after: World, pr: PullRequest, commit: Commit, blob: string, row: Row,
                     current: bool)
    requires forall k :: 0 <= k < |before.prs| ==> !before.prs[k].own
    requires after == before.(prs := before.prs + [OpenPr(pr, true, [])]) && before.branch == Some(commit)
    requires commit.files == [File(README, blob)] && IsGitSha(blob)
    ensures PushedEffect(before, after, blob, row, current)
  {
    OwnCountZero(before.prs);
    OwnCountAdded(before.prs, OpenPr(pr, true, []));
    OwnCarries(after, |before.prs|, commit, blob);
  }

  /** A row that reports a refreshed or an opened pull request comes from a run that did that. */
  ghost predicate RowFits(log: seq<Event>, row: Row) {
    && (row.action == RefreshedPr ==> UpdatedPr in log && HasPush(log))
    && (row.action == OpenedPr ==> CreatedPr in log && HasPush(log))
    && (row.action == Incomplete ==> row.status == Error)
  }

  ghost predicate IsRefreshed(before: World, after: World, k: nat, title: string, row: Row)
    requires k < |before.prs|
  {
    row == Row(Regenerated, RefreshedPr) && after == Retitled(before, k, title)
  }

  ghost predicate IsOpened(before: World, after: World, pr: PullRequest, row: Row) {
    row == Row(Regenerated, OpenedPr) && after == before.(prs := before.prs + [OpenPr(pr, true, [])])
  }

  /** With the branch pushed and nothing failing: the own pull request gets the title, and without one a
      new one is opened unless another carries the change. */
  ghost predicate IsSettled(before: World, after: World, blob: string, title: string, pr: PullRequest, row: Row) {
    && (forall k: nat :: FirstAt(before.prs, IsOwn, k) ==> IsRefreshed(before, after, k, title, row))
    && (NoneOf(before.prs, IsOwn) && !Carried(before, README, blob) ==> IsOpened(before, after, pr, row))
  }

  lemma RefreshSettles(before: World, after: World, blob: string, title: string, pr: PullRequest, row: Row, k: nat)
    requires FirstAt(before.prs, IsOwn, k) && IsRefreshed(before, after, k, title, row)
    ensures IsSettled(before, after, blob, title, pr, row)
  {
    forall j: nat | FirstAt(before.prs, IsOwn, j) ensures j == k {
      SameFirst(before.prs, IsOwn, j, k);
    }
  }

  lemma SameFirst<T>(s: seq<T>, p: T -> bool, i: nat, j: nat)
    requires FirstAt(s, p, i) && FirstAt(s, p, j)
    ensures i == j
  {
  }

  lemma OpenSettles(before: World, after: World, blob: string, title: string, pr: PullRequest, row: Row)
    requires NoneOf(before.prs, IsOwn) && (!Carried(before, README, blob) ==> IsOpened(before, after, pr, row))
    ensures IsSettled(before, after, blob, title, pr, row)
  {
  }

  lemma OneEvent(log: seq<Event>, e: Event)
    requires !e.Pushed?
    ensures NoMorePushes(log, log) && NoMorePushes(log, log + [e])
    ensures e in log + [e] && (HasPush(log) ==> HasPush(log + [e]))
  {
    KindsGrow(log, e);
  }

  lemma NothingMore(log: seq<Event>, row: Row)
    requires row == Row(Error, Incomplete) || row == Row(Duplicate, ReusedPr)
    ensures NoMorePushes(log, log) && RowFits(log, row)
  {
  }

  lemma MoreEvents(a: seq<Event>, b: seq<Event>, c: seq<Event>)
    requires NoMorePushes(a, b) && NoMorePushes(b, c)
    ensures NoMorePushes(a, c)
  {
  }

  /** Refresh the pull request of the generated head, reuse an equivalent one, or open one. */
  method RefreshOrOpen(remote: Remote, blob: string, title: string, pr: PullRequest, ghost pushed: Commit)
      returns (row: Row)
    requires MayWrite(remote.log) && HasPush(remote.log)
    requires IsGitSha(blob) && pushed.files == [File(README, blob)]
    requires remote.quiet ==> remote.world.branch == Some(pushed)
    modifies remote
    ensures InOrder(remote.log) && HasPush(remote.log)
    ensures NoMorePushes(old(remote.log), remote.log) && RowFits(remote.log, row)
    ensures row.action != NoAction && row.action != WouldOpenPr
    ensures row.status == Regenerated ==> row.action == OpenedPr || row.action == RefreshedPr
    ensures remote.quiet ==> PushedEffect(old(remote.world), remote.world, blob, row, remote.current)
    ensures remote.RunsSmoothly(old(remote.world)) ==> IsSettled(old(remote.world), remote.world, blob, title, pr, row)
  {
    var failed := Row(Error, Incomplete);
    remote.OtherWriters();
    var existing := remote.FindOpenPr();
    if existing.None? {
      return failed;
    }
    if existing.value.Some? {
      row := Refresh(remote, existing.value.value, title);
      if remote.RunsSmoothly(old(remote.world)) {
        RefreshSettles(old(remote.world), remote.world, blob, title, pr, row, existing.value.value);
      }
      if remote.quiet {
        RefreshEffect(old(remote.world), remote.world, existing.value.value, pushed, blob, row, remote.current);
      }
      return;
    }
    ghost var here := remote.log;
    Extend(old(remote.log), NoOwnPr);
    OneEvent(old(remote.log), NoOwnPr);
    row := OpenUnlessEquivalent(remote, blob, title, pr, pushed);
    MoreEvents(old(remote.log), here, remote.log);
    if remote.RunsSmoothly(old(remote.world)) {
      OpenSettles(old(remote.world), remote.world, blob, title, pr, row);
    }
  }

  method Refresh(remote: Remote, k: nat, title: string) returns (row: Row)
    requires MayWrite(remote.log) && HasPush(remote.log)
    modifies remote
    ensures InOrder(remote.log) && HasPush(remote.log)
    ensures NoMorePushes(old(remote.log), remote.log) && RowFits(remote.log, row)
    ensures row == Row(Regenerated, RefreshedPr) || row == Row(Error, Incomplete)
    ensures remote.quiet ==> SameContent(old(remote.world), remote.world)
    ensures remote.reliable && remote.quiet && k < |old(remote.world).prs| ==>
            IsRefreshed(old(remote.world), remote.world, k, title, row)
  {
    remote.OtherWriters();
    var ok := remote.UpdatePr(k, title);
    Extend(old(remote.log), UpdatedPr);
    OneEvent(old(remote.log), UpdatedPr);
    return if ok then Row(Regenerated, RefreshedPr) else Row(Error, Incomplete);
  }

  method OpenUnlessEquivalent(remote: Remote, blob: string, title: string, pr: PullRequest, ghost pushed: Commit)
      returns (row: Row)
    requires MayWrite(remote.log) && HasPush(remote.log) && NoOwnPr in remote.log
    requires IsGitSha(blob) && pushed.files == [File(README, blob)]
    requires remote.quiet ==> remote.world.branch == Some(pushed) && NoneOf(remote.world.prs, IsOwn)
    modifies remote
    ensures InOrder(remote.log) && HasPush(remote.log)
    ensures NoMorePushes(old(remote.log), remote.log) && RowFits(remote.log, row)
    ensures row == Row(Duplicate, ReusedPr) || row == Row(Regenerated, OpenedPr) || row == Row(Error, Incomplete)
    ensures remote.RunsSmoothly(old(remote.world)) && !Carried(old(remote.world), README, blob) ==>
            IsOpened(old(remote.world), remote.world, pr, row)
    ensures remote.quiet ==> PushedEffect(old(remote.world), remote.world, blob, row, remote.current)
  {
    var again := SearchAgain(remote, blob, title);
    if again.None? || again.value {
      row := if again.None? then Row(Error, Incomplete) else Row(Duplicate, ReusedPr);
      SameWorld(remote.world, blob, row, remote.current);
      NothingMore(remote.log, row);
      return;
    }
    ghost var here := remote.log;
    OneEvent(old(remote.log), SearchedNone);
    row := Open(remote, blob, pr, pushed);
    MoreEvents(old(remote.log), here, remote.log);
  }

  /** The second search, immediately before a pull request would be opened. */
  method SearchAgain(remote: Remote, blob: string, title: string) returns (found: Option<bool>)
    requires MayWrite(remote.log)
    modifies remote
    ensures remote.log == if found == Some(false) then old(remote.log) + [SearchedNone] else old(remote.log)
    ensures InOrder(remote.log) && (HasPush(old(remote.log)) ==> HasPush(remote.log))
    ensures remote.quiet ==> remote.world == old(remote.world)
    ensures remote.quiet && remote.current && found == Some(true) ==> Carried(old(remote.world), README, blob)
    ensures remote.RunsSmoothly(old(remote.world)) ==> found == Some(Carried(old(remote.world), README, blob))
  {
    remote.OtherWriters();
    found := remote.FindEquivalent(README, blob, title);
    Extend(old(remote.log), SearchedNone);
  }

  method Open(remote: Remote, blob: string, pr: PullRequest, ghost pushed: Commit) returns (row: Row)
    requires MayWrite(remote.log) && HasPush(remote.log) && NoOwnPr in remote.log
    requires remote.log != [] && remote.log[|remote.log| - 1] == SearchedNone
    requires IsGitSha(blob) && pushed.files == [File(README, blob)]
    requires remote.quiet ==> remote.world.branch == Some(pushed) && NoneOf(remote.world.prs, IsOwn)
    modifies remote
    ensures InOrder(remote.log) && HasPush(remote.log)
    ensures NoMorePushes(old(remote.log), remote.log) && RowFits(remote.log, row)
    ensures row == Row(Regenerated, OpenedPr) || row == Row(Error, Incomplete)
    ensures remote.reliable && remote.quiet ==> IsOpened(old(remote.world), remote.world, pr, row)
    ensures remote.quiet ==> PushedEffect(old(remote.world), remote.world, blob, row, remote.current)
  {
    remote.OtherWriters();
    var ok := remote.CreatePr(pr);
    Extend(old(remote.log), CreatedPr);
    OneEvent(old(remote.log), CreatedPr);
    row := if ok then Row(Regenerated, OpenedPr) else Row(Error, Incomplete);
    if remote.quiet && remote.world != old(remote.world) {
      CreateEffect(old(remote.world), remote.world, pr, pushed, blob, row, remote.current);
    }
  }

  /** Confirm write access before the first write. */
  method Authorise(remote: Remote) returns (granted: bool)
    requires remote.log == [SearchedNone]
    modifies remote
    ensures (granted ==> MayWrite(remote.log)) && (remote.reliable ==> granted)
    ensures Disciplined(remote.log) && !HasWrite(remote.log) && !HasRejection(remote.log)
    ensures remote.quiet ==> remote.world == old(remote.world)
  {
    Extend([], SearchedNone);
    assert [] + [SearchedNone] == [SearchedNone];
    remote.OtherWriters();
    granted := remote.EnsurePushTarget();
    if granted {
      Extend([SearchedNone], Granted);
    }
  }

  lemma PushIsWrite(log: seq<Event>)
    requires HasPush(log)
    ensures HasWrite(log)
  {
    var j :| 0 <= j < |log| && log[j].Pushed?;
    assert IsWrite(log[j]);
  }

  /** The world once the commit of this run is on the generated branch. */
  function Pushing(w: World, local: Local, blob: string): World
    requires local.commit.Some?
  {
    w.(branch := Some(Commit(local.commit.value, [File(README, blob)])))
  }

  /** From a search without a match to the final row. */
  method Publish(remote: Remote, local: Local, blob: string, title: string, pr: PullRequest) returns (row: Row)
    requires remote.log == [SearchedNone]
    requires IsGitSha(blob)
    modifies remote
    ensures Disciplined(remote.log)
    ensures HasRejection(remote.log) ==> row == Row(Error, Incomplete)
    ensures row.action == NoAction ==> !HasWrite(remote.log)
    ensures row.action != WouldOpenPr && RowFits(remote.log, row) && PushesAre(remote.log, local, [File(README, blob)])
    ensures row.status == Regenerated ==> row.action == OpenedPr || row.action == RefreshedPr
    ensures local.isGeneratedBranch && local.commit.Some?
            && remote.RunsSmoothly(Pushing(old(remote.world), local, blob)) ==>
              IsSettled(Pushing(old(remote.world), local, blob), remote.world, blob, title, pr, row)
    ensures remote.quiet ==> QuietEffect(old(remote.world), remote.world, README, blob, remote.log, row, remote.current)
  {
    var granted := Authorise(remote);
    if !granted {
      return Row(Error, NoAction);
    }
    var ok;
    ghost var pushed;
    ok, pushed := CommitAndPush(remote, local, [File(README, blob)]);
    if !ok {
      return Row(Error, Incomplete);
    }
    row := RefreshOrOpen(remote, blob, title, pr, pushed);
    PushIsWrite(remote.log);
  }

  /** What a whole run promises, on every path and for every set of answers: its log is in order, a
      rejected push ends in an incomplete error row, a row with no action or a dry run wrote nothing, the
      row reports what was done, and only this run's change is ever pushed. */
  ghost predicate RunPromise(local: Local, log: seq<Event>, row: Row) {
    && Disciplined(log) && RowFits(log, row)
    && (HasRejection(log) ==> row.status == Error && row.action == Incomplete)
    && (row.action == NoAction || row.action == WouldOpenPr ==> !HasWrite(log))
    && (HasWrite(log) ==> NeedsPr(local) && local.blob.Some? && IsGitSha(local.blob.value))
    && (local.blob.Some? ==> PushesAre(log, local, [File(README, local.blob.value)]))
  }

  /** The row of a run that needs no pull request, settled by what it was given. A failed clean-up of the
      clone turns any row into an error. */
  ghost predicate RowWithoutPr(local: Local, row: Row) {
    && (!local.hasUrl ==> row == Row(Error, NoAction))
    && (local.hasUrl && !local.cloned ==> row == Row(Error, NoAction))
    && (local.hasUrl && local.cloned && !local.hasReadme ==> row == Row(IfCleaned(local, Missing), NoAction))
    && (local.hasUrl && local.cloned && local.hasReadme && local.generated == GeneratorError ==>
        row == Row(Error, NoAction))
    && (local.hasUrl && local.cloned && local.hasReadme && local.generated == Unchanged ==>
          row == Row(IfCleaned(local, Current), NoAction))
    && (local.hasUrl && local.cloned && local.hasReadme && local.generated == Changed && !local.onlyReadme ==>
          row == Row(Error, NoAction))
    && (local.hasUrl && local.cloned && local.hasReadme && local.generated == Changed && local.onlyReadme
        && local.dryRun ==>
          row == Row(IfCleaned(local, Regenerated), WouldOpenPr))
  }

  function IfCleaned(local: Local, status: Status): Status {
    if local.cleaned then status else Error
  }

  /** The run when nothing fails and nobody interferes: a duplicate if the change is there, and else the
      branch is pushed, the own pull request refreshed, or a new one opened. */
  ghost predicate SmoothRun(before: World, after: World, local: Local, title: string, pr: PullRequest, row: Row)
    requires local.blob.Some? && local.commit.Some?
  {
    var blob := local.blob.value;
    var pushed := before.(branch := Some(Commit(local.commit.value, [File(README, blob)])));
    if Carried(before, README, blob) then row == Row(Duplicate, ReusedPr) && after == before
    else
      && (forall k: nat :: FirstAt(before.prs, IsOwn, k) ==>
            row == Row(Regenerated, RefreshedPr) && after == Retitled(pushed, k, title))
      && (NoneOf(before.prs, IsOwn) ==>
            row == Row(Regenerated, OpenedPr) && after == pushed.(prs := before.prs + [OpenPr(pr, true, [])]))
  }

  /** Nothing on the local side stands in the way of a pull request. */
  predicate IsReadyToPublish(local: Local) {
    && NeedsPr(local) && local.blob.Some? && IsGitSha(local.blob.value)
    && local.isGeneratedBranch && local.commit.Some? && local.cleaned
  }

  method RegenerateRepository(remote: Remote, local: Local, title: string, pr: PullRequest) returns (row: Row)
    requires remote.log == []
    modifies remote
    ensures RunPromise(local, remote.log, row) && RowWithoutPr(local, row)
    ensures remote.quiet ==> QuietRun(old(remote.world), remote.world, local, row, remote.log, remote.current)
    ensures remote.RunsSmoothly(old(remote.world)) && IsReadyToPublish(local) ==>
            SmoothRun(old(remote.world), remote.world, local, title, pr, row)
  {
    if !local.hasUrl {
      return Row(Error, NoAction);
    }
    row := Regenerate(remote, local, title, pr);
    if !local.cleaned {
      row := row.(status := Error);
    }
  }

  /** The regenerated file differs, and the run is meant to publish it. */
  predicate NeedsPr(local: Local) {
    local.hasUrl && local.cloned && local.hasReadme && local.generated == Changed && local.onlyReadme && !local.dryRun
  }

  /** A run on a remote nobody else writes to. If current answers show the change on an open pull
      request the run writes nothing; a run that changes something leaves at most one more own
      pull request, and only if there was none; a run that reports a pull request leaves the
      change carried. */
  ghost predicate QuietRun(before: World, after: World, local: Local, row: Row, log: seq<Event>, current: bool) {
    && (!HasWrite(log) ==> after == before)
    && (local.blob.None? ==> !HasWrite(log))
    && (current && local.blob.Some? && Carried(before, README, local.blob.value) ==>
          !HasWrite(log) && (NeedsPr(local) ==> row.status == Error || row == Row(Duplicate, ReusedPr)))
    && (OwnCount(after.prs) == OwnCount(before.prs) || (OwnCount(before.prs) == 0 && OwnCount(after.prs) == 1))
    && (Published(row, current) ==>
          local.blob.Some? && Carried(after, README, local.blob.value))
  }

  method Regenerate(remote: Remote, local: Local, title: string, pr: PullRequest) returns (row: Row)
    requires remote.log == [] && local.hasUrl
    modifies remote
    ensures RunPromise(local, remote.log, row) && RowWithoutPr(local.(cleaned := true), row)
    ensures remote.quiet ==> QuietRun(old(remote.world), remote.world, local, row, remote.log, remote.current)
    ensures remote.RunsSmoothly(old(remote.world)) && IsReadyToPublish(local) ==>
            SmoothRun(old(remote.world), remote.world, local, title, pr, row)
  {
    var failed := Row(Error, NoAction);
    remote.OtherWriters();
    if !local.cloned {
      return failed;
    }
    if !local.hasReadme {
      return Row(Missing, NoAction);
    }
    match local.generated {
      case GeneratorError => return failed;
      case Unchanged => return Row(Current, NoAction);
      case Changed =>
    }
    if !local.onlyReadme {
      return failed;
    }
    if local.dryRun {
      return Row(Regenerated, WouldOpenPr);
    }
    row := SearchAndPublish(remote, local, title, pr);
  }

  /** The part of a run that needs a pull request. */
  method SearchAndPublish(remote: Remote, local: Local, title: string, pr: PullRequest) returns (row: Row)
    requires remote.log == [] && NeedsPr(local)
    modifies remote
    ensures RunPromise(local, remote.log, row)
    ensures remote.quiet ==> QuietRun(old(remote.world), remote.world, local, row, remote.log, remote.current)
    ensures remote.RunsSmoothly(old(remote.world)) && IsReadyToPublish(local) ==>
            SmoothRun(old(remote.world), remote.world, local, title, pr, row)
  {
    if local.blob.None? || !IsGitSha(local.blob.value) {
      return Row(Error, NoAction);
    }
    var blob := local.blob.value;
    var equivalent := remote.FindEquivalent(README, blob, title);
    if equivalent.None? {
      return Row(Error, NoAction);
    }
    if equivalent.value {
      return Row(Duplicate, ReusedPr);
    }
    assert [] + [SearchedNone] == [SearchedNone];
    row := Publish(remote, local, blob, title, pr);
    if remote.RunsSmoothly(old(remote.world)) && IsReadyToPublish(local) {
      PushingResolved(old(remote.world), local, blob);
      SettledIsSmooth(old(remote.world), remote.world, local, title, pr, row);
    }
  }

  /** The pushed branch can be read, so its pull request is resolved, and the others are as they were. */
  lemma PushingResolved(w: World, local: Local, blob: string)
    requires local.commit.Some? && IsGitSha(blob) && AllResolved(w, README)
    ensures AllResolved(Pushing(w, local, blob), README)
  {
    var after := Pushing(w, local, blob);
    assert forall c :: c in blob ==> IsHex(c) && !IsSpace(c);
    TrimHex(blob);
    forall k | 0 <= k < |after.prs| ensures !IsUnresolved(Shown(after)[k], README) {
      assert !IsUnresolved(Shown(w)[k], README);
    }
  }

  lemma PushingCarries(w: World, local: Local, blob: string)
    requires local.commit.Some? && NoneOf(w.prs, IsOwn)
    ensures Carried(Pushing(w, local, blob), README, blob) <==> Carried(w, README, blob)
  {
    var after := Pushing(w, local, blob);
    assert forall k :: 0 <= k < |w.prs| ==> !IsOwn(w.prs[k]);
    assert forall k :: 0 <= k < |w.prs| ==> Contents(after)[k] == Contents(w)[k];
  }

  lemma SettledIsSmooth(before: World, after: World, local: Local, title: string, pr: PullRequest, row: Row)
    requires local.blob.Some? && local.commit.Some? && !Carried(before, README, local.blob.value)
    requires IsSettled(Pushing(before, local, local.blob.value), after, local.blob.value, title, pr, row)
    ensures SmoothRun(before, after, local, title, pr, row)
  {
    if NoneOf(before.prs, IsOwn) {
      PushingCarries(before, local, local.blob.value);
    }
  }

  // ---------------------------------------------------------------------------
  // Sequences of runs
  // ---------------------------------------------------------------------------

  /** One finished run: the remote before and after, what the run was given, what it reported and
      what it did to the remote. */
  datatype Episode = Episode(before: World, after: World, local: Local, row: Row, log: seq<Event>, current: bool)

  ghost predicate IsRun(e: Episode) {
    QuietRun(e.before, e.after, e.local, e.row, e.log, e.current)
  }

  /** Between two runs anything may happen to the remote (merges, closes, pull requests of others,
      pushes) except that nobody else opens a pull request from the generated head. */
  ghost predicate NoNewOwn(w: World, next: World) {
    OwnCount(next.prs) <= OwnCount(w.prs)
  }

  /** Runs one after the other, on a fixed base, with any catalog change in between. */
  ghost predicate History(runs: seq<Episode>) {
    && (forall i :: 0 <= i < |runs| ==> IsRun(runs[i]))
    && forall i, j :: 0 <= i && j == i + 1 < |runs| ==> NoNewOwn(runs[i].after, runs[j].before)
  }

  /** There is never more than one open pull request from the generated head. */
  lemma {:induction false} AtMostOneOwnPr(runs: seq<Episode>, n: nat)
    requires History(runs) && n < |runs| && OwnCount(runs[0].before.prs) <= 1
    ensures OwnCount(runs[n].before.prs) <= 1 && OwnCount(runs[n].after.prs) <= 1
  {
    if n > 0 {
      AtMostOneOwnPr(runs, n - 1);
      assert NoNewOwn(runs[n - 1].after, runs[n].before);
    }
    assert IsRun(runs[n]);
  }

  /** The run reported a pull request it refreshed or opened, or a duplicate seen in current answers. */
  predicate Published(row: Row, current: bool) {
    (current && row.status == Duplicate) || (row.status == Regenerated && row.action != WouldOpenPr)
  }

  /** The change of the run is on an open pull request when it ends. */
  ghost predicate LeavesCarried(e: Episode) {
    e.local.blob.Some? && Carried(e.after, README, e.local.blob.value)
  }

  /** A run repeats the generation of the run before with current answers, and nobody withdrew the
      change in between. */
  ghost predicate Repeats(e: Episode, again: Episode) {
    && again.local.blob == e.local.blob && again.current
    && (LeavesCarried(e) ==> Carried(again.before, README, e.local.blob.value))
  }

  /** A run that writes nothing, and reports a duplicate unless a command failed. */
  ghost predicate IsNoOp(e: Episode) {
    && !HasWrite(e.log) && e.after == e.before
    && (NeedsPr(e.local) && e.row.status != Error ==> e.row == Row(Duplicate, ReusedPr))
  }

  /** Once a run has published its change, every rerun with the same generated file writes
      nothing to the remote, and reports a duplicate unless a command failed. */
  lemma {:induction false} RerunIsDuplicate(runs: seq<Episode>, first: nat, n: nat)
    requires History(runs) && first < n < |runs| && Published(runs[first].row, runs[first].current)
    requires forall i, j :: first <= i && j == i + 1 <= n ==> Repeats(runs[i], runs[j])
    ensures IsNoOp(runs[n]) && LeavesCarried(runs[n])
  {
    if first + 1 < n {
      RerunIsDuplicate(runs, first, n - 1);
    } else {
      PublishedIsCarried(runs[first]);
    }
    RerunStep(runs[n - 1], runs[n]);
  }

  lemma PublishedIsCarried(e: Episode)
    requires IsRun(e) && Published(e.row, e.current)
    ensures LeavesCarried(e)
  {
  }

  lemma RerunStep(e: Episode, again: Episode)
    requires LeavesCarried(e) && IsRun(again) && Repeats(e, again)
    ensures IsNoOp(again) && LeavesCarried(again)
  {
  }

  lemma HistoryGrows(runs: seq<Episode>, e: Episode)
    requires History(runs) && IsRun(e) && (runs != [] ==> NoNewOwn(runs[|runs| - 1].after, e.before))
    ensures History(runs + [e])
  {
  }

  /** What the world may look like when the next run starts. */
  method Meanwhile(world: World) returns (next: World)
    ensures NoNewOwn(world, next)
  {
    next := *;
    if OwnCount(next.prs) > OwnCount(world.prs) {
      next := world;
    }
  }

  /** A job that regenerates again and again, each time with a clone, a catalog and answers of its own. */
  method RegenerateAgain(start: World, jobs: seq<(Local, bool)>, title: string, pr: PullRequest)
    returns (end: World, ghost runs: seq<Episode>)
    ensures |runs| == |jobs| && History(runs)
    ensures forall i :: 0 <= i < |runs| ==> runs[i].local == jobs[i].0 && runs[i].current == jobs[i].1
    ensures OwnCount(start.prs) <= 1 ==> OwnCount(end.prs) <= 1
  {
    end, runs := start, [];
    for i := 0 to |jobs|
      invariant |runs| == i && History(runs) && (i > 0 ==> end == runs[i - 1].after)
      invariant i == 0 ==> end == start
      invariant i > 0 ==> NoNewOwn(start, runs[0].before)
      invariant forall j :: 0 <= j < i ==> runs[j].local == jobs[j].0 && runs[j].current == jobs[j].1
    {
      var before := Meanwhile(end);
      var remote := new Remote(true, jobs[i].1, false, before);
      var row := RegenerateRepository(remote, jobs[i].0, title, pr);
      ghost var done := Episode(before, remote.world, jobs[i].0, row, remote.log, jobs[i].1);
      HistoryGrows(runs, done);
      runs := runs + [done];
      end := remote.world;
    }
    if runs != [] && OwnCount(start.prs) <= 1 {
      AtMostOneOwnPr(runs, |runs| - 1);
    }
  }
}
