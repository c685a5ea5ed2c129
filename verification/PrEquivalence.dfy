/** Recognising an open pull request that already carries a generated change, by content. */
module PrEquivalence {
  import opened Collections
  import opened Text

  datatype File = File(path: string, sha: string)

  /** An open pull request as listed; `files` is absent until its file list has been looked up. */
  datatype PullRequest = PullRequest(
    number: Option<int>, url: string, title: string,
    head: string, headOwner: string, author: string,
    files: Option<seq<File>>)

  /** What looking for an equivalent pull request gives: its position, none, or an error. */
  datatype Search = Found(index: nat) | NotFound | Unresolved

  // ---------------------------------------------------------------------------
  // The two facts a file list answers
  // ---------------------------------------------------------------------------

  /** The blob a pull request leaves at `path`, or "" when it is unknown. */
  function FileIdentity(files: seq<File>, path: string): string {
    if files == [] then ""
    else if Strip(files[0].path) == path then Strip(files[0].sha)
    else FileIdentity(files[1..], path)
  }

  predicate TouchesOnly(pr: PullRequest, path: string) {
    pr.files.Some? && |pr.files.value| == 1 && Strip(pr.files.value[0].path) == path
  }

  /** The pull request changes `path` and nothing else, and leaves `blob` there. */
  predicate Carries(pr: PullRequest, path: string, blob: string) {
    TouchesOnly(pr, path) && Strip(pr.files.value[0].sha) != "" && Strip(pr.files.value[0].sha) == blob
  }

  /** Its content cannot be told: no file list, or the file without a blob. */
  predicate IsUnresolved(pr: PullRequest, path: string) {
    pr.files.None? || (TouchesOnly(pr, path) && Strip(pr.files.value[0].sha) == "")
  }

  /** Its file list is one file, at `path`, with the blob `sha`. */
  ghost predicate ChangesJust(pr: PullRequest, path: string, sha: string) {
    exists f: File :: pr.files == Some([f]) && Strip(f.path) == path && Strip(f.sha) == sha
  }

  /** It has no file list, or shows `path` alone without a blob. */
  ghost predicate CannotTell(pr: PullRequest, path: string) {
    pr.files == None || ChangesJust(pr, path, "")
  }

  /** What makes a pull request a carrier of the change, and what leaves it unresolved. */
  lemma CarriesExactly(pr: PullRequest, path: string, blob: string)
    ensures Carries(pr, path, blob) <==> blob != "" && ChangesJust(pr, path, blob)
    ensures IsUnresolved(pr, path) <==> CannotTell(pr, path)
  {
    if TouchesOnly(pr, path) {
      var f := pr.files.value[0];
      assert pr.files.value == [f];
    }
  }

  predicate HasTitle(pr: PullRequest, title: string) {
    Strip(title) != "" && Strip(pr.title) == Strip(title)
  }

  // ---------------------------------------------------------------------------
  // Search
  // ---------------------------------------------------------------------------

  function Carrier(path: string, blob: string): PullRequest -> bool {
    pr => Carries(pr, path, blob)
  }

  function TitledCarrier(path: string, blob: string, title: string): PullRequest -> bool {
    pr => Carries(pr, path, blob) && HasTitle(pr, title)
  }

  /** The declared answer: the first carrier with the title, else the first carrier; an error
      when nothing carries the change but something might. */
  ghost predicate IsAnswer(rows: seq<PullRequest>, path: string, blob: string, title: string, r: Search) {
    var carries, titled := Carrier(path, blob), TitledCarrier(path, blob, title);
    match r
    case Found(i) =>
      if exists k :: 0 <= k < |rows| && titled(rows[k]) then FirstAt(rows, titled, i) else FirstAt(rows, carries, i)
    case Unresolved =>
      && (forall k :: 0 <= k < |rows| ==> !carries(rows[k]))
      && exists k :: 0 <= k < |rows| && IsUnresolved(rows[k], path)
    case NotFound =>
      forall k :: 0 <= k < |rows| ==> !carries(rows[k]) && !IsUnresolved(rows[k], path)
  }

  /** The blob of a pull request that touches one file is that file's. */
  lemma OnlyFile(pr: PullRequest, path: string)
    requires TouchesOnly(pr, path)
    ensures FileIdentity(pr.files.value, path) == Strip(pr.files.value[0].sha)
  {
  }

  method FindEquivalentPr(rows: seq<PullRequest>, path: string, blob: string, title: string) returns (r: Search)
    ensures IsAnswer(rows, path, blob, title, r)
  {
    var wanted := Strip(title);
    var fallback: Option<nat> := None;
    var unresolved := false;
    for k := 0 to |rows|
      invariant forall j :: 0 <= j < k ==> !(Carries(rows[j], path, blob) && HasTitle(rows[j], title))
      invariant fallback.None? ==> forall j :: 0 <= j < k ==> !Carries(rows[j], path, blob)
      invariant fallback.Some? ==> fallback.value < k && FirstAt(rows, Carrier(path, blob), fallback.value)
      invariant unresolved <==> exists j :: 0 <= j < k && IsUnresolved(rows[j], path)
    {
      var row := rows[k];
      if row.files.None? {
        unresolved := true;
        continue;
      }
      if row.files.value == [] || !TouchesOnly(row, path) {
        continue;
      }
      var identity := FileIdentity(row.files.value, path);
      OnlyFile(row, path);
      if identity == "" {
        unresolved := true;
        continue;
      }
      if identity != blob {
        continue;
      }
      if wanted != "" && Strip(row.title) == wanted {
        return Found(k);
      }
      if fallback.None? {
        fallback := Some(k);
      }
    }
    if fallback.Some? {
      return Found(fallback.value);
    }
    return if unresolved then Unresolved else NotFound;
  }

  /** The wanted title is not blank, and the pull request has it, blanks at the ends aside. */
  ghost predicate IsTitled(pr: PullRequest, title: string) {
    !AllSpace(title) && Strip(pr.title) == Strip(title)
  }

  /** The answer told from file lists and titles: the first pull request with the wanted title whose only
      file is `path` at `blob`; without one, the first such without regard to title; without one, an error
      if some file list is missing or shows `path` alone without a blob, and else none. */
  lemma AnswerExactly(rows: seq<PullRequest>, path: string, blob: string, title: string, r: Search)
    requires IsAnswer(rows, path, blob, title, r)
    ensures r.Found? ==>
            && r.index < |rows| && blob != "" && ChangesJust(rows[r.index], path, blob)
            && (forall k :: 0 <= k < r.index && ChangesJust(rows[k], path, blob) ==>
                  !IsTitled(rows[k], title) && IsTitled(rows[r.index], title))
            && (!IsTitled(rows[r.index], title) ==>
                  forall k :: 0 <= k < |rows| && ChangesJust(rows[k], path, blob) ==> !IsTitled(rows[k], title))
    ensures !r.Found? ==> blob == "" || forall k :: 0 <= k < |rows| ==> !ChangesJust(rows[k], path, blob)
    ensures !r.Found? ==>
            (r.Unresolved? <==> exists k :: 0 <= k < |rows| && CannotTell(rows[k], path))
  {
    forall k | 0 <= k < |rows|
      ensures Carries(rows[k], path, blob) <==> blob != "" && ChangesJust(rows[k], path, blob)
      ensures IsUnresolved(rows[k], path) <==> CannotTell(rows[k], path)
      ensures HasTitle(rows[k], title) <==> IsTitled(rows[k], title)
    {
      CarriesExactly(rows[k], path, blob);
      TitleExactly(rows[k], title);
    }
  }

  lemma TitleExactly(pr: PullRequest, title: string)
    ensures HasTitle(pr, title) <==> IsTitled(pr, title)
  {
    BlankExactly(title);
  }

  /** There is exactly one declared answer. */
  lemma AnswerIsUnique(rows: seq<PullRequest>, path: string, blob: string, title: string, a: Search, b: Search)
    requires IsAnswer(rows, path, blob, title, a) && IsAnswer(rows, path, blob, title, b)
    ensures a == b
  {
  }

  /** Head branch, head owner, author, number and URL do not matter. */
  lemma OnlyContentMatters(rows: seq<PullRequest>, others: seq<PullRequest>, path: string, blob: string,
                           title: string, r: Search)
    requires |rows| == |others|
    requires forall k :: 0 <= k < |rows| ==> rows[k].files == others[k].files && rows[k].title == others[k].title
    requires IsAnswer(rows, path, blob, title, r)
    ensures IsAnswer(others, path, blob, title, r)
  {
    assert forall k :: 0 <= k < |rows| ==>
        (Carries(rows[k], path, blob) <==> Carries(others[k], path, blob)) &&
        (HasTitle(rows[k], title) <==> HasTitle(others[k], title)) &&
        (IsUnresolved(rows[k], path) <==> IsUnresolved(others[k], path));
  }

  // ---------------------------------------------------------------------------
  // Resolving file lists
  // ---------------------------------------------------------------------------

  /** The answer of the per-pull-request files endpoint. */
  datatype Lookup = Failed | Files(files: seq<File>)

  /** A row is looked up unless it already names a blob for `path`. */
  predicate NeedsLookup(pr: PullRequest, path: string) {
    (pr.files.None? || FileIdentity(pr.files.value, path) == "") && pr.number.Some?
  }

  function IsAt(path: string): File -> bool {
    (f: File) => Strip(f.path) == path
  }

  lemma {:induction false} IdentityExactly(files: seq<File>, path: string)
    ensures NoneOf(files, IsAt(path)) ==> FileIdentity(files, path) == ""
    ensures forall i: nat :: FirstAt(files, IsAt(path), i) ==> FileIdentity(files, path) == Strip(files[i].sha)
  {
    if files != [] && !IsAt(path)(files[0]) {
      IdentityExactly(files[1..], path);
      forall i: nat | FirstAt(files, IsAt(path), i) ensures i > 0 && FirstAt(files[1..], IsAt(path), i - 1) {
        assert forall j :: 0 <= j < i - 1 ==> files[1..][j] == files[j + 1];
      }
      assert NoneOf(files, IsAt(path)) ==> NoneOf(files[1..], IsAt(path));
    }
  }

  /** A numbered row is looked up unless its list shows a blob for the first file at `path`. */
  lemma LookupExactly(pr: PullRequest, path: string, i: nat)
    ensures NeedsLookup(pr, path) ==> pr.number.Some?
    ensures pr.number.Some? && pr.files.None? ==> NeedsLookup(pr, path)
    ensures pr.number.Some? && pr.files.Some? && NoneOf(pr.files.value, IsAt(path)) ==> NeedsLookup(pr, path)
    ensures pr.number.Some? && pr.files.Some? && FirstAt(pr.files.value, IsAt(path), i) ==>
              (NeedsLookup(pr, path) <==> Strip(pr.files.value[i].sha) == "")
  {
    if pr.files.Some? {
      IdentityExactly(pr.files.value, path);
    }
  }

  function WithFiles(pr: PullRequest, files: seq<File>): PullRequest {
    pr.(files := Some(files))
  }

  function Resolved(pr: PullRequest, path: string, files: int -> Lookup): PullRequest {
    if NeedsLookup(pr, path) && files(pr.number.value).Files? then WithFiles(pr, files(pr.number.value).files) else pr
  }

  method ResolvePrBlobs(rows: seq<PullRequest>, path: string, files: int -> Lookup)
      returns (r: Option<seq<PullRequest>>)
    ensures r.None? <==>
            exists k :: 0 <= k < |rows| && NeedsLookup(rows[k], path) && files(rows[k].number.value).Failed?
    ensures r.Some? ==> |r.value| == |rows| && forall k :: 0 <= k < |rows| ==>
            r.value[k] == Resolved(rows[k], path, files)
  {
    var resolved: seq<PullRequest> := [];
    for k := 0 to |rows|
      invariant |resolved| == k
      invariant forall j :: 0 <= j < k ==> resolved[j] == Resolved(rows[j], path, files)
      invariant forall j :: 0 <= j < k ==> !(NeedsLookup(rows[j], path) && files(rows[j].number.value).Failed?)
    {
      var row := rows[k];
      if NeedsLookup(row, path) {
        var answer := files(row.number.value);
        if answer.Failed? {
          return None;
        }
        row := WithFiles(row, answer.files);
      }
      resolved := resolved + [row];
    }
    return Some(resolved);
  }

  /** The two steps together; a failed lookup of any row that needs one is an error. */
  method FindEquivalent(rows: seq<PullRequest>, path: string, blob: string, title: string, files: int -> Lookup)
      returns (r: Option<Search>)
    ensures r.None? <==>
            exists k :: 0 <= k < |rows| && NeedsLookup(rows[k], path) && files(rows[k].number.value).Failed?
    ensures r.Some? ==> IsAnswer(ResolvedRows(rows, path, files), path, blob, title, r.value)
  {
    var resolved := ResolvePrBlobs(rows, path, files);
    if resolved.None? {
      return None;
    }
    assert resolved.value == ResolvedRows(rows, path, files);
    var s := FindEquivalentPr(resolved.value, path, blob, title);
    return Some(s);
  }

  function ResolvedRows(rows: seq<PullRequest>, path: string, files: int -> Lookup): seq<PullRequest> {
    seq(|rows|, k requires 0 <= k < |rows| => Resolved(rows[k], path, files))
  }
}
