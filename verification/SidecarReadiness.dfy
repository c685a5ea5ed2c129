/** Sidecar dispatch readiness: registry entries, selectors, the prioritised verdict and the
    bounded polling loop. */
module SidecarReadiness {
  import opened Collections
  import opened Text

  /** A registry row with the answer of the liveness probe (`None`: not known). */
  datatype Metadata = Metadata(
    role: Option<string>, dispatchStatus: Option<string>, mcpUrl: Option<string>,
    hostRpcUri: Option<string>, hostRpcScheme: Option<string>, failureStage: Option<string>,
    installRoots: seq<Option<string>>)
  datatype RawEntry = RawEntry(
    dccType: Option<string>, instanceId: Option<string>, host: Option<string>, port: Option<int>,
    metadata: Metadata, alive: Option<bool>)

  datatype Entry = Entry(
    dccType: Option<string>, instanceId: Option<string>, role: string, mcpUrl: Option<string>,
    dispatchStatus: Option<string>, dispatchReady: bool,
    hostRpcUri: Option<string>, hostRpcScheme: Option<string>, failureStage: Option<string>,
    installRoots: seq<Option<string>>, alive: Option<bool>)

  const SIDECAR := "per-dcc-sidecar"

  /** Case folding, number formatting and the order of paths, which the rules only pass through. */
  datatype Lexis = Lexis(lower: string -> string, url: (string, int) -> string, under: (string, string) -> bool)

  /** A text value that is present and not empty. */
  function Present(t: Option<string>): Option<string> {
    if t == Some("") then None else t
  }

  predicate IsPresent(t: Option<string>) {
    Present(t).Some?
  }

  // ---------------------------------------------------------------------------
  // Normalising an entry
  // ---------------------------------------------------------------------------

  function NormaliseStatus(raw: Option<string>, lexis: Lexis): Option<string> {
    if Present(raw).None? then None else Present(Some(lexis.lower(Strip(raw.value))))
  }

  function McpUrl(raw: RawEntry, lexis: Lexis): Option<string> {
    if Present(raw.metadata.mcpUrl).Some? then raw.metadata.mcpUrl
    else if raw.port.Some? && raw.port.value > 0
    then Some(lexis.url(if Present(raw.host).Some? then raw.host.value else "127.0.0.1", raw.port.value))
    else None
  }

  function NormaliseEntry(raw: RawEntry, lexis: Lexis): Entry {
    var m := raw.metadata;
    var url := McpUrl(raw, lexis);
    var status := NormaliseStatus(m.dispatchStatus, lexis);
    Entry(raw.dccType, raw.instanceId,
          if Present(m.role).Some? then m.role.value else "runtime",
          url, status,
          status == Some("ready") && Present(url).Some? && raw.alive != Some(false),
          Present(m.hostRpcUri), Present(m.hostRpcScheme), Present(m.failureStage),
          Where(m.installRoots, IsPresent), raw.alive)
  }

  /** The fields of an entry that the verdict and the wait read, told from the row; an empty text is none. */
  lemma NormalisedFields(raw: RawEntry, lexis: Lexis)
    ensures var e, m := NormaliseEntry(raw, lexis), raw.metadata;
            && e.dccType == raw.dccType && e.instanceId == raw.instanceId && e.alive == raw.alive
            && e.hostRpcUri == (if m.hostRpcUri == Some("") then None else m.hostRpcUri)
            && e.hostRpcScheme == (if m.hostRpcScheme == Some("") then None else m.hostRpcScheme)
            && e.failureStage == (if m.failureStage == Some("") then None else m.failureStage)
            && (m.mcpUrl.Some? && m.mcpUrl.value != "" ==> e.mcpUrl == m.mcpUrl)
            && (m.dispatchStatus.None? ==> e.dispatchStatus == None)
            && (m.dispatchStatus.Some? && !AllSpace(m.dispatchStatus.value)
                && lexis.lower(Strip(m.dispatchStatus.value)) != "" ==>
                  e.dispatchStatus == Some(lexis.lower(Strip(m.dispatchStatus.value))))
  {
    if raw.metadata.dispatchStatus.Some? {
      BlankExactly(raw.metadata.dispatchStatus.value);
    }
  }

  function Normalise(lexis: Lexis): RawEntry -> Entry {
    raw => NormaliseEntry(raw, lexis)
  }

  // ---------------------------------------------------------------------------
  // Selecting entries
  // ---------------------------------------------------------------------------

  /** What `query_runtime_state` is asked for. */
  datatype RuntimeQuery = RuntimeQuery(dccType: Option<string>, role: Option<string>, installRoot: Option<string>,
      includeDead: bool)

  /** What the readiness check is asked for. */
  datatype Query = Query(dccType: Option<string>, instanceId: Option<string>, hostRpc: Option<string>,
      includeDead: bool)

  function RuntimeOf(q: Query): RuntimeQuery {
    RuntimeQuery(q.dccType, Some(SIDECAR), None, q.includeDead)
  }

  /** A selector that is given and not blank. */
  function Selector(text: Option<string>): Option<string> {
    if Present(text).None? then None else Present(Some(Strip(text.value)))
  }

  /** Some install root of the entry lies under `root` or above it. */
  predicate TouchesRoot(e: Entry, root: string, lexis: Lexis) {
    exists k :: 0 <= k < |e.installRoots| && RootMeets(e.installRoots[k], root, lexis)
  }

  predicate RootMeets(item: Option<string>, root: string, lexis: Lexis) {
    item.Some? && (lexis.under(item.value, root) || lexis.under(root, item.value))
  }

  predicate InRuntimeState(e: Entry, q: RuntimeQuery, lexis: Lexis) {
    && (Present(q.dccType).Some? ==> e.dccType == q.dccType)
    && (Present(q.role).Some? ==> q.role == Some(e.role))
    && (q.installRoot.Some? ==> TouchesRoot(e, q.installRoot.value, lexis))
    && (q.includeDead || e.alive != Some(false))
  }

  function InState(q: RuntimeQuery, lexis: Lexis): Entry -> bool {
    e => InRuntimeState(e, q, lexis)
  }

  predicate PassesSelectors(e: Entry, q: Query) {
    && (Selector(q.instanceId).Some? ==>
        Present(e.instanceId).Some? && Selector(q.instanceId).value <= e.instanceId.value)
    && (Selector(q.hostRpc).Some? ==> e.hostRpcUri == Selector(q.hostRpc))
  }

  function Selected(q: Query): Entry -> bool {
    e => PassesSelectors(e, q)
  }

  function CountAlive(entries: seq<Entry>, alive: bool): nat {
    |Where(entries, (e: Entry) => e.alive == Some(alive))|
  }

  method MeetsRoot(e: Entry, root: string, lexis: Lexis) returns (found: bool)
    ensures found <==> TouchesRoot(e, root, lexis)
  {
    for k := 0 to |e.installRoots|
      invariant forall j :: 0 <= j < k ==> !RootMeets(e.installRoots[j], root, lexis)
    {
      if RootMeets(e.installRoots[k], root, lexis) {
        return true;
      }
    }
    return false;
  }

  /** The filters on one entry, in order. */
  method Admits(entry: Entry, q: RuntimeQuery, lexis: Lexis) returns (admitted: bool)
    ensures admitted == InRuntimeState(entry, q, lexis)
  {
    if Present(q.dccType).Some? && entry.dccType != q.dccType {
      return false;
    }
    if Present(q.role).Some? && Some(entry.role) != q.role {
      return false;
    }
    if q.installRoot.Some? {
      var meets := MeetsRoot(entry, q.installRoot.value, lexis);
      if !meets {
        return false;
      }
    }
    return q.includeDead || entry.alive != Some(false);
  }

  lemma OneMoreRow(raws: seq<RawEntry>, n: nat, q: RuntimeQuery, lexis: Lexis)
    requires n < |raws|
    ensures var entry := NormaliseEntry(raws[n], lexis);
            Where(Map(raws[..n + 1], Normalise(lexis)), InState(q, lexis)) ==
            Where(Map(raws[..n], Normalise(lexis)), InState(q, lexis)) +
            if InRuntimeState(entry, q, lexis) then [entry] else []
  {
    assert raws[..n + 1] == raws[..n] + [raws[n]];
    MapAppend(raws[..n], raws[n], Normalise(lexis));
    WhereAppend(Map(raws[..n], Normalise(lexis)), NormaliseEntry(raws[n], lexis), InState(q, lexis));
  }

  method QueryRuntimeState(raws: seq<RawEntry>, q: RuntimeQuery, lexis: Lexis)
    returns (entries: seq<Entry>, alive: nat, dead: nat)
    ensures entries == Where(Map(raws, Normalise(lexis)), InState(q, lexis))
    ensures alive == CountAlive(entries, true) && dead == CountAlive(entries, false)
  {
    entries := [];
    for n := 0 to |raws|
      invariant entries == Where(Map(raws[..n], Normalise(lexis)), InState(q, lexis))
    {
      OneMoreRow(raws, n, q, lexis);
      var entry := NormaliseEntry(raws[n], lexis);
      var admitted := Admits(entry, q, lexis);
      if !admitted {
        continue;
      }
      entries := entries + [entry];
    }
    assert raws[..|raws|] == raws;
    alive, dead := CountAlive(entries, true), CountAlive(entries, false);
  }

  method FilterEntries(entries: seq<Entry>, q: Query) returns (kept: seq<Entry>)
    ensures kept == Where(entries, Selected(q))
  {
    kept := [];
    var instance, hostRpc := Selector(q.instanceId), Selector(q.hostRpc);
    for n := 0 to |entries|
      invariant kept == Where(entries[..n], Selected(q))
    {
      var entry := entries[n];
      assert entries[..n + 1] == entries[..n] + [entry];
      WhereAppend(entries[..n], entry, Selected(q));
      if instance.Some? && !(Present(entry.instanceId).Some? && instance.value <= entry.instanceId.value) {
        continue;
      }
      if hostRpc.Some? && entry.hostRpcUri != hostRpc {
        continue;
      }
      kept := kept + [entry];
    }
    assert entries[..|entries|] == entries;
  }

  /** The normalised rows that pass the runtime query and both selectors. */
  function Entries(raws: seq<RawEntry>, q: Query, lexis: Lexis): seq<Entry> {
    Where(Where(Map(raws, Normalise(lexis)), InState(RuntimeOf(q), lexis)), Selected(q))
  }

  // ---------------------------------------------------------------------------
  // The verdict
  // ---------------------------------------------------------------------------

  /** What came back from the probe call: an HTTP error, no connection, a body that is no JSON object,
      or an object, which may carry an error or a result that reports its own failure. */
  datatype Answer = HttpError | Unreachable | NotAnObject | Object(hasError: bool, successFalse: bool, isError: bool)

  /** The probe: the tool to call, if any, and what the call would bring back for an entry. */
  datatype Probe = Probe(tool: Option<string>, answer: Entry -> Answer)

  /** The ways a probe can fail. */
  datatype Failure = MissingUrl | MissingTool | FailedHttp | NotReached | BadResponse | ToolFailed

  function FailureText(f: Failure): (text: string)
    ensures text != [] && text[0] == 'p'
  {
    "probe_" +
    match f
    case MissingUrl => "missing_url"
    case MissingTool => "missing_tool"
    case FailedHttp => "http_error"
    case NotReached => "unreachable"
    case BadResponse => "bad_response"
    case ToolFailed => "failed"
  }

  datatype Verdict = Verdict(success: bool, ready: bool, status: string, entry: Option<Entry>,
      failureStage: Option<string>)

  predicate IsLive(e: Entry) {
    e.alive != Some(false)
  }

  predicate IsReady(e: Entry) {
    e.dispatchReady
  }

  predicate IsUnavailable(e: Entry) {
    e.dispatchStatus == Some("unavailable")
  }

  predicate HasSelector(q: Query) {
    Selector(q.instanceId).Some? || Selector(q.hostRpc).Some?
  }

  predicate IsAmbiguous(entries: seq<Entry>, q: Query) {
    |entries| > 1 && HasSelector(q) && |Where(entries, IsLive)| > 1
  }

  /** How the probe of an entry fails, if a tool is named and the probe fails. */
  function ProbeFailure(probe: Probe, e: Entry): Option<Failure> {
    if Present(probe.tool).None? then None
    else if e.mcpUrl.None? || Strip(e.mcpUrl.value) == "" then Some(MissingUrl)
    else if Strip(probe.tool.value) == "" then Some(MissingTool)
    else
      match probe.answer(e)
      case HttpError => Some(FailedHttp)
      case Unreachable => Some(NotReached)
      case NotAnObject => Some(BadResponse)
      case Object(hasError, successFalse, isError) =>
        if hasError || successFalse || isError then Some(ToolFailed) else None
  }

  /** How a probe fails: without a URL, without a tool, by an HTTP error, without a connection, by an answer that
      is no object, by an error in it or a result that reports failure; and only if a tool was asked for. */
  lemma ProbeTable(tool: string, answer: Entry -> Answer, e: Entry)
    ensures ProbeFailure(Probe(None, answer), e) == None && ProbeFailure(Probe(Some(""), answer), e) == None
    ensures tool != "" && (e.mcpUrl == None || AllSpace(e.mcpUrl.value)) ==>
              ProbeFailure(Probe(Some(tool), answer), e) == Some(MissingUrl)
    ensures tool != "" && AllSpace(tool) && e.mcpUrl.Some? && !AllSpace(e.mcpUrl.value) ==>
              ProbeFailure(Probe(Some(tool), answer), e) == Some(MissingTool)
    ensures !AllSpace(tool) && e.mcpUrl.Some? && !AllSpace(e.mcpUrl.value) ==>
              ProbeFailure(Probe(Some(tool), answer), e) ==
              match answer(e)
              case HttpError => Some(FailedHttp)
              case Unreachable => Some(NotReached)
              case NotAnObject => Some(BadResponse)
              case Object(hasError, successFalse, isError) =>
                if !hasError && !successFalse && !isError then None else Some(ToolFailed)
  {
    BlankExactly(tool);
    if e.mcpUrl.Some? {
      BlankExactly(e.mcpUrl.value);
    }
  }

  lemma FailureTexts()
    ensures FailureText(MissingUrl) == "probe_missing_url" && FailureText(MissingTool) == "probe_missing_tool"
    ensures FailureText(FailedHttp) == "probe_http_error" && FailureText(NotReached) == "probe_unreachable"
    ensures FailureText(BadResponse) == "probe_bad_response" && FailureText(ToolFailed) == "probe_failed"
  {
  }

  function ReportedText(status: Option<string>): string {
    if status.Some? then status.value else "booting"
  }

  function Judge(entries: seq<Entry>, q: Query, probe: Probe): Verdict {
    if entries == [] then Verdict(false, false, "missing", None, None)
    else if IsAmbiguous(entries, q) then Verdict(false, false, "ambiguous", None, None)
    else Classify(entries, Where(entries, IsReady), Where(entries, IsUnavailable), Where(entries, IsLive), probe)
  }

  function Classify(entries: seq<Entry>, ready: seq<Entry>, unavailable: seq<Entry>, live: seq<Entry>,
                    probe: Probe): Verdict
    requires entries != []
  {
    if ready != [] then
      var failure := ProbeFailure(probe, ready[0]);
      if failure.Some? then Verdict(false, false, FailureText(failure.value), Some(ready[0]), None)
      else Verdict(true, true, "ready", Some(ready[0]), None)
    else if unavailable != [] then
      Verdict(false, false, "unavailable", Some(unavailable[0]), unavailable[0].failureStage)
    else if live != [] then Verdict(false, false, ReportedText(live[0].dispatchStatus), Some(live[0]), None)
    else Verdict(false, false, "dead", Some(entries[0]), None)
  }

  /** The verdict on a registry. */
  function StatusOf(raws: seq<RawEntry>, q: Query, probe: Probe, lexis: Lexis): Verdict {
    Judge(Entries(raws, q, lexis), q, probe)
  }

  method SidecarReadinessStatus(raws: seq<RawEntry>, q: Query, probe: Probe, lexis: Lexis) returns (v: Verdict)
    ensures v == StatusOf(raws, q, probe, lexis)
  {
    var all, _, _ := QueryRuntimeState(raws, RuntimeOf(q), lexis);
    var kept := FilterEntries(all, q);
    v := Judge(kept, q, probe);
  }

  // ---------------------------------------------------------------------------
  // Matching rows
  // ---------------------------------------------------------------------------

  predicate IsMatch(raw: RawEntry, q: Query, lexis: Lexis) {
    var e := NormaliseEntry(raw, lexis);
    InRuntimeState(e, RuntimeOf(q), lexis) && PassesSelectors(e, q)
  }

  /** The row reported ready, has a URL and is not known dead. */
  predicate IsUsable(raw: RawEntry, lexis: Lexis) {
    && NormaliseStatus(raw.metadata.dispatchStatus, lexis) == Some("ready")
    && Present(McpUrl(raw, lexis)).Some?
    && raw.alive != Some(false)
  }

  /** A selector that is given and has a character that is not white space. */
  ghost predicate IsGiven(text: Option<string>) {
    text.Some? && !AllSpace(text.value)
  }

  lemma SelectorExactly(text: Option<string>)
    ensures Selector(text).Some? <==> IsGiven(text)
    ensures IsGiven(text) ==> Selector(text) == Some(Strip(text.value))
  {
    if text.Some? {
      BlankExactly(text.value);
    }
  }

  /** Which rows match, told from the row: a sidecar of the wanted type, not known dead unless those are
      wanted, whose instance id begins with the selector and whose host RPC address is the selector, each
      without the white space around it. */
  lemma MatchExactly(raw: RawEntry, q: Query, lexis: Lexis)
    ensures IsMatch(raw, q, lexis) <==>
            && (q.dccType.Some? && q.dccType.value != "" ==> raw.dccType == q.dccType)
            && raw.metadata.role == Some("per-dcc-sidecar")
            && (q.includeDead || raw.alive != Some(false))
            && (IsGiven(q.instanceId) ==> raw.instanceId.Some? && Strip(q.instanceId.value) <= raw.instanceId.value)
            && (IsGiven(q.hostRpc) ==> raw.metadata.hostRpcUri == Some(Strip(q.hostRpc.value)))
    ensures HasSelector(q) <==> IsGiven(q.instanceId) || IsGiven(q.hostRpc)
  {
    SelectorExactly(q.instanceId);
    SelectorExactly(q.hostRpc);
    SidecarRole(raw.metadata.role);
  }

  /** The row names the install root `r`, which lies under `root` or above it. */
  ghost predicate NamesRoot(raw: RawEntry, r: string, root: string, lexis: Lexis) {
    Some(r) in raw.metadata.installRoots && r != "" && (lexis.under(r, root) || lexis.under(root, r))
  }

  /** Which rows a runtime query keeps, told from the row: those of the wanted type and of the wanted role,
      which is "runtime" where the row names none, with an install root that meets the wanted one, and not
      known dead unless those are wanted. */
  lemma RuntimeExactly(raw: RawEntry, q: RuntimeQuery, lexis: Lexis)
    ensures InRuntimeState(NormaliseEntry(raw, lexis), q, lexis) <==>
            && (q.dccType.Some? && q.dccType.value != "" ==> raw.dccType == q.dccType)
            && (q.role.Some? && q.role.value != "" ==>
                raw.metadata.role == q.role
                || (q.role == Some("runtime") && (raw.metadata.role == None || raw.metadata.role == Some(""))))
            && (q.installRoot.Some? ==> exists r :: NamesRoot(raw, r, q.installRoot.value, lexis))
            && (q.includeDead || raw.alive != Some(false))
  {
    if q.installRoot.Some? {
      RootExactly(raw, q.installRoot.value, lexis);
    }
  }

  lemma RootExactly(raw: RawEntry, root: string, lexis: Lexis)
    ensures TouchesRoot(NormaliseEntry(raw, lexis), root, lexis) <==> exists r :: NamesRoot(raw, r, root, lexis)
  {
    var e := NormaliseEntry(raw, lexis);
    if k :| 0 <= k < |e.installRoots| && RootMeets(e.installRoots[k], root, lexis) {
      assert e.installRoots[k] in e.installRoots;
      assert NamesRoot(raw, e.installRoots[k].value, root, lexis);
    }
    if r :| NamesRoot(raw, r, root, lexis) {
      assert Some(r) in e.installRoots;
      var k :| 0 <= k < |e.installRoots| && e.installRoots[k] == Some(r);
      assert RootMeets(e.installRoots[k], root, lexis);
    }
  }

  lemma SidecarRole(role: Option<string>)
    ensures (if Present(role).Some? then role.value else "runtime") == SIDECAR <==> role == Some("per-dcc-sidecar")
  {
    assert "runtime"[0] == 'r' && SIDECAR[0] == 'p';
  }

  /** Which rows are usable, told from the row: it says ready, in any case and with white space around it,
      names a URL or a port, and is not known dead. */
  lemma UsableExactly(raw: RawEntry, lexis: Lexis)
    ensures IsUsable(raw, lexis) <==>
            var m := raw.metadata;
            && m.dispatchStatus.Some? && m.dispatchStatus.value != ""
                && lexis.lower(Strip(m.dispatchStatus.value)) == "ready"
            && ((m.mcpUrl.Some? && m.mcpUrl.value != "")
                || (raw.port.Some? && raw.port.value > 0 && lexis.url(HostOf(raw), raw.port.value) != ""))
            && raw.alive != Some(false)
  {
  }

  function HostOf(raw: RawEntry): string {
    if raw.host.Some? && raw.host.value != "" then raw.host.value else "127.0.0.1"
  }

  function AnyMatch(q: Query, lexis: Lexis): RawEntry -> bool {
    raw => IsMatch(raw, q, lexis)
  }

  function UsableMatch(q: Query, lexis: Lexis): RawEntry -> bool {
    raw => IsMatch(raw, q, lexis) && IsUsable(raw, lexis)
  }

  function UnavailableMatch(q: Query, lexis: Lexis): RawEntry -> bool {
    raw => IsMatch(raw, q, lexis) && NormaliseStatus(raw.metadata.dispatchStatus, lexis) == Some("unavailable")
  }

  function LiveMatch(q: Query, lexis: Lexis): RawEntry -> bool {
    raw => IsMatch(raw, q, lexis) && raw.alive != Some(false)
  }

  lemma EntriesAre(raws: seq<RawEntry>, q: Query, lexis: Lexis)
    ensures Entries(raws, q, lexis) == Map(Where(raws, AnyMatch(q, lexis)), Normalise(lexis))
  {
    var n, state, both := Normalise(lexis), InState(RuntimeOf(q), lexis),
        (e: Entry) => InRuntimeState(e, RuntimeOf(q), lexis) && PassesSelectors(e, q);
    WhereBoth(Map(raws, n), state, Selected(q), both);
    WhereMapped(raws, n, both, AnyMatch(q, lexis));
  }

  /** Filtering the entries is filtering the rows. */
  lemma RowsWhere(raws: seq<RawEntry>, q: Query, lexis: Lexis, e: Entry -> bool, p: RawEntry -> bool)
    requires forall raw :: raw in raws ==> (p(raw) <==> IsMatch(raw, q, lexis) && e(NormaliseEntry(raw, lexis)))
    ensures Where(Entries(raws, q, lexis), e) == Map(Where(raws, p), Normalise(lexis))
  {
    var n, m, r := Normalise(lexis), AnyMatch(q, lexis), (raw: RawEntry) => e(NormaliseEntry(raw, lexis));
    EntriesAre(raws, q, lexis);
    WhereMapped(Where(raws, m), n, e, r);
    WhereBoth(raws, m, r, p);
  }

  /** The three lists the verdict looks at, in terms of registry rows. */
  lemma ListsAre(raws: seq<RawEntry>, q: Query, lexis: Lexis, entries: seq<Entry>)
    requires entries == Entries(raws, q, lexis)
    ensures Where(entries, IsReady) == Map(Where(raws, UsableMatch(q, lexis)), Normalise(lexis))
    ensures Where(entries, IsUnavailable) == Map(Where(raws, UnavailableMatch(q, lexis)), Normalise(lexis))
    ensures Where(entries, IsLive) == Map(Where(raws, LiveMatch(q, lexis)), Normalise(lexis))
  {
    RowsWhere(raws, q, lexis, IsReady, UsableMatch(q, lexis));
    RowsWhere(raws, q, lexis, IsUnavailable, UnavailableMatch(q, lexis));
    RowsWhere(raws, q, lexis, IsLive, LiveMatch(q, lexis));
  }

  /** Two different matching rows that are not known dead, under a selector. */
  ghost predicate Ambiguous(raws: seq<RawEntry>, q: Query, lexis: Lexis) {
    HasSelector(q) && TwoOf(raws, LiveMatch(q, lexis))
  }

  lemma AmbiguousExactly(raws: seq<RawEntry>, q: Query, lexis: Lexis)
    ensures IsAmbiguous(Entries(raws, q, lexis), q) <==> Ambiguous(raws, q, lexis)
  {
    var any, live := AnyMatch(q, lexis), LiveMatch(q, lexis);
    EntriesAre(raws, q, lexis);
    ListsAre(raws, q, lexis, Entries(raws, q, lexis));
    WhereTwo(raws, live);
    WhereTwo(raws, any);
    LiveAreMatches(raws, q, lexis);
  }

  lemma LiveAreMatches(raws: seq<RawEntry>, q: Query, lexis: Lexis)
    ensures TwoOf(raws, LiveMatch(q, lexis)) ==> TwoOf(raws, AnyMatch(q, lexis))
  {
  }

  // ---------------------------------------------------------------------------
  // The verdict, row by row
  // ---------------------------------------------------------------------------

  /** `list` is empty exactly when no row satisfies `p`, and begins with the first row that does. */
  ghost predicate Heads(raws: seq<RawEntry>, p: RawEntry -> bool, lexis: Lexis, list: seq<Entry>) {
    && (list == [] <==> NoneOf(raws, p))
    && forall i: nat :: FirstAt(raws, p, i) ==> list != [] && list[0] == NormaliseEntry(raws[i], lexis)
  }

  lemma FirstEntry(raws: seq<RawEntry>, p: RawEntry -> bool, lexis: Lexis, list: seq<Entry>)
    requires list == Map(Where(raws, p), Normalise(lexis))
    ensures Heads(raws, p, lexis, list)
  {
    WhereNone(raws, p);
    forall i: nat | FirstAt(raws, p, i) ensures list != [] && list[0] == NormaliseEntry(raws[i], lexis) {
      WhereFirst(raws, p, i);
    }
  }

  /** What kinds of rows a query tells apart. */
  datatype Kinds = Kinds(usable: RawEntry -> bool, unavailable: RawEntry -> bool, live: RawEntry -> bool)

  function KindsOf(q: Query, lexis: Lexis): Kinds {
    Kinds(UsableMatch(q, lexis), UnavailableMatch(q, lexis), LiveMatch(q, lexis))
  }

  /** The verdict of an unambiguous registry with a match, by what its rows report. */
  ghost predicate IsVerdict(raws: seq<RawEntry>, kinds: Kinds, probe: Probe, lexis: Lexis, v: Verdict) {
    && (forall i: nat :: FirstAt(raws, kinds.usable, i) ==> IsUsableVerdict(NormaliseEntry(raws[i], lexis), probe, v))
    && (NoneOf(raws, kinds.usable) ==> !v.success && !v.ready)
    && (forall i: nat :: NoneOf(raws, kinds.usable) && FirstAt(raws, kinds.unavailable, i) ==>
          v == Verdict(false, false, "unavailable", Some(NormaliseEntry(raws[i], lexis)),
              NormaliseEntry(raws[i], lexis).failureStage))
    && (forall i: nat :: ReportsAlone(raws, kinds, i) ==>
          v.status == ReportedText(NormaliseEntry(raws[i], lexis).dispatchStatus)
              && v.entry == Some(NormaliseEntry(raws[i], lexis)))
    && (NoneOf(raws, kinds.usable) && NoneOf(raws, kinds.unavailable) && NoneOf(raws, kinds.live) ==>
        v.status == "dead")
  }

  ghost predicate IsUsableVerdict(e: Entry, probe: Probe, v: Verdict) {
    var failure := ProbeFailure(probe, e);
    && v.entry == Some(e) && v.success == v.ready == failure.None?
    && v.status == (if failure.Some? then FailureText(failure.value) else "ready")
  }

  /** Nothing is usable or unavailable, and row `i` is the first live one. */
  ghost predicate ReportsAlone(raws: seq<RawEntry>, kinds: Kinds, i: nat) {
    NoneOf(raws, kinds.usable) && NoneOf(raws, kinds.unavailable) && FirstAt(raws, kinds.live, i)
  }

  /** The declared verdict: missing without a match, ambiguous under a selector with two live
      matches, and else what the rows report. */
  ghost predicate IsDeclared(raws: seq<RawEntry>, kinds: Kinds, missing: bool, ambiguous: bool, probe: Probe,
                             lexis: Lexis, v: Verdict) {
    if missing then v == Verdict(false, false, "missing", None, None)
    else if ambiguous then v == Verdict(false, false, "ambiguous", None, None)
    else IsVerdict(raws, kinds, probe, lexis, v)
  }

  lemma ClassifyIs(raws: seq<RawEntry>, kinds: Kinds, probe: Probe, lexis: Lexis,
                   entries: seq<Entry>, ready: seq<Entry>, unavailable: seq<Entry>, live: seq<Entry>)
    requires entries != []
    requires ready == Map(Where(raws, kinds.usable), Normalise(lexis))
    requires unavailable == Map(Where(raws, kinds.unavailable), Normalise(lexis))
    requires live == Map(Where(raws, kinds.live), Normalise(lexis))
    ensures IsVerdict(raws, kinds, probe, lexis, Classify(entries, ready, unavailable, live, probe))
  {
    FirstEntry(raws, kinds.usable, lexis, ready);
    FirstEntry(raws, kinds.unavailable, lexis, unavailable);
    FirstEntry(raws, kinds.live, lexis, live);
    ClassifyHeads(raws, kinds, probe, lexis, entries, ready, unavailable, live);
  }

  lemma ClassifyHeads(raws: seq<RawEntry>, kinds: Kinds, probe: Probe, lexis: Lexis,
                      entries: seq<Entry>, ready: seq<Entry>, unavailable: seq<Entry>, live: seq<Entry>)
    requires entries != [] && Heads(raws, kinds.usable, lexis, ready)
    requires Heads(raws, kinds.unavailable, lexis, unavailable) && Heads(raws, kinds.live, lexis, live)
    ensures IsVerdict(raws, kinds, probe, lexis, Classify(entries, ready, unavailable, live, probe))
  {
  }

  predicate AreMissing(raws: seq<RawEntry>, q: Query, lexis: Lexis) {
    Where(raws, AnyMatch(q, lexis)) == []
  }

  /** For every registry the verdict is the declared one. */
  lemma VerdictByRows(raws: seq<RawEntry>, q: Query, probe: Probe, lexis: Lexis)
    ensures IsDeclared(raws, KindsOf(q, lexis), AreMissing(raws, q, lexis), Ambiguous(raws, q, lexis), probe, lexis,
                       StatusOf(raws, q, probe, lexis))
  {
    var entries := Entries(raws, q, lexis);
    EntriesAre(raws, q, lexis);
    AmbiguousExactly(raws, q, lexis);
    ListsAre(raws, q, lexis, entries);
    if entries != [] {
      ClassifyIs(raws, KindsOf(q, lexis), probe, lexis, entries,
                 Where(entries, IsReady), Where(entries, IsUnavailable), Where(entries, IsLive));
    }
  }

  /** Rows of a kind are matches, and live when they are usable. */
  ghost predicate KindsFit(raws: seq<RawEntry>, kinds: Kinds, missing: bool, ambiguous: bool, lexis: Lexis) {
    && (missing ==> NoneOf(raws, kinds.usable) && NoneOf(raws, kinds.unavailable) && NoneOf(raws, kinds.live))
    && (ambiguous ==> !missing)
    && (forall i :: 0 <= i < |raws| && kinds.live(raws[i]) ==>
          NormaliseEntry(raws[i], lexis).dispatchStatus == Some("unavailable") ==> kinds.unavailable(raws[i]))
  }

  lemma KindsDoFit(raws: seq<RawEntry>, q: Query, lexis: Lexis)
    ensures KindsFit(raws, KindsOf(q, lexis), AreMissing(raws, q, lexis), Ambiguous(raws, q, lexis), lexis)
  {
    WhereNone(raws, AnyMatch(q, lexis));
    NoMatchNoKind(raws, q, lexis);
    if Ambiguous(raws, q, lexis) {
      LiveAreMatches(raws, q, lexis);
      TwoIsSome(raws, AnyMatch(q, lexis));
    }
  }

  lemma NoMatchNoKind(raws: seq<RawEntry>, q: Query, lexis: Lexis)
    ensures NoneOf(raws, AnyMatch(q, lexis)) ==>
              NoneOf(raws, UsableMatch(q, lexis)) && NoneOf(raws, UnavailableMatch(q, lexis))
                  && NoneOf(raws, LiveMatch(q, lexis))
  {
  }

  lemma TwoIsSome(raws: seq<RawEntry>, p: RawEntry -> bool)
    ensures TwoOf(raws, p) ==> !NoneOf(raws, p)
  {
  }

  lemma FirstOrNone(raws: seq<RawEntry>, p: RawEntry -> bool)
    ensures NoneOf(raws, p) <==> !exists i: nat :: FirstAt(raws, p, i)
  {
    if !NoneOf(raws, p) {
      var j :| 0 <= j < |raws| && p(raws[j]);
      var i := FindFirst(raws, p, j);
    }
  }

  // ---------------------------------------------------------------------------
  // What success means
  // ---------------------------------------------------------------------------

  /** Row `i` is the first usable one, and the probe accepts it. */
  ghost predicate IsAccepted(raws: seq<RawEntry>, usable: RawEntry -> bool, probe: Probe, lexis: Lexis, i: nat) {
    FirstAt(raws, usable, i) && ProbeFailure(probe, NormaliseEntry(raws[i], lexis)).None?
  }

  /** Nothing is ambiguous, and row `i` is the first usable match and accepted by the probe. */
  ghost predicate Selects(raws: seq<RawEntry>, q: Query, probe: Probe, lexis: Lexis, i: nat) {
    !Ambiguous(raws, q, lexis) && IsAccepted(raws, UsableMatch(q, lexis), probe, lexis, i)
  }

  lemma DeclaredSuccess(raws: seq<RawEntry>, kinds: Kinds, missing: bool, ambiguous: bool, probe: Probe,
                        lexis: Lexis, v: Verdict)
    requires IsDeclared(raws, kinds, missing, ambiguous, probe, lexis, v)
            && KindsFit(raws, kinds, missing, ambiguous, lexis)
    ensures v.success == v.ready && (v.success ==> v.status == "ready")
    ensures v.success <==> !ambiguous && exists i: nat :: IsAccepted(raws, kinds.usable, probe, lexis, i)
    ensures !ambiguous ==> forall i: nat :: IsAccepted(raws, kinds.usable, probe, lexis, i) ==>
            v.entry == Some(NormaliseEntry(raws[i], lexis))
  {
    FirstOrNone(raws, kinds.usable);
    if v.success {
      var i: nat :| FirstAt(raws, kinds.usable, i);
      assert IsAccepted(raws, kinds.usable, probe, lexis, i);
    }
  }

  /** The verdict is a success exactly when some registry row is selected; it then names that row. */
  lemma SuccessExactly(raws: seq<RawEntry>, q: Query, probe: Probe, lexis: Lexis)
    ensures var v := StatusOf(raws, q, probe, lexis);
            && v.success == v.ready
            && (v.success <==> exists i: nat :: Selects(raws, q, probe, lexis, i))
            && (forall i: nat :: Selects(raws, q, probe, lexis, i) ==> v.entry == Some(NormaliseEntry(raws[i], lexis)))
  {
    var v, missing, ambiguous := StatusOf(raws, q, probe, lexis), AreMissing(raws, q, lexis), Ambiguous(raws, q, lexis);
    VerdictByRows(raws, q, probe, lexis);
    KindsDoFit(raws, q, lexis);
    DeclaredSuccess(raws, KindsOf(q, lexis), missing, ambiguous, probe, lexis, v);
    forall i: nat
      ensures Selects(raws, q, probe, lexis, i) <==>
              !ambiguous && IsAccepted(raws, KindsOf(q, lexis).usable, probe, lexis, i)
    {
    }
  }

  lemma SelectedRow(raws: seq<RawEntry>, q: Query, probe: Probe, lexis: Lexis, i: nat)
    requires Selects(raws, q, probe, lexis, i)
    ensures i < |raws| && IsMatch(raws[i], q, lexis) && IsUsable(raws[i], lexis)
    ensures HasSelector(q) ==> forall j :: 0 <= j < |raws| && j != i ==> !LiveMatch(q, lexis)(raws[j])
  {
    if HasSelector(q) {
      OnlyOne(raws, LiveMatch(q, lexis), i);
    }
  }

  lemma OnlyOne(raws: seq<RawEntry>, p: RawEntry -> bool, i: nat)
    requires i < |raws| && p(raws[i]) && !TwoOf(raws, p)
    ensures forall j :: 0 <= j < |raws| && j != i ==> !p(raws[j])
  {
  }

  /** What a caller relies on: the named row passes every filter, reported ready, has a URL, is not
      known dead, and under a selector no other live row matches. */
  lemma SuccessNamesUsable(raws: seq<RawEntry>, q: Query, probe: Probe, lexis: Lexis) returns (i: nat)
    requires StatusOf(raws, q, probe, lexis).success
    ensures i < |raws| && StatusOf(raws, q, probe, lexis).entry == Some(NormaliseEntry(raws[i], lexis))
    ensures IsMatch(raws[i], q, lexis) && IsUsable(raws[i], lexis)
    ensures HasSelector(q) ==> forall j :: 0 <= j < |raws| && j != i ==> !LiveMatch(q, lexis)(raws[j])
  {
    SuccessExactly(raws, q, probe, lexis);
    i :| Selects(raws, q, probe, lexis, i);
    SelectedRow(raws, q, probe, lexis, i);
  }

  // ---------------------------------------------------------------------------
  // What the status text means
  // ---------------------------------------------------------------------------

  /** The text comes from the row that is reported on: its own status, word for word. */
  ghost predicate KindSays(raws: seq<RawEntry>, kinds: Kinds, lexis: Lexis, text: string) {
    exists i: nat :: ReportsAlone(raws, kinds, i) && NormaliseEntry(raws[i], lexis).dispatchStatus == Some(text)
  }

  /** The text comes from the probe, which rejected the first usable row. */
  ghost predicate FailureSays(raws: seq<RawEntry>, usable: RawEntry -> bool, probe: Probe, lexis: Lexis, text: string) {
    exists i: nat :: FirstAt(raws, usable, i)
        && HasFailureText(ProbeFailure(probe, NormaliseEntry(raws[i], lexis)), text)
  }

  predicate HasFailureText(f: Option<Failure>, text: string) {
    f.Some? && FailureText(f.value) == text
  }

  /** Nothing is ambiguous, usable or unavailable, and the first live match reports `text`. */
  ghost predicate RowSays(raws: seq<RawEntry>, q: Query, lexis: Lexis, text: string) {
    !Ambiguous(raws, q, lexis) && KindSays(raws, KindsOf(q, lexis), lexis, text)
  }

  /** Nothing is ambiguous, and the probe rejects the first usable match with `text`. */
  ghost predicate ProbeSays(raws: seq<RawEntry>, q: Query, probe: Probe, lexis: Lexis, text: string) {
    !Ambiguous(raws, q, lexis) && FailureSays(raws, UsableMatch(q, lexis), probe, lexis, text)
  }

  /** Nothing is ambiguous or usable, and some match is unavailable. */
  ghost predicate IsDown(raws: seq<RawEntry>, q: Query, lexis: Lexis) {
    !Ambiguous(raws, q, lexis) && NoneOf(raws, UsableMatch(q, lexis)) && !NoneOf(raws, UnavailableMatch(q, lexis))
  }

  /** The first live match of a registry with nothing ambiguous, usable or unavailable passes its
      reported status on, whatever it says. */
  lemma ReportedStatusIsCopied(raws: seq<RawEntry>, q: Query, probe: Probe, lexis: Lexis, i: nat)
    requires !Ambiguous(raws, q, lexis) && ReportsAlone(raws, KindsOf(q, lexis), i)
    ensures var v := StatusOf(raws, q, probe, lexis);
            !v.success && v.status == ReportedText(NormaliseStatus(raws[i].metadata.dispatchStatus, lexis))
  {
    VerdictByRows(raws, q, probe, lexis);
    KindsDoFit(raws, q, lexis);
  }

  /** The texts that come from neither a row nor the probe. */
  ghost predicate IsFixedText(raws: seq<RawEntry>, kinds: Kinds, missing: bool, ambiguous: bool, lexis: Lexis,
                              text: string) {
    if missing then text == "missing"
    else if ambiguous then text == "ambiguous"
    else if !NoneOf(raws, kinds.usable) then false
    else if !NoneOf(raws, kinds.unavailable) then text == "unavailable"
    else if !NoneOf(raws, kinds.live) then text == "booting" && FirstIsSilent(raws, kinds.live, lexis)
    else text == "dead"
  }

  ghost predicate FirstIsSilent(raws: seq<RawEntry>, live: RawEntry -> bool, lexis: Lexis) {
    exists i: nat :: FirstAt(raws, live, i) && NormaliseEntry(raws[i], lexis).dispatchStatus.None?
  }

  lemma DeclaredText(raws: seq<RawEntry>, kinds: Kinds, missing: bool, ambiguous: bool, probe: Probe, lexis: Lexis,
                     v: Verdict, text: string)
    requires IsDeclared(raws, kinds, missing, ambiguous, probe, lexis, v)
    requires KindsFit(raws, kinds, missing, ambiguous, lexis)
    ensures !v.success && v.status == text <==>
            || IsFixedText(raws, kinds, missing, ambiguous, lexis, text)
            || (!ambiguous && (KindSays(raws, kinds, lexis, text)
                || FailureSays(raws, kinds.usable, probe, lexis, text)))
  {
    FirstOrNone(raws, kinds.usable);
    FirstOrNone(raws, kinds.unavailable);
    FirstOrNone(raws, kinds.live);
  }

  /** Where the text of a failed verdict comes from: it is the fixed text of the registry's kind, the
      status of the reported row, or the failure of the probe. */
  lemma TextExactly(raws: seq<RawEntry>, q: Query, probe: Probe, lexis: Lexis, text: string)
    ensures var v := StatusOf(raws, q, probe, lexis);
            !v.success && v.status == text <==>
            || IsFixedText(raws, KindsOf(q, lexis), AreMissing(raws, q, lexis), Ambiguous(raws, q, lexis), lexis, text)
            || RowSays(raws, q, lexis, text)
            || ProbeSays(raws, q, probe, lexis, text)
  {
    var v, missing, ambiguous := StatusOf(raws, q, probe, lexis), AreMissing(raws, q, lexis), Ambiguous(raws, q, lexis);
    VerdictByRows(raws, q, probe, lexis);
    KindsDoFit(raws, q, lexis);
    DeclaredText(raws, KindsOf(q, lexis), missing, ambiguous, probe, lexis, v, text);
  }

  /** No probe failure reads like a status of the registry. */
  lemma ProbeSaysNone(raws: seq<RawEntry>, q: Query, probe: Probe, lexis: Lexis, text: string)
    requires text != [] && text[0] != 'p'
    ensures !ProbeSays(raws, q, probe, lexis, text)
  {
  }

  lemma SuccessIsReady(raws: seq<RawEntry>, q: Query, probe: Probe, lexis: Lexis)
    ensures StatusOf(raws, q, probe, lexis).success ==> StatusOf(raws, q, probe, lexis).status == "ready"
  {
    VerdictByRows(raws, q, probe, lexis);
    KindsDoFit(raws, q, lexis);
    DeclaredSuccess(raws, KindsOf(q, lexis), AreMissing(raws, q, lexis), Ambiguous(raws, q, lexis), probe, lexis,
                    StatusOf(raws, q, probe, lexis));
  }

  /** The text "ambiguous" appears exactly under ambiguity or when the reported row says it, and is
      true to the registry exactly when that row does not. */
  lemma AmbiguousTextExactly(raws: seq<RawEntry>, q: Query, probe: Probe, lexis: Lexis)
    ensures StatusOf(raws, q, probe, lexis).status == "ambiguous" <==>
            Ambiguous(raws, q, lexis) || RowSays(raws, q, lexis, "ambiguous")
    ensures (StatusOf(raws, q, probe, lexis).status == "ambiguous" <==> Ambiguous(raws, q, lexis)) <==>
            !RowSays(raws, q, lexis, "ambiguous")
  {
    TextExactly(raws, q, probe, lexis, "ambiguous");
    ProbeSaysNone(raws, q, probe, lexis, "ambiguous");
    SuccessIsReady(raws, q, probe, lexis);
    KindsDoFit(raws, q, lexis);
  }

  /** The text "ready" is true to the flags exactly when the reported row does not say it. */
  lemma ReadyTextExactly(raws: seq<RawEntry>, q: Query, probe: Probe, lexis: Lexis)
    ensures (StatusOf(raws, q, probe, lexis).status == "ready" <==> StatusOf(raws, q, probe, lexis).success) <==>
            !RowSays(raws, q, lexis, "ready")
  {
    TextExactly(raws, q, probe, lexis, "ready");
    ProbeSaysNone(raws, q, probe, lexis, "ready");
    SuccessIsReady(raws, q, probe, lexis);
  }

  /** The text "unavailable" means exactly an unavailable match, with nothing ambiguous or usable. */
  lemma UnavailableTextExactly(raws: seq<RawEntry>, q: Query, probe: Probe, lexis: Lexis)
    ensures StatusOf(raws, q, probe, lexis).status == "unavailable" <==> IsDown(raws, q, lexis)
  {
    TextExactly(raws, q, probe, lexis, "unavailable");
    ProbeSaysNone(raws, q, probe, lexis, "unavailable");
    SuccessIsReady(raws, q, probe, lexis);
    KindsDoFit(raws, q, lexis);
    NoRowSaysUnavailable(raws, KindsOf(q, lexis), AreMissing(raws, q, lexis), Ambiguous(raws, q, lexis), lexis);
  }

  /** A live row that reports "unavailable" is an unavailable match, so it is not reported alone. */
  lemma NoRowSaysUnavailable(raws: seq<RawEntry>, kinds: Kinds, missing: bool, ambiguous: bool, lexis: Lexis)
    requires KindsFit(raws, kinds, missing, ambiguous, lexis)
    ensures !KindSays(raws, kinds, lexis, "unavailable")
  {
  }

  predicate Reports(raw: RawEntry, status: string, lexis: Lexis) {
    NormaliseStatus(raw.metadata.dispatchStatus, lexis) == Some(status)
  }

  lemma FirstRowIsReported(raws: seq<RawEntry>, q: Query, probe: Probe, lexis: Lexis)
    requires raws != [] && !Ambiguous(raws, q, lexis) && LiveMatch(q, lexis)(raws[0])
    requires forall k :: 0 <= k < |raws| ==>
               !Reports(raws[k], "ready", lexis) && !Reports(raws[k], "unavailable", lexis)
    ensures StatusOf(raws, q, probe, lexis).status ==
            ReportedText(NormaliseStatus(raws[0].metadata.dispatchStatus, lexis))
  {
    assert NoneOf(raws, UsableMatch(q, lexis)) && NoneOf(raws, UnavailableMatch(q, lexis));
    assert FirstAt(raws, LiveMatch(q, lexis), 0);
    ReportedStatusIsCopied(raws, q, probe, lexis, 0);
  }

  /** One live row reporting "ambiguous", alone or before a second row that reports nothing: without
      a selector the verdict is "ambiguous" and nothing is. */
  lemma StatusTextMisleads(row: RawEntry, other: RawEntry, q: Query, probe: Probe, lexis: Lexis)
    requires !HasSelector(q) && LiveMatch(q, lexis)(row)
    requires NormaliseStatus(row.metadata.dispatchStatus, lexis) == Some("ambiguous")
    requires NormaliseStatus(other.metadata.dispatchStatus, lexis) == None
    ensures !Ambiguous([row], q, lexis) && StatusOf([row], q, probe, lexis).status == "ambiguous"
    ensures !Ambiguous([row, other], q, lexis) && StatusOf([row, other], q, probe, lexis).status == "ambiguous"
  {
    FirstRowIsReported([row], q, probe, lexis);
    FirstRowIsReported([row, other], q, probe, lexis);
  }

  /** One live row reporting "ready" without a URL or a port: the verdict reads "ready" and is none. */
  lemma ReadyTextMisleads(row: RawEntry, q: Query, probe: Probe, lexis: Lexis)
    requires LiveMatch(q, lexis)(row) && NormaliseStatus(row.metadata.dispatchStatus, lexis) == Some("ready")
    requires Present(row.metadata.mcpUrl).None? && row.port.None?
    ensures var v := StatusOf([row], q, probe, lexis); v.status == "ready" && !v.success && !v.ready
  {
    assert ReportsAlone([row], KindsOf(q, lexis), 0);
    ReportedStatusIsCopied([row], q, probe, lexis, 0);
    SuccessExactly([row], q, probe, lexis);
  }

  // ---------------------------------------------------------------------------
  // Waiting
  // ---------------------------------------------------------------------------

  const RETRYABLE_STAGE := "host-rpc-connect"

  predicate RetryableScheme(scheme: string) {
    scheme in {"commandport", "qtserver", "ws", "wss"}
  }

  predicate SeparatorAt(text: string, k: int) {
    0 <= k <= |text| - 3 && text[k..k + 3] == "://"
  }

  /** The text before the first "://". */
  function BeforeSeparator(text: string, from: nat := 0): (r: Option<string>)
    requires from <= |text| && forall k :: 0 <= k < from ==> !SeparatorAt(text, k)
    ensures r.None? <==> forall k :: !SeparatorAt(text, k)
    ensures r.Some? ==> r.value + "://" <= text && forall k :: 0 <= k < |r.value| ==> !SeparatorAt(text, k)
    decreases |text| - from
  {
    if from == |text| then None
    else if SeparatorAt(text, from) then
      assert text[..from] + text[from..from + 3] == text[..from + 3];
      Some(text[..from])
    else BeforeSeparator(text, from + 1)
  }

  function UriScheme(uri: Option<string>, lexis: Lexis): Option<string> {
    if uri.None? then None else
    var scheme := BeforeSeparator(Strip(uri.value));
    if scheme.None? then None else Some(lexis.lower(scheme.value))
  }

  /** `before`, in lower case, is the scheme: what stands before the first "://" of the text without the
      white space around it. */
  ghost predicate IsSchemeOf(uri: Option<string>, before: string) {
    && uri.Some? && before + "://" <= Strip(uri.value)
    && forall k :: 0 <= k < |before| ==> !SeparatorAt(Strip(uri.value), k)
  }

  lemma SchemeExactly(uri: Option<string>, lexis: Lexis, before: string)
    ensures IsSchemeOf(uri, before) ==> UriScheme(uri, lexis) == Some(lexis.lower(before))
    ensures UriScheme(uri, lexis) == None <==> forall b :: !IsSchemeOf(uri, b)
  {
    if uri.Some? {
      var text := Strip(uri.value);
      var found := BeforeSeparator(text);
      if found.Some? {
        assert IsSchemeOf(uri, found.value);
      }
      if IsSchemeOf(uri, before) {
        SameScheme(text, before);
      }
      forall b | IsSchemeOf(uri, b) ensures found.Some? {
        SameScheme(text, b);
      }
    }
  }

  lemma SameScheme(text: string, before: string)
    requires before + "://" <= text && forall k :: 0 <= k < |before| ==> !SeparatorAt(text, k)
    ensures BeforeSeparator(text) == Some(before)
  {
    var found := BeforeSeparator(text);
    SeparatorBehind(text, before);
    assert found.Some?;
    SeparatorBehind(text, found.value);
    assert text[..|before|] == before && text[..|found.value|] == found.value;
  }

  lemma SeparatorBehind(text: string, before: string)
    requires before + "://" <= text
    ensures SeparatorAt(text, |before|)
  {
    var n := |before| + 3;
    assert text[..n] == before + "://";
    assert text[|before|..n] == text[..n][|before|..];
  }

  predicate IsRetryable(v: Verdict, q: Query, lexis: Lexis) {
    var stage :=
      if Present(v.failureStage).Some? then v.failureStage
      else if v.entry.Some? then v.entry.value.failureStage else None;
    var named :=
      if v.entry.None? then None
      else if Present(v.entry.value.hostRpcScheme).Some? then v.entry.value.hostRpcScheme
      else UriScheme(v.entry.value.hostRpcUri, lexis);
    var scheme := if Present(named).Some? then named else UriScheme(q.hostRpc, lexis);
    stage == Some(RETRYABLE_STAGE) && scheme.Some? && RetryableScheme(lexis.lower(scheme.value))
  }

  predicate IsDecisive(v: Verdict, q: Query, lexis: Lexis) {
    v.success || v.status == "ambiguous" || (v.status == "unavailable" && !IsRetryable(v, q, lexis))
  }

  /** The scheme that decides: the entry's own, else that of its address, else that of the selector. */
  ghost predicate IsScheme(e: Entry, q: Query, lexis: Lexis, scheme: string) {
    if e.hostRpcScheme.Some? && e.hostRpcScheme.value != "" then scheme == e.hostRpcScheme.value
    else if UriScheme(e.hostRpcUri, lexis).Some? && UriScheme(e.hostRpcUri, lexis) != Some("")
    then Some(scheme) == UriScheme(e.hostRpcUri, lexis)
    else Some(scheme) == UriScheme(q.hostRpc, lexis)
  }

  /** An unavailable entry is worth waiting for exactly when it failed to connect to a host that may still
      start listening. */
  lemma RetryableExactly(e: Entry, q: Query, lexis: Lexis)
    ensures IsRetryable(Verdict(false, false, "unavailable", Some(e), e.failureStage), q, lexis) <==>
            && e.failureStage == Some("host-rpc-connect")
            && exists scheme :: IsScheme(e, q, lexis, scheme) && IsWaitedFor(lexis.lower(scheme))
  {
    assert Present(e.failureStage) == Some(RETRYABLE_STAGE) <==> e.failureStage == Some("host-rpc-connect");
  }

  predicate IsWaitedFor(scheme: string) {
    scheme == "commandport" || scheme == "qtserver" || scheme == "ws" || scheme == "wss"
  }

  /** What the surroundings show the `k`-th time they are asked: the registry, the probe, and the
      clock reading of the deadline check that follows. */
  datatype World = World(registry: nat -> seq<RawEntry>, probe: nat -> Probe, clock: nat -> real)

  function Observe(w: World, q: Query, lexis: Lexis, k: nat): Verdict {
    StatusOf(w.registry(k), q, w.probe(k), lexis)
  }

  function Larger(a: real, b: real): real {
    if a < b then b else a
  }

  function Ceil(x: real): int {
    -((-x).Floor)
  }

  /** Each sleep takes at least the poll interval. */
  ghost predicate ClockAdvances(clock: nat -> real, start: real, poll: real) {
    && clock(0) >= start
    && forall j: nat, k: nat {:trigger clock(j), clock(k)} :: k == j + 1 ==> clock(k) >= clock(j) + poll
  }

  lemma {:induction false} ClockBound(clock: nat -> real, start: real, poll: real, k: nat)
    requires ClockAdvances(clock, start, poll)
    ensures clock(k) >= start + k as real * poll
  {
    if k > 0 {
      ClockBound(clock, start, poll, k - 1);
      assert k as real * poll == (k - 1) as real * poll + poll;
    }
  }

  lemma BeforeDeadline(clock: nat -> real, start: real, timeout: real, poll: real, k: nat)
    requires poll > 0.0 && ClockAdvances(clock, start, poll) && clock(k) < start + timeout
    ensures k < Ceil(timeout / poll)
  {
    ClockBound(clock, start, poll, k);
    DivideBelow(k as real, timeout, poll);
  }

  lemma DivideBelow(x: real, y: real, d: real)
    requires d > 0.0 && x * d < y
    ensures x < y / d
  {
    var z := y / d;
    assert (z - x) * d == y - x * d;
  }

  function TimedOut(last: Verdict): Verdict {
    last.(success := false, ready := false, status := "timeout")
  }

  /** The wait kept polling before observation `k`: nothing decisive was seen and time was left. */
  ghost predicate Waiting(w: World, q: Query, lexis: Lexis, deadline: real, k: nat) {
    forall j: nat :: j < k ==> !IsDecisive(Observe(w, q, lexis, j), q, lexis) && w.clock(j) < deadline
  }

  /** The wait ends at observation `k` with `v`: the first decisive observation as it is, or a
      timeout at the first check past the deadline. */
  ghost predicate EndsAt(w: World, q: Query, lexis: Lexis, deadline: real, k: nat, v: Verdict) {
    && Waiting(w, q, lexis, deadline, k)
    && if IsDecisive(Observe(w, q, lexis, k), q, lexis) then v == Observe(w, q, lexis, k)
       else w.clock(k) >= deadline && v == TimedOut(Observe(w, q, lexis, k))
  }

  method WaitForSidecarReady(w: World, q: Query, lexis: Lexis, start: real, timeoutSecs: real, pollSecs: real)
    returns (v: Verdict, last: nat)
    requires ClockAdvances(w.clock, start, Larger(0.05, pollSecs))
    ensures EndsAt(w, q.(includeDead := true), lexis, start + Larger(0.0, timeoutSecs), last, v)
    ensures last + 1 <= Ceil(Larger(0.0, timeoutSecs) / Larger(0.05, pollSecs)) + 1
  {
    var timeout, poll := Larger(0.0, timeoutSecs), Larger(0.05, pollSecs);
    var deadline, query := start + timeout, q.(includeDead := true);
    ghost var bound := Ceil(timeout / poll);
    last := 0;
    v := SidecarReadinessStatus(w.registry(0), query, w.probe(0), lexis);
    while true
      invariant v == Observe(w, query, lexis, last)
      invariant Waiting(w, query, lexis, deadline, last)
      invariant last <= bound
      decreases bound - last
    {
      if IsDecisive(v, query, lexis) {
        return v, last;
      }
      if w.clock(last) >= deadline {
        return TimedOut(v), last;
      }
      BeforeDeadline(w.clock, start, timeout, poll, last);
      last := last + 1;
      v := SidecarReadinessStatus(w.registry(last), query, w.probe(last), lexis);
    }
  }

  /** A wait that ends undecided has run past its deadline, and says so without success, with the entry it
      last looked at. */
  lemma TimeoutExactly(w: World, q: Query, lexis: Lexis, deadline: real, k: nat, v: Verdict)
    requires EndsAt(w, q, lexis, deadline, k, v)
    ensures var last := Observe(w, q, lexis, k);
            if IsDecisive(last, q, lexis) then v == last
            else !v.success && !v.ready && v.status == "timeout" && v.entry == last.entry && w.clock(k) >= deadline
    ensures forall j: nat :: j < k ==> w.clock(j) < deadline
  {
  }

  /** There is one way for a wait to end. */
  lemma EndIsUnique(w: World, q: Query, lexis: Lexis, deadline: real, k: nat, v: Verdict, k': nat, v': Verdict)
    requires EndsAt(w, q, lexis, deadline, k, v) && EndsAt(w, q, lexis, deadline, k', v')
    ensures k == k' && v == v'
  {
    assert k < k' ==> !IsDecisive(Observe(w, q, lexis, k), q, lexis);
    assert k' < k ==> !IsDecisive(Observe(w, q, lexis, k'), q, lexis);
  }

  /** A wait succeeds exactly when its last observation selects a registry row, so a success is
      never turned into a timeout; it then names that row. */
  lemma WaitSucceedsExactly(w: World, q: Query, lexis: Lexis, deadline: real, k: nat, v: Verdict)
    requires EndsAt(w, q, lexis, deadline, k, v)
    ensures v.success == v.ready
    ensures v.success <==> exists i: nat :: Selects(w.registry(k), q, w.probe(k), lexis, i)
    ensures forall i: nat :: Selects(w.registry(k), q, w.probe(k), lexis, i) ==>
            v.entry == Some(NormaliseEntry(w.registry(k)[i], lexis))
    ensures forall j: nat, i: nat :: j < k ==> !Selects(w.registry(j), q, w.probe(j), lexis, i)
  {
    SuccessExactly(w.registry(k), q, w.probe(k), lexis);
    forall j: nat, i: nat | j < k ensures !Selects(w.registry(j), q, w.probe(j), lexis, i) {
      SuccessExactly(w.registry(j), q, w.probe(j), lexis);
      assert !IsDecisive(Observe(w, q, lexis, j), q, lexis);
    }
  }

  // ---------------------------------------------------------------------------
  // When a wait ends
  // ---------------------------------------------------------------------------

  /** An observation ends the wait exactly when it selects a row, is ambiguous, is called ambiguous by
      its reported row, or is unavailable for good. */
  lemma DecisiveExactly(w: World, q: Query, lexis: Lexis, k: nat)
    ensures IsDecisive(Observe(w, q, lexis, k), q, lexis) <==>
            || (exists i: nat :: Selects(w.registry(k), q, w.probe(k), lexis, i))
            || Ambiguous(w.registry(k), q, lexis)
            || RowSays(w.registry(k), q, lexis, "ambiguous")
            || (IsDown(w.registry(k), q, lexis) && !IsRetryable(Observe(w, q, lexis, k), q, lexis))
  {
    SuccessExactly(w.registry(k), q, w.probe(k), lexis);
    AmbiguousTextExactly(w.registry(k), q, w.probe(k), lexis);
    UnavailableTextExactly(w.registry(k), q, w.probe(k), lexis);
  }

  /** A wait ends called ambiguous while nothing is ambiguous exactly when, in its last observation,
      the reported row says "ambiguous"; that observation is then the first decisive one. */
  lemma WaitMisledExactly(w: World, q: Query, lexis: Lexis, deadline: real, k: nat, v: Verdict)
    requires EndsAt(w, q, lexis, deadline, k, v)
    ensures v.status == "ambiguous" && !Ambiguous(w.registry(k), q, lexis) <==>
            RowSays(w.registry(k), q, lexis, "ambiguous")
  {
    AmbiguousTextExactly(w.registry(k), q, w.probe(k), lexis);
  }
}
