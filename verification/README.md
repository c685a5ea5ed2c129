# Verified models of dcc-mcp-core

This project models the stateful Python cores of dcc-mcp-core in Dafny 4.11 and proves what they
promise. `dafny verify dfyconfig.toml` checks all of it. Nothing here executes the Python code.

| modules | what they model |
|---|---|
| `SkillResolver` | the dependency resolver: Kahn's algorithm over counters, an adjacency list with repeated edges and a sorted queue |
| `FramerSession`, `FramerTables`, `FramerEnding`, `FramerTraffic`, `FramerNodeSession` | the Framer session protocol as a state machine over the stretches between awaits, what each stretch does case by case, how its calls and sessions end, what is in flight, and the session object whose methods are those stretches |
| `PointerBlock`, `PointerInsertion`, `PointerOnce` | rewriting the marked block of a README, the drift check that replays it, the first insertion line by line, and when the block stands there once |
| `MarkdownStructure`, `MarkdownFindings`, `MarkdownHiding` | the fence machine (section 4.5, "Fenced code blocks", of the CommonMark specification), the heading stack, the structure findings, every finding told from the lines of the file, and what a fence hides |
| `PrEquivalence`, `PointerRegeneration` | duplicate detection by content, and the regeneration run against a remote that other writers change at any point between two operations |
| `DeadlineBudget` | nested deadline scopes, command timeouts and the batch scan |
| `SidecarReadiness` | registry entries, selectors, the readiness verdict and the polling loop |
| `JsonSubset` | recursive JSON subset matching and pointer lookup |
| `Text`, `TextLines`, `Collections` | whitespace stripping and string order, Python's line splitting and joining, options, filters and sequences, shared by the others |

Code that updates variables in loops is written as methods with loops, and objects with fields as
classes; each is proved against a declarative specification, and the theorems are lemmas about that
specification. The small rules everything rests on (string order, stripping, line breaks, headings,
fences, markers, error codes, selectors, content identity) are each tied to a statement about
characters, positions or fields that does not use them: the lemmas named `...Exactly` and `...Table`.

## What the proofs found

- A list of skills whose dependencies are all present and whose names repeat ends in the "circular"
  error even without a cycle; `SkillResolver.OutcomeExactly` gives the exact condition and
  `SkillResolver.RepeatedNameIsCircular` an input with a topological order.
- `close` does not end a Framer session for good if it is issued while `__aenter__` can still
  succeed: the close returns and the session opens afterwards. `FramerEnding.CloseFinalExactly`
  gives the exact condition, which is `FramerSession.CanOpen` of the state in which it is issued;
  `FramerTraffic.HonestCloseFinalExactly` shows that a well-behaved child does not change it.
- A pointer part that parses as a negative number indexes a list from its end, so lookup does not
  respect the subset order for it. `JsonSubset.MonotoneExactly` gives the exact condition.
- The `status` text of a readiness verdict can say "ready" or "ambiguous" because the registry row it
  reports on said so, while `success` is false and nothing is ambiguous; the word "ambiguous" then ends
  a wait. `SidecarReadiness.AmbiguousTextExactly` and `SidecarReadiness.ReadyTextExactly` say for every
  registry when the text is true, `SidecarReadiness.WaitMisledExactly` when a wait ends on it, and
  `SidecarReadiness.StatusTextMisleads` and `SidecarReadiness.ReadyTextMisleads` give the inputs. The
  flags are exact (`SidecarReadiness.SuccessExactly`), and no probe failure can be mistaken for a status.
- `upsert_pointer` documents its result as holding the block exactly once. A README that already has a
  second start marker behind its first block keeps it: `PointerOnce.OnceExactly` proves that this is
  the only exception, and `PointerOnce.SecondBlockStays` gives the input.
- The source means the seam to be the only change of a first insertion, but it joins all lines with one
  newline, so a README that mixes line breaks is rewritten elsewhere too (`PointerInsertion.MixedBreaksRewritten`).
  `PointerInsertion.BytesKeptExactly` proves that the characters above and below the seam come back
  if and only if every line break in them is the newline of the file; the lines themselves survive in
  every README (`PointerInsertion.InsertionFrame`).

## Model

| member | source | states |
|---|---|---|
| SkillResolver.ResolveDependenciesOrdered | python/dcc_mcp_core/_lite_fallback.py:504-534 | for every list of skills: a result is the lexicographically least of all topological orders, in the string order that `Text.LexExactly` fixes; a missing dependency is the first one in scan order; the circular error means repeated names or no topological order |
| SkillResolver.CheckDependencies | python/dcc_mcp_core/_lite_fallback.py:507-514 | names exactly the first absent dependency, or every dependency is present |
| SkillResolver.BuildGraph | python/dcc_mcp_core/_lite_fallback.py:515-521 | every counter is the number of dependency edges and every adjacency list holds each edge, both with multiplicity |
| SkillResolver.Release | python/dcc_mcp_core/_lite_fallback.py:526-529 | lowers each counter by the multiplicity of its edges and frees exactly the names that reach zero, once each |
| SkillResolver.EmitNext | python/dcc_mcp_core/_lite_fallback.py:523-530 | one turn of the queue keeps the loop invariant: counters are pending edges, the queue is sorted and holds exactly the available names |
| SkillResolver.PendingStep | python/dcc_mcp_core/_lite_fallback.py:526-529 | emitting a name lowers the pending edges of another by exactly its repeated edges |
| SkillResolver.QueueStep | python/dcc_mcp_core/_lite_fallback.py:526-530 | the freed names and the rest of the queue are exactly the names available after the emission |
| SkillResolver.GreedyIsLeast | python/dcc_mcp_core/_lite_fallback.py:522-530 | always taking the least available name gives the least of all topological orders |
| SkillResolver.StuckMeansCyclic | python/dcc_mcp_core/_lite_fallback.py:531-532 | when nothing is available and names are left, no topological order exists |
| SkillResolver.Finish | python/dcc_mcp_core/_lite_fallback.py:531-533 | the length test separates complete orders of distinct names from cyclic or repeated input |
| SkillResolver.OutcomeExactly | python/dcc_mcp_core/_lite_fallback.py:531-533 | with all dependencies present, success if and only if the names are distinct and an order exists |
| SkillResolver.RepeatedNameIsCircular | python/dcc_mcp_core/_lite_fallback.py:531-533 | two skills of one name without dependencies have a topological order and always end in the circular error |
| SkillResolver.ResolutionIgnoresInputOrder | python/dcc_mcp_core/_lite_fallback.py:522-533 | any permutation of the input gives the same result and the same kind of error |
| Text.LexExactly | python/dcc_mcp_core/_lite_fallback.py:522-530 | the order of the queue: one name is less than another if and only if it is a proper prefix or has the smaller character at the first difference |
| FramerSession.StepKeeps | examples/design-provider-bridge/framer_adapter.py:153-204 | every step of every caller and of any child keeps the lock, write and entry invariants |
| FramerSession.RunKeeps | examples/design-provider-bridge/framer_adapter.py:91-204 | every run keeps them |
| FramerSession.WritesAreUnique | examples/design-provider-bridge/framer_adapter.py:153-169 | over every run at most one request is outstanding and no call is written twice; no id either, ids being fresh |
| FramerSession.UsableOnce | examples/design-provider-bridge/framer_adapter.py:153-204 | over every run a session that stops being usable never is again and nothing more is written |
| FramerEnding.DeadRun | examples/design-provider-bridge/framer_adapter.py:153-250 | from a dead state on nothing is written and a waiting call never succeeds; in every run that has gone on as far as it can after the child exited, it has failed or was cancelled, and has failed with a closed session if nobody cancelled it |
| FramerEnding.CloseIsFinal | examples/design-provider-bridge/framer_adapter.py:223-230 | once a close issued after entry was decided has finished, the session is never usable and nothing is written; every waiting call has failed (or was cancelled) in every run that has gone on as far as it can after the child exited |
| FramerEnding.WaiterFails | examples/design-provider-bridge/framer_adapter.py:153-250 | from every dead state whose child has exited, each waiting call has a run without cancellation, timeout or new calls to its failure |
| FramerEnding.NoDeadlock | examples/design-provider-bridge/framer_adapter.py:156-250 | once the child has exited and no call can go on, every call is done |
| FramerEnding.OwnStepsBounded | examples/design-provider-bridge/framer_adapter.py:153-250 | in every run of every session a call takes at most five steps of its own, each bringing it nearer to its end |
| FramerEnding.EarlyCloseIsNotFinal | examples/design-provider-bridge/framer_adapter.py:91-125 | from every state in which entry can still succeed there is a run in which the close finishes and the session is usable |
| FramerEnding.CloseFinalExactly | examples/design-provider-bridge/framer_adapter.py:223-230 | a session outlives a close if and only if entry could still succeed when it was issued |
| FramerTraffic.HonestCloseFinalExactly | examples/design-provider-bridge/framer_adapter.py:91-125 | the same with a child that only answers in order: if and only if entry could still succeed |
| FramerSession.StepAdvances | examples/design-provider-bridge/framer_adapter.py:153-204 | no step takes a written request back, and a closed or dead session stays so and writes nothing |
| FramerTraffic.HonestStep | examples/design-provider-bridge/framer_adapter.py:166-195 | with an honest child every step keeps: a usable session with a free lock has nothing in flight, and an outstanding request is the only thing in flight |
| FramerTraffic.NoMismatch | examples/design-provider-bridge/framer_adapter.py:166-173 | for every interleaving with an honest child no call ever ends in a response-id mismatch |
| FramerNodeSession.Session.Enter | examples/design-provider-bridge/framer_adapter.py:91-96 | takes the protocol step and keeps validity: a second entry changes nothing, a first one without a project fails |
| FramerNodeSession.Session.ReadReady | examples/design-provider-bridge/framer_adapter.py:111-124 | only the ready line of the right protocol makes the session usable; any other line stops the child; the whole new state is given |
| FramerNodeSession.Session.Start | examples/design-provider-bridge/framer_adapter.py:153-156 | on a usable session the call waits; on another a close stops the child and any other call is done with session_closed; validity kept, nothing written |
| FramerNodeSession.Session.Acquire | examples/design-provider-bridge/framer_adapter.py:156-169 | a closed session and a payload that does not encode fail and free the lock, a failed write breaks the session, and else exactly one request is written under the lock; the whole new state is given |
| FramerNodeSession.Session.ReadReply | examples/design-provider-bridge/framer_adapter.py:139-204 | for every line that can be read: own id and invalid_arguments or tool_unavailable end the call with that code and leave the session usable if it was and the call is no close; a good result returns; any other code, a foreign id, no result, garbage and a wrong tool list leave it unusable, each with its literal code |
| FramerNodeSession.Session.Troubled | examples/design-provider-bridge/framer_adapter.py:176-195 | timeout, cancellation, end of stream and OS errors break the session, each with its literal outcome |
| FramerNodeSession.Session.CancelCall | examples/design-provider-bridge/framer_adapter.py:156-158 | cancelling a call that waits for the lock, or for the child to exit, ends it; a close still stops the child; validity kept |
| FramerNodeSession.Session.Follow | examples/design-provider-bridge/framer_adapter.py:91-250 | driven by any schedule, the object goes through a protocol run, stays valid, and with an honest child keeps its traffic in order |
| FramerTables.EntryTable | examples/design-provider-bridge/framer_adapter.py:91-125 | entry needs a first call, a project, a child and the ready line of the right protocol; every other answer stops the child |
| FramerTables.StartTable | examples/design-provider-bridge/framer_adapter.py:153-156 | what a call does before the lock, by kind and usability, with the whole new state |
| FramerTables.AcquireTable | examples/design-provider-bridge/framer_adapter.py:156-169 | what a call does with the lock: closed, not encodable, failed write, or one request written, with the whole new state |
| FramerTables.ReplyTable | examples/design-provider-bridge/framer_adapter.py:139-204 | what each line that can be read does: the outcome of the call and the literal error code, lock, usability and child |
| FramerTables.UsableAfterReply | examples/design-provider-bridge/framer_adapter.py:170-204 | after a reply the session is usable if and only if it was, the call is no close, and the line has the own id and carries either a result of the right shape or one of the two codes invalid_arguments and tool_unavailable |
| FramerTables.TroubleTable | examples/design-provider-bridge/framer_adapter.py:176-195 | timeout, cancellation, end of stream and OS error, each with its outcome; all break the session |
| FramerTables.StoppedTable | examples/design-provider-bridge/framer_adapter.py:176-250 | once the child has exited an error raised under the lock releases it and the call ends with its own outcome; a close goes on to its finally clause |
| FramerTables.CancelTable | examples/design-provider-bridge/framer_adapter.py:156-158 | a cancelled call leaves the queue or the wait for the child, and a cancelled close still stops the child |
| FramerNodeSession.Drive | examples/design-provider-bridge/framer_adapter.py:91-250 | any schedule on a new session: one outstanding request at most, no call written twice, and with an honest child no mismatch and nothing in flight when the lock is free |
| PointerBlock.UpsertPointer | scripts/generate_adapter_pointer.py:242-287 | the method computes the upsert specification, error cases included |
| PointerBlock.UpsertExactly | scripts/generate_adapter_pointer.py:242-287 | the four outcomes from the positions of the markers: no marker, one of them alone, no end behind the first start, or the text from the first start through the next end replaced |
| PointerBlock.NewlineExactly | scripts/generate_adapter_pointer.py:249-249 | the file is written with CRLF if and only if a CRLF stands somewhere in it |
| PointerBlock.FindInsertionIndex | scripts/generate_adapter_pointer.py:215-239 | the line after the first quickstart end, else the first line of two to six hashes and a space below the first title, else the end, told from characters |
| PointerBlock.IndexExactly | scripts/generate_adapter_pointer.py:215-239 | for every README: behind the first quickstart end; else, with t one past the first line starting with "# ", the first line from t on of two to six hashes and a space; else the end |
| PointerBlock.SectionExactly | scripts/generate_adapter_pointer.py:235-238 | a section heading is exactly a line that begins with two to six hashes and then a space |
| PointerBlock.InsertPointer | scripts/generate_adapter_pointer.py:262-287 | the popping loops compute the first insertion |
| Text.StripExactly | scripts/generate_adapter_pointer.py:223-223 | stripping a text leaves the one part of it without white space at either end that has only white space around it |
| PointerBlock.UpsertIsFramed | scripts/generate_adapter_pointer.py:242-287 | for a well-formed block the written file is a frame fixed by the README alone, filled with the block |
| PointerBlock.FrameFound | scripts/generate_adapter_pointer.py:252-257 | a filled frame is located again as the same frame, whatever the block |
| PointerBlock.NewlineKept | scripts/generate_adapter_pointer.py:249-250 | the written file keeps the newline convention |
| PointerBlock.Absorption | scripts/generate_adapter_pointer.py:242-287 | upserting b1 and then b2 is upserting b2 alone, for every README and every pair of well-formed blocks (b1 = b2: idempotence) |
| PointerBlock.FreshlyWrittenIsCurrent | scripts/check_adapter_pointer_drift.py:165-178 | the drift check calls a freshly written README current for its block, and for another block exactly when that block gives the same file |
| PointerBlock.DriftExactly | scripts/check_adapter_pointer_drift.py:165-178 | missing without a start marker, current if and only if writing the block again changes nothing, an error if and only if the markers are broken |
| PointerOnce.OnceExactly | scripts/generate_adapter_pointer.py:242-287 | the written file holds one start marker, and a second one if and only if the README had one behind its first block |
| PointerOnce.SecondBlockStays | scripts/generate_adapter_pointer.py:252-257 | a README made of one block twice is in the failing family |
| PointerOnce.CoverageMarkersAreSeparate | scripts/generate_adapter_pointer.py:49-50 | the generator's own markers meet the condition on markers: they differ, and their first character occurs nowhere else in them |
| PointerInsertion.InsertionFrame | scripts/generate_adapter_pointer.py:262-287 | in every README without markers, every line outside a white-space gap at the insertion index survives, in order, around the block; only the number of empty lines at the end may change, and it does not when the line breaks below the seam are the newline |
| PointerInsertion.BytesKeptExactly | scripts/generate_adapter_pointer.py:262-287 | the characters above and below the seam come back if and only if every line break in them is the newline of the file, for all the breaks `splitlines` knows |
| PointerInsertion.UniformKept | scripts/generate_adapter_pointer.py:242-287 | a README in one convention keeps all characters outside the gap, and the written file is in that convention |
| PointerInsertion.MixedBreaksRewritten | scripts/generate_adapter_pointer.py:249-281 | the file "a", line feed, "b", CRLF is rewritten above the block |
| PointerInsertion.TrailingRestored | scripts/generate_adapter_pointer.py:281-287 | the newline run at the end of the written file is the one the README had, or exactly one newline if it had none |
| PointerInsertion.QuickstartStaysWhole | scripts/generate_adapter_pointer.py:215-239 | in every README everything up to and including the quickstart end stays, line by line, directly above the seam |
| PointerInsertion.SectionFollowsBlock | scripts/generate_adapter_pointer.py:215-287 | in every README without quickstart and with a section heading, that heading is the first line below the block in the written file, after one blank line |
| TextLines.SplitConcat | scripts/generate_adapter_pointer.py:262-262 | splitting into lines distributes over a cut behind a whole line break |
| TextLines.RejoinsExactly | scripts/generate_adapter_pointer.py:262-281 | a text survives being split and joined with a newline if and only if every line break in it is that newline |
| TextLines.ReplacedLines | scripts/generate_adapter_pointer.py:249-250 | replacing line feeds by the newline keeps the lines of the block |
| TextLines.BreaksAre | scripts/generate_adapter_pointer.py:262-262 | the ten characters at which lines break |
| MarkdownStructure.CheckStructure | scripts/docs_lint.py:458-556 | all findings, in order, are the declarative ones, which `MarkdownFindings.FindingsExactly` tells from the lines |
| MarkdownStructure.TextFindingsByLines | scripts/docs_lint.py:538-555 | the newline finding means an open last line, the tab finding a tab in some line |
| MarkdownStructure.HeadingExactly | scripts/docs_lint.py:86-86 | a line is a heading of level n with a title if and only if it is n hashes (one to six), white space, the title without white space at either end, and then only white space |
| MarkdownStructure.FenceExactly | scripts/docs_lint.py:104-127 | which lines open a fence and which close it, from the indentation, the exact run of backticks or tildes, the info string, and the fence that is open |
| MarkdownStructure.WalkLines | scripts/docs_lint.py:463-513 | after the walk the stack is the ancestor chain, the key table holds the first line of every key, and the findings are those of the headings |
| MarkdownStructure.NoteHeading | scripts/docs_lint.py:486-513 | one heading keeps stack and table and is reported exactly as declared |
| MarkdownStructure.PoppedIsAncestors | scripts/docs_lint.py:486-488 | popping to a smaller level leaves exactly the earlier headings whose level is below every later one |
| MarkdownStructure.DuplicateExactly | scripts/docs_lint.py:488-499 | a duplicate is reported if and only if an earlier heading has the same level, slug and ancestor slugs; the report names the first such heading |
| MarkdownStructure.CheckAnchors | scripts/docs_lint.py:559-583 | the second walk reads every line as the first did and reports exactly the unknown anchors |
| MarkdownFindings.OpenExactly | scripts/docs_lint.py:104-127 | a fence is open after the last line if and only if some line opened it outside every fence and no later one closes it |
| MarkdownFindings.HeadingsExactly | scripts/docs_lint.py:470-485 | the headings that are seen are exactly the heading lines outside fences, with their line numbers |
| MarkdownFindings.AnchorsExactly | scripts/docs_lint.py:559-583 | an anchor is reported if and only if it stands on a line outside fences, the file has a heading, and no heading has its slug |
| MarkdownFindings.FindingsExactly | scripts/docs_lint.py:458-583 | for every file and every finding: it is reported if and only if the lines call for it (a repeated sibling and its first line, a level jump, a second H1, an unclosed fence, an unknown anchor) |
| MarkdownHiding.FenceHides | scripts/docs_lint.py:104-127 | wrapping lines in a fence none of them closes hides them: the report is that of the file without them, with later lines renumbered |
| MarkdownHiding.HiddenLines | scripts/docs_lint.py:472-475 | hidden lines anywhere in a file add no finding and change none but its line number |
| MarkdownHiding.EveryTextCanBeHidden | scripts/docs_lint.py:104-127 | for every text there is a fence that hides it |
| MarkdownHiding.DocumentStack | scripts/docs_lint.py:463-513 | a document that starts at H1 and gets no level-jump finding leaves a stack of levels 1 to L |
| MarkdownHiding.JumpsAreReported | scripts/docs_lint.py:503-513 | no level jump is reported if and only if no heading is more than one level deeper than the one before |
| MarkdownHiding.StackIsEveryLevel | scripts/docs_lint.py:486-513 | jump-free headings starting at H1 have an ancestor chain of levels 1 to L |
| PrEquivalence.FindEquivalentPr | scripts/_pr_helpers.py:325-395 | the first carrier with the title, else the first carrier, else an error if a candidate is unresolved, else none |
| PrEquivalence.CarriesExactly | scripts/_pr_helpers.py:296-313 | a pull request carries the change if and only if its file list is that one file, at the path, with the known blob; no carrier lists a second file |
| PrEquivalence.AnswerExactly | scripts/_pr_helpers.py:325-395 | what the answer means, from file lists and titles: the first titled carrier, else the first carrier, an error only if some candidate cannot be told, none only if no pull request carries the change |
| PrEquivalence.AnswerIsUnique | scripts/_pr_helpers.py:325-395 | the declared answer is unique |
| PrEquivalence.OnlyContentMatters | scripts/_pr_helpers.py:325-395 | head, owner, author, number and URL do not change the answer |
| PrEquivalence.ResolvePrBlobs | scripts/_pr_helpers.py:256-283 | fails exactly when a needed lookup fails; else keeps order and length and fills exactly the rows without a known blob |
| PrEquivalence.LookupExactly | scripts/_pr_helpers.py:256-293 | a numbered row is looked up if and only if its list shows no blob for the first file at the path |
| PrEquivalence.FindEquivalent | scripts/regenerate_adapter_pointers.py:180-197 | resolve then find: the declared answer on the resolved rows, or an error exactly when a lookup failed |
| PointerRegeneration.Remote.Push | scripts/regenerate_adapter_pointers.py:418-491 | the branch is replaced only while it holds the expected value; a rejected push leaves the remote as it is |
| PointerRegeneration.CommitAndPush | scripts/regenerate_adapter_pointers.py:433-491 | every push is leased on a value this run has read, with other writers acting in between |
| PointerRegeneration.Authorise | scripts/_pr_helpers.py:112-134 | no write happens before a confirmed grant |
| PointerRegeneration.RefreshOrOpen | scripts/regenerate_adapter_pointers.py:326-361 | a pull request is opened only after the push, a lookup without an own pull request and a second empty search; an own one is refreshed instead |
| PointerRegeneration.ShaExactly | scripts/regenerate_adapter_pointers.py:175-177 | a blob is accepted if and only if it is 40 or 64 lower-case hexadecimal digits |
| PointerRegeneration.RegenerateRepository | scripts/regenerate_adapter_pointers.py:233-378 | on every path, with any answers and any other writers: a write means a run that needs a pull request (a changed file, no dry run) and a valid blob, and comes after search and grant; a rejected push ends in an incomplete error row; every run that needs none has exactly the row its input gives, a failed clean-up turning it into an error; undisturbed, the effect on the remote is bounded as `QuietRun` says; when nothing fails either, row and remote are exactly those of `SmoothRun` |
| PointerRegeneration.AtMostOneOwnPr | scripts/regenerate_adapter_pointers.py:381-391 | over every sequence of runs, with any catalog change, stale answers of the files endpoint, and anything happening to the remote in between except new pull requests from the generated head, there is at most one open one |
| PointerRegeneration.RerunIsDuplicate | scripts/regenerate_adapter_pointers.py:291-311 | once published and not withdrawn, every rerun with the same generated file and current answers performs no remote write and is a duplicate unless a command fails |
| PointerRegeneration.RegenerateAgain | scripts/regenerate_adapter_pointers.py:233-378 | any list of jobs run one after the other, the remote changing in between, is such a sequence and keeps the bound |
| PointerRegeneration.Remote.Search | scripts/regenerate_adapter_pointers.py:180-197 | list, look up what needs it, compare: undisturbed and with current answers, the declared answer on what the endpoints show |
| DeadlineBudget.Budget.CommandTimeout | scripts/_adapter_pointer_budget.py:46-54 | a grant never passes its cap or the remaining budget and is as large as both allow; none exactly when the deadline is over |
| DeadlineBudget.Budget.RunCommand | scripts/_adapter_pointer_budget.py:46-54 | each command ends within every deadline open around it; once the deadline is over it raises and nothing starts; else it takes the lesser of need and grant and raises exactly if it needs more |
| DeadlineBudget.Budget.Run | scripts/_adapter_pointer_budget.py:29-54 | for every well-nested program: each command ends within every deadline open around it, leaving a scope, also by an exception, caught or not, restores the outer deadline, and a program that catches nothing and does not raise has run all its commands |
| DeadlineBudget.VisitEntry | scripts/check_adapter_pointer_drift.py:243-264 | an entry reached after the deadline is not scanned, at no cost and without a command; any other runs its check, and the row says whether it raised |
| DeadlineBudget.ExhaustedRaises | scripts/_adapter_pointer_budget.py:29-54 | once the deadline is over, a program that catches nothing and has a command raises |
| DeadlineBudget.Scan | scripts/check_adapter_pointer_drift.py:229-265 | one row per selected entry in order; an entry is not scanned exactly if the deadline is over when it is reached, and else its check runs from then to the next entry; not-scanned rows form a suffix, and all commands respect the open deadlines |
| SidecarReadiness.QueryRuntimeState | python/dcc_mcp_core/_install_lifecycle_runtime.py:63-95 | keeps, in order, exactly the normalised rows of the wanted type, role and install root, the dead ones only on request, and counts the live and the dead |
| SidecarReadiness.RuntimeExactly | python/dcc_mcp_core/_install_lifecycle_runtime.py:63-86 | which rows a runtime query keeps, from the raw row: type, role ("runtime" where none is named), an install root above or below the wanted one, and liveness |
| SidecarReadiness.NormalisedFields | python/dcc_mcp_core/_install_lifecycle_runtime.py:98-135 | the fields the rules read, from the raw row: empty texts are none, the dispatch status is stripped and folded |
| SidecarReadiness.FilterEntries | python/dcc_mcp_core/_install_lifecycle_readiness.py:410-425 | keeps, in order, exactly the entries that pass both selectors |
| SidecarReadiness.MatchExactly | python/dcc_mcp_core/_install_lifecycle_readiness.py:410-425 | which rows match, from the raw row: a sidecar of the type, not known dead unless wanted, whose instance id begins with the stripped selector and whose host RPC address is it |
| SidecarReadiness.UsableExactly | python/dcc_mcp_core/_install_lifecycle_runtime.py:98-124 | which rows are usable, from the raw row: the status is "ready" once stripped and folded, there is a URL or a positive port, and it is not known dead |
| SidecarReadiness.ProbeTable | python/dcc_mcp_core/_install_lifecycle_readiness.py:221-340 | when a probe fails and how, from the tool, the URL and the answer |
| SidecarReadiness.SidecarReadinessStatus | python/dcc_mcp_core/_install_lifecycle_readiness.py:25-155 | the two filtering loops followed by the verdict give the specified verdict on the registry |
| SidecarReadiness.VerdictByRows | python/dcc_mcp_core/_install_lifecycle_readiness.py:54-155 | for every registry the verdict is declared by its rows: missing, ambiguous, the first usable row and its probe, the first unavailable one, the first live one, or dead |
| SidecarReadiness.AmbiguousExactly | python/dcc_mcp_core/_install_lifecycle_readiness.py:428-443 | ambiguous if and only if a selector is given and two matching rows are not known dead |
| SidecarReadiness.SuccessExactly | python/dcc_mcp_core/_install_lifecycle_readiness.py:54-110 | success if and only if some row is the first usable match, nothing is ambiguous and the probe accepts it; the verdict names that row |
| SidecarReadiness.SuccessNamesUsable | python/dcc_mcp_core/_install_lifecycle_runtime.py:98-124 | the named row passes all filters, reported ready, has a URL, is not known dead and under a selector is the only live match |
| SidecarReadiness.BeforeSeparator | python/dcc_mcp_core/_install_lifecycle_readiness.py:355-359 | the text before the first "://", absent exactly when there is none |
| SidecarReadiness.SchemeExactly | python/dcc_mcp_core/_install_lifecycle_readiness.py:355-359 | the scheme of an address is the folded text before the first "://" once stripped, none exactly when there is no such place |
| SidecarReadiness.RetryableExactly | python/dcc_mcp_core/_install_lifecycle_readiness.py:342-352 | an unavailable entry is worth waiting for if and only if it failed at host-rpc-connect and its scheme, or else that of its address, or else that of the selector is one of the four that start late |
| SidecarReadiness.WaitForSidecarReady | python/dcc_mcp_core/_install_lifecycle_readiness.py:158-218 | returns the first decisive observation, else a timeout at the first check past the deadline, after at most ceil(timeout/poll)+1 observations |
| SidecarReadiness.TimeoutExactly | python/dcc_mcp_core/_install_lifecycle_readiness.py:182-218 | a wait ends with its decisive observation, or past the deadline with status "timeout", no success and the entry last looked at |
| SidecarReadiness.EndIsUnique | python/dcc_mcp_core/_install_lifecycle_readiness.py:182-207 | a wait can end in one way only |
| SidecarReadiness.WaitSucceedsExactly | python/dcc_mcp_core/_install_lifecycle_readiness.py:182-207 | a wait succeeds if and only if its last observation selects a row, which it names; no earlier observation did |
| SidecarReadiness.ReportedStatusIsCopied | python/dcc_mcp_core/_install_lifecycle_readiness.py:130-144 | in any registry with nothing ambiguous, usable or unavailable, the first live match passes its reported status on verbatim |
| SidecarReadiness.TextExactly | python/dcc_mcp_core/_install_lifecycle_readiness.py:54-155 | every text of a failed verdict is the fixed text of the registry's kind (missing, ambiguous, unavailable, booting, dead), the status of the reported row, or one of the six probe failures, and exactly that |
| SidecarReadiness.AmbiguousTextExactly | python/dcc_mcp_core/_install_lifecycle_readiness.py:65-144 | the text "ambiguous" appears if and only if two live matches meet a selector or the reported row says it; it is true exactly when that row does not say it |
| SidecarReadiness.ReadyTextExactly | python/dcc_mcp_core/_install_lifecycle_readiness.py:78-144 | the text "ready" agrees with the flag exactly when the reported row does not say it |
| SidecarReadiness.UnavailableTextExactly | python/dcc_mcp_core/_install_lifecycle_readiness.py:112-128 | the text "unavailable" appears if and only if nothing is ambiguous or usable and a match is unavailable |
| SidecarReadiness.DecisiveExactly | python/dcc_mcp_core/_install_lifecycle_readiness.py:182-190 | an observation ends a wait if and only if it selects a row, is ambiguous, is called so by its reported row, or is unavailable for good |
| SidecarReadiness.WaitMisledExactly | python/dcc_mcp_core/_install_lifecycle_readiness.py:182-207 | a wait ends called ambiguous without ambiguity if and only if the reported row of its last observation says so |
| SidecarReadiness.StatusTextMisleads | python/dcc_mcp_core/_install_lifecycle_readiness.py:130-144 | one live row reporting "ambiguous", alone or before a row that reports nothing, is called ambiguous and is not |
| SidecarReadiness.ReadyTextMisleads | python/dcc_mcp_core/_install_lifecycle_readiness.py:130-144 | a live row reporting "ready" without URL and port is called ready and is not |
| SidecarReadiness.ProbeSaysNone | python/dcc_mcp_core/_install_lifecycle_readiness.py:221-340 | no failure of the probe, whatever comes back, reads like "ready", "ambiguous" or "unavailable" |
| JsonSubset.MatchesReflexive | scripts/vrs_replay.py:48-58 | every value matches inside itself |
| JsonSubset.MatchesTransitive | scripts/vrs_replay.py:48-58 | matching is transitive |
| JsonSubset.MatchesAntisymmetric | scripts/vrs_replay.py:48-58 | values that match inside each other are equal as Python compares them |
| JsonSubset.MatchGrows | scripts/vrs_replay.py:48-58 | a match survives adding a key to an object or an item to the end of a list |
| JsonSubset.MatchNeedsAll | scripts/vrs_replay.py:48-58 | a missing key, a longer list, or one part that does not match rules out a match |
| JsonSubset.LeafMatches | scripts/vrs_replay.py:58-58 | when leaves match, with true as 1 and false as 0 |
| JsonSubset.GetByPointer | scripts/vrs_replay.py:31-45 | the loop computes the recursive lookup, with its null and error cases |
| JsonSubset.PartsExactly | scripts/vrs_replay.py:31-36 | joining the parts of a pointer with "/" gives back the pointer without the slashes around it; the empty pointer and "/" have none |
| JsonSubset.ResolveConcat | scripts/vrs_replay.py:36-45 | looking up a longer pointer is looking up its rest in what its front gives, an error ending the lookup |
| JsonSubset.OnePart | scripts/vrs_replay.py:36-45 | one part in an object, a list and a leaf: the field or null, the item from the front or the end or an error, null |
| JsonSubset.LookupMonotone | scripts/vrs_replay.py:31-45 | without a negative index, a non-null lookup in the smaller value succeeds in the larger one, with a value it matches inside |
| JsonSubset.NegativeIndexBreaks | scripts/vrs_replay.py:39-44 | every pointer with a negative index anywhere has a pair of values for which that fails |
| JsonSubset.MonotoneExactly | scripts/vrs_replay.py:31-45 | lookup respects the subset order if and only if the pointer has no negative index |

## Left out

- Git, `gh`, HTTP, subprocesses, the file system, PID and lock probing appear only as answers that may be anything the operation allows.
- `src/*.rs`, `admin-ui`, the build scripts and the launcher modules hold glue, user interface or results settled by one branch.
- Text patterns that the rules only pass through are parameters: heading slugs, the anchor pattern, case folding, integer parsing and URL formatting.
- SkillResolver.ResolveDependenciesOrdered: leaves out the texts of the two errors.
- SkillResolver.ResolutionIgnoresInputOrder: which missing dependency is reported depends on the input order, as it does in the source.
- FramerTraffic.NoMismatch: an honest child also never sends "response_id_mismatch" as its own error code, since the session passes the child's codes on.
- FramerSession.WritesAreUnique: request ids are taken to be fresh, as random UUIDs are meant to be.
- FramerSession: the lock may go to any waiting call, not only the first; timeouts may fire at any await; the kill after two seconds is the child exiting at any time, so the results that a call ends ask for an exited child; payload contents and the 8 MiB limit are one flag.
- FramerNodeSession: each method is the stretch between two awaits, since Dafny methods cannot be suspended.
- PointerBlock.Absorption: the rendered prose is any well-formed block; `render_pointer`, its wrapping and its banned terms are not modelled.
- PointerInsertion.UniformKept: asks for a block whose only line breaks are line feeds, which the renderer's blocks are.
- MarkdownHiding.FenceHides: is about heading, fence and anchor findings; a tab inside a fence is still reported, as it is in the source. An unclosed fence before the wrapped lines is excluded, because the opener would then close or extend it.
- Link, symbol, emoji and playbook rules of the documentation linter.
- PointerRegeneration.RerunIsDuplicate: holds for reruns whose answers from the files endpoint are current; while the endpoint shows an older blob, a rerun pushes again, which the source accepts.
- PointerRegeneration.AtMostOneOwnPr: runs do not overlap and nobody else writes during a run; with other writers during a run only the promises of `RunPromise` are made.
- PointerRegeneration.RegenerateRepository: the exact row and remote are given for runs that need no pull request and for undisturbed runs in which no operation fails; a failing operation leaves what `RunPromise` and `QuietRun` say.
- PointerRegeneration: pull request bodies, URLs, row details, branch names and fork selection; `branch_slug` is not claimed to give valid git references.
- DeadlineBudget.Budget.Run: time is a real number and a command never outlives its timeout.
- SidecarReadiness.QueryRuntimeState: registry values are text or absent, paths are compared by a given order, and fields the readiness rules never read are left out.
- SidecarReadiness.WaitForSidecarReady: each sleep takes at least the poll interval, and arithmetic is on reals; `elapsed_secs` and messages are left out.
- JsonSubset.MatchesReflexive: numbers are reals, so NaN, which equals nothing, is not a value of the model.
- Capture substitution and expectation checks of the trace replayer.
