# Verified models of the Vesper agent host

This project models the self-contained algorithms and protocols of the repository and proves what
they promise. Each `.dfy` file holds one module; `Common.dfy` holds what several of them share.
`dafny verify dfyconfig.toml` checks everything.

| file | what it is about | main results |
|---|---|---|
| `Calendar.dfy` | the closed-form date routine behind printed timestamps | the chained floor divisions equal a naive day-by-day Gregorian calendar; a stamp is the one text whose fields state its instant; stamps order as text exactly as instants do, exactly up to the end of the year 9999 |
| `SseFramer.dfy` | the streaming reader of a local chat server | however the stream is cut into chunks, the reader emits what splitting the whole text would; which decoded field of a frame gives which event; every response is one start, deltas, one terminal event |
| `Canonical.dfy` | the encounter-order canonicaliser for captured JSON | among trees with invented names at the same places, equal normal forms exactly for those that differ by one bijective renaming of each sort; idempotence; dense numbering |
| `Wilson.dfy` | the Wilson score interval over exact reals | the interval is the exact inverse of the score test; clamps never act; mirror symmetry; strict growth |
| `TurnRegistry.dfy` | per-session cancellation lists of concurrent turns | after every interleaving the lists hold exactly the turns in flight, and a token is cancelled exactly when a cancel reached its turn |
| `SwarmAdmission.dfy` | admission of swarm runs, with a drop guard and a detached task | at most one run across sessions; an admitted run is never refused by the service; a run is told to stop exactly when the trace says so |
| `ToolProgress.dfy` | pairing of tool start and finish events | finishes pair as nested brackets; no double finish exactly when no tool name is a decimal numeral |
| `ReleaseCursor.dfy` | the milestone cursor of the release wait | what each poll delivers, read off the snapshots alone; strict increase within one epoch; over windows of a bounded ledger, a repeat exactly when an epoch comes back with a milestone it showed before |
| `ProviderControls.dfy` | provider selections and switches over one envelope | a frame law for every step; exactly what every control shows after a selection; restoration of what was chosen after any detour |
| `FeatureGate.dfy` | reachability over Cargo features | the worklist returns exactly the reachable features; acceptance is a statement about paths |
| `WordBoundary.dfy` | word-bounded search that skips overlaps | it equals the naive definition on every line exactly for needles without a splitting self-overlap |
| `NamingBaseline.dfy` | the counted naming ratchet | the rejected keys are exactly a multiset difference |
| `ReleaseGate.dfy` | release evidence from paged listings | a stable listing is complete exactly up to 3200 rows; the gate opens exactly on completed, successful latest runs, member by member, for every server |
| `PeImports.dfy` | the bounded PE import parser | the parser reads exactly the files the format describes, byte by byte, and returns exactly the described names; laws of rebasing |
| `ActivityProjection.dfy` | the tool log projected into blocks | what the view shows, read off the characters of the log; one header per unfolded start; at most one running, the last; output lines are conserved |
| `Recall.dfy`, `MemoryTransfer.dfy` | two memory stores | merged top-k is the top-k of both; no text is lost by a transfer, whatever fails |

Where the source changes state, the model does too: classes with fields for the registries, the
progress port, the session, the swarm host, the name tables and the memory stores, and loops with
invariants for the scans. Each of these is proved equal to a function, and the results are about
that function.

## Behaviour worth knowing

Some expected properties do not hold of the code. The model keeps the code as it is, and states the
exact condition under which the property holds.

- Stamps stop ordering as text at the year 10000 (`TextOrderIff`).
- `[DONE]` ends the stream only when no earlier line of its frame carries a delta; otherwise it is
  ignored (`FrameCompletesIff`, `DoneMarkerMasked`). The response is the text cut at the first frame
  with a marker exactly when no marker is masked before completion (`CutAtDoneIff`).
- Trees with an identifier where another has an invented name such as `$UUID1` can normalise alike
  without being renamings; agreement on the places of such names is exactly what is missing
  (`NormalizeIsCanonical`), and every tree with an identifier has such a partner
  (`NormalFormCollidesIff`).
- A tool whose name is a decimal numeral can finish a call it did not start (`FinishesOnceIff`).
- The milestone cursor remembers one epoch, so an epoch that comes back after another one showed
  milestones is delivered again, as far as its window still holds what it showed before
  (`ExactlyOnceIff`).
- The ledger keeps 32 milestones. One that was drained before any poll showed it is never delivered
  (`DeliveredIffShown`); nor is one that shows up only after its epoch has passed its number
  (`EverythingSeenIff`).
- A switch to `xai` or `lmstudio` acts with the default model while the envelope keeps the earlier
  choice (`SwitchModelAgreesIff`). The comment at `apps/agent-vesper-acp/src/controls.rs:903-910`
  speaks of the discovered or pinned model; the model here follows the code.
- While `xai` acts, two selections are not shown as chosen (`SelectionShownIff`): an effort that the
  model does not have is replaced by the model's default, and the region is hidden as soon as the
  envelope holds an endpoint plan of `zai`, which the shared control reads first.
- A model picked while `zai` acts is routed under the identity the session was created with
  (`ZaiPickRoutesIff`).
- The word search misses a word when the needle overlaps itself after a character that is not
  alphanumeric (`ScanExactIff`); the guard's own needles never do (`WordNeedleExact`).
- Page counts never reveal a row put in front while pages are left to read (`ShiftIsAccepted`). The
  second listing is paged the same way: it makes the gate refuse a newer run exactly when that run
  was there before its first page was read (`NewerRunRefusesIff`).
- A transfer can remove the source record without reporting a move, exactly when the verified
  deletion took effect and then failed (`ChangesIff`), and it can leave a copy behind
  (`CopyLeftIff`).

## Model

| member | source | states |
|---|---|---|
| Calendar.IntermediatesInRange | apps/agent-vesper-acp/src/lib.rs:2650-2653 | year of era stays in 0..399, day of year within its March-based year, month in 0..11 |
| Calendar.DayNumberOfCivil | apps/agent-vesper-acp/src/lib.rs:2643-2656 | for every day count of either sign the result is a valid Gregorian date, and January-based day counting maps it back |
| Calendar.CivilOfDayNumber | apps/agent-vesper-acp/src/lib.rs:2635-2656 | the routine is the inverse of days-from-civil on every valid date |
| Calendar.CivilStep | apps/agent-vesper-acp/src/lib.rs:2643-2656 | consecutive day counts give calendar successors, leap days and century rules included |
| Calendar.CivilIsDayByDay | apps/agent-vesper-acp/src/lib.rs:2643-2656 | the closed form equals stepping one day at a time from 1970-01-01 |
| Calendar.StampOrder | apps/agent-vesper-acp/src/lib.rs:2638-2658 | printed stamps are ordered and equal as text exactly as the instants, while years have four digits |
| Calendar.StampStatesIff | apps/agent-vesper-acp/src/lib.rs:2638-2658 | a text is the stamp of an instant if and only if its dashes, letters and colons stand in their places and the decimal values between them are a valid date and time of that instant; it has 20 characters exactly below the year 10000 |
| Calendar.TextOrderIff | apps/agent-vesper-acp/src/lib.rs:2657 | text order is sound for all instants below a bound if and only if the bound is at most the start of year 10000 |
| SseFramer.ParseSseChunk | apps/agent-vesper-acp/src/lmstudio_provider.rs:369-419 | the scan with early returns yields an event if and only if the first line that says anything says that event, in terms of the decoded fields |
| SseFramer.FrameIff | apps/agent-vesper-acp/src/lmstudio_provider.rs:369-419 | for every frame and every decoder: a reasoning delta exactly for a non-empty `reasoning_content`, or `reasoning` where that is absent, a content delta exactly for a non-empty `content` otherwise, completion for the done marker, from the first line that says any of these |
| SseFramer.OneLineFrame | apps/agent-vesper-acp/src/lmstudio_provider.rs:388-416 | a frame of one data line sends exactly what the decoded fields of that line say |
| SseFramer.FirstEventIff | apps/agent-vesper-acp/src/lmstudio_provider.rs:369-419 | a frame's event is that of its first line that carries one, and only that |
| SseFramer.SplitIsLeftmost | apps/agent-vesper-acp/src/lmstudio_provider.rs:331-333 | cutting at blank lines gives the only framing whose cuts are all leftmost and whose tail holds none |
| SseFramer.SplitAppend | apps/agent-vesper-acp/src/lmstudio_provider.rs:326-342 | text that arrives later never changes a frame already cut |
| SseFramer.DrainFrames | apps/agent-vesper-acp/src/lmstudio_provider.rs:331-342 | the inner loop sends the events of all complete frames in order, stops at a completion, and leaves exactly the unfinished tail |
| SseFramer.ReadStream | apps/agent-vesper-acp/src/lmstudio_provider.rs:318-353 | for every stream, every chunking and every read failure, the channel gets what one pass over the whole text gives |
| SseFramer.ResponseShape | apps/agent-vesper-acp/src/lmstudio_provider.rs:318-353 | every response is one start, then deltas only, then exactly one terminal event |
| SseFramer.UnterminatedFrameDropped | apps/agent-vesper-acp/src/lmstudio_provider.rs:331-353 | text after the last blank line changes nothing that is emitted |
| SseFramer.FrameCompletesIff | apps/agent-vesper-acp/src/lmstudio_provider.rs:369-378 | a frame ends the response if and only if its first line that carries an event is the done marker |
| SseFramer.DoneMarkerMasked | apps/agent-vesper-acp/src/lmstudio_provider.rs:369-419 | a done marker behind a delta line of the same frame is ignored |
| SseFramer.CutAtDoneIff | apps/agent-vesper-acp/src/lmstudio_provider.rs:331-353 | for every text the response is the reading cut at the first frame that holds a done marker if and only if no marker is masked before completion |
| Canonical.NormalizeIsCanonical | tools/python-oracle/oracle.py:142-163 | for all trees: a bijective renaming of UUIDs and one of PIDs maps one to the other if and only if they have the same normal form and invented names at the same places |
| Canonical.NormalFormCollidesIff | tools/python-oracle/oracle.py:148-152 | every tree shares its normal form with that normal form, and is a renaming of it if and only if it holds no identifier |
| Canonical.NumbersGrow | tools/python-oracle/oracle.py:150-151 | in every tree the numbers given to identifiers appear in traversal order, each new one the next, and are exactly 1..k |
| Canonical.OnlyIdentifiersChange | tools/python-oracle/oracle.py:148-161 | every identifier becomes a name of its own sort, and everything else stays in its place |
| Canonical.NormalizeIdempotent | tools/python-oracle/oracle.py:142-163 | normalising twice is normalising once, for every tree |
| Canonical.PassesFuse | tools/python-oracle/oracle.py:148-152 | the two substitution passes over a string, with their maps, are one walk over its tokens |
| Canonical.NameTable.SetDefault | tools/python-oracle/oracle.py:150-151 | the mutable map answers the number of first encounter and grows by at most the new identifier |
| Canonical.Normalizer.NormalizeTree | tools/python-oracle/oracle.py:154-161 | the walk that threads the mutable maps computes the reference walk and its final maps |
| Canonical.NormalizeValue | tools/python-oracle/oracle.py:142-163 | with fresh maps the walk returns the normal form |
| Wilson.IntervalInvertsScoreTest | docs/foundation/skill-routing-model-live-summary.py:61-65 | a rate lies between the bounds if and only if the squared score statistic at that rate is within z squared |
| Wilson.IntervalInCounts | docs/foundation/skill-routing-model-live-summary.py:61-65 | a rate lies between the bounds if and only if the squared distance of the successes from their expected number is at most z squared times their variance |
| Wilson.IntervalInUnit | docs/foundation/skill-routing-model-live-summary.py:61-67 | 0 <= low <= k/n <= high <= 1 before any clamp |
| Wilson.ClampsNeverAct | docs/foundation/skill-routing-model-live-summary.py:57-67 | clamping a report's ends to [0, 1] never changes them, at the program's z or any other positive one |
| Wilson.ProportionIsInterval | docs/foundation/skill-routing-model-live-summary.py:57-67 | for every n and k <= n, at the program's z or any other positive one, the report is empty for n = 0, and otherwise the rate with the unclamped bounds |
| Wilson.Mirror | docs/foundation/skill-routing-model-live-summary.py:61-65 | counting failures instead of successes mirrors the interval |
| Wilson.MoreSuccessesRaiseBoth | docs/foundation/skill-routing-model-live-summary.py:61-65 | one more success strictly raises both bounds |
| TurnRegistry.EveryRunExact | apps/agent-vesper-acp/src/lib.rs:306-312 | after every interleaving each list is exactly the session's turns in flight, without repeats, and the cancelled tokens are exactly those a cancel or shutdown reached between begin and end |
| TurnRegistry.FinishRemovesOwnToken | apps/agent-vesper-acp/src/lib.rs:1286-1291 | ending a turn removes its token from every list and no other token from any |
| TurnRegistry.CancelledWereOwned | apps/agent-vesper-acp/src/lib.rs:2481-2487 | only tokens of turns that began are ever cancelled |
| TurnRegistry.Registry.BeginTurn | apps/agent-vesper-acp/src/lib.rs:1271-1277 | a fresh, uncancelled token is pushed on its session's list; the other lists and all flags stay |
| TurnRegistry.Registry.FinishTurn | apps/agent-vesper-acp/src/lib.rs:1286-1291 | retaining by identity is the finish step |
| TurnRegistry.Registry.CancelTurns | apps/agent-vesper-acp/src/lib.rs:2472-2489 | every token of the session and no other is flagged; the answer is whether there was one |
| TurnRegistry.Registry.ShutdownAll | apps/agent-vesper-acp/src/lib.rs:2451-2457 | every registered token is flagged and no other |
| SwarmAdmission.EveryRunInv | apps/agent-vesper-acp/src/swarm_host.rs:134-150 | in every reachable state at most one run holds a guard and at most one task lives, and they are consistent |
| SwarmAdmission.EveryRunTrace | apps/agent-vesper-acp/src/swarm_host.rs:134-150 | the state says exactly which runs were admitted, started, ended and released |
| SwarmAdmission.EveryRunCancels | apps/agent-vesper-acp/src/swarm_host.rs:28-50 | a run has been told to stop if and only if its guard was dropped, or its session was cancelled or the host shut down while the guard was held |
| SwarmAdmission.RunsExcludeEachOther | apps/agent-vesper-acp/src/swarm_host.rs:134-150 | when a run is admitted, every earlier one has released its guard and its task has ended |
| SwarmAdmission.AdmittedRunStarts | crates/vesper-harness/src/swarm_service.rs:190-202 | the service's own busy check never refuses an admitted run |
| SwarmAdmission.OrphanTaskIsCancelled | apps/agent-vesper-acp/src/swarm_host.rs:42-50 | a task that outlives its guard has been told to stop and blocks admission until it ends |
| SwarmAdmission.ReleaseFrees | apps/agent-vesper-acp/src/swarm_host.rs:42-50 | dropping a guard frees admission if and only if the run's task is not alive |
| SwarmAdmission.SwarmHost.TryAdmit | apps/agent-vesper-acp/src/swarm_host.rs:134-150 | admission succeeds exactly when nothing is active and the service is idle, and is then the admit step |
| SwarmAdmission.SwarmHost.DropGuard | apps/agent-vesper-acp/src/swarm_host.rs:42-50 | the drop is the release step: the flag is cancelled and the session's entry goes |
| SwarmAdmission.SwarmHost.CancelSession | apps/agent-vesper-acp/src/swarm_host.rs:28-35 | the session's run, if any, is flagged and no other, and the answer says whether there was one |
| ToolProgress.FinishPairsWithItsStart | apps/agent-vesper-acp/src/lib.rs:2345-2407 | over every event sequence a finish carries the id of the start it closes in the bracket reading, or the fallback id when it closes none |
| ToolProgress.MatchIsTop | apps/agent-vesper-acp/src/lib.rs:2329-2333 | the start a finish closes is the most recent open one of its name, and unique |
| ToolProgress.StackIsOpen | apps/agent-vesper-acp/src/lib.rs:2337-2338 | the outstanding ids of a name are exactly those of its open starts, most recent last |
| ToolProgress.StartedIdsDistinct | apps/agent-vesper-acp/src/lib.rs:2345-2407 | no two starts share an id |
| ToolProgress.StartIdIs | apps/agent-vesper-acp/src/lib.rs:2345-2407 | the id of a start is "acp-tool-" and the decimal numeral of how many starts came before it in the turn |
| ToolProgress.FinishesOnceIff | apps/agent-vesper-acp/src/lib.rs:2345-2407 | over all sequences on a set of tool names, no started id finishes twice if and only if no name is a decimal numeral |
| ToolProgress.ProgressPort.Emit | apps/agent-vesper-acp/src/lib.rs:2345-2447 | the counter and the outstanding lists follow the reference state, and the sink gets the reference messages, none for the beginning of a turn |
| ReleaseCursor.OneEpochStrictlyIncreases | apps/agent-vesper-acp/src/lib.rs:1411-1479 | deliveries of one epoch strictly increase, even across empty snapshots of other epochs, whatever the snapshots hold |
| ReleaseCursor.FreshIff | apps/agent-vesper-acp/src/lib.rs:1411-1479 | over any sorted snapshots a poll delivers a milestone if and only if its number is above all that its epoch showed since it last took over |
| ReleaseCursor.EverythingSeenIff | apps/agent-vesper-acp/src/lib.rs:1411-1479 | over any sorted snapshots everything a poll shows is delivered by its end if and only if a number the epoch has passed only belongs to milestones seen before |
| ReleaseCursor.Ledger.NoteProgressMilestone | crates/vesper-harness/src/release_recovery.rs:1253-1269 | the ledger appends the next number and keeps exactly the last 32 of its whole history |
| ReleaseCursor.LedgerSlides | crates/vesper-harness/src/release_recovery.rs:1251-1269 | polls that read the ledgers in order see sliding windows, however much was drained between them |
| ReleaseCursor.DeliveredIffShown | apps/agent-vesper-acp/src/lib.rs:1411-1479 | over sliding windows a milestone is delivered by some poll if and only if a poll so far has shown it |
| ReleaseCursor.ExactlyOnceIff | apps/agent-vesper-acp/src/lib.rs:1411-1479 | over sliding windows a milestone is delivered twice if and only if an epoch comes back after another one showed milestones, with one it showed before still in its window |
| ReleaseCursor.CursorIsLastShown | apps/agent-vesper-acp/src/lib.rs:1411-1479 | over sliding windows the cursor is the last milestone of the last snapshot that had any |
| ReleaseCursor.DeliverSnapshot | apps/agent-vesper-acp/src/lib.rs:1466-1479 | the loop over one snapshot delivers the reference milestones and moves the cursor |
| ReleaseCursor.AwaitReleaseDelivery | apps/agent-vesper-acp/src/lib.rs:1398-1485 | over any run of polls the wait sends exactly the reference deliveries up to the poll that ends it, with that poll's outcome |
| ReleaseCursor.WaitGoes | apps/agent-vesper-acp/src/lib.rs:1398-1485 | the wait ends with the first poll that ends it, with that outcome and its literal text, and has looked at exactly the snapshots shown until then |
| ProviderControls.StepFrame | apps/agent-vesper-acp/src/controls.rs:704-836 | a selection writes only keys of the acting provider, a switch only keys of its target, besides the active-provider key |
| ProviderControls.ActingStable | apps/agent-vesper-acp/src/controls.rs:355-358 | nothing but a switch changes the acting provider |
| ProviderControls.DetourKeeps | apps/agent-vesper-acp/src/controls.rs:704-836 | while other providers act, nothing stored for p changes |
| ProviderControls.SwitchActs | apps/agent-vesper-acp/src/controls.rs:911-1025 | after a switch the target acts and the session model is one of its own |
| ProviderControls.SwitchCarries | apps/agent-vesper-acp/src/controls.rs:911-1025 | a switch keeps every preserved setting that is present |
| ProviderControls.SwitchStores | apps/agent-vesper-acp/src/controls.rs:911-1025 | after a switch each setting of the target is as stored if it is one of those to keep or has no default, and else the default |
| ProviderControls.DetourRoundTrip | apps/agent-vesper-acp/src/controls.rs:911-1025 | after a detour of any length, switching back finds each preserved setting as it was left, and p acts |
| ProviderControls.DetourReachesTurn | apps/agent-vesper-acp/src/lib.rs:437-455 | the next turn is dispatched to p with those settings, over any engine defaults |
| ProviderControls.SelectionReads | apps/agent-vesper-acp/src/controls.rs:704-836 | an accepted selection stores the chosen value under the setting of its own option and changes no other setting, but for the effort or mixture mode that the choice brings with it |
| ProviderControls.SelectionShownIff | apps/agent-vesper-acp/src/controls.rs:671-702 | after an accepted selection its control shows the value chosen if and only if xAI's model has that effort and no endpoint plan of `zai` shadows xAI's region |
| ProviderControls.OthersShownAsBefore | apps/agent-vesper-acp/src/controls.rs:671-702 | every control that is not linked to the chosen one shows what it did |
| ProviderControls.LinkedShown | apps/agent-vesper-acp/src/controls.rs:840-858 | what the linked controls show: the effort after a model choice, the mixture mode after a model choice of `zai`, and the mixture in place of the model |
| ProviderControls.ModelFollows | apps/agent-vesper-acp/src/controls.rs:704-836 | a chosen model is the one the session acts with |
| ProviderControls.ChoiceSurvivesDetourIff | apps/agent-vesper-acp/src/controls.rs:911-1025 | after any detour through other providers and a switch back, the control of a choice made before shows the value chosen if and only if xAI's model has that effort and no endpoint plan of `zai` shadows xAI's region by then |
| ProviderControls.SwitchModelAgreesIff | apps/agent-vesper-acp/src/controls.rs:911-1025 | session model and envelope agree after a switch if and only if the target is openai or zai, or the earlier choice was the default |
| ProviderControls.ZaiPickRoutesIff | apps/agent-vesper-acp/src/controls.rs:316-326 | a zai pick is routed to the acting provider if and only if the session was created on zai |
| ProviderControls.IdentityFixed | crates/vesper-runtime/src/supervisor.rs:1617-1637 | no run of steps changes the provider identity of the envelope |
| ProviderControls.SessionActor.SetConfigOption | crates/vesper-runtime/src/supervisor.rs:1181-1219 | the actor's fields follow the step function that the results above are about; a rejected option changes nothing |
| FeatureGate.Closure | xtask/src/swarm_gate.rs:4-16 | the worklist ends on every graph, cyclic ones included, with exactly the features some path reaches |
| FeatureGate.Validate | xtask/src/swarm_gate.rs:18-56 | the verdict is the first violated condition in source order, and acceptance is opt-in in terms of the names in the manifest |
| FeatureGate.AcceptedIff | xtask/src/swarm_gate.rs:18-56 | accepted if and only if no path leads from default to swarm or an activator, every guarded dependency is optional, and a path leads from swarm to each activator |
| FeatureGate.OptInIff | xtask/src/swarm_gate.rs:4-56 | the conditions on reachable features are those on paths between the literal names |
| WordBoundary.ContainsWordBounded | xtask/src/main.rs:1368-1387 | the loop with the moving offset computes the reference scan |
| WordBoundary.ScanIsSound | xtask/src/main.rs:1365-1387 | for every nonempty needle, a reported match is a flanked occurrence |
| WordBoundary.ScanExactIff | xtask/src/main.rs:1365-1387 | the scan equals the naive definition on every line if and only if the needle has no splitting self-overlap |
| WordBoundary.WordNeedleExact | xtask/src/main.rs:1227-1274 | for needles of letters and digits the scan equals the naive definition |
| WordBoundary.FoundIffAlone | xtask/src/main.rs:1365-1387 | a needle of ASCII letters and digits is found if and only if some occurrence has no ASCII letter or digit on either side |
| NamingBaseline.Parse | xtask/src/naming_baseline.rs:24-51 | succeeds if and only if the version is 1 and every entry is well formed, positive and distinct; the map then lists exactly the entries |
| NamingBaseline.PathIff | xtask/src/naming_baseline.rs:32-37 | a path is well formed if and only if it is one or more plain names joined by slashes |
| NamingBaseline.DigestIff | xtask/src/naming_baseline.rs:38-42 | a digest is well formed if and only if it has 64 characters, all of them lower-case hexadecimal digits |
| NamingBaseline.Encode | xtask/src/naming_baseline.rs:52-73 | succeeds if and only if every key is well formed; the document lists each pair of path and digest with how often the scan has it, and no other, in the order of paths and then digests |
| NamingBaseline.EncodingStable | xtask/src/naming_baseline.rs:52-73 | two encodings are equal if and only if they encode the same multiset |
| NamingBaseline.ParseOfEncoding | xtask/src/naming_baseline.rs:24-73 | parsing an encoding recovers the multiset of keys |
| NamingBaseline.Filter | xtask/src/naming_baseline.rs:74-89 | the decrementing filter keeps exactly the hits that exceed their allowance counted from the start |
| NamingBaseline.BeyondIsSubsequence | xtask/src/naming_baseline.rs:74-89 | rejected hits come in scan order, lines included |
| NamingBaseline.BeyondIsDifference | xtask/src/naming_baseline.rs:74-89 | the rejected keys are the multiset difference of the scan and the allowance |
| NamingBaseline.Ratchet | xtask/src/naming_baseline.rs:52-89 | against a baseline frozen from earlier hits nothing is rejected if and only if no pair of path and digest occurs more often than it did |
| ReleaseGate.Inventory | scripts/release_gate.py:36-49 | for every server, rows are returned exactly when some page up to 32 is the first to complete its own total |
| ReleaseGate.StableInventoryIff | scripts/release_gate.py:36-49 | a stable listing is returned whole and in order if and only if it has at most 3200 rows, and no other rows are |
| ReleaseGate.ShiftIsAccepted | scripts/release_gate.py:36-49 | for a row put in front after any number of pages: exactly which rows are returned, and that they are if and only if they are at most 3200; the row at the page break comes twice, the new one only if it came before page 1 |
| ReleaseGate.PickGreatest | scripts/release_gate.py:66 | picks the first of the runs that no run exceeds in (id, attempt) |
| ReleaseGate.VerifyWorkflow | scripts/release_gate.py:56-87 | for every server, admits exactly the latest matching run that succeeded, whose jobs all did, that re-reads unchanged and that no later listing overtakes |
| ReleaseGate.AdmissibleOnce | scripts/release_gate.py:56-87 | at most one run is admissible |
| ReleaseGate.Verify | scripts/release_gate.py:52-88 | the gate opens exactly for a full SHA whose four workflows each have a released run, completed with success as are all of its jobs, and names those runs |
| ReleaseGate.ReleasedIff | scripts/release_gate.py:52-88 | a run is admissible if and only if the answers say so in their own members: the latest listed push on the main branch for the commit, status and conclusion, every job's, the re-read, and the second listing |
| ReleaseGate.QuietReleasedIff | scripts/release_gate.py:52-88 | on a server where nothing changes there is an admissible run if and only if at most 3200 runs are listed and the latest matching one is completed with success, as are its 1 to 3200 jobs |
| ReleaseGate.AdmissibleIff | scripts/release_gate.py:52-88 | when only the two listings may differ, a run is admissible if and only if both fit, it is the latest green run of the first, and no matching row of the second overtakes it |
| ReleaseGate.QuietAdmissibleIff | scripts/release_gate.py:52-88 | on a server where nothing changes, the re-reads never refuse: only bounds, latest success and jobs decide |
| ReleaseGate.NewerRunRefusesIff | scripts/release_gate.py:79-86 | a newer matching run put in front makes the gate refuse if and only if it came before page 1 of the second listing |
| PeImports.ReadSections | scripts/windows_package_audit.py:39-45 | succeeds exactly when every row of the section table is in the file and backed by its bytes |
| PeImports.HeaderIff | scripts/windows_package_audit.py:15-38 | a header is read if and only if the bytes at the offsets of the format spell it |
| PeImports.Offset | scripts/windows_package_audit.py:47-53 | answers the reference mapping, and refuses exactly the addresses that have none |
| PeImports.MapsInside | scripts/windows_package_audit.py:47-53 | every address that maps, computed ones included, is not negative and lands inside the file |
| PeImports.ReadName | scripts/windows_package_audit.py:55-63 | returns exactly the NUL-terminated DLL name, or refuses when there is none |
| PeImports.ReadTable | scripts/windows_package_audit.py:66-85 | one table is accepted exactly when it is absent or ends in an all-zero row within its size after valid descriptors, and adds exactly their names |
| PeImports.ListsOnce | scripts/windows_package_audit.py:15-88 | a file has at most one reading |
| PeImports.ListsIff | scripts/windows_package_audit.py:15-88 | the reading of a file is the one that the format gives its bytes: magic numbers, header fields, section rows, table rows and names, each at its offset |
| PeImports.ImportRowIff | scripts/windows_package_audit.py:66-85 | an import row describes the name at its fourth field |
| PeImports.DelayRowIff | scripts/windows_package_audit.py:78-85 | a delay row describes the name at its second field if its attributes are 1, and at that field less the image base if they are 0, and else none |
| PeImports.RebasingKeepsNames | scripts/windows_package_audit.py:79-81 | changing the image base changes no import, and no delay import when all delay rows have attributes 1 |
| PeImports.RaisingKeepsNames | scripts/windows_package_audit.py:79-81 | a delay table with attributes 0 and addresses raised by the image base lists the names of its attributes-1 form |
| PeImports.PeImports | scripts/windows_package_audit.py:15-88 | accepts exactly the files that read and name something; the answer is the set of names of both tables, once each, in caseless order |
| PeImports.AppendedDataIsIgnored | scripts/windows_package_audit.py:15-88 | bytes appended after the headers' extent do not change the reading |
| PeImports.Audit | scripts/windows_package_audit.py:91-100 | a bundle passes if and only if every executable reads and names no C runtime DLL in either table |
| PeImports.RuntimeDllIff | scripts/windows_package_audit.py:91-100 | the refused DLLs are exactly the C runtime's, in upper or lower case |
| ActivityProjection.Project | apps/agent-vesper-tui/src/activity.rs:11-99 | the loop from block to block computes the view in which each unfolded start owns the entries up to the next one |
| ActivityProjection.ViewShows | apps/agent-vesper-tui/src/activity.rs:11-99 | what the view shows, read off the characters of the log: where calls begin and end, their names, titles and details, whether their first answer is crossed, its lines up to 2 or 80, and the links |
| ActivityProjection.ReadFoldsPair | apps/agent-vesper-tui/src/activity.rs:45-50 | a folded marker always follows a head: folding never chains |
| ActivityProjection.HeadersExact | apps/agent-vesper-tui/src/activity.rs:11-99 | the view has exactly one header per unfolded start, in order, folded or expanded |
| ActivityProjection.RunningIsLast | apps/agent-vesper-tui/src/activity.rs:58-63 | at most one header is running, only the last, and only during a turn |
| ActivityProjection.LinesConserved | apps/agent-vesper-tui/src/activity.rs:65-86 | shown plus hidden output lines equal all output lines in both views |
| ActivityProjection.LaterStartSettles | apps/agent-vesper-tui/src/activity.rs:44-64 | appending a start that is not a repeat keeps every header, except that a running one becomes interrupted, and adds one |
| Recall.SortDescending | apps/agent-vesper-acp/src/cognition.rs:1348 | the result is the one stable descending order of the hits |
| Recall.MergedIsBest | apps/agent-vesper-acp/src/cognition.rs:1315-1349 | sorting and cutting the best k of two pools gives a best k of both pools together |
| Recall.BestScoresAgree | apps/agent-vesper-acp/src/cognition.rs:1348-1349 | any two descending best-k answers show the same scores, place by place |
| Recall.RecallHits | apps/agent-vesper-acp/src/cognition.rs:1315-1349 | the hits shown are the cut of the stably sorted answers of the stores in scope |
| Recall.RecallIsBest | apps/agent-vesper-acp/src/cognition.rs:1073-1093 | a store that is absent, failing or out of scope adds nothing, and the rest is still best |
| Recall.TiesFavourProject | apps/agent-vesper-acp/src/cognition.rs:1092 | among equal scores the project store's hits come first, in its order |
| MemoryTransfer.ResolvesIff | apps/agent-vesper-acp/src/cognition.rs:1024-1043 | a lookup finds a record if and only if its identifier is given in full or by a prefix of its own |
| MemoryTransfer.ResolvesNothingIff | apps/agent-vesper-acp/src/cognition.rs:1024-1043 | a lookup finds nothing if and only if none of the first 10000 records begins as given |
| MemoryTransfer.NothingLost | apps/agent-vesper-acp/src/cognition.rs:1408-1466 | whatever fails, at every intermediate state every text that was in a store is in one still |
| MemoryTransfer.OnlyTheRecordMoves | apps/agent-vesper-acp/src/cognition.rs:1408-1466 | no other record of either store changes at any state |
| MemoryTransfer.MovedIff | apps/agent-vesper-acp/src/cognition.rs:1441-1448 | a move is reported if and only if the record resolves, every operation works and the copy is within the listing; then the source lost that record and the reported copy holds its text |
| MemoryTransfer.OutcomeIff | apps/agent-vesper-acp/src/cognition.rs:1408-1466 | for every call, which outcome is reported: the first step that failed, with the identifiers of the record and of a listed copy of its text |
| MemoryTransfer.ChangesIff | apps/agent-vesper-acp/src/cognition.rs:1441-1464 | for every call, on its inputs: exactly when the destination changes, when the source does, and when the source changes without a move being reported |
| MemoryTransfer.CopyLeftIff | apps/agent-vesper-acp/src/cognition.rs:1441-1464 | for every call, on its inputs: exactly when a copy stays in the destination while the source is untouched |
| MemoryTransfer.MovingBackRestores | apps/agent-vesper-acp/src/cognition.rs:1408-1466 | a reported move and a reported move back leave both stores with the same texts, equally often |
| MemoryTransfer.Transfer | apps/agent-vesper-acp/src/cognition.rs:1408-1466 | the operation on the two stores goes through exactly the states of the reference course |

## Left out

- HTTP, SQLite, embeddings, credentials, processes and terminal drawing: their answers are parameters, and any answer is allowed.
- JSON text, regular expressions, SHA-256: decoded values, tokenised strings and plain digests take their place.
- SseFramer.ReadStream: chunks are character sequences, because lossy UTF-8 decoding at chunk edges can garble a character that a chunk boundary cuts.
- Canonical.NormalizeIsCanonical: workspace and temporary path replacement happens before tokenisation, and object keys are kept.
- Wilson.IntervalInUnit: floating-point rounding is not modelled; the square root is any exact non-negative one. Latency quantiles, scoring and the counters of the same script are left out as easy members.
- TurnRegistry.EveryRunExact: each access under the registry lock is one step; what a turn does in between is left out.
- SwarmAdmission.EveryRunInv: the body of a swarm run, its settings and its reporting are left out; only starting, ending, cancelling and dropping matter.
- ToolProgress.ProgressPort.Emit: notes, previews and plan updates of the messages are left out; they touch neither the counter nor the outstanding ids.
- ReleaseCursor.AwaitReleaseDelivery: the observation of the release ledger is a parameter of each poll, and the one-second sleep is left out.
- ReleaseCursor.LedgerSlides: when the durable ledger cannot be read, or is of another epoch, the host shows the live worker's older copy (`crates/vesper-harness/src/release_executor.rs:3796-3811`), which is sorted but may lie behind what was shown; `FreshIff` and `EverythingSeenIff` cover such polls, the sliding-window results do not. The number of a milestone is not bounded by 64 bits.
- ProviderControls.StepFrame: the size limits of the envelope's value map, slash-command overrides and the filtering of controls a surface does not show are not modelled; provider catalogs are parameters with stated assumptions.
- ProviderControls.SelectionShownIff: the reasoning override a session can carry besides its envelope, and the filtering of the controls that an account without an API key is offered, are not modelled; the envelope alone decides what is shown.
- FeatureGate.Validate: the messages of the verdicts, and the metadata reading in front of it.
- WordBoundary.WordNeedleExact: the hex table of needles is not decoded here; that every needle is alphanumeric is its premise.
- ReleaseGate.VerifyWorkflow: rows are records; rows of another JSON type, which stop the script with a type error, and numbers that are neither integers nor null are not told apart further. Deadlines count as failed requests.
- PeImports.PeImports: the texts of the refusals; every refusal is the same to the caller.
- ActivityProjection.Project: items are typed, so how they are written into prefixed lines, and log entries that imitate such lines, are left out; so is the drawing of the lines.
- Recall.RecallIsBest: ranking inside a store is a premise; scores are exact numbers, so the order of NaN is left out, as are the thresholds.
- MemoryTransfer.Transfer: records carry their identifier and text only, because the copy carries nothing else; the identifier argument is already trimmed; the two stores are different objects.
- `docs/foundation/vro15-audit-probes.rs`, the fixed acceptance lists and the stage coverage generators: finite constants, or checks of code outside these files.
