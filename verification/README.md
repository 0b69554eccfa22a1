# Verified model of the TalkFlow control plane

This project models the parts of the TalkFlow backend that carry state or graph reasoning, and
proves what they promise over every input and every run.

- **Scripts as graphs** (`ScriptGraph`, `GraphValidator`, `ScriptSimulator`, `ScriptCompiler` and
  their theorem modules).  The validator checks structure, walks the graph breadth first and
  enumerates all simple paths to decide whether a disclaimer precedes every benefits prompt.  The
  proofs show that the simple paths decide the question for walks of any length, that a verdict
  without errors is exactly well-formedness, that a graph accepted with the disclaimer rule enforced
  cannot be simulated into a benefits prompt without a disclaimer, and that compiling a list of
  questions and simulating the result is going through the answers in order.  `VerdictTheorems` says
  of each error when it is reported, `SimulatorCoverage` gives the exact relation between the walks
  the validator follows and those a simulation can take.
- **Call ingest** (`CallPolicies`, `CallIngest`, `CallIngestTheorems`, `CallCommutation`,
  `CallAgreement`, `CallIsolation`, `CallHistory`, `PolicyTheorems`).  Five topics are delivered at least once, in any order.  A
  message is one transaction over the call tables and the outbox.  The proofs give the invariants of
  every run, that redeliveries inserted anywhere change nothing, which messages of a call commute,
  when calls affect each other, and that the tables of a call are its message history.
- **Refresh tokens** (`RefreshTokens`, `RefreshTokenTheorems`, `SessionLiveness`,
  `RedemptionTheorems`).  Login, rotation with reuse detection as in section 4.14.2 of RFC 9700,
  logout and revocation by session; the proofs say exactly when a secret can be redeemed.
- **Script lifecycle** (`ScriptLifecycle`, `LifecycleTheorems`, `LifecycleEffects`).  Versions are
  objects that move from draft to archive; the proofs cover one active version, numbering,
  signatures, freezing, and that a version says what its last accepted write asked for.
- **Lead import and dialer runs** (`LeadImport`, `LeadCommit`, `LeadTheorems`, `ImportTheorems`,
  `CommitTheorems`, `TextTheorems`, `HopperIngest`, `HopperTheorems`, `HopperEffects`).  A file is mapped, classified and committed in chunks; the batch is then
  handed to the dialer five hundred leads at a time.
- **Outbox and rollup** (`OutboxDispatch`, `Rollup`, `RollupTheorems`, `RollupChanges`).  A first-in
  first-out dispatcher that a failing row blocks, and daily aggregates that are upserted window by
  window, over a calls table that grows and changes.

`Transitions` holds the laws of runs that the protocols share: what every step keeps holds
throughout, and repetitions of absorbed messages do nothing.  `Prelude` and `Text` hold options,
sequences and the string operations.

Each operation of the program is a method with the program's loops and assignments, proved equal to
a function on values; the laws are lemmas about those functions.  Tables are sequences and maps held
in fields; script versions are objects.  Clocks, generated identifiers, the answers of Kafka and of
the dialer, and whether a token's owner may log in are inputs.  Identifiers are strings, and an
absent or empty one is the empty string where the program only asks whether it is truthy.

## Where the code differs from what is written about it

The model follows the code.  Each difference has a lemma that says exactly when the promise holds,
or what the code does instead.

- `apps/backend/app/modules/leads/repository.py:156-160` says an update writes only the fields the
  mapping produced.  The commit passes every contact column and the custom fields, and absent ones
  are written as NULL, and the custom fields are replaced as a whole.
  `LeadTheorems.UpdateOverwrites` gives the condition for a whole commit.  A lead can lose its
  address (`LeadTheorems.UpdateLosesColumn`) or one custom field
  (`LeadTheorems.UpdateLosesCustomField`), and a later row of a file can undo what an earlier one
  wrote (`LeadTheorems.LaterRowLosesColumn`).
- `apps/backend/app/modules/leads/service.py:243-247` looks the file's phones up through the target
  of the source column named "phone", so the duplicate and suppression sets are complete only for
  some mappings: `LeadTheorems.DuplicateCheckExact`.
- `apps/backend/app/modules/leads/service.py:352-355` and `repository.py:251-254` say that starting
  a run again continues with the leads the dialer has not accepted.  Blocked leads keep their places
  at the head, so five hundred of them stop the batch for good (`HopperTheorems.ProgressExact`) and
  keep every lead behind them from the dialer (`HopperTheorems.SubmittableExactly`).  A lead the
  dialer accepted without naming an id is offered again (`HopperTheorems.OfferedAgain`).
- `apps/backend/workers/rollup_worker.py:3-6` says that re-running a pass or backfilling a whole day
  leaves the aggregates unchanged.  Re-running does (`RollupTheorems.RunTwice`).  A window that
  starts within a day replaces the day's row by its own counts: `RollupTheorems.SplitIsExact` gives
  the condition for two windows, `RollupTheorems.ChainIsExact` for any number.  A backfill after
  such runs corrects the row, so it changes nothing only under the condition of
  `RollupTheorems.BackfillAfterChain` for one row, `RollupTheorems.BackfillChangesNothing` for all.
- A call that arrives or changes after its window was folded is missing from the aggregates, or
  counted as it was: `RollupChanges.ArrivalsExact` and `RollupChanges.ChangedCallExact`.  A backfill
  makes the day exact unless a group has lost all its calls, whose row stays
  (`RollupChanges.BackfillRepairs`, `RollupChanges.MovedCallLeavesRow`).
- The duplicate check of an import is made when the file is mapped and not repeated by the commit.
  `LeadTheorems.AddedInBetween` says which leads added in between break the uniqueness of phones.
- `apps/backend/app/modules/calls/service.py:373-375` says that the funnel and the call record can
  never disagree.  They do after an operator's second disposition, which can keep the first one's
  reason, and after a field captured later that does not bear the disposition out
  (`CallAgreement.BearsOut`): `CallAgreement.AgreementExactly` gives the condition over runs,
  `CallAgreement.AgreementCanFail` both runs.
- A captured field that arrives after the call has closed still changes its qualification, so a
  `closed` and a field message commute only under the condition of `CallCommutation.ClosedAndField`.
- `apps/backend/workers/call_ingest_worker.py:200-206` says a failed batch is redelivered.  A batch
  polled again goes on where it stopped unless it opened a call without a channel before; then the
  redelivered open fails, and the batch stays there: `CallCommutation.RetriedBatchResumes` and
  `CallCommutation.RetriedBatchCanStick`.
- Creating a version does not validate its graph.  `LifecycleTheorems.SoundExactly` says which runs
  keep every version well formed, `LifecycleTheorems.EmptyGraphCanBeActive` shows one that does not.
- No operation of `apps/backend/app/modules/scripts/service.py` enforces the disclaimer rule: lines
  352 and 631 validate without a profile.  Nor could a stored script break it.  The request type of a
  node (`apps/backend/app/modules/scripts/schemas.py:24-37`) has no field for the marks the rule
  reads, and refuses others (`apps/backend/app/packages/contracts/base.py:25-30`), so in stored
  scripts the rule has nothing to decide: `LifecycleTheorems.RuleNeverDecides`.  The laws about
  benefits and disclaimers concern the validator and the simulator on graphs that do carry marks,
  as `LifecycleTheorems.CleanExactly` does; `LifecycleTheorems.MarkedAndSpoken` is such a graph.
- `apps/backend/app/modules/auth/service.py:417-433` announces a revoked session when it detects a
  reuse, and revokes the token family but not the session row.
  `SessionLiveness.LiveSessionExactly` says which live sessions have a token left.
- The validator follows `nextNodeId` on every transition; a simulation follows those that do not end
  the call and that no earlier condition shadows.  `SimulatorCoverage.SpokenExactly` and
  `SimulatorCoverage.VisitedExactly` give the exact relation, `SimulatorCoverage.ReportedNeverSpoken`
  and `SimulatorCoverage.ClosingNeverVisited` the gap.
- The transfer node of a compiled graph has no next node, so a simulation that reaches it reports
  `qualified_transferred` but not `completed`: `CompilerTheorems.CompiledSimulation`.

## Model

| member | source | states |
|---|---|---|
| ScriptGraph.ByIdKeys | apps/backend/app/modules/scripts/policies.py:59-71 | the index has exactly the non-empty ids of the nodes, each mapped to a node of that id |
| ScriptGraph.LastOfIdWins | apps/backend/app/modules/scripts/policies.py:59-71 | under each id the index has the last node of that id |
| GraphValidator.IndexNodes | apps/backend/app/modules/scripts/policies.py:59-71 | the loop builds the index in which the last node of an id wins, and reports every position without an id |
| GraphValidator.CheckTransitions | apps/backend/app/modules/scripts/policies.py:83-108 | the nested loop reports exactly the dangling targets of call-continuing transitions and the non-terminal nodes without transitions, in order |
| GraphValidator.ReachableIds | apps/backend/app/modules/scripts/policies.py:110-124 | the breadth-first search terminates with exactly the nodes that some walk from the entry reaches |
| GraphValidator.CheckReachability | apps/backend/app/modules/scripts/policies.py:126-135 | reports exactly the nodes whose id is not in the reachable set |
| GraphValidator.PathSearch.Dfs | apps/backend/app/modules/scripts/policies.py:152-171 | the backtracking search terminates, restores the visited set and the current path, and appends exactly the paths of the recursive definition |
| GraphValidator.ScanPath | apps/backend/app/modules/scripts/policies.py:176-190 | the scan of one path stops at its first benefits node before any disclaimer |
| GraphValidator.ScanPaths | apps/backend/app/modules/scripts/policies.py:176-190 | the loop over the recorded paths reports the first offence of each, in order |
| GraphValidator.CheckCompliance | apps/backend/app/modules/scripts/policies.py:147-190 | search and scans together report one error for each path that has an offence |
| GraphValidator.ValidateGraph | apps/backend/app/modules/scripts/policies.py:36-192 | the whole validator returns the errors of its five checks in order, an empty graph's alone |
| GraphTheorems.IdVerdict | apps/backend/app/modules/scripts/policies.py:59-71 | no id error if and only if every node has an id |
| GraphTheorems.TransitionVerdict | apps/backend/app/modules/scripts/policies.py:83-108 | no transition error if and only if nothing dangles and no non-terminal node lacks transitions |
| GraphTheorems.ReachabilityVerdict | apps/backend/app/modules/scripts/policies.py:110-135 | no reachability error if and only if a walk from the entry reaches every node |
| GraphTheorems.StructuralVerdict | apps/backend/app/modules/scripts/policies.py:51-135 | without a profile there is no error if and only if the graph is well formed |
| GraphTheorems.ScanMeaning | apps/backend/app/modules/scripts/policies.py:176-190 | a path is reported for b exactly when b is its first benefits node and no disclaimer stands at or before it |
| GraphTheorems.PathsAreWalks | apps/backend/app/modules/scripts/policies.py:149-174 | every path the search records is a walk of the graph that extends the path it was called with |
| GraphTheorems.SimpleWalksCovered | apps/backend/app/modules/scripts/policies.py:149-174 | every walk without repetitions is a prefix of a recorded path |
| GraphTheorems.CutCycles | apps/backend/app/modules/scripts/policies.py:164-170 | an offending walk with cycles can be cut to one without, which is why visited nodes need not be followed |
| GraphTheorems.PathsDecide | apps/backend/app/modules/scripts/policies.py:147-190 | the scan over the recorded paths reports b if and only if some walk of any length offends at b |
| GraphTheorems.ComplianceVerdict | apps/backend/app/modules/scripts/policies.py:36-192 | the validator reports BENEFITS_BEFORE_DISCLAIMER for b, for any node list and entry, if and only if some walk offends at b |
| GraphTheorems.EnforcedVerdict | apps/backend/app/modules/scripts/policies.py:36-192 | with the rule enforced there is no error if and only if the graph is well formed and no walk offends |
| VerdictTheorems.ErrorsExactly | apps/backend/app/modules/scripts/policies.py:36-192 | for each of the seven kinds of error, it is reported if and only if the graph deserves it: a target is dangling if no node has that id and a transition to it does not end the call, a dead end is a node without transitions that is not terminal, and so on |
| VerdictTheorems.EndingRemovesDangling | apps/backend/app/modules/scripts/policies.py:83-100 | letting every transition with a missing target end the call removes exactly the dangling errors and adds none |
| ScriptSimulator.Taken | apps/backend/app/modules/scripts/service.py:1036-1056 | the transition taken is one that matches, and there is none only if none matches |
| ScriptSimulator.FirstMatch | apps/backend/app/modules/scripts/service.py:1036-1056 | the loop over the transitions stops at the first match |
| SimulatorTheorems.MatchesExactly | apps/backend/app/modules/scripts/service.py:1036-1046 | which responses meet each of the five conditions, and that no other condition is ever met |
| SimulatorTheorems.LastInputWins | apps/backend/app/modules/scripts/service.py:1012-1016 | the input for a node is the last one given for it |
| ScriptSimulator.Simulate | apps/backend/app/modules/scripts/service.py:1012-1089 | the input-map walk terminates on every graph and returns the interpretation of the graph |
| SimulatorTheorems.WalkFinishes | apps/backend/app/modules/scripts/service.py:1018-1074 | from any point under way the walk ends with a repetition-free trail of taken transitions, and stops only where the call ends, nothing leads on, the graph ends or a node repeats |
| SimulatorTheorems.EverySimulation | apps/backend/app/modules/scripts/service.py:1012-1089 | every simulation of every node list: prompts, reported steps, captured fields and disposition are those of the nodes visited, it is qualified exactly when transferred as such, `completed` means the call was ended or the walk left the graph, and no walk is longer than the graph |
| SimulatorTheorems.AcceptedStopsInside | apps/backend/app/modules/scripts/service.py:1047-1056 | on a well-formed graph the transition taken never leads outside |
| SimulatorTheorems.WellFormedSimulation | apps/backend/app/modules/scripts/service.py:1012-1089 | on a well-formed graph every simulation follows edges, repeats no node, and is completed exactly when its last transition ends the call |
| SimulatorTheorems.AcceptedSimulation | apps/backend/app/modules/scripts/service.py:1012-1089 | on a graph accepted under the enforced rule, for all inputs: graph edges only, no node twice, `completed` exactly when the last transition ends the call, no benefits prompt without a disclaimer at or before it |
| SimulatorCoverage.PromptTakes | apps/backend/app/modules/scripts/service.py:1036-1056 | a transition whose condition can be met and that no earlier one shadows is taken on some input for its node |
| SimulatorCoverage.TakenIsTakeable | apps/backend/app/modules/scripts/service.py:1036-1056 | whatever the input, the transition taken is such a one |
| SimulatorCoverage.SomeInputsVisit | apps/backend/app/modules/scripts/service.py:1012-1074 | for every repetition-free walk of takeable edges from the entry there are inputs whose simulation visits it all |
| SimulatorCoverage.VisitedExactly | apps/backend/app/modules/scripts/service.py:1012-1074 | some inputs make the simulation visit a node if and only if a walk of takeable edges leads to it |
| SimulatorCoverage.SpokenExactly | apps/backend/app/modules/scripts/service.py:1012-1074 | some inputs make the simulation speak benefits node b before any disclaimer if and only if an offending walk of takeable edges leads to b |
| SimulatorCoverage.ClosingNeverVisited | apps/backend/app/modules/scripts/service.py:160-180 | the closing node of every compiled graph is reachable for the validator and visited by no simulation |
| SimulatorCoverage.ReportedNeverSpoken | apps/backend/app/modules/scripts/policies.py:147-190 | a graph for which the validator reports an offence that no simulation speaks |
| ScriptCompiler.NodesFromSimpleText | apps/backend/app/modules/scripts/service.py:45-182 | the loop emits greeting, consent, numbered questions, transfer and closing with their transitions |
| ScriptCompiler.AppendQuestions | apps/backend/app/modules/scripts/service.py:107-133 | the loop appends one numbered question node for each question, in order |
| ScriptCompiler.ExtractProjections | apps/backend/app/modules/scripts/service.py:185-216 | the loop reads back the first non-empty text of each kind and all questions in order |
| CompilerTheorems.ProjectionsExactly | apps/backend/app/modules/scripts/service.py:185-216 | the projections of any graph: for each kind of text the first one that is not empty, and the prompts of all questions in order |
| CompilerTheorems.CompiledTexts | apps/backend/app/modules/scripts/service.py:45-182 | absent and empty texts and an absent question list are replaced by their defaults, an empty list is not |
| CompilerTheorems.ProjectionsOfCompiled | apps/backend/app/modules/scripts/service.py:45-216 | the projections of a compiled graph are its texts, defaults filled in, and its questions in order |
| CompilerTheorems.RecompilationIsIdentity | apps/backend/app/modules/scripts/service.py:45-216 | recompiling the projections of a compiled graph yields the same graph |
| CompilerTheorems.QuestionIdsDiffer | apps/backend/app/modules/scripts/service.py:107-109 | the generated question ids of different questions differ |
| CompilerTheorems.CompiledIndex | apps/backend/app/modules/scripts/service.py:45-182 | all generated ids are different, so each node is found under its own id |
| CompilerTheorems.CompiledReachable | apps/backend/app/modules/scripts/service.py:45-182 | every compiled node is reachable from the greeting, for any number of questions |
| CompilerTheorems.CompiledIsAccepted | apps/backend/app/modules/scripts/service.py:45-182 | for every text and question list the compiled graph validates without an error, with the rule enforced or not |
| CompilerTheorems.CompiledMoves | apps/backend/app/modules/scripts/service.py:88-179 | where each compiled node leads for each answer, whether it ends the call and which disposition it sets |
| CompilerTheorems.CompiledSimulation | apps/backend/app/modules/scripts/service.py:45-182 | compile then simulate equals the fold over the answers: first "no" to consent opts out, to a question disqualifies, another or missing answer stops without a disposition, all yes reaches the transfer as qualified |
| CompilerCaptures.CompiledCaptures | apps/backend/app/modules/scripts/service.py:45-133 | a simulation of a compiled graph captures exactly the answers given at the nodes it visits, consent and questions each under their own field |
| CompilerCaptures.CompiledSettings | apps/backend/app/modules/scripts/service.py:45-182 | consent and questions capture a yes or no and may be repeated twice, every node waits five seconds |
| CallPolicies.EvaluateQualification | apps/backend/app/modules/calls/policies.py:189-220 | qualified exactly on two stated yes, and a reason exactly when disqualified |
| PolicyTheorems.CoerceExactly | apps/backend/app/modules/calls/policies.py:170-184 | a value counts as yes or as no exactly if it is that truth value, that number, or a word for it in any case and with any blanks |
| PolicyTheorems.JudgedExactly | apps/backend/app/modules/calls/policies.py:187-220 | denied part A/B disqualifies first, an age out of range second, both stated qualify, anything else is incomplete |
| PolicyTheorems.ImpliedExactly | apps/backend/app/modules/calls/policies.py:84-117 | qualified dispositions qualify, disqualified ones disqualify for the reason they name, two leave the call incomplete, no other implies anything |
| PolicyTheorems.DialerCodeExactly | apps/backend/app/modules/calls/policies.py:118-136 | the dialer is told DNQ of exactly the disqualifying dispositions and the failed transfer, and has one code for each other disposition it knows |
| CallIngest.CallStore.HandleTopic | apps/backend/workers/call_ingest_worker.py:208-241 | one message: skipped, waiting for its open, failed without a change, or recorded and applied |
| CallIngest.CallStore.RecordEvent | apps/backend/workers/call_ingest_worker.py:439-493 | an event is recorded under its call and external id once; the result tells whether it was new |
| CallIngest.CallStore.HandleOpened | apps/backend/workers/call_ingest_worker.py:244-302 | an open channel is reused, a second row under an id or an ambiguous channel fails, otherwise the call is added with its defaults |
| CallIngest.CallStore.NextSeq | apps/backend/workers/call_ingest_worker.py:495-509 | one more than the largest sequence number of the call |
| CallIngest.CallStore.HandleStateEvent | apps/backend/workers/call_ingest_worker.py:305-324 | only `node_entered` appends to the node path |
| CallIngest.CallStore.HandleTranscript | apps/backend/workers/call_ingest_worker.py:333-355 | a partial transcript adds nothing, any other one row |
| CallIngest.CallStore.HandleField | apps/backend/workers/call_ingest_worker.py:358-381 | a named field is stored and the call's qualification evaluated again over all its evidence |
| CallIngest.CallStore.ReevaluateQualification | apps/backend/workers/call_ingest_worker.py:511-534 | status and reason become what the latest value of each captured field decides |
| CallIngest.CallStore.CloseColumns | apps/backend/workers/call_ingest_worker.py:392-414 | the assignments to the call's columns in their order, conditions included |
| CallIngest.CallStore.HandleClosed | apps/backend/workers/call_ingest_worker.py:384-436 | a terminal call is left alone, any other is closed with one `call.completed` event |
| CallIngest.CallStore.UpdateDisposition | apps/backend/app/modules/calls/service.py:377-443 | refused for a closed call; otherwise disposition, implied qualification, VICIdial status and the events |
| CallIngest.CallStore.ProcessBatch | apps/backend/workers/call_ingest_worker.py:708-717 | messages are handled in order up to the first that is not; the flag says whether all were |
| CallIngestTheorems.OutcomeIgnoresClock | apps/backend/workers/call_ingest_worker.py:101-105 | whether a message is handled, waits or fails does not depend on the clock read for a missing time |
| CallIngestTheorems.MaxSeqIsCount | apps/backend/workers/call_ingest_worker.py:495-509 | where sequence numbers run 1..n per call, the largest is the number of rows |
| CallHistory.HistoryDecides | apps/backend/workers/call_ingest_worker.py:305-382 | after every run, with any losses and redeliveries, the node path, the transcript and the captured fields of a call are those of the messages that landed on it, in that order |
| CallHistory.EvidenceIsLast | apps/backend/workers/call_ingest_worker.py:511-525 | the evidence says of each field what was captured for it last |
| CallHistory.CloseExactly | apps/backend/workers/call_ingest_worker.py:384-436 | an open call that is closed has the status, the later end, the given durations and the proposed disposition with what it implies, and is announced exactly as its row then stands |
| CallHistory.ClosedIsRecorded | apps/backend/workers/call_ingest_worker.py:384-392 | a call that is over takes no other outcome |
| CallHistory.OpenExactly | apps/backend/workers/call_ingest_worker.py:244-302 | an open creates its call with the given columns and defaults exactly if its channel is free, its identifiers are good and the id is not taken; on a held channel it records an event of the call that holds it |
| CallHistory.CaptureExactly | apps/backend/workers/call_ingest_worker.py:358-382 | a named field judges the call by all its evidence and changes nothing else |
| CallHistory.LandingRecorded | apps/backend/workers/call_ingest_worker.py:439-470 | each landed message is recorded once with its type, or that of its topic, and its time |
| CallHistory.DisposeExactly | apps/backend/app/modules/calls/service.py:363-450 | an operator's disposition is refused exactly on a call that is over; otherwise it stands in the row with what it implies and is announced, as is a change of status |
| CallHistory.OpenedByOne | apps/backend/workers/call_ingest_worker.py:244-302 | after every run each call has the channel, stamp and start of one message that opened it |
| CallHistory.OutcomeIsTheClosers | apps/backend/workers/call_ingest_worker.py:384-436 | after every run a call is in progress and was never closed, or it was closed by exactly one step and its outcome is what that message made of the row it found |
| CallIngestTheorems.StepKeepsValid | apps/backend/workers/call_ingest_worker.py:208-436 | every delivery, lost or not, and every operator update keeps the invariant |
| CallIngestTheorems.EveryRunIsValid | apps/backend/workers/call_ingest_worker.py:208-534 | in every run: one call per channel, node-path and transcript numbers exactly 1..n per call, one `call.completed` event if closed and none otherwise |
| CallIngestTheorems.StepKeepsCalls | apps/backend/workers/call_ingest_worker.py:384-436 | no step removes a call or an event row, changes a channel, or changes the outcome of a closed call |
| CallIngestTheorems.ClosedForGood | apps/backend/workers/call_ingest_worker.py:387-390 | once terminal, status, end, durations, disposition and VICIdial status never change in any continuation |
| CallIngestTheorems.AppliedIsAbsorbed | apps/backend/workers/call_ingest_worker.py:217-302 | a message whose transaction commits is absorbed, for all five topics |
| CallIngestTheorems.AbsorbedIsNoOp | apps/backend/workers/call_ingest_worker.py:229-268 | delivering an absorbed message changes no table and adds no outbox row |
| CallIngestTheorems.EffectivelyOnce | apps/backend/workers/call_ingest_worker.py:650-719 | redeliveries of committed messages, inserted anywhere in any trace over any calls, leave the final tables and outbox unchanged |
| CallIngestTheorems.RedeliveryIsNoOp | apps/backend/workers/call_ingest_worker.py:650-682 | the same for one redelivery at the end |
| CallCommutation.LandsOrNothing | apps/backend/workers/call_ingest_worker.py:221-241 | a message of an existing call either records its event and takes its effect, or changes nothing |
| CallCommutation.ClosedCommutesWithConversation | apps/backend/workers/call_ingest_worker.py:305-436 | a `closed` and any node or transcript message leave the same tables and outbox in either order, from any state |
| CallCommutation.ClosedAndField | apps/backend/workers/call_ingest_worker.py:358-436 | a `closed` and a field message leave equal databases in either order if and only if the proposed disposition imposes no other qualification than the evidence gives and the event does not quote another status; and equal tables if and only if the first holds |
| CallCommutation.OperatorAndClose | apps/backend/app/modules/calls/service.py:388-401 | exactly when the operator's update and a closing message leave the same disposition columns on an open call, for a new disposition and for one the call has already |
| CallAgreement.DisposeAgrees | apps/backend/app/modules/calls/service.py:388-401 | after an operator's update the qualification columns agree with the disposition if and only if it implies nothing, implies a reason, or the call had none |
| CallAgreement.CaptureAgrees | apps/backend/workers/call_ingest_worker.py:511-534 | after a captured field the record agrees if and only if the call has no disposition or the evidence bears it out: a transfer needs both answers stated yes, `disqualified_age` an age stated out of range and part A/B not denied, `incomplete` neither a no nor two yes, and any other disposition must imply no qualification |
| CallAgreement.CloseAgrees | apps/backend/workers/call_ingest_worker.py:384-414 | after a closing message they agree if and only if it set a disposition or they agreed before |
| CallAgreement.StepDecides | apps/backend/workers/call_ingest_worker.py:208-436 | from a database in agreement, a step keeps agreement if and only if it meets the condition for its kind, which is about the state before it |
| CallAgreement.AgreementExactly | apps/backend/app/modules/calls/service.py:373-375 | every call agrees at every point of a run if and only if every step meets its condition in the state it happens in |
| CallAgreement.AgreementCanFail | apps/backend/app/modules/calls/service.py:373-375 | two runs in which they come to disagree: a second disposition, and a field captured after one |
| CallIsolation.StepSeen | apps/backend/workers/call_ingest_worker.py:208-436 | a step does to some calls what it does without all others, its own effect or nothing, if and only if it does not open a call on a channel held on the other side with an effect on them |
| CallIsolation.IsolationExactly | apps/backend/workers/call_ingest_worker.py:208-436 | at every point of a run some calls, their rows, sequence numbers and outbox events, are as their own steps leave them, if and only if no step crosses over in the state it happens in |
| CallIsolation.CallsAreIsolated | apps/backend/workers/call_ingest_worker.py:208-436 | so it is at every point of every run in which no channel is opened by calls of both sides |
| CallIsolation.SharedChannelMatters | apps/backend/workers/call_ingest_worker.py:251-268 | a call that shares a channel with another depends even on opens of the other on a different channel |
| CallCommutation.BatchIsPrefix | apps/backend/workers/call_ingest_worker.py:708-717 | a batch has the effect of its longest handled prefix, and is committed exactly when that is all of it |
| CallCommutation.AbsorbedOutcome | apps/backend/workers/call_ingest_worker.py:208-268 | a redelivered message is handled if and only if it is not an open without a channel |
| CallCommutation.AbsorbedPrefix | apps/backend/workers/call_ingest_worker.py:708-717 | a batch that begins with redelivered messages goes on behind them, or, if and only if one is an open without a channel, stops without a change |
| CallCommutation.RetriedBatchResumes | apps/backend/workers/call_ingest_worker.py:708-717 | a batch handled up to message k and polled again after any further steps goes on at k, unless an open without a channel stands before k; then it fails there and changes nothing |
| CallCommutation.RetriedBatchCanStick | apps/backend/workers/call_ingest_worker.py:708-717 | a batch that is stuck for good although the message it waited for could be handled |
| RefreshTokens.FindToken | apps/backend/app/modules/auth/service.py:406-411 | the row found carries the presented hash, and none is found only if none does |
| RefreshTokens.AuthService.IssueUserToken | apps/backend/app/modules/auth/service.py:118-146 | a login adds one session and the first token of a new family |
| RefreshTokens.AuthService.IssueRefreshToken | apps/backend/app/modules/auth/service.py:326-353 | one unrevoked row at the end of the table |
| RefreshTokens.AuthService.RevokeTokenFamily | apps/backend/app/modules/auth/service.py:374-387 | the loop revokes exactly the unrevoked tokens of the family |
| RefreshTokens.AuthService.RevokeRefreshTokensForSession | apps/backend/app/modules/auth/service.py:356-371 | the loop revokes exactly the unrevoked tokens bound to the session |
| RefreshTokens.AuthService.RefreshSession | apps/backend/app/modules/auth/service.py:390-473 | every branch: missing, unknown, reused, expired, owner gone or refused, and rotation |
| RefreshTokens.AuthService.RevokeUserSession | apps/backend/app/modules/auth/service.py:268-277 | marks the session of the token id, and tells whether it did |
| RefreshTokens.AuthService.LogoutUser | apps/backend/app/modules/auth/service.py:149-172 | revokes session and tokens, or changes nothing when the session was not live and the request does not commit |
| RefreshTokens.AuthService.RevokeUserSessionById | apps/backend/app/modules/auth/service.py:301-320 | only the owner's live session is revoked, with its tokens |
| RefreshTokenTheorems.StepKeepsValid | apps/backend/app/modules/auth/service.py:118-473 | every step with fresh ids and secrets keeps the invariant |
| RefreshTokenTheorems.EveryRunIsValid | apps/backend/app/modules/auth/service.py:118-473 | at every point of every run: `replaced_by` points at exactly the next row of the family, hashes are unique, a revoked session has no live token, families are as long as their refreshes say |
| RefreshTokenTheorems.FamilyIsChain | apps/backend/app/modules/auth/service.py:326-473 | each family is one linear chain in creation order with one user and session, only its last token unrevoked, one longer than its successful refreshes |
| RefreshTokenTheorems.ReuseEndsFamily | apps/backend/app/modules/auth/service.py:417-433 | after a revoked token is presented, no token of its family is redeemed at any later step |
| RefreshTokenTheorems.RedeemedAtMostOnce | apps/backend/app/modules/auth/service.py:417-458 | a token is redeemed at most once over the whole run |
| RefreshTokenTheorems.RevokedSessionIsDead | apps/backend/app/modules/auth/service.py:149-320 | from its revocation on, in every later state, a session stays revoked and has no unrevoked token |
| RedemptionTheorems.RedeemsExactly | apps/backend/app/modules/auth/service.py:406-473 | a refresh succeeds if and only if a row holds the secret, is not revoked and has not expired, and the owner may log in |
| RedemptionTheorems.RefusalChanges | apps/backend/app/modules/auth/service.py:406-446 | a refused refresh changes nothing, except that a revoked token revokes exactly its family; each refusal is answered by its cause |
| RedemptionTheorems.SuccessorRedeems | apps/backend/app/modules/auth/service.py:448-473 | a redemption replaces the row by one of the same user, family and session, whose new secret can be redeemed until the new expiry and not after |
| RedemptionTheorems.LoginRedeems | apps/backend/app/modules/auth/service.py:118-146 | a login opens a live session whose secret can be redeemed until it expires and not after |
| RedemptionTheorems.LogoutEnds | apps/backend/app/modules/auth/service.py:149-172 | a logout ends the live session of its token id with its tokens, and changes nothing without one |
| RedemptionTheorems.RevocationEnds | apps/backend/app/modules/auth/service.py:301-320 | revoking by id ends a session exactly if it is live and the user's own |
| RedemptionTheorems.RedeemableExactly | apps/backend/app/modules/auth/service.py:390-473 | at every point of every run a secret is redeemed if and only if it was issued, has not expired, was not redeemed before, no reuse was detected in its family, its session is not revoked and its owner may log in |
| SessionLiveness.EveryRunIsLively | apps/backend/app/modules/auth/service.py:118-473 | over every run sessions and families match one to one, a family with a detected reuse is dead, and a dead family is explained by a reuse or by a revoked session |
| SessionLiveness.LiveSessionExactly | apps/backend/app/modules/auth/service.py:417-433 | at every point of every run a session that is not revoked has an unrevoked token if and only if no reuse was detected in its family |
| ScriptLifecycle.Latest | apps/backend/app/modules/scripts/service.py:531-532 | the base version is one whose number no other exceeds |
| ScriptLifecycle.Script.constructor | apps/backend/app/modules/scripts/repository.py:114-150 | a new script has one draft version numbered 1 |
| ScriptLifecycle.CreateScript | apps/backend/app/modules/scripts/service.py:334-365 | a script is created from nodes or compiled text if and only if the validator accepts it |
| ScriptLifecycle.Script.CreateVersion | apps/backend/app/modules/scripts/service.py:514-570 | appends a draft with the next number and the given or inherited content, other versions untouched |
| ScriptLifecycle.Script.UpdateVersion | apps/backend/app/modules/scripts/service.py:591-655 | only a draft is changed, and only to content the validator accepts |
| ScriptLifecycle.Script.SubmitVersion | apps/backend/app/modules/scripts/service.py:658-702 | draft to pending approval with its submitter |
| ScriptLifecycle.Script.ApproveVersion | apps/backend/app/modules/scripts/service.py:705-752 | pending to approved with its approver; a draft script becomes approved |
| ScriptLifecycle.Script.RejectVersion | apps/backend/app/modules/scripts/service.py:755-801 | pending back to draft with the reason |
| ScriptLifecycle.Script.ArchiveActive | apps/backend/app/modules/scripts/service.py:826-834 | the loop archives exactly the other active version objects |
| ScriptLifecycle.Script.ActivateVersion | apps/backend/app/modules/scripts/service.py:804-857 | an approved version becomes active after every other active one is archived, an active one stays, and the script points at it |
| LifecycleTheorems.StepIsLawful | apps/backend/app/modules/scripts/policies.py:16-33 | every operation moves statuses only along allowed transitions and edits only drafts |
| LifecycleTheorems.StepKeepsValid | apps/backend/app/modules/scripts/service.py:514-857 | every operation keeps the invariant |
| LifecycleTheorems.EveryRunIsValid | apps/backend/app/modules/scripts/service.py:514-857 | in every run at most one version is active, the script is active exactly when it points at it, numbers are 1..current, approved, active and archived versions have approver and submitter |
| LifecycleEffects.UpdateExactly | apps/backend/app/modules/scripts/service.py:591-655 | an update of a draft stores the given nodes, or the given text compiled, or keeps the nodes, with the given or old entry, and is refused exactly if that is not well formed |
| LifecycleEffects.CreateExactly | apps/backend/app/modules/scripts/service.py:514-570 | a creation appends an unsigned draft with the next number, the given nodes and entry or those of the version it names, else of the newest |
| LifecycleEffects.ReviewExactly | apps/backend/app/modules/scripts/service.py:658-801 | submission, approval and rejection: answered Done exactly in one status, which new status and signature, and nothing else changed |
| LifecycleEffects.ActivateExactly | apps/backend/app/modules/scripts/service.py:804-857 | answered Done exactly for an approved version or the active one; it is active then and the one that was is archived |
| LifecycleEffects.SaysLastWrite | apps/backend/app/modules/scripts/service.py:514-655 | after every run each version says what its last accepted write asked for |
| LifecycleTheorems.ArchivedForGood | apps/backend/app/modules/scripts/policies.py:16-28 | an archived version stays archived whatever follows |
| LifecycleTheorems.FreezingStep | apps/backend/app/modules/scripts/service.py:605-676 | a version leaves draft only by a submission, with the content it has, and is not edited while it is not a draft |
| LifecycleTheorems.FrozenSinceSubmission | apps/backend/app/modules/scripts/service.py:591-857 | in every run, a version that is not a draft says exactly what it said at its last submission |
| LifecycleTheorems.ValidatedOrAsCreated | apps/backend/app/modules/scripts/service.py:514-636 | in every run, each version is well formed or still says what it was created with |
| LifecycleTheorems.SoundExactly | apps/backend/app/modules/scripts/service.py:514-636 | every version is well formed at every point of a run if and only if the first one is and every creation makes well-formed content in the state it happens in |
| LifecycleTheorems.SoundAfterCreateScript | apps/backend/app/modules/scripts/service.py:334-365 | for a script created with validation the condition is on later creations only, and a script created from text always passes |
| LifecycleTheorems.EmptyGraphCanBeActive | apps/backend/app/modules/scripts/service.py:534-556 | on any script, four operations make a version with an empty graph active |
| LifecycleTheorems.CleanExactly | apps/backend/app/modules/scripts/service.py:334-636 | for contents with any marks, which no request can carry: throughout a run no version has an offending walk, if and only if the first content has none and neither has any content a creation or a successful update writes |
| LifecycleTheorems.SpokenIsUnclean | apps/backend/app/modules/scripts/service.py:1012-1074 | content that some simulation speaks before its disclaimer has an offending walk |
| LifecycleTheorems.StoredArePlain | apps/backend/app/modules/scripts/schemas.py:24-139 | over every run of requests no stored node is terminal, discusses benefits or has a compliance role |
| LifecycleTheorems.RuleNeverDecides | apps/backend/app/modules/scripts/service.py:334-636 | after every run of requests no version has an offending walk, no simulation of one speaks benefits before a disclaimer, and its verdict is the same with the rule enforced |
| LifecycleTheorems.MarkedAndSpoken | apps/backend/app/modules/scripts/policies.py:36-192 | a graph of one marked node, which the request type refuses, has no structural error and is spoken without a disclaimer by every simulation |
| LeadImport.MapRow | apps/backend/app/modules/leads/policies.py:102-120 | the loop splits a row into system and custom fields, blank cells dropped, later columns winning |
| LeadImport.Prepare | apps/backend/app/modules/leads/policies.py:136-154 | a row is ready with a normalized phone, or rejected for its phone first and its birth date second |
| TextTheorems.NormalizeExactly | apps/backend/app/packages/phone.py:16-32 | a phone is accepted exactly if its digits, whatever stands between them, are ten or eleven that begin with 1, and normalized to those digits behind one 1 |
| ImportTheorems.MappedExactly | apps/backend/app/modules/leads/policies.py:102-120 | each mapped field has the value of its last column that is not blank, system fields apart from custom ones |
| ImportTheorems.PreparedExactly | apps/backend/app/modules/leads/policies.py:136-154 | a row is ready exactly if its phone is one and its birth date, if any, a date; only the phone is changed |
| ImportTheorems.DateExactly | apps/backend/app/modules/leads/policies.py:123-133 | a written date is accepted exactly if the year has such a month and the month such a day |
| LeadImport.Judge | apps/backend/app/modules/leads/service.py:859-897 | the verdict against the phones remembered by the loop is the verdict that needs no memory |
| LeadImport.ClassifyRows | apps/backend/app/modules/leads/service.py:847-901 | candidates, error lines and counters of the loop are those of the rows' verdicts in file order |
| LeadImport.InsertedMeaning | apps/backend/app/modules/leads/service.py:849-897 | the phones remembered are the new, unsuppressed phones that occurred before |
| CommitTheorems.VerdictExactly | apps/backend/app/modules/leads/service.py:859-897 | suppressed phones are refused, known ones updated exactly if that was asked for, new ones inserted at their first row |
| ImportTheorems.JudgedByTheTable | apps/backend/app/modules/leads/service.py:839-897 | with a complete look-up the verdicts are those by the leads table and the register |
| ImportTheorems.CountersExactly | apps/backend/app/modules/leads/service.py:850-901 | each counter is the number of rows with its verdicts |
| ImportTheorems.RefusalsExactly | apps/backend/app/modules/leads/service.py:859-895 | each refused row has one error line with its line number and the reason its phone gives |
| ImportTheorems.MappingReports | apps/backend/app/modules/leads/service.py:796-916 | a mapped job has a candidate or an error line for every row, and leads and register are not touched |
| ImportTheorems.MappingAnswers | apps/backend/app/modules/leads/service.py:803-823 | which mappings are refused and why, and that a refusal changes nothing |
| ImportTheorems.CommitAnswers | apps/backend/app/modules/leads/service.py:993-1006 | a commit is carried out exactly on a mapped job that was not committed, and anything else changes nothing |
| ImportTheorems.TargetExactly | apps/backend/app/modules/leads/service.py:243-247 | the target of a source column is the field it is mapped to |
| LeadCommit.ImportDesk.SaveColumnMapping | apps/backend/app/modules/leads/service.py:796-916 | state and mapping checks, the looked-up phones, and the classification stored in the job |
| LeadCommit.ImportDesk.CommitImport | apps/backend/app/modules/leads/service.py:993-1078 | a completed job is left alone; otherwise inserts and updates of the candidates reach the table |
| LeadCommit.ImportDesk.InsertInChunks | apps/backend/app/modules/leads/service.py:1069-1072 | chunks of 1000 append exactly the inserts, the last chunk included |
| LeadCommit.ImportDesk.BulkUpdateByPhone | apps/backend/app/modules/leads/repository.py:153-164 | one update per phone, in order, to every lead of that phone |
| LeadTheorems.NormalizedShape | apps/backend/app/packages/phone.py:16-32 | a normalized phone is eleven digits starting with 1, and normalizing it again changes nothing |
| LeadTheorems.PreparedPhone | apps/backend/app/modules/leads/policies.py:144-148 | the phone of a prepared row is normalized |
| LeadTheorems.Partition | apps/backend/app/modules/leads/service.py:859-901 | every row is a candidate or refused, never both |
| LeadTheorems.InFileOrder | apps/backend/app/modules/leads/service.py:859-901 | candidates and refused rows keep the order of the file |
| LeadTheorems.CandidatesMeaning | apps/backend/app/modules/leads/service.py:879-900 | one candidate per surviving row, made from that row |
| LeadTheorems.ErrorsMeaning | apps/backend/app/modules/leads/service.py:859-895 | one error line per refused row with its line number, the header being line 1, and its reason |
| LeadTheorems.CountersAddUp | apps/backend/app/modules/leads/service.py:850-901 | the counters count every row once, updates twice; candidates are the valid count |
| LeadTheorems.InsertedPhones | apps/backend/app/modules/leads/service.py:866-901 | an inserted phone is neither known nor suppressed and is inserted by one row only |
| LeadTheorems.CommitEffect | apps/backend/app/modules/leads/service.py:1016-1078 | a commit adds exactly the inserts, changes only contact columns of leads whose phone is updated, touches no other lead and keeps phones unique |
| CommitTheorems.CommitExactly | apps/backend/app/modules/leads/service.py:1016-1078 | a commit adds one lead per candidate that is not an update, in order, with its columns, key and the job settings, gives each known lead the contact of the last update of its phone, and counts all candidates |
| CommitTheorems.OneLeadPerInsertedRow | apps/backend/app/modules/leads/service.py:796-1078 | end to end, whatever happens in between: one lead per row with a verdict Insert, in file order, made from that row, and the valid rows reported as imported |
| LeadTheorems.CommitTwice | apps/backend/app/modules/leads/service.py:996-997 | a retried commit changes nothing |
| LeadTheorems.UpdateOverwrites | apps/backend/app/modules/leads/repository.py:153-164 | a whole commit leaves the leads as if every update had written only the columns and custom fields its row produced, if and only if the last update of each lead has every column and custom field that the lead or an earlier update of its phone has |
| LeadTheorems.LastContactWins | apps/backend/app/modules/leads/repository.py:161-164 | after all updates a lead has the whole contact of the last one for its phone |
| LeadTheorems.UpdateLosesColumn | apps/backend/app/modules/leads/service.py:796-1078 | a file, mapped and committed, with which a lead loses its address and its custom fields |
| LeadTheorems.UpdateLosesCustomField | apps/backend/app/modules/leads/service.py:796-1078 | a file, mapped and committed, with which a lead loses one custom field to another |
| LeadTheorems.LaterRowLosesColumn | apps/backend/app/modules/leads/service.py:796-1078 | a file of two rows of one number, mapped and committed, of which the second erases the address of the first |
| LeadTheorems.DuplicateCheckExact | apps/backend/app/modules/leads/service.py:839-845 | for every file, lead table and register no known or suppressed phone is inserted, if and only if the look-up reads the one mapped phone column |
| LeadTheorems.MappedThenCommitted | apps/backend/app/modules/leads/service.py:796-1078 | mapping and then committing a file, end to end, has that effect on the leads table, and every inserted lead has a normalized phone that was neither known nor suppressed |
| LeadTheorems.CommittedLater | apps/backend/app/modules/leads/service.py:980-1078 | whatever happened to leads and register since the mapping, a commit leaves phones unique if and only if they were unique just before and none of them is inserted |
| LeadTheorems.AddedInBetween | apps/backend/app/modules/leads/service.py:796-1078 | leads added between mapping and commit break the uniqueness of phones if and only if they do so by themselves or one of them has a phone the file inserts |
| HopperIngest.PendingLeads | apps/backend/app/modules/leads/repository.py:260-270 | the leads selected have no dialer id and keep the order of the batch |
| HopperIngest.Hopper.StartRun | apps/backend/app/modules/leads/service.py:450-560 | one run: nothing to submit, failed without an accepted lead, or started with its counts |
| HopperIngest.Hopper.SubmitAll | apps/backend/app/modules/leads/service.py:467-519 | the loop over the window with its guard, its refusals and its stop when the dialer cannot be reached |
| HopperIngest.Hopper.SetDialerIds | apps/backend/app/modules/leads/repository.py:273-287 | writes each dialer id onto its lead |
| HopperIngest.Hopper.StopRun | apps/backend/app/modules/leads/service.py:405-408 | a stop interrupts the run and touches no lead |
| HopperTheorems.Submitting | apps/backend/app/modules/leads/service.py:467-519 | a run submits dialable leads of its window only, in order and once each, pairs exactly those the dialer named, and changes nothing but flags of blocked leads |
| HopperEffects.WindowExactly | apps/backend/app/modules/leads/service.py:467-519 | a run reaches its window up to the lead that loses the dialer, submits exactly the dialable leads reached, flags exactly the blocked ones, and counts as error each that was not accepted |
| HopperEffects.StartExactly | apps/backend/app/modules/leads/service.py:450-560 | what one start answers, how it leaves the batch, and what becomes of every lead |
| HopperEffects.StopExactly | apps/backend/app/modules/leads/service.py:405-408 | a stop marks the batch interrupted and inactive and changes nothing else |
| HopperTheorems.PendingMeaning | apps/backend/app/modules/leads/repository.py:251-270 | a lead is in the window exactly when it has no id and fewer than the limit before it have none |
| HopperTheorems.EveryRunIsValid | apps/backend/app/modules/leads/service.py:448-452 | over every sequence of runs and stops, a lead's id is the one the dialer named, and a lead with an id is never submitted again |
| HopperTheorems.RunRespectsGuard | apps/backend/app/modules/leads/service.py:473-489 | nothing submitted is on the register of that run, flagged or opted out |
| HopperTheorems.OutForGood | apps/backend/app/modules/leads/service.py:448-489 | a lead that has an id, is flagged, opted out or has no number is never submitted from then on |
| HopperTheorems.OfferedAgain | apps/backend/app/modules/leads/service.py:448-452 | a submitted lead is offered again by the next run if and only if the dialer named no id for it |
| HopperTheorems.RunAccounts | apps/backend/app/modules/leads/service.py:510-561 | the reported counts: accepted are those named, and accepted and rejected make up the window but for leads accepted without an id and, when the dialer was lost, leads not reached |
| HopperTheorems.ProgressExact | apps/backend/app/modules/leads/service.py:448-489 | some sequence of runs submits something if and only if one of the first five hundred pending leads is not blocked for good |
| HopperTheorems.SubmittableExactly | apps/backend/app/modules/leads/service.py:448-489 | some sequence of runs submits a given lead if and only if the lead is neither accepted nor blocked for good and fewer than five hundred leads before it have no id and are blocked for good |
| OutboxDispatch.OutboxDispatcher.WriteOutbox | apps/backend/app/core/outbox.py:65-77 | appends one undispatched row |
| OutboxDispatch.OutboxDispatcher.RunTick | apps/backend/app/core/outbox.py:98-144 | the loop sends, marks and counts up to the first failure, which gains an attempt |
| OutboxDispatch.PendingIsWindow | apps/backend/app/core/outbox.py:100-106 | what a tick selects is the hundred rows after the dispatched prefix |
| OutboxDispatch.TickEffect | apps/backend/app/core/outbox.py:110-144 | a tick marks the rows up to the first failing one as sent now, adds an attempt to that one, and leaves all others as they were |
| OutboxDispatch.SendsAreAPrefix | apps/backend/app/core/outbox.py:34-144 | over any writes, ticks and failures, the log of sends is a duplicate-free prefix of the outbox in creation order |
| OutboxDispatch.SentAreTheWrites | apps/backend/app/core/outbox.py:34-144 | over every run what was sent are the first writes, in order and once each, with their payload and the sequence number unless the payload has one |
| OutboxDispatch.CleanTicksDrain | apps/backend/app/core/outbox.py:98-144 | failure-free ticks drain n pending rows in ceil(n/100) ticks and not in fewer |
| Rollup.RollupWorker.UpsertWindow | apps/backend/workers/rollup_worker.py:57-84 | one statement replaces the row of each group in the window and leaves the other aggregates alone |
| Rollup.RollupWorker.Fold | apps/backend/workers/rollup_worker.py:264-273 | the loop upserts every aggregate over one window |
| Rollup.RollupWorker.Run | apps/backend/workers/rollup_worker.py:276-288 | the loop takes every aggregate from its own watermark to the bound |
| Rollup.RollupWorker.Advance | apps/backend/workers/rollup_worker.py:283-285 | one aggregate folded from its watermark, the watermark moved, the others untouched |
| Rollup.RollupWorker.Backfill | apps/backend/workers/rollup_worker.py:291-297 | folds exactly the calendar day |
| RollupTheorems.ColumnsAreCounts | apps/backend/workers/rollup_worker.py:61-71 | each counter of a group's row is the number of its calls that meet that column's filter, each average the sum of the present values divided by their number |
| RollupTheorems.KeyExactly | apps/backend/workers/rollup_worker.py:57-190 | the row a call is counted in is that of its day, its tenant and the column of the aggregate, with the defaults for what is absent |
| RollupTheorems.BackfillIsExact | apps/backend/workers/rollup_worker.py:291-297 | after a backfill every group with calls on the day has the row of a direct group-by over all calls, and no other key has changed |
| RollupTheorems.BackfillsCommute | apps/backend/workers/rollup_worker.py:291-297 | backfilling is idempotent and days may be backfilled in any order |
| RollupTheorems.SplitIsExact | apps/backend/workers/rollup_worker.py:57-84 | folding a window in two parts equals folding it at once if and only if no group has calls in both parts |
| RollupTheorems.MidnightSplits | apps/backend/workers/rollup_worker.py:61-74 | a split at midnight is never straddled |
| RollupTheorems.RunTwice | apps/backend/workers/rollup_worker.py:276-288 | a second run to the same bound changes nothing |
| RollupTheorems.ChainRow | apps/backend/workers/rollup_worker.py:276-288 | after any chain of runs a group's row is that of one fold if and only if the group has calls in at most one window |
| RollupTheorems.ChainIsExact | apps/backend/workers/rollup_worker.py:276-288 | a chain of runs to ascending bounds equals one run to the last bound if and only if no group has calls in two of its windows |
| RollupTheorems.AlignedChain | apps/backend/workers/rollup_worker.py:276-288 | a chain of day-aligned runs equals one run to the last bound |
| RollupTheorems.BackfillAfterChain | apps/backend/workers/rollup_worker.py:276-297 | backfilling a day after any chain of runs that covers it leaves the row of a group of that day alone if and only if the group has calls in one window only |
| RollupTheorems.BackfillChangesNothing | apps/backend/workers/rollup_worker.py:276-297 | such a backfill changes nothing at all if and only if no group of that day has calls in two windows |
| RollupChanges.RowAfterRuns | apps/backend/workers/rollup_worker.py:276-288 | over runs that each find another calls table, a group's row is the summary of what the last run that folded any of its calls found, and its first row if none did |
| RollupChanges.ArrivalsExact | apps/backend/workers/rollup_worker.py:276-288 | with calls arriving between runs a group's row is that of a direct group-by if and only if one run found all its calls in its window, or none found any and the row was direct at first |
| RollupChanges.ChangedCallExact | apps/backend/workers/rollup_worker.py:57-84 | when one call of a group changes after it was folded, the row is direct if and only if its counted columns are the same and both averages are kept |
| RollupChanges.BackfillRepairs | apps/backend/workers/rollup_worker.py:291-297 | a backfill makes the rows of the day those of a direct group-by, whatever was missed or changed, if and only if no row of the day belongs to a group without calls |
| RollupChanges.MovedCallLeavesRow | apps/backend/workers/rollup_worker.py:162-190 | a call that gets a disqualification reason after it was folded leaves behind a row that a backfill keeps |

## Left out

- LeadCommit.ImportDesk.SaveColumnMapping: refuses a job that was already mapped; the program lets it be mapped again, over rows that the first mapping has overwritten with its candidates.
- ScriptSimulator.Simulate: the event-list mode, which echoes the caller's trace, is not part of this model.
- CallIngest.CallStore.HandleTopic: an event time is absent or a number; times outside the platform's range, which fail the message, are not modelled.
- CallIngest.CallStore.HandleOpened: the primary key is taken to be the id; where the table is partitioned it is the id with the start time.
- CallIngest.CallStore.HandleStateEvent: the context column of a node-path row is left out.
- CallIngest.CallStore.HandleTranscript: the timing, confidence and redaction columns of a turn are left out.
- CallIngest.CallStore.HandleField: the label, type, reference and confidence columns of a field are left out.
- CallIngest.CallStore.UpdateDisposition: the reason and the campaign in the event are left out.
- CallIngest.CallStore.HandleClosed: the performance snapshot is one map of values; which keys are recognised is not modelled.
- CallIngest.CallStore.RecordEvent: one consumer at a time, so the branch in which another wins the unique key is not reached; the columns of an event row other than type and time are left out.
- CallIngest.CallStore.ReevaluateQualification: captured fields are read in insertion order, which the query does not fix.
- CallIngest.CallStore.ProcessBatch: the messages of a poll are one list; a failed batch is left uncommitted and is polled again only after a restart or rebalance; nothing is said about messages behind it that a later commit covers.
- RefreshTokens.AuthService.RefreshSession: tokens are known by their position in the table, secrets by their hashes, and fresh hashes do not collide.
- ScriptLifecycle.Script.ActivateVersion: versions are compared and found by number instead of row id; campaign binding, activation records, timestamps and rule-set ids are left out.
- ScriptLifecycle.Script.UpdateVersion: an absent entry and an empty one are the same; rule-set id and change note are left out.
- ScriptLifecycle.Script.CreateVersion: rule-set id, change note and event are left out.
- LeadCommit.ImportDesk.CommitImport: the writes of one commit are one transaction; generated ids and keys are inputs; timestamps, the raw phone and event rows are left out.
- HopperIngest.Hopper.StartRun: the order of the batch is given; the rows of one commit share their creation time, so the query orders them by id. Failures other than an unreachable dialer, list and campaign overrides and the registration of blocked phones with the dialer are left out.
- OutboxDispatch.OutboxDispatcher.RunTick: creation times increase, a send happens or fails as a whole, and the caller commits the tick; the Redis fan-out cannot fail a row.
- OutboxDispatch.OutboxDispatcher.WriteOutbox: the sequence number is an input, and the channel and aggregate columns are left out.
- Rollup.RollupWorker.Run: the statement for the dashboard counters and its watermark are left out.
- Rollup.RollupWorker.Fold: the five windowed tables share one row type with the columns of all; the dashboard counters, which are not windowed, and the row counts returned are left out, and the calls table does not change during a run.
- Text beyond ASCII: stripping, lower-casing and digits are those of ASCII.
- Rows of a table are values in a field, so aliasing of rows is modelled for script versions only.
- Redis snapshots, Kafka and HTTP clients, tokens and cookies, audit records, storage and permissions are foreign calls or single branches.
- Database triggers and unique indexes of the migrations, which contradict the service lifecycle in one place.
- Recording reconciler, WebSocket manager, rule-set evaluator, QA scores and list queries: no law across operations, or finite tables.
