# Verified model of the agent core

This project models the deterministic algorithms that the campus assistant puts between its two
language-model ends, and proves what they promise: the typed plan graph and its parallel execution, the
schedule solver, the response cache, the rate limiter, the isolation of retrieved text, the gate and audit
trail around actions, degree gap analysis, document fusion, the approval protocol between gateway and
dashboard, and the verdict of the injection guard.

`dafny verify dfyconfig.toml` checks everything.

## How it is organised

| file | part of the system |
|---|---|
| `Wrappers.dfy` | the optional value the other modules share |
| `Graphs.dfy` | dependency graphs, chains, cycles and height-bounded layers, used by the plan modules |
| `PlanSchema.dfy` | validation of a plan (Kahn's worklist) and its topological layers |
| `PlanCompiler.dfy` | node names, edges with AND-joins, and the superstep semantics of the compiled graph |
| `PlanExecution.dfy` | reference resolution, one step, the reducers, and whole runs |
| `PlanConfluence.dfy` | parallel against sequential runs, and what a failing step can change |
| `PlanResults.dfy` | what each step of a run is handed and what it leaves, on the fields of the step |
| `Combinations.dfy`, `StableSort.dfy` | what `itertools.combinations` and a stable descending `sorted` return |
| `ScheduleSolver.dfy` | the constraint solver, its conflict test and its ranking |
| `ResponseCaching.dfy`, `CacheKeys.dfy` | the TTL cache with its course index, and the text its keys are hashed from |
| `RateLimiting.dfy` | the sliding-window limiter |
| `Decimals.dfy`, `ContentIsolation.dfy` | decimal numerals; wrapping of untrusted text and a reader of the wrapped form |
| `InnerSafety.dfy`, `AuditRuns.dfy` | the four-layer gate with its two callers and the audit sink, and all their interleavings |
| `GapAnalysis.dfy` | and/or requirement trees |
| `Retrieval.dfy` | reciprocal rank fusion over shared documents, and the pass over several queries |
| `RetrievalResults.dfy` | how many documents fusion and that pass return, in which order, and which copies |
| `Approvals.dfy`, `ApprovalRuns.dfy` | the gateway's approval store and queues, the dashboard's cards, and all their interleavings |
| `DashboardAgreement.dfy` | what holds in every such interleaving |
| `SoleReader.dfy` | what a dashboard tab shows while it alone reads its user's event queue |
| `InjectionGuard.dfy` | the pattern guard and the tier that turns its score into a verdict |

Code that changes state step by step is written as methods and classes that change state, each tied by its
`ensures` to a function of the old state; what the system promises is proved about those functions, over
every input and every run. Language-model calls, tools, step handlers, safety layers, compiled patterns and
the current time are parameters, so every statement holds whatever they answer.

Five promises turned out to hold only under a condition. Each has a lemma with the exact condition and one
with an input on which it fails:

- Complete enumeration of schedules: duplicates are dropped by course codes before feasibility is looked at,
  so a code multiset is represented iff its first selection is feasible (`CompleteIffFirstFeasible`,
  `NaiveCompletenessFails`).
- Ranking by number of courses, then credits: the returned list is in that order iff no shorter option in it
  leads a longer one by 100 credits or more for each course it lacks (`RankingExactIff`, `RankingBoundTight`).
  Credit bounds less than 100 apart are enough (`CreditBoundsKeepIntent`).
- Order-independent plan execution: iff each reference a step reads is settled by its dependencies; the
  validator does not look at references (`OrderIndependentIff`, `ValidatorAllowsLooseRefs`).
- Cache as a timestamped map: over every run with a clock that never goes back, lookups of a key agree iff no
  invalidation hit a course under which the key was filed while its fresh, since unended entry did not list it
  (`StaleIndexIff`, `StaleIndexLosesEntry`).
- One audit record per gated call: the record is missing iff the call came through the standalone subgraph
  with an allowed but unregistered tool (`AuditLostIff`, `UnregisteredToolLosesAudit`). That takes an
  authorization matrix that grants a tool the registry lacks; the shipped one
  (`agent-core/safety/inner/config/tool_auth_matrix.yaml`) does not.

Other statements need an assumption about the surroundings, and a lemma shows what happens without it: a
clock that steps back (`ClockBackBreaksBound`), a reused audit id (`ReusedIdDropsRecord`), separators inside
course ids or semesters (`SeparatorsCollide`), a second tab on the same event queue (`SecondTabTakesEvents`).

## Model

| member | source | states |
|---|---|---|
| PlanSchema.ValidateDag | agent-core/schemas/plan.py:119-148 | Accepts iff ids are distinct, no dependency dangles and no step depends on itself through any chain; otherwise exactly one fault is named, the dangling one being the first in listing order |
| PlanSchema.ValidSpelled | agent-core/schemas/plan.py:119-148 | On the steps: accepted are the plans in which no two steps share an id, every dependency is the id of a step, and no steps form a ring of dependencies |
| PlanSchema.FirstMissingSpelled | agent-core/schemas/plan.py:124-129 | The dangling dependency named is one that no step has, while every dependency listed before it is the id of some step |
| PlanSchema.VisitAll | agent-core/schemas/plan.py:137-147 | The popped ids are distinct, each after all its dependencies, even with repeated dependencies; all ids are popped iff the dependency relation has no cycle |
| Graphs.AcyclicIffBounded | agent-core/schemas/plan.py:130-147 | No cycle iff every dependency chain fits in the number of steps |
| Graphs.StuckSetHasCycle | agent-core/schemas/plan.py:146-147 | Steps that are never popped, each waiting for another of them, hide a cycle |
| Graphs.TopologicalAcyclic | agent-core/schemas/plan.py:139-148 | A complete popping order in which each step follows its dependencies rules a cycle out |
| PlanSchema.TopologicalLayers | agent-core/schemas/plan.py:156-178 | Layer k lists, by ascending id and once each, exactly the steps at height k; the error branch is taken iff some step waits for ever |
| PlanSchema.ValidatedPlansLayer | agent-core/schemas/plan.py:166-170 | On a validated plan the branch marked unreachable is never taken |
| PlanSchema.LayeringFailsIff | agent-core/schemas/plan.py:166-170 | Without validation it is taken exactly on a dangling dependency or a cycle |
| Graphs.LayerIsLongestChain | agent-core/schemas/plan.py:156-178 | A step's layer index is the length of its longest dependency chain |
| Graphs.LayersAreEarliest | agent-core/schemas/plan.py:156-178 | No numbering that respects dependencies places a step earlier |
| PlanSchema.LayersPartition | agent-core/schemas/plan.py:166-178 | The returned layers partition the steps: each step has one place, and no other place holds its id |
| PlanSchema.LayersSpelled | agent-core/schemas/plan.py:156-178 | On the steps: ids ascend within a layer, every dependency of a step stands in an earlier layer, and except in the first layer one stands in the layer just before |
| PlanSchema.FewestLayers | agent-core/schemas/plan.py:156-178 | Any sequence of groups that holds every step, each after all it depends on, has at least as many groups as there are layers |
| PlanCompiler.NodeNamesDiffer | agent-core/agents/planning_agent.py:165-176 | Equal node names imply equal step ids, whatever the free-text suffixes contain |
| PlanCompiler.CompilePlanGraph | agent-core/agents/planning_agent.py:349-384 | One node per step without a name collision, one incoming edge per step (start, single or AND-join), an exit edge for exactly the leaves, and nothing else |
| PlanCompiler.CompiledSpelled | agent-core/agents/planning_agent.py:349-384 | On the fields of the steps: a node per step; an edge is present iff some step asks for it: from the start without dependencies, from the one dependency, from all of two or more in their order, or to the end if no step depends on it |
| PlanCompiler.NameSpelled | agent-core/agents/planning_agent.py:165-176 | The node names, written out for each kind of step |
| PlanCompiler.SuperstepIsLayer | agent-core/agents/planning_agent.py:349-384 | In the superstep semantics of those edges, superstep k fires exactly topological layer k |
| PlanExecution.ResolveRefs | agent-core/agents/query_agent.py:279-294 | The loop over parameters resolves references in order and stops at the first missing or, for solver inputs, malformed one |
| PlanExecution.RunOutputs | agent-core/agents/planning_agent.py:73-80 | After any number of supersteps the merged outputs are the same for every merge order inside the supersteps, and each fired step is logged once |
| PlanExecution.RunsProgress | agent-core/agents/planning_agent.py:371-384 | A validated plan never stalls: nothing is triggered iff every step has fired |
| PlanExecution.RunsStop | agent-core/agents/planning_agent.py:371-384 | A run of a validated plan has at most as many supersteps as the plan has steps |
| PlanExecution.RunsComplete | agent-core/agents/planning_agent.py:371-384 | Every run, the empty one included, can be carried on to a complete one |
| PlanExecution.CompleteRun | agent-core/agents/planning_agent.py:105-162 | A complete run has outputs for exactly the plan's ids and fired each step exactly once |
| PlanExecution.DispatchAgrees | agent-core/agents/planning_agent.py:187-216 | With settled references a step's result depends only on the outputs of what it depends on |
| PlanConfluence.OrderIndependentIff | agent-core/agents/planning_agent.py:284-292 | For all handlers, the parallel outputs equal those of every sequential topological run iff all references are settled by dependencies |
| PlanConfluence.ParallelRunConfluent | agent-core/agents/planning_agent.py:113-159 | Any two complete runs end with equal outputs, and with settled references these are the outputs of any sequential run |
| PlanConfluence.FailureContained | agent-core/agents/planning_agent.py:120-129 | With settled references, changing how one step ends, failure included, changes only the outputs of that step and its descendants |
| PlanConfluence.FailureContainedInRuns | agent-core/agents/planning_agent.py:113-159 | So two complete runs, one with a failing step, agree on every other output outside its descendants, whatever their merge orders |
| PlanConfluence.ValidatorAllowsLooseRefs | agent-core/agents/query_agent.py:283-291 | A valid two-step plan whose second step reads the first without depending on it, and so depends on the order |
| PlanResults.DispatchExact | agent-core/agents/planning_agent.py:187-292 | What a step node writes, on the fields of the step: the handler is called with every argument under its key and in its place, text as it stands and a reference replaced by that step's output; otherwise the first missing step, a malformed solver placeholder or the missing prerequisite solver is written |
| PlanResults.RunEquation | agent-core/agents/planning_agent.py:105-159 | In a complete run of a valid plan each step holds that result on the final outputs of the layers below it, which include everything it depends on |
| PlanResults.QueryEquation | agent-core/agents/query_agent.py:265-294 | A query whose references are to steps it depends on holds its handler's answer to the parameters filled in with their final outputs |
| Combinations.CombosExact | agent-core/reasoning/solver.py:46-47 | The enumeration holds every increasing choice of k positions and nothing else |
| Combinations.CombosOrdered | agent-core/reasoning/solver.py:46-47 | It is in dictionary order and repeats nothing |
| Combinations.LexSpelledOut | agent-core/reasoning/solver.py:46-47 | Dictionary order between choices of one size: the first place where they differ decides |
| ScheduleSolver.Solve | agent-core/reasoning/solver.py:28-61 | Filter, nested enumeration, dedup and ranking yield exactly the specified list of options; a negative size makes the enumeration fail |
| ScheduleSolver.ValidIsFilter | agent-core/reasoning/solver.py:64-79 | The hard filter keeps, in order, exactly the sections with no meeting on an excluded day, every prerequisite completed and every meeting inside the time range |
| ScheduleSolver.FeasibleIff | agent-core/reasoning/solver.py:81-98 | A selection is feasible iff no two different meetings of it share a day and overlap, and its credits are within the bounds given |
| ScheduleSolver.CodesSpelled | agent-core/reasoning/solver.py:48 | The deduplication key is the multiset of the course codes |
| ScheduleSolver.SolutionExact | agent-core/reasoning/solver.py:46-61 | An option is returned iff it is the option of a selection that is first among those with its course codes and is feasible |
| ScheduleSolver.CompleteIffFirstFeasible | agent-core/reasoning/solver.py:48-58 | Exact completeness: a code multiset of allowed size is represented iff its dictionary-first selection is conflict-free and within the credit bounds |
| ScheduleSolver.OptionsHaveDistinctCodes | agent-core/reasoning/solver.py:48-51 | No two returned options have the same course codes |
| ScheduleSolver.DistinctCodesComplete | agent-core/reasoning/solver.py:46-61 | With distinct course codes the options are in bijection with the feasible selections |
| ScheduleSolver.NaiveCompletenessFails | agent-core/reasoning/solver.py:48-54 | Two sections of one course: the feasible pair is missed because the infeasible first pair used its codes up |
| ScheduleSolver.SolutionSound | agent-core/reasoning/solver.py:64-108 | Every option takes candidates in their order; each has no meeting on an excluded day, all prerequisites completed and all meetings in the time range; no two meetings overlap; size and credits are in bounds; total and score are those of its courses |
| ScheduleSolver.OverlapMeansCommonInstant | agent-core/schemas/query_outputs.py:100-103 | Two meetings share an instant of some day iff the overlap test passes and both are proper |
| ScheduleSolver.ConflictFreeMeansNoDoubleBooking | agent-core/reasoning/solver.py:81-87 | A selection that passes the pairwise test books no instant twice; for proper meetings also conversely |
| ScheduleSolver.SubSelectionStaysFree | agent-core/reasoning/solver.py:81-87 | Leaving sections out never creates a conflict |
| ScheduleSolver.ScoreOrderIff | agent-core/reasoning/solver.py:101-108 | Of two options, the one with at least as many courses scores higher iff the other's credit lead is below 100 per extra course |
| ScheduleSolver.RankingExactIff | agent-core/reasoning/solver.py:105-108 | The list returned is ordered by course count, then credits, iff no shorter option in it leads a longer one by 100 credits or more for each course it lacks |
| ScheduleSolver.LeaderComesFirst | agent-core/reasoning/solver.py:46-108 | Such a leader stands before the longer option: by score, or on a tie because shorter options are found first |
| ScheduleSolver.RankingFollowsIntent | agent-core/reasoning/solver.py:105-108 | The list returned is in the intended order whenever any two credit totals in it differ by less than 100 |
| ScheduleSolver.CreditBoundsKeepIntent | agent-core/reasoning/solver.py:94-108 | Credit bounds less than 100 apart ensure the intended order |
| ScheduleSolver.RankingBoundTight | agent-core/reasoning/solver.py:105-108 | Candidates with credit bounds exactly 100 apart for which the solver returns one course before two |
| ScheduleSolver.SolutionOrder | agent-core/reasoning/solver.py:46-108 | Options stand by descending score; equal scores by size, then by the dictionary order of their selections |
| StableSort.SortSorts | agent-core/reasoning/solver.py:108 | The sorted list is a descending permutation |
| StableSort.SortKeepsClass | agent-core/reasoning/solver.py:108 | Elements with equal scores keep their order |
| StableSort.SortPlaces | agent-core/reasoning/solver.py:108 | In positions: the sorted list rearranges the input, higher scores first and equal scores by place in the input |
| StableSort.StableSortIsUnique | agent-core/reasoning/solver.py:108 | Those facts determine the result: no other list satisfies them |
| ResponseCaching.ResponseCache.Get | agent-core/caching/response_cache.py:53-64 | A hit up to and including the expiry instant changes nothing; after it the entry is removed, its key goes from its courses and from no others, and the lookup misses |
| ResponseCaching.ResponseCache.Set | agent-core/caching/response_cache.py:66-75 | Stores the entry with its expiry and files the key under every course of the entry |
| ResponseCaching.ResponseCache.InvalidateCourse | agent-core/caching/response_cache.py:77-88 | Removes the filed keys and the course's index entry; the count is the number of entries removed |
| ResponseCaching.ResponseCache.FlushAll | agent-core/caching/response_cache.py:90-95 | Empties store and index; the count is the number of entries there were |
| ResponseCaching.ResponseCache.Evict | agent-core/caching/response_cache.py:97-102 | Removes the entry and strikes the key from its courses |
| ResponseCaching.LookupExact | agent-core/caching/response_cache.py:53-102 | Refinement over whole runs: with a clock that never goes back and keys that determine their courses, a lookup returns e iff the last set of the key stored e, has not expired, and no flush or invalidation of one of its courses followed |
| ResponseCaching.HitsAreLive | agent-core/caching/response_cache.py:53-64 | Without either assumption, every hit is still such a live entry |
| ResponseCaching.AlwaysSound | agent-core/caching/response_cache.py:66-102 | In every reachable state each stored key is filed under all courses of its entry |
| ResponseCaching.InvalidatedStaysOut | agent-core/caching/response_cache.py:77-88 | After an invalidation no lookup returns an entry listing the course unless a later set stored it |
| ResponseCaching.StaleIndexIff | agent-core/caching/response_cache.py:53-102 | Over whole runs with a clock that never goes back, lookups of a key agree with the timestamped map iff no event invalidated a course under which the key was filed while its entry, fresh and unended since, did not list that course |
| ResponseCaching.NextInvalidationIff | agent-core/caching/response_cache.py:77-88 | Ahead of time: the next invalidation and lookup agree with the timestamped map iff the key is filed under the course only if its entry lists it |
| ResponseCaching.StaleIndexLosesEntry | agent-core/caching/response_cache.py:66-88 | A key overwritten with other courses loses its live entry to an invalidation of an old course |
| CacheKeys.RawKeyExact | agent-core/caching/response_cache.py:47-50 | For plain course ids and a semester without a bar, two raw keys are equal iff query, courses as a multiset, and semester are equal |
| CacheKeys.SeparatorsCollide | agent-core/caching/response_cache.py:47-50 | A bar in a semester, a comma or a bar in a course id, or an empty course id makes different lookups share a raw key |
| RateLimiting.RateLimiter.IsRateLimited | api-gateway/middleware/rate_limit.py:32-44 | Prunes the key's list, then refuses or admits, leaving other keys alone |
| RateLimiting.StepExact | api-gateway/middleware/rate_limit.py:32-44 | A request is refused iff its key holds at least `rpm` times later than 60 seconds before it; those are kept, with the new one behind if it is admitted |
| RateLimiting.RecentPlaces | api-gateway/middleware/rate_limit.py:37 | Pruning keeps exactly the later times, in order |
| RateLimiting.HeldStandsForHistory | api-gateway/middleware/rate_limit.py:37-43 | In every run with a clock that never goes back, the pruned list and the full admission history agree on the current window, per key |
| RateLimiting.WindowBound | api-gateway/middleware/rate_limit.py:32-44 | For every key and every instant, at most rpm requests are admitted in the 60 seconds that end there |
| RateLimiting.RefusedIff | api-gateway/middleware/rate_limit.py:40-41 | A request is refused iff exactly rpm were admitted in the 60 seconds ending with it (always, if rpm is not positive) |
| RateLimiting.KeysIndependent | api-gateway/middleware/rate_limit.py:38-43 | Requests of other keys change neither the held list nor the admissions of a key |
| RateLimiting.ClockBackBreaksBound | api-gateway/middleware/rate_limit.py:34-43 | When the clock steps back, a limit of two admits requests at 100, 100, 200 and 101, three of them in one minute |
| ContentIsolation.SanitiseIsOnePass | agent-core/safety/content_isolation.py:68-76 | Two replacements and one pattern substitution together are a single left-to-right pass: own markers become the escape text, all others the strip text, everything else stays |
| ContentIsolation.RewriteFuses | agent-core/safety/content_isolation.py:70-76 | Two marker rewrites in a row fuse into one: neither creates a marker for the other |
| ContentIsolation.SanitisedHasNoMarkers | agent-core/safety/content_isolation.py:68-93 | At no position of a sanitised body does a begin or end marker around one or more characters of 0-9, a-f or A-F occur, whatever content and nonce |
| ContentIsolation.SanitiseMarker | agent-core/safety/content_isolation.py:68-93 | Wherever a marker stands in the content, it becomes the escape text if it carries the nonce and the strip text if not, and what is around it is sanitised on its own |
| ContentIsolation.WrapHoldsTwoMarkers | agent-core/safety/content_isolation.py:52-77 | A wrapped body holds exactly two markers: the begin marker of the nonce at its front and the end marker at its back |
| ContentIsolation.SanitiseUnchangedIff | agent-core/safety/content_isolation.py:68-93 | Content comes back unchanged iff it holds no marker |
| ContentIsolation.SanitiseIdempotent | agent-core/safety/content_isolation.py:68-93 | Sanitising again, under any nonce, changes nothing |
| ContentIsolation.FormatLines | agent-core/agents/query_agent.py:420-427 | The loop builds the heading and the wrapped chunks joined by newlines |
| ContentIsolation.FormatSpelled | agent-core/agents/query_agent.py:420-427 | The text: the heading with the count, then for each chunk a new line, the begin marker, the sanitised course and content, and the end marker |
| ContentIsolation.FormatRoundTrip | agent-core/agents/query_agent.py:420-427 | A parser that knows only the nonce recovers exactly the sanitised bodies, in order |
| InnerSafety.InnerSafetyCheck | agent-core/safety/inner/node.py:62-109 | Runs the layers up to the first that does not allow; persists the record exactly on a denial |
| InnerSafety.GateResultShape | agent-core/safety/inner/node.py:112-168 | The layer results are what the layers answered, in evaluation order up to the first denial; verdict, code and text are those of the last one, and the record repeats them with the tool, argument keys and session of the input |
| InnerSafety.AllowsIffAllLayersAllow | agent-core/safety/inner/node.py:82-109 | The gate allows iff all four layers do |
| InnerSafety.AuditSink.PersistAuditRecord | agent-core/safety/inner/audit.py:127-149 | Appends the record unless its id was written before |
| InnerSafety.RunActionStep | agent-core/agents/action_agent.py:201-247 | The plan path: unknown tool, denial or execution, each with its return value and its effect on the sink |
| InnerSafety.InnerSafetyNode | agent-core/agents/action_agent.py:311-351 | The subgraph's gate node: skipped only for a reply without a tool, otherwise the composer's verdict; a denial is persisted, answered with its reason and marked unsuccessful, an allowance changes nothing else |
| InnerSafety.FinalizeAudit | agent-core/agents/action_agent.py:390-405 | Persists the post-execution record on the allow path only |
| InnerSafety.RunSubgraph | agent-core/agents/action_agent.py:311-413 | The whole subgraph: which inputs reach the tool, what is recorded, and the uncaught lookup of an unregistered tool |
| InnerSafety.CallersAgree | agent-core/agents/action_agent.py:230-243 | Both callers leave the same record for the same tool outcome |
| InnerSafety.FinalAuditSpelled | agent-core/agents/action_agent.py:230-243 | That record: a success unless the result says otherwise or the tool raised, with the text of the exception or the message of a failed result |
| AuditRuns.ExactlyOnceAudit | agent-core/agents/action_agent.py:208-247 | Over every interleaving of both callers with fresh ids, a finished call has exactly one record, with the composer's verdict and code; the tool ran iff all four layers allowed, the record says so iff it did, and its success and error are the ones the tool ended with |
| AuditRuns.StepsAreMethods | agent-core/agents/action_agent.py:201-247 | The steps of one call, taken in turn, leave the sink, the invocation and the result that the callers' methods promise |
| AuditRuns.Provenance | agent-core/agents/action_agent.py:208-247 | The result a call carries is the composer's answer to its own input, and the outcome recorded is one its own tool call gave |
| AuditRuns.NoEarlyRecord | agent-core/safety/inner/node.py:148-153 | A call past the gate that has not finished has no record, so no post-execution record is dropped as a duplicate |
| AuditRuns.AuditLostIff | agent-core/agents/action_agent.py:368-373 | A call that can go no further left no record iff it came through the subgraph with an allowed, unregistered tool |
| AuditRuns.UnregisteredToolLosesAudit | agent-core/agents/action_agent.py:368-373 | A run in which all four layers allow a tool the registry lacks, and no record is left |
| AuditRuns.ExecutedToolsAreRegistered | agent-core/agents/action_agent.py:204-206 | No interleaving runs a tool that is not registered |
| AuditRuns.ReusedIdDropsRecord | agent-core/safety/inner/audit.py:142-149 | With a reused id the second record is dropped, whatever it says |
| GapAnalysis.Walk | agent-core/reasoning/gap_analysis.py:29-58 | Returns the and/or meaning of the tree and appends the report of its leaves in pre-order |
| GapAnalysis.ComputeUnsatisfied | agent-core/reasoning/gap_analysis.py:18-26 | Returns that report for the root |
| GapAnalysis.TreeSpelled | agent-core/reasoning/gap_analysis.py:36-57 | A leaf is satisfied iff at least `need` places of its pool are completed, an `and` iff all children are, an `or` iff one is; leaves come left to right |
| GapAnalysis.ReportExact | agent-core/reasoning/gap_analysis.py:36-50 | Exactly the leaves with too few completed places are reported, each with its id, its name or else its id, its pool, the number still missing and the completed entries |
| GapAnalysis.AlreadyIsFilter | agent-core/reasoning/gap_analysis.py:37 | What a leaf is already satisfied by are exactly the completed places of its pool, in pool order |
| GapAnalysis.SatisfiedMonotone | agent-core/reasoning/gap_analysis.py:36-57 | Completing courses never unsatisfies a requirement |
| GapAnalysis.ReportShrinks | agent-core/reasoning/gap_analysis.py:36-50 | As courses complete, no leaf joins the report and no need grows |
| GapAnalysis.ClosingTheGapIff | agent-core/reasoning/gap_analysis.py:41-49 | A later run reports nothing iff of every leaf that was unsatisfied at least as many further places were completed as it was missing |
| GapAnalysis.EmptyReportSatisfiesIff | agent-core/reasoning/gap_analysis.py:52-57 | With nothing to report, a tree is satisfied iff no childless `or` blocks it |
| GapAnalysis.EmptyReportMeansDone | agent-core/reasoning/gap_analysis.py:18-26 | An empty report means the root is satisfied when no `or` is childless |
| GapAnalysis.SatisfiedOrStillReports | agent-core/reasoning/gap_analysis.py:52-57 | A satisfied `or` still reports its other branch |
| Retrieval.ReciprocalRankFusion | agent-core/retrieval/hybrid.py:29-64 | Over lists that share and repeat document objects: the kept documents have the fused ids in order, each is the last listed with its id and carries the exact fused score, and no other document is written; a zero denominator fails before anything is written |
| Retrieval.ScoreIgnoresListOrder | agent-core/retrieval/hybrid.py:50-53 | The fused score is the same for every order of the lists |
| Retrieval.Dominates | agent-core/retrieval/hybrid.py:50-53 | A document ranked no worse in every list and present in one scores strictly more |
| Retrieval.FusedSound | agent-core/retrieval/hybrid.py:56-62 | The result lists retrieved ids once each, by descending score |
| Retrieval.KeptBeatsOmitted | agent-core/retrieval/hybrid.py:56-59 | No omitted document scores more than a kept one |
| Retrieval.DominatorFirst | agent-core/retrieval/hybrid.py:47-64 | A dominating document is kept whenever the dominated one is, and stands before it |
| RetrievalResults.ScoreSpelled | agent-core/retrieval/hybrid.py:50-53 | Each place at which a list names an id adds 1 / (k + rank), ranks from 1, and lists add up |
| RetrievalResults.FusedExact | agent-core/retrieval/hybrid.py:56-59 | The result holds the smaller of `top_n` and the number of distinct ids (a negative number cuts from the end), each once, each ahead of those behind it and of those left out: by score, then by first appearance |
| Retrieval.QuerySyllabus | agent-core/agents/query_agent.py:221-231 | Over several queries that rescore shared documents in place, the result is a function of what the queries retrieved, not of the stored scores |
| Retrieval.RankedExact | agent-core/agents/query_agent.py:222-231 | Each key once, by descending score, every entry a retrieval of some query, none outscored by another retrieval of its key |
| Retrieval.BestScorePerId | agent-core/agents/query_agent.py:222-231 | An id is returned iff some query has it among its first five, fused with constant 60, and with the maximum over the queries of its fused score |
| RetrievalResults.HitsExact | agent-core/retrieval/hybrid.py:29-64 | A query's hits are its at most five fused ids, each with the last listed document and its fused score |
| RetrievalResults.RankedInOrder | agent-core/agents/query_agent.py:221-231 | Over all queries: per document, by id or by object if the id is empty, the first of its best hits; by descending score, ties in the order of first hits |
| RetrievalResults.OneQuery | agent-core/agents/query_agent.py:221-231 | A single query returns its hits unchanged: five, or as many as there are distinct ids |
| Approvals.ApprovalServer.GetConnection | api-gateway/routes/sse.py:28-32 | Returns the user's queue, a new empty one on first use |
| Approvals.ApprovalServer.RemoveConnection | api-gateway/routes/sse.py:35-37 | Unregisters the user's queue |
| Approvals.ApprovalServer.PushEvent | api-gateway/routes/sse.py:40-44 | Appends to the registered queue, if any, and to no other |
| Approvals.ApprovalServer.CreateApprovalRequest | api-gateway/routes/sse.py:47-68 | Stores a pending request and tells the instructor |
| Approvals.ApprovalServer.ResolveApprovalRequest | api-gateway/routes/sse.py:76-82 | Sets the status of an existing request, and does nothing for a missing one |
| Approvals.ApprovalServer.HandleApproval | api-gateway/routes/approval.py:30-64 | On a pending request "approve" stores Approve and "reject" stores Reject, and both parties are told that decision; any other text is 400, a missing id 404 and a decided request 409 with its status, and these change nothing |
| Approvals.CardsOnEvent | web-dashboard/src/hooks/useApprovals.ts:24-50 | A request event puts a pending card in front unless its id has one; a result event sets the status of the cards with its id and changes nothing else |
| Approvals.EventKeepsIds | web-dashboard/src/hooks/useApprovals.ts:29-50 | Both list updates keep ids unique and lose no card |
| Approvals.ShownOnEvent | web-dashboard/src/hooks/useApprovals.ts:29-50 | An event touches the shown status of its own request only: a request event adds a pending card if there is none, a result event marks the card if there is one |
| DashboardAgreement.DecidedOnce | api-gateway/routes/approval.py:39-46 | Over every interleaving, a request is accepted for decision exactly once if it is decided and never if it is pending |
| DashboardAgreement.StatusSettles | api-gateway/routes/approval.py:43-46 | A request that has left pending never changes again |
| DashboardAgreement.StatusIsPosted | api-gateway/routes/approval.py:36-46 | Over every interleaving, a request stands approved iff "approve" was posted on it while it was pending, and rejected iff "reject" was |
| DashboardAgreement.CardsAgree | web-dashboard/src/hooks/useApprovals.ts:24-74 | In every reachable state each dashboard's cards have distinct ids and the request's own user and context, and a card that is not pending shows the gateway's status |
| SoleReader.OnlyReaderIsExact | web-dashboard/src/pages/InstructorDashboard.tsx:19-37 | While a tab is the only reader of its user's queue, reading the queue to its end leaves a card with exactly the gateway's status for every request put to that user since |
| SoleReader.SecondTabTakesEvents | api-gateway/routes/sse.py:28-32 | Two tabs of one user share a queue, so one can take an event the other then never shows |
| ApprovalRuns.CreateIsMethod | api-gateway/routes/sse.py:47-68 | The create step of the interleaving model changes store and queues as the method promises |
| ApprovalRuns.PostIsMethod | api-gateway/routes/approval.py:36-57 | So does a POST |
| ApprovalRuns.SubscribeIsMethod | api-gateway/routes/sse.py:28-32 | So does opening a stream |
| ApprovalRuns.DropIsMethod | api-gateway/routes/sse.py:35-37 | So does cancelling one |
| ApprovalRuns.DeliverSpelled | web-dashboard/src/pages/InstructorDashboard.tsx:19-37 | Delivering takes the front event of the queue the tab streams, updates that tab's cards with it and changes nothing else |
| ApprovalRuns.ReceiveSpelled | web-dashboard/src/hooks/useApprovals.ts:52-74 | An answer is received once; an accepted one marks the sender's cards of the request with the decision posted, any other changes no card |
| InjectionGuard.Classify | agent-core/safety/outer/prompt_guard.py:274-314 | The scan over text and recent turns keeps the best match, the earliest one on ties, and labels it |
| InjectionGuard.BestIsFirstHighest | agent-core/safety/outer/prompt_guard.py:282-302 | The kept match is the first of highest positive score |
| InjectionGuard.ScoreReaches | agent-core/safety/outer/prompt_guard.py:282-302 | The score reaches a level iff a pattern of that score matches the text, or one of that score over the discount matches one of the last three turns |
| InjectionGuard.ScoresStayInRange | agent-core/safety/outer/injection_guard.py:187-195 | Scores stay in [0, 1], so the guard's result is never routed to review as malformed |
| InjectionGuard.DeniesIff | agent-core/safety/outer/injection_guard.py:121-141 | Deny iff the current text itself matches a pattern scored at least 0.9; history alone never denies |
| InjectionGuard.FlagsIff | agent-core/safety/outer/injection_guard.py:143-159 | Flag iff the text does not reach a denial but matches a pattern scored at least 0.5, or one of the last three turns, read by content or printed form, matches one scored at least 0.5 / 0.8 |
| InjectionGuard.OlderTurnsIgnored | agent-core/safety/outer/prompt_guard.py:290 | Turns before the last three change neither verdict nor detail |
| InjectionGuard.DetailSpelled | agent-core/safety/outer/prompt_guard.py:282-302 | The kept match is a pattern of the text with its score and first 60 characters, or one of the last three turns with 0.8 of its score and its first 50 characters marked as history |
| InjectionGuard.ShippedVerdict | agent-core/safety/outer/prompt_guard.py:216-262 | With the shipped scores: the first five patterns in the text deny, the other three flag, and in a recent turn all but the polite one flag |
| InjectionGuard.OutcomesJudged | agent-core/safety/outer/injection_guard.py:76-166 | A time-out, an exception or a score outside [0, 1] is flagged; any other answer is judged at 0.5 and 0.9 |

## Left out

- The graph runtime is taken to be bulk-synchronous: supersteps, AND-joins on list sources, per-key reducers. Checkpointing, recursion limits and the rejection of an empty plan by the graph library are not part of this model.
- Step handlers, tools and safety layers are functions of what they are given; a handler that reads the world may answer differently per step but not per schedule. In the audit interleavings they may answer differently on every call.
- The rewritten text and the expansions that a syllabus query step may carry are handed to its handler beside the parameters; they hold no references and are not part of this model.
- The text form of `<from_step_N>` placeholders and the parsing of N are not part of this model: an argument is plain, a reference, or malformed.
- Exception objects stored as outputs carry their kind and the missing step or handler failure, not their message text; trace summaries and labels are left out.
- A step that lists itself as a dependency is rejected per step before the plan is validated; here it falls under the cycle check.
- PlanSchema.TopologicalLayers: requires distinct ids, which construction of a plan has already checked.
- The closing reply text of the action subgraph, and the copy of the final record onto the gate result it returns, are not part of this model.
- The sorted tuple of course codes is modelled as a multiset, which is equal exactly when the tuples are.
- Iteration over Python sets and dictionaries is modelled as arbitrary order where the code does not sort.
- Floating-point rounding: scores, times and discounts are reals.
- SHA-256, uuid and nonce generation: digests are taken as injective, ids as fresh, nonces as non-empty hex text. `strip` and `lower` on the query text are not part of this model.
- Audit records leave out timestamps, tenant ids and latencies, and keep the argument keys as a set.
- The asyncio queues are unbounded, so a push never suspends: a gateway call is one step, and only its answer travels separately. Queue ids stand for queue objects, so a queue that was unregistered can still be read to its end by the stream that holds it.
- The wire format of events and replies, authentication, and the student's chat view of approval events.
- The regular expressions of the injection guard are uninterpreted predicates; local and remote model clients are any client that times out, fails or answers with any score.
- Outer access rules, static rules and parameter validators are single lookups: they appear as abstract layers only.
- Prompt construction, coreference rewriting, intent parsing, gRPC and database services, health checks and rendering.
