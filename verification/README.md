# Verified models of the automation framework's stateful core

These Dafny modules model the parts of the framework that keep state under a contract and prove what they keep,
one module per source file:

| module | models |
|---|---|
| `Collections` | facts about finite sets and sequences the others share |
| `GraphTheory`, `WorkflowGraphs` | workflow graphs: node and edge updates, Kahn's sort, validation, deep clones, run metrics |
| `Optimizers`, `HillClimbing` | leaf pruning, prompt tuning and the hill-climbing loop on clones |
| `RateLimiting` | the sliding-window limiter |
| `FairSharing` | the per-user-bounded scheduler, as steps of submitters, loop and goroutines |
| `RequestQueueing` | the memory-budgeted worker queue, as steps of callers and workers |
| `BrowserPooling` | the bounded session pool |
| `UpstreamPooling` | weighted selection among healthy upstream nodes |
| `CircuitBreaking` | the circuit breaker with its ring of outcomes |
| `Promoting` | the promotion pipeline and the auto-promoter's gates |
| `Bandits` | the decaying contextual bandit |
| `PatternClustering` | leader clustering of UI patterns |
| `Calibrating` | Brier scores |
| `JsonText` | JSON values, their writer and their reader |
| `Coercing` | the repair of model actions |
| `AxTrees` | the bounded rendering of accessibility trees |

Objects the source updates in place are classes whose methods are proved against functions of the old state; the
concurrent parts are transition systems in which every lock region, channel operation and atomic operation is one
step, and their invariants hold for every interleaving. Go's map iteration order is arbitrary, floats are exact
reals, clocks are nondecreasing integers, and evaluators, factories, upstream calls and random draws are parameters
that may answer anything. Go's and Python's standard libraries are modelled only where a result depends on them: JSON
texts are read and written here as Python's `json` does.

`dafny verify dfyconfig.toml` checks the project.

## Where the code differs from its documentation

The model follows the code.

- `pkg/llm/fairshare.go:49-50` promises round-robin between users; dispatch is one first-in-first-out channel.
  A user can be dispatched as often as its queue is deep while another request waits, so users take turns exactly if
  queues hold one request (`OvertakingExactly`). Requests abandoned before dispatch are never removed from their
  queue, which can lock a user out for good, and nothing else does (`LockOutIsReachable`, `LockedOutExactly`).
- `pkg/llm/queue.go` checks the memory limit at admission against requests being processed only, so the counter can
  reach `MaxConcurrent` times the limit (`LimitHoldsExactlyForOneWorker`).
- `pkg/uiauto/circuit_breaker.go:79` limits concurrent requests in half-open to `HalfOpenMax`; the code only gives it
  a default, and the limit holds under no configuration (`HalfOpenLimitNeverHolds`). A wide window lets a closed
  breaker reach the configured threshold (`ClosedFailuresBelowExactly`).
- `pkg/evolver/auto_promoter.go:48-52` describes the cooldown by the mutation's signal ID; the code uses the signal
  passed in (`SpacedByMutationExactly`).
- `pkg/evolver/textgrad.go` and `optimization.go` may accept a worse score when the threshold is negative, or zero
  over a best score that is not positive (`TuningNeverFallsExactly`, `SearchNeverFallsExactly`).
- `pkg/uiauto/bandits/thompson.go:99` and `pkg/uiauto/bandits/config.go:48-50` describe the warmup as round-robin;
  the arms take turns exactly if it is one round long (`WarmupAlternatesExactly`).
- `pkg/uiauto/pattern_cluster.go:31-32` describes the threshold as one between any two patterns of a cluster; members
  are compared with the seed only (`MembersCloseExactly`).
- `pkg/llm/upstream_pool.go` never reads the healthy threshold; it is kept exactly if it is at most one
  (`HealthyThresholdKeptExactly`).
- `pkg/eval/calibration.go` replaces an empty distribution, so adding a zero class to one does change its score
  (`ZeroClassHarmlessExactly`).
- `containers/browser-use/server.py:270-274` cannot be reached, and some rejected elements are not counted
  (`CleanBranchIsDead`, `FlagIsExact`); prose already wrapped in `done` does not fail closed
  (`ProseFailsClosedExactly`).
- `eval/miniwob/sidecar.py:98-103` promises that actionable lines always survive; they do exactly if they fit the
  budget (`ActionableSurviveExactly`).

## Model

| member | source | states |
|---|---|---|
| WorkflowGraphs.WorkflowGraph.TopologicalSortUnlocked | pkg/evolver/workflow_graph.go:231-266 | fails exactly when the edges, repeated ones included, hold a cycle; otherwise the order lists every node once and every edge goes forward, whatever order the map iteration takes |
| WorkflowGraphs.WorkflowGraph.TopologicalSort | pkg/evolver/workflow_graph.go:147-189 | the exported sort gives the same verdict and kind of order; the shortcut for the empty graph agrees with the algorithm |
| WorkflowGraphs.WorkflowGraph.DegreeTables | pkg/evolver/workflow_graph.go:155-163 | an in-degree is the number of incoming edges, an edge listed twice counting twice; the adjacency list of a node lists its targets with the same multiplicity |
| WorkflowGraphs.IncomingAfterFinishing | pkg/evolver/workflow_graph.go:177-182 | finishing a node lowers a target's open in-degree by the number of edges to it, not by one |
| WorkflowGraphs.Release | pkg/evolver/workflow_graph.go:177-182 | lowers the in-degrees by all edges of the finished node and releases exactly the targets that reach zero, each once |
| WorkflowGraphs.KahnStep | pkg/evolver/workflow_graph.go:173-183 | each round of the main loop keeps the invariant: order and queue hold distinct nodes, the table equals the edges from unfinished nodes, and the queue is exactly the unfinished nodes without any |
| WorkflowGraphs.KahnEnd | pkg/evolver/workflow_graph.go:185-188 | when the queue runs dry, the order is complete if and only if the graph is acyclic, and is then topological |
| GraphTheory.TopologicalOrderExcludesCycles | pkg/evolver/workflow_graph.go:147-189 | no graph with a topological order has a cycle |
| GraphTheory.StuckSetHoldsCycle | pkg/evolver/workflow_graph.go:185-187 | a non-empty set of nodes each with a predecessor in it holds a cycle: why an incomplete order means one |
| GraphTheory.Pigeonhole | pkg/evolver/workflow_graph.go:185-187 | a walk longer than the set it stays in repeats a node, and says where |
| WorkflowGraphs.WorkflowGraph.DfsReachable | pkg/evolver/workflow_graph.go:222-229 | terminates, marks only what the start reaches, and leaves no edge from a newly marked node to an unmarked one |
| GraphTheory.ClosedHoldsReachable | pkg/evolver/workflow_graph.go:222-229 | a set closed under the edges holds all its members reach, so the marks are the whole reachable set |
| WorkflowGraphs.WorkflowGraph.Validate | pkg/evolver/workflow_graph.go:192-220 | accepts exactly the non-empty acyclic graphs whose entry exists and reaches every node, and names the first of the five faults otherwise |
| WorkflowGraphs.WorkflowGraph.AddNode | pkg/evolver/workflow_graph.go:69-90 | rejects a missing ID, a missing name, then a known ID; otherwise exactly one fresh node object is added, and the graph owns it, the caller's tool list and the caller's or a created configuration in addition to what it owned |
| WorkflowGraphs.WorkflowGraph.AddEdge | pkg/evolver/workflow_graph.go:93-120 | rejects empty ends, unknown ends, then self-edges; otherwise appends the edge, even a repeated one |
| WorkflowGraphs.WorkflowGraph.RemoveNode | pkg/evolver/workflow_graph.go:123-144 | removes the node and exactly the edges that touch it, and clears the entry if it was the entry |
| WorkflowGraphs.RemovingLeafKeepsValidation | pkg/evolver/workflow_graph.go:123-144 | a graph that passes validation still does after losing a node without outgoing edges other than its entry |
| WorkflowGraphs.WorkflowNode.Copy | pkg/evolver/workflow_graph.go:286-298 | the copy of a node has the same content and its own tool list and configuration |
| WorkflowGraphs.WorkflowGraph.Clone | pkg/evolver/workflow_graph.go:269-317 | same content; no object of the clone existed before, and no two of its nodes share a tool list or configuration |
| WorkflowGraphs.WorkflowGraph.RecordRun | pkg/evolver/workflow_graph.go:320-337 | after every run the counters and both running means equal those of the complete run history |
| WorkflowGraphs.AfterRunIsMetricsOf | pkg/evolver/workflow_graph.go:325-336 | the incremental correction of the means computes the mean of the longer history |
| WorkflowGraphs.WorkflowGraph.SuccessRate | pkg/evolver/workflow_graph.go:340-348 | a rate in [0, 1] that times the number of runs gives the number of successes, zero without runs |
| Optimizers.AFlowOptimizer.PruneLeafNodes | pkg/evolver/textgrad.go:282-315 | for every iteration order: the graph afterwards is the original without the pruned nodes; each of these was a leaf at the start, none was the entry and the score never dropped; every other leaf was visited and refused; a graph that passed validation still does |
| Optimizers.AFlowOptimizer.TryPrune | pkg/evolver/textgrad.go:299-311 | the score of the clone without the node is the score of the pruned graph; the graph is touched only if that score reaches the bar |
| Optimizers.AFlowOptimizer.ScoreWithout | pkg/evolver/textgrad.go:299-305 | scoring happens on a disjoint clone and answers for exactly the graph that loses the node |
| Optimizers.AFlowOptimizer.OutDegrees | pkg/evolver/textgrad.go:285-291 | the table built once at the start is positive exactly for the nodes with an outgoing edge |
| Optimizers.PruningKeepsValidation | pkg/evolver/textgrad.go:293-312 | the stale out-degree table stays sound: leaves of the original can be removed one after the other and the graph still passes validation, with the same entry and no new edge |
| Optimizers.PrunedGraphScoresAtLeastBaseline | pkg/evolver/textgrad.go:299-311 | no intermediate graph scores below the starting baseline |
| Optimizers.VisitAndPrune | pkg/evolver/textgrad.go:293-312 | one more accepted removal keeps the account of which leaves were pruned, which refused and against which bar |
| Optimizers.TextGradOptimizer.OptimizePrompt | pkg/evolver/textgrad.go:64-130 | the graph ends with exactly the kept revisions of one prompt and no other change; the reported scores are those of the graph before and after; it stops early only where the next revision is unchanged or not accepted; missing node and failed baseline leave the graph as it was |
| Optimizers.TextGradOptimizer.TryPrompt | pkg/evolver/textgrad.go:95-118 | the candidate prompt is taken exactly if its score gains enough over the best so far, and the old prompt is restored otherwise |
| Optimizers.TunerAcceptsExactly | pkg/evolver/textgrad.go:109-114 | over a positive best score a prompt is taken if and only if it scores at least best x (1+threshold); otherwise exactly for a threshold of at most zero |
| Optimizers.TunerNeverLosesExactly | pkg/evolver/textgrad.go:109-114 | the acceptance test excludes worse scores exactly for a positive threshold, or for a zero threshold over a positive best score |
| Optimizers.TuningNeverFallsExactly | pkg/evolver/textgrad.go:88-123 | no tuning run falls, under any evaluator and any revision of prompts, if and only if the threshold is positive, or zero over a positive baseline |
| Optimizers.TakenRevisionsCompound | pkg/evolver/textgrad.go:86-118 | k kept revisions multiply a positive baseline by at least (1+threshold)^k |
| HillClimbing.WorkflowOptimizer.Optimize | pkg/evolver/optimization.go:83-173 | the caller's graph is unchanged; the best graph is made of fresh objects and has the caller's shape; the best score is its score; the history has iterations+1 entries ending in it and is that of a search: in each round mutations of the best graph are tried in turn, up to the first that gains enough, or else all; totalMutations counts exactly the scored ones; the run converged exactly if its last three rounds took nothing; the run is recorded once; no result exactly when the baseline cannot be scored |
| HillClimbing.WorkflowOptimizer.Rounds | pkg/evolver/optimization.go:110-168 | ends only on convergence, cancellation, an empty graph or a spent budget, with a sound result each time |
| HillClimbing.WorkflowOptimizer.TryRound | pkg/evolver/optimization.go:119-167 | one iteration, accepted or not, keeps result, working copy and the count of rounds without improvement consistent |
| HillClimbing.WorkflowOptimizer.TryMutations | pkg/evolver/optimization.go:124-156 | every mutation is tried on a clone, in order, up to the first whose score gains enough, which is taken; without one all were tried and each could not be applied, could not be scored or did not gain enough; `scored` counts the scored ones |
| HillClimbing.WorkflowOptimizer.ApplyMutation | pkg/evolver/optimization.go:235-262 | changes exactly the one field its kind names in the one target node, and rejects unknown targets and kinds with no change |
| HillClimbing.WorkflowOptimizer.WriteTool | pkg/evolver/optimization.go:251-255 | overwriting a slot of a node's tool list shows in that node only, since the clone's nodes share no list |
| HillClimbing.WorkflowOptimizer.GenerateMutations | pkg/evolver/optimization.go:176-213 | as many mutations as configured, at least one, all of known kinds and for existing nodes; none exactly for a graph without nodes |
| HillClimbing.ToolNameExactly | pkg/evolver/optimization.go:253-254 | a swapped-in tool is named by the digits of a number below 100 |
| HillClimbing.MutationKeepsShape | pkg/evolver/optimization.go:235-262 | no mutation changes nodes, edges or entry |
| HillClimbing.AcceptsExactly | pkg/evolver/optimization.go:140-147 | over a positive best score a candidate is taken if and only if it scores at least best x (1+threshold); otherwise a gain counts as one and anything else as zero |
| HillClimbing.AcceptingNeverLosesExactly | pkg/evolver/optimization.go:140-147 | the acceptance test excludes worse scores exactly for a positive threshold, or for a zero threshold over a positive best score |
| HillClimbing.HistoryNeverFalls | pkg/evolver/optimization.go:83-173 | with a positive threshold, or a zero one over a positive baseline, the history never decreases |
| HillClimbing.SearchNeverFallsExactly | pkg/evolver/optimization.go:83-173 | from any graph with a node, no search falls under any evaluator if and only if the threshold is positive, or zero over a positive baseline |
| HillClimbing.SearchGoesOn | pkg/evolver/optimization.go:119-167 | one more round of trials extends the search, its count of scored candidates and its count of rounds that took nothing |
| HillClimbing.FlatExactly | pkg/evolver/optimization.go:119-167 | with a positive threshold the best score stays the same in a round if and only if every generated mutation was tried and refused |
| HillClimbing.ConvergedIsStuck | pkg/evolver/optimization.go:161-167 | a converged run ended with three rounds that tried all their mutations of the best graph and took none, whatever the threshold |
| HillClimbing.HistoryCompounds | pkg/evolver/optimization.go:83-173 | from a positive baseline the last score is at least baseline x (1+threshold)^improvements |
| HillClimbing.HistoryGrows | pkg/evolver/optimization.go:140-167 | one more round keeps the history sound and counts exactly how long it has been flat; with a positive threshold every accepted round is an improvement and no other is |
| HillClimbing.SoundResultIsGood | pkg/evolver/optimization.go:83-173 | the best graph passes validation if the caller's did, and its score has compounded |
| RateLimiting.RateLimiter.TryAcquire | pkg/llm/rate_limited.go:63-87 | one lock region: whether a grant is made depends on all grants ever made although old ones were discarded; a refused caller is told exactly when the oldest grant in the window expires; with a limit of zero the code indexes an empty list |
| RateLimiting.RateLimiter.WaitForSlot | pkg/llm/rate_limited.go:61-99 | for an undisturbed caller: at most one sleep, and only if the window is full; a grant without sleep otherwise; the clock never goes back; the branch for a non-positive wait is never taken; with a limit of zero the code crashes |
| RateLimiting.RateLimiter.Prune | pkg/llm/rate_limited.go:68-76 | the in-place compaction keeps exactly the entries after the cutoff, in order |
| RateLimiting.RateLimiter.Stats | pkg/llm/rate_limited.go:102-114 | counts the grants of the last window among all grants ever made, never more than the limit |
| RateLimiting.RateLimiter.constructor | pkg/llm/rate_limited.go:39-51 | for a limit that is not negative: a window of zero becomes one minute; nothing has been granted |
| RateLimiting.NewRateLimiter | pkg/llm/rate_limited.go:39-51 | there is no limiter for a negative RequestsPerMinute+BurstSize, since make panics on a negative capacity, and a fresh one otherwise |
| RateLimiting.WindowHoldsAtMostLimit | pkg/llm/rate_limited.go:61-99 | every half-open window of the configured length holds at most RequestsPerMinute+BurstSize grants |
| RateLimiting.GrantLogsExactly | pkg/llm/rate_limited.go:68-82 | the readings at which a limiter can grant are exactly the ordered sequences in which any entry and the one limit places later are a window apart |
| RateLimiting.Replay | pkg/llm/rate_limited.go:61-82 | every such sequence is granted by calls at its times |
| RateLimiting.RateLimiter.GrantsAreGrantLog | pkg/llm/rate_limited.go:61-82 | and whatever the calls, the grants are such a sequence |
| RateLimiting.ClosedWindowExactly | pkg/llm/rate_limited.go:68-82 | the bound is one for half-open windows: what windows closed at both ends are held to in all grant logs is exactly twice the limit |
| RateLimiting.PruneRetains | pkg/llm/rate_limited.go:68-76 | pruning discards nothing a later decision would need |
| RateLimiting.WaitIsPositive | pkg/llm/rate_limited.go:84-91 | a full window holds exactly the limit, and the wait is positive and at most the window |
| RateLimiting.WaitedLongEnough | pkg/llm/rate_limited.go:84-98 | after the announced wait the oldest retained grant has expired and one fewer is live |
| CircuitBreaking.ClosedFailuresBelowExactly | pkg/uiauto/circuit_breaker.go:280-305 | a closed breaker has fewer than FailureThreshold consecutive failures in every run if and only if WindowSize <= 10 x (FailureThreshold-1) or FailureThreshold >= 5, above which the code never raises it |
| CircuitBreaking.ClosedFailuresBounded | pkg/uiauto/circuit_breaker.go:280-305 | for any window it has at most FailureThreshold |
| CircuitBreaking.NoEarlyTrip | pkg/uiauto/circuit_breaker.go:280-305 | a closed breaker opens only on a failure, and never before max(1, FailureThreshold-1) consecutive ones |
| CircuitBreaking.RunKeepsInvariant | pkg/uiauto/circuit_breaker.go:236-332 | in every run the history ends in at least as many failures as are counted as consecutive, and a closed breaker stays within its bound |
| CircuitBreaking.TightWindowIsNotLenient | pkg/uiauto/circuit_breaker.go:203-221 | with a tight window a tail of failures keeps the adapted threshold from being raised |
| CircuitBreaking.ThresholdExactly | pkg/uiauto/circuit_breaker.go:203-221 | the adapted threshold by the counts in the window: lowered, not below 1, if more than half of the outcomes are failures, raised below 5 if fewer than a tenth are or none is known, the configured one otherwise |
| CircuitBreaking.LooseRun | pkg/uiauto/circuit_breaker.go:203-221 | with a loose window, a window of successes followed by FailureThreshold failures leaves the breaker closed |
| CircuitBreaking.OpenUntilDue | pkg/uiauto/circuit_breaker.go:236-305 | an open breaker rejects everything and does not trip again, whatever successes and failures are reported to it meanwhile, until the open duration has passed since its last failure or it is reset |
| CircuitBreaking.FailureReopens | pkg/uiauto/circuit_breaker.go:280-305 | a failure that reaches a half-open breaker before SuccessThreshold successes reopens it and counts as a trip; from then on nothing is admitted until the open duration has passed since that failure, short of a reset |
| CircuitBreaking.HalfOpenIsProbing | pkg/uiauto/circuit_breaker.go:236-305 | whenever a breaker is half-open it became so by a request that was due, and has heard no failure and fewer than SuccessThreshold successes since |
| CircuitBreaking.FewFailuresStayClosed | pkg/uiauto/circuit_breaker.go:280-332 | after a reset a breaker stays closed for FailureThreshold-2 failures, whatever is reported between them |
| CircuitBreaking.ClosesAfterSuccesses | pkg/uiauto/circuit_breaker.go:260-277 | half-open closes after exactly SuccessThreshold successes in a row |
| CircuitBreaking.HalfOpenLimitNeverHolds | pkg/uiauto/circuit_breaker.go:79 | no configuration limits the requests in half-open as line 79 says: from the initial state every breaker can be opened and then, once due, lets HalfOpenMax+1 requests in with no outcome between them |
| CircuitBreaking.DueAdmitsAny | pkg/uiauto/circuit_breaker.go:236-257 | an open breaker that is due lets any number of requests in a row through |
| CircuitBreaking.PushKeepsRing | pkg/uiauto/circuit_breaker.go:223-232 | overwriting the oldest slot keeps the ring equal to the last WindowSize outcomes |
| CircuitBreaking.RingCountsWindow | pkg/uiauto/circuit_breaker.go:185-200 | counting the filled slots in storage order counts the last outcomes |
| CircuitBreaking.RateCompared | pkg/uiauto/circuit_breaker.go:203-221 | the rate thresholds one half and one tenth without division |
| CircuitBreaking.CircuitBreaker.WindowFailureRate | pkg/uiauto/circuit_breaker.go:185-200 | the failure rate of the last WindowSize outcomes of the whole history, zero without a window |
| CircuitBreaking.CircuitBreaker.EffectiveFailureThreshold | pkg/uiauto/circuit_breaker.go:203-221 | the ring-based threshold is the one the outcome history prescribes |
| CircuitBreaking.CircuitBreaker.PushOutcome | pkg/uiauto/circuit_breaker.go:223-232 | appends to the history while the ring is overwritten in place |
| CircuitBreaking.CircuitBreaker.Allow | pkg/uiauto/circuit_breaker.go:236-257 | refines the step and the admission verdict of the abstract breaker |
| CircuitBreaking.CircuitBreaker.RecordSuccess | pkg/uiauto/circuit_breaker.go:260-277 | refines the success step |
| CircuitBreaking.CircuitBreaker.RecordFailure | pkg/uiauto/circuit_breaker.go:280-305 | refines the failure step, with the threshold of the window before this failure |
| CircuitBreaking.CircuitBreaker.CurrentState | pkg/uiauto/circuit_breaker.go:308-317 | shows the state the next Allow would produce, without changing anything |
| CircuitBreaking.CircuitBreaker.Reset | pkg/uiauto/circuit_breaker.go:320-332 | refines the reset step: closed and without consecutive counts, while outcome window and totals stay |
| CircuitBreaking.CircuitBreaker.constructor | pkg/uiauto/circuit_breaker.go:126-154 | settings that are not positive are replaced, and the breaker starts closed with an empty history |
| BrowserPooling.RunKeepsInvariant | pkg/uiauto/browser_iface.go:75-144 | in every interleaving active + idle <= maxSize, factory calls outside the lock included, and each created session is in exactly one of idle, leased, closed |
| BrowserPooling.InvariantKeptExactly | pkg/uiauto/browser_iface.go:75-144 | the only possible step that breaks the accounting is the release of a session that is not leased, so it holds exactly while each lease is released once |
| BrowserPooling.OnlyOnePlace | pkg/uiauto/browser_iface.go:75-144 | counting idle list, leases and close calls, a created session occurs once and any other not at all |
| BrowserPooling.ShutdownClosesEachOnce | pkg/uiauto/browser_iface.go:117-144 | after CloseAll and the end of every lease and factory call, each session ever created was closed exactly once |
| BrowserPooling.FullMeansAllOut | pkg/uiauto/browser_iface.go:85-107 | a caller has to wait only while every slot is a lease or a factory call in progress |
| BrowserPooling.ReleasedIsNextReused | pkg/uiauto/browser_iface.go:79-84 | the session released last is the one leased next, and the two steps cancel out |
| BrowserPooling.ReleaseKeepsInvariant | pkg/uiauto/browser_iface.go:117-131 | an open pool never closes a returned session: the branch for a full idle list is dead when each lease is released once |
| BrowserPooling.ClosedServesNobody | pkg/uiauto/browser_iface.go:75-114 | from a closed pool no run leases an idle session or begins a factory call |
| BrowserPooling.BrowserPool.TryAcquire | pkg/uiauto/browser_iface.go:75-114 | one pass of the loop refines the abstract step; the lease counter also counts creations that fail later |
| BrowserPooling.BrowserPool.FactoryReturns | pkg/uiauto/browser_iface.go:95-106 | a failed factory call gives its slot back; a successful one leases the new session even if the pool was closed meanwhile |
| BrowserPooling.BrowserPool.Release | pkg/uiauto/browser_iface.go:117-131 | refines the release step for any session; a sound pool stays sound if and only if the session was leased |
| BrowserPooling.BrowserPool.CloseAll | pkg/uiauto/browser_iface.go:134-144 | refines the close step; a second call does nothing |
| RequestQueueing.MemoryBounded | pkg/llm/queue.go:92-209 | in every interleaving memoryBytes is the sum of the estimates of the requests being processed, at most MaxConcurrent x the byte limit, and the in-flight counter is the number of requests between its two updates |
| RequestQueueing.LimitHoldsExactlyForOneWorker | pkg/llm/queue.go:108-122 | the byte limit itself holds in every run if and only if there is one worker; otherwise MaxConcurrent times the limit is reached |
| RequestQueueing.ExactlyOneReply | pkg/llm/queue.go:160-209 | a reply never blocks a worker, no request is answered twice, every request a worker is done with was answered, and requests are taken in the order sent |
| RequestQueueing.ReplyExactly | pkg/llm/queue.go:186-209 | in every run a request's reply is the response or the error of the model call that a worker answered it with |
| RequestQueueing.OutcomeExactly | pkg/llm/queue.go:101-158 | in every run a call has returned with an outcome exactly if the step that gives it happened; after a shutdown a reply that is there is still taken |
| RequestQueueing.TurnedAwayExactly | pkg/llm/queue.go:110-123 | a call returns that the queue is full if and only if its first reading of the memory counter was too high and so was the one after backing off |
| RequestQueueing.ReadingsBefore | pkg/llm/queue.go:110-140 | a call backs off only after a reading that was too high, and is admitted only after one that fitted |
| RequestQueueing.ShutdownDrains | pkg/llm/queue.go:160-184 | when the last worker leaves after a shutdown, everything sent until then has been answered |
| RequestQueueing.ShutdownCanFinish | pkg/llm/queue.go:160-184 | from every reachable state a shutdown can be brought to its end with every worker gone: no worker waits for ever |
| RequestQueueing.StepKeepsCounters | pkg/llm/queue.go:186-194 | each step keeps both counters equal to what the workers contribute |
| RequestQueueing.StepKeepsReplies | pkg/llm/queue.go:160-209 | each step keeps the number of replies of every request exact |
| RequestQueueing.Configured | pkg/llm/queue.go:67-79 | settings that are not positive are replaced by positive ones, all others kept |
| RequestQueueing.DefaultEstimateMemory | pkg/llm/queue.go:211-220 | four bytes per character of all messages, at least one kilobyte |
| FairSharing.SchedulerIsSafe | pkg/llm/fairshare.go:102-241 | in every interleaving: at most MaxConcurrency requests inside processRequest; no user queue above MaxQueueDepth, each holding exactly that user's admitted requests not yet removed, the abandoned ones included; at most 10 x MaxQueueDepth requests in the channel; dispatch in the order of sends; one reply per answered or dropped request and none before |
| FairSharing.ReplyExactly | pkg/llm/fairshare.go:157-224 | in every run a request's reply is the response exactly if it was processed with success before, the failure exactly if its processing failed, and the error of a closed scheduler or a cancelled context exactly if the loop dropped it for that reason |
| FairSharing.OutcomeExactly | pkg/llm/fairshare.go:102-155 | in every run a submission has returned with an outcome exactly if the step that gives it happened: a full queue at admission, a closed scheduler, a cancelled context or a received reply, and such a reply was sent to this request |
| FairSharing.ClosedExactly | pkg/llm/fairshare.go:157-267 | the scheduler is closed exactly from Close on, and the loop has stopped exactly once it saw this, for good |
| FairSharing.CloseCanFinish | pkg/llm/fairshare.go:261-267 | from every reachable state Close can be brought to its end, the loop having stopped |
| FairSharing.OvertakingExactly | pkg/llm/fairshare.go:49-50 | while a request waits in the channel, no user has more than n requests taken out of it, in any run, if and only if MaxQueueDepth <= n: the round-robin of lines 49-50 is the case n = 1 |
| FairSharing.ChannelShareExactly | pkg/llm/fairshare.go:138-167 | no user ever has more than n requests in the channel if and only if MaxQueueDepth <= n |
| FairSharing.TakenWereAhead | pkg/llm/fairshare.go:164-170 | whatever is taken while a request waits stood ahead of it when its wait began |
| FairSharing.StepKeepsQueue | pkg/llm/fairshare.go:120-136 | each step keeps a user's queue equal to that user's admitted, not yet removed requests |
| FairSharing.StepKeepsChannel | pkg/llm/fairshare.go:138-167 | the channel is first in, first out and no request enters it twice |
| FairSharing.StepKeepsTokens | pkg/llm/fairshare.go:160-190 | the tokens taken are exactly those of requests between acquisition and release, at most MaxConcurrency; the in-flight counter lags behind |
| FairSharing.StepKeepsCoherent | pkg/llm/fairshare.go:102-191 | submitter, worker and reply stages of each request stay consistent |
| FairSharing.StepKeepsLoop | pkg/llm/fairshare.go:157-191 | the loop holds exactly the request that is between the channel and its goroutine |
| FairSharing.AbandonedForEver | pkg/llm/fairshare.go:138-144 | a request abandoned before dispatch or dropped at the semaphore stays in its user's queue in every continuation |
| FairSharing.AbandonedExactly | pkg/llm/fairshare.go:138-177 | a request becomes abandoned exactly by its submitter leaving between admission and send, or by the loop dropping it at the semaphore |
| FairSharing.LockedOutForEver | pkg/llm/fairshare.go:120-124 | a user whose queue is full of abandoned requests is rejected by every later submission |
| FairSharing.LockedOutExactly | pkg/llm/fairshare.go:102-241 | in every reachable state of an open scheduler, some continuation without Close admits another request of the user if and only if the queue of that user is not full of abandoned requests |
| FairSharing.RoomCanBeMade | pkg/llm/fairshare.go:157-241 | a request that is not abandoned can always be brought to its removal while the scheduler is open, which makes room in its queue |
| FairSharing.Progress | pkg/llm/fairshare.go:157-241 | whatever such a request waits for, a full channel, the loop or a token, some step brings that forward |
| FairSharing.LockOutIsReachable | pkg/llm/fairshare.go:102-155 | such a lock-out can be reached for every user and every configuration while the scheduler is open |
| FairSharing.RemoveFromQueue | pkg/llm/fairshare.go:226-241 | removes the first occurrence of the request and keeps the order of the rest |
| FairSharing.Configured | pkg/llm/fairshare.go:72-82 | limits that are not positive are replaced by positive ones, all others kept |
| PatternClustering.ClusterEngine.ClusterPatterns | pkg/uiauto/pattern_cluster.go:41-87 | one cluster per seed in sorted ID order; its members are the seed and every pattern whose earliest close seed it is, with the average confidence and latest update of exactly these |
| PatternClustering.ClusterEngine.Collect | pkg/uiauto/pattern_cluster.go:58-80 | the inner loop takes exactly the patterns the seed owns and marks only these |
| PatternClustering.ClustersPartition | pkg/uiauto/pattern_cluster.go:41-87 | every ID is a member of exactly one cluster, that of the earliest seed close to it |
| PatternClustering.MembersCloseExactly | pkg/uiauto/pattern_cluster.go:31-80 | any two members of one cluster are similar, whatever the patterns, if and only if two fingerprints similar to a common first one are always similar to each other |
| PatternClustering.SeedsAreDetermined | pkg/uiauto/pattern_cluster.go:51-80 | the seeds are the only set in which no seed is close to an earlier one and every other pattern is close to an earlier seed |
| PatternClustering.OwnerExists | pkg/uiauto/pattern_cluster.go:51-80 | every pattern has a seed at or before it that owns it |
| PatternClustering.OwnerIsUnique | pkg/uiauto/pattern_cluster.go:51-80 | and only one |
| PatternClustering.UnownedIsSeed | pkg/uiauto/pattern_cluster.go:51-54 | a pattern is unassigned when its turn comes exactly if it is close to no earlier seed |
| PatternClustering.SortedIds | pkg/uiauto/pattern_cluster.go:42-46 | the IDs in strictly increasing order, whatever the map iteration |
| PatternClustering.SortedIsUnique | pkg/uiauto/pattern_cluster.go:42-46 | there is only one such order, so the clustering does not depend on the iteration order of the map |
| PatternClustering.BelowTransitive | pkg/uiauto/pattern_cluster.go:46-46 | the string order the sort uses is transitive |
| PatternClustering.AvgConfidence | pkg/uiauto/pattern_cluster.go:89-98 | the mean confidence of the members, zero for none |
| PatternClustering.ClusterEngine.constructor | pkg/uiauto/pattern_cluster.go:33-38 | a threshold outside (0, 1] becomes 0.6 |
| Promoting.PromotionPipeline.Submit | pkg/evolver/promotion.go:87-126 | replaces any earlier record; the new status follows from evaluation, risk and the two switches, and approval is automatic only for low risk without human review; the counters grow by what happened and nothing else |
| Promoting.PromotionPipeline.Approve | pkg/evolver/promotion.go:129-148 | only an evaluated record can be approved; every other call changes nothing |
| Promoting.PromotionPipeline.Reject | pkg/evolver/promotion.go:151-167 | any known record can be rejected, a promoted one as well |
| Promoting.PromotionPipeline.Promote | pkg/evolver/promotion.go:170-196 | only an approved record can be promoted, and only after its capsule was saved; a failed save changes nothing |
| Promoting.PromotionPipeline.Rollback | pkg/evolver/promotion.go:199-217 | only a promoted record can be rolled back |
| Promoting.LedgerBounds | pkg/evolver/promotion.go:87-217 | in every run rolledBack <= promoted <= approved <= evaluated <= submitted |
| Promoting.LedgerAfterUpdate | pkg/evolver/promotion.go:87-217 | the ledger between counters and record states survives any change of one record that moves the counters along |
| Promoting.AutoPromoter.Process | pkg/evolver/auto_promoter.go:151-236 | the verdict is that of all gates in order on the complete histories, and the histories afterwards are those the abstract step prescribes; a gated mutation never reaches the pipeline; a promotion is booked exactly when every gate passed, and then the mutation is low-risk, allow-listed and evaluated as passing and its capsule was saved before; a failed save leaves the record approved; the clock moves on to the reading of this call at most, so calls can follow each other; each verdict moves its own counter and no other |
| Promoting.CountersAreVerdicts | pkg/evolver/auto_promoter.go:151-236 | with Process counting each verdict once, the counters are the numbers of promotions, of rejections by risk or category, of exhausted budgets, of active cooldowns and of failed builders; no other verdict counts |
| Promoting.AutoPromoter.RollbackBudgetExceeded | pkg/evolver/auto_promoter.go:258-271 | filters the list in place; the verdict is that of the complete rollback history |
| Promoting.AutoPromoter.RecordRollback | pkg/evolver/auto_promoter.go:242-246 | appends to the history |
| Promoting.AutoPromoter.PassesHistory | pkg/evolver/auto_promoter.go:164-190 | budget and cooldown verdicts are those of the complete histories of rollbacks and promotions |
| Promoting.AutoPromoter.RecordPromotion | pkg/evolver/auto_promoter.go:228-231 | booking a promotion keeps the cooldown table exact and every booked promotion sound |
| Promoting.AutoPromoter.constructor | pkg/evolver/auto_promoter.go:122-142 | a zero budget becomes three, an empty allow-list the three default categories |
| Promoting.TrimKeepsRecent | pkg/evolver/auto_promoter.go:258-271 | with a nondecreasing clock a trimmed list gives the same count as the full one at every later cutoff |
| Promoting.RecentOfRecent | pkg/evolver/auto_promoter.go:258-271 | filtering twice with nondecreasing cutoffs filters once |
| Promoting.TableDecidesCooling | pkg/evolver/auto_promoter.go:176-190 | the table of last promotions decides the cooldown as the complete history would |
| Promoting.PromotionKeepsSpacing | pkg/evolver/auto_promoter.go:176-190 | promotions of one signal stay at least MinCooldownPerSignal apart |
| Promoting.SpacedByMutationExactly | pkg/evolver/auto_promoter.go:48-52 | every run, with the caller passing the signal f names for a mutation, keeps promotions of one mut.SignalID the cooldown apart, as lines 48-52 say, if and only if there is no cooldown or f gives any two promotable mutations of equal SignalID the same signal: the code keys on the signal passed in (lines 177 and 229) |
| Promoting.PromotedTwice | pkg/evolver/auto_promoter.go:151-236 | otherwise two attempts at one instant for one SignalID are both promoted |
| Promoting.PlayedKeepsRecord | pkg/evolver/auto_promoter.go:151-271 | in every run of attempts and rollbacks all promotions passed the gates, stand in the order of time, and are the cooldown apart for each signal passed in |
| UpstreamPooling.UpstreamPool.Select | pkg/llm/upstream_pool.go:110-164 | no node exactly if no healthy candidate exists; otherwise the one the draw picks, to which exactly Weight of the possible draws lead |
| UpstreamPooling.UpstreamPool.Collect | pkg/llm/upstream_pool.go:114-124 | candidates are the healthy nodes of the tier in pool order, with their total weight |
| UpstreamPooling.Pick | pkg/llm/upstream_pool.go:129-136 | the decrementing loop finds the candidate whose weight interval holds the draw; the trailing return is unreachable |
| UpstreamPooling.DrawPicksOne | pkg/llm/upstream_pool.go:129-136 | no draw lies in two intervals |
| UpstreamPooling.DrawsProportionalToWeight | pkg/llm/upstream_pool.go:129-136 | exactly Weight draws map to each candidate |
| UpstreamPooling.UpstreamPool.constructor | pkg/llm/upstream_pool.go:61-82 | every node starts healthy with a weight of at least one and the failure count it comes with |
| UpstreamPooling.UpstreamPool.MarkUnhealthy | pkg/llm/upstream_pool.go:167-177 | counts one failure, and a node is healthy afterwards exactly if it was and the count is below the threshold; health stays a function of the latest streak of failures |
| UpstreamPooling.UpstreamPool.MarkHealthy | pkg/llm/upstream_pool.go:180-185 | restores the node at once and clears its count |
| UpstreamPooling.HealthyThresholdKeptExactly | pkg/llm/upstream_pool.go:234-241 | recovery only after HealthyThreshold successes in a row holds in every run if and only if that threshold is at most one: the code never reads it |
| UpstreamPooling.UpstreamNode.Note | pkg/llm/upstream_pool.go:228-255 | marks and probes keep the failure count equal to the failures since the last success, or to those and the count the node came with, and health equal to the threshold test on it |
| Bandits.ContextualBandit.SelectArm | pkg/uiauto/bandits/thompson.go:100-133 | during warmup the first cold arm; afterwards the first arm with the highest sample net of cost; an unknown context gets its priors |
| Bandits.ContextualBandit.Update | pkg/uiauto/bandits/thompson.go:138-162 | decays the context, then adds the observation, for any reward, and keeps the pull counter equal to the sum of all trials |
| Bandits.ParametersAreDecayedWorth | pkg/uiauto/bandits/thompson.go:138-162 | over any run of updates of a context, each arm's alpha is its prior plus the decayed sum of the rewards of its own pulls, and beta its prior plus the decayed sum of one minus them |
| Bandits.MeanFollowsReward | pkg/uiauto/bandits/thompson.go:156-157 | a larger reward leaves a strictly larger mean |
| Bandits.ContextualBandit.TotalPulls | pkg/uiauto/bandits/thompson.go:177-181 | equals the sum of Trials over all contexts and arms |
| Bandits.ContextualBandit.BestArm | pkg/uiauto/bandits/thompson.go:192-213 | the first arm with the best mean net of cost; the light one for an unknown context |
| Bandits.ContextualBandit.Reset | pkg/uiauto/bandits/thompson.go:216-221 | forgets every context and pull |
| Bandits.UpdateKeepsExact | pkg/uiauto/bandits/thompson.go:138-162 | every update, whatever the reward, keeps the total excess equal to the decayed number of observations and no arm lighter than its priors; for a reward in [0,1] neither parameter falls below its prior |
| Bandits.RewardKeepsPriorExactly | pkg/uiauto/bandits/thompson.go:156-157 | a reward keeps every arm at or above its priors if and only if it is in [0,1] |
| Bandits.UpdateCountsTrial | pkg/uiauto/bandits/thompson.go:156-161 | one trial more, for the arm that was played and no other |
| Bandits.ExcessBounded | pkg/uiauto/bandits/thompson.go:138-162 | an arm's excess over its priors is at most its Trials, and at most 1/(1-DecayFactor) when decay is below 1 |
| Bandits.DecayedWeightBounds | pkg/uiauto/bandits/thompson.go:148-154 | the geometric sum behind these bounds |
| Bandits.WarmupTrials | pkg/uiauto/bandits/thompson.go:111-116 | after n of the warmup picks the trials are spread light first, then smart, then VLM |
| Bandits.WarmupOrder | pkg/uiauto/bandits/thompson.go:111-116 | the first 3 x WarmupRounds picks of a context are that many light, then smart, then VLM |
| Bandits.WarmupEnds | pkg/uiauto/bandits/thompson.go:111-116 | afterwards no arm is cold |
| Bandits.WarmupAlternatesExactly | pkg/uiauto/bandits/thompson.go:99-116 | the picks of the warmup take the three arms in turn, as the comments say, if and only if WarmupRounds <= 1 |
| Bandits.TrialsOfPick | pkg/uiauto/bandits/thompson.go:177-181 | the sum of trials does not depend on the iteration order of the map |
| Bandits.TrialsAfterUpdate | pkg/uiauto/bandits/thompson.go:138-181 | replacing one context changes the sum by exactly that context's difference |
| Calibrating.MulticlassBrier | pkg/eval/calibration.go:44-67 | the sum of squared deviations over all listed classes and the golden one, in whatever order the map is walked |
| Calibrating.MeanBriers | pkg/eval/calibration.go:15-41 | each mean is over the graded decisions of its own kind, zero without any |
| Calibrating.ScoreRange | pkg/eval/calibration.go:44-67 | for a non-negative distribution of sum at most 1, listing the golden class or not, the score is in [0,2], and 0 exactly if the golden class has probability 1 |
| Calibrating.ZeroClassDoesNotScore | pkg/eval/calibration.go:44-67 | classes of probability zero do not change the score of a distribution |
| Calibrating.ZeroClassHarmlessExactly | pkg/eval/calibration.go:44-56 | for a decision this holds if and only if its distribution is not empty, since an empty one is replaced |
| Calibrating.OneHotScore | pkg/eval/calibration.go:44-56 | a certain pick scores 0 if right and 2 if wrong |
| Calibrating.NoulScoreExactly | pkg/eval/calibration.go:23-30 | a noul value scores the square of its distance from the truth: zero exactly if right for certain, one for certainly wrong |
| Calibrating.EmptyIsProper | pkg/eval/calibration.go:44-50 | an empty distribution scores as a one-hot on Got |
| Calibrating.MeansInRange | pkg/eval/calibration.go:15-41 | the choice mean stays in [0,2] and, for noul values in [0,1], the noul mean in [0,1] |
| Calibrating.TotalsInRange | pkg/eval/calibration.go:15-41 | the running totals stay in range after every record |
| Calibrating.SumOfSquares | pkg/eval/calibration.go:57-66 | squares of non-negative numbers sum to at most the square of their sum |
| Calibrating.SumPick | pkg/eval/calibration.go:57-66 | the sum over the class set does not depend on its order |
| Coercing.FlagIsExact | containers/browser-use/server.py:226-314 | for every JSON element: `unfixed` is raised exactly if the element put back is not one declared action with all required fields (and, for done(), no undeclared one), except for the elements IsUnnoticed names: non-objects other than strings, and an all-declared done() with a key beside it or without text |
| Coercing.CleanBranchIsDead | containers/browser-use/server.py:270-274 | a rewritten done() never equals the original, so the branch that was to flag a clean done() beside extra keys cannot be taken |
| Coercing.DoneKeepsDeclared | containers/browser-use/server.py:202-223 | a done() dict is rewritten exactly if it has an undeclared field; then success and files_to_display are the original ones, present or absent, only declared fields remain, and text is the own non-blank text or the collapsed extras |
| Coercing.DoneTextNotBlank | containers/browser-use/server.py:121-146 | the collapsed answer is never blank |
| Coercing.CollapsedHoldsLeaves | containers/browser-use/server.py:132-145 | every non-blank string among the extras is found whole in the collapsed text |
| Coercing.LeavesExactly | containers/browser-use/server.py:133-143 | the collapsed strings are exactly the non-blank ones at any depth of the extras, lists not entered |
| Coercing.LeavesInOrder | containers/browser-use/server.py:133-143 | they are collected in the order of the fields |
| Coercing.JoinInOrder | containers/browser-use/server.py:144-145 | and joined in that order |
| Coercing.ActionNeverSwapped | containers/browser-use/server.py:226-314 | apart from the unwrapped text of a done(), the keys of an element stay as they are, and so does everything beside a done() |
| Coercing.RenameMovesOneValue | containers/browser-use/server.py:305-312 | a rewritten action carries the misnamed field's value under the declared name and every other field as it was |
| Coercing.MisnamedIsRepaired | containers/browser-use/server.py:195-199 | input with `value`, extract with `prompt` and search_page with `query` end accepted, the value under the declared name |
| Coercing.CoercedTwice | containers/browser-use/server.py:226-314 | coercing an element twice gives the element coerced once; the flag repeats exactly unless a done() that is a string or has an undeclared field stands beside another key, which the second pass no longer counts |
| Coercing.ChangedExactly | containers/browser-use/server.py:226-314 | an element reports a change exactly if it comes back different |
| Coercing.ProseFailsClosedExactly | containers/browser-use/server.py:247-295 | prose becomes a done() with that text, with success = false exactly if the `done` wrapper was added here; a string under `done` gets no success field, for which lines 248-251 give the library's default as true |
| Coercing.CoerceActions | containers/browser-use/server.py:336-346 | the list keeps length and order, each element replaced by its coercion, with exact counts of changed and unfixed ones |
| Coercing.CoerceDoneShape | containers/browser-use/server.py:317-353 | the text comes back unchanged unless some action differs, otherwise with the action list alone replaced; the shared counter grows by exactly these counts |
| Coercing.TextHoldsRepair | containers/browser-use/server.py:317-353 | read as JSON, the returned text is the completion with the repaired action list, whether it was rewritten or not |
| Coercing.ProseFailsInText | containers/browser-use/server.py:247-295 | in the returned text, prose that came without a done() reads back as a done() with that text and success = false |
| Coercing.OnlyActionsChange | containers/browser-use/server.py:317-353 | every other top-level field keeps its place and value |
| Coercing.CoercedAllTwice | containers/browser-use/server.py:338-344 | coercing a list twice is coercing it once |
| Coercing.ReshapedTwice | containers/browser-use/server.py:317-353 | a completion that has been repaired is left alone by a second repair, for every text |
| Coercing.EveryElementAccountedFor | containers/browser-use/server.py:336-347 | inspected elements = accepted + counted as uncoerced + unnoticed: the residual counter falls short by exactly the last |
| Coercing.NoneChanged | containers/browser-use/server.py:338-349 | no element counts as changed exactly if the list is unchanged |
| JsonText.LoadsDumps | containers/browser-use/server.py:329-351 | every value whose objects repeat no key and whose numbers are spelled as numbers is read back from what is written for it |
| JsonText.LoadsWellFormed | containers/browser-use/server.py:329-331 | whatever is read is such a value |
| JsonText.StringReadsBack | containers/browser-use/server.py:350-351 | an escaped string is read back as that string and no further |
| JsonText.EscapeReadsBack | containers/browser-use/server.py:329-331 | every character written as an escape, or as a surrogate pair of two, is read as that character |
| JsonText.NumbersExactly | containers/browser-use/server.py:329-331 | a text is taken as a number exactly if it is composed of sign, whole part without leading zero, fraction and exponent, or is NaN, Infinity or -Infinity |
| JsonText.PairsOfDistinct | containers/browser-use/server.py:329-331 | pairs without a repeated key are the fields of the dict they make |
| AxTrees.Flattener.Flatten | eval/miniwob/sidecar.py:78-145 | the lines are those of the walk over all roots, and the text is the bounded rendering of them |
| AxTrees.Flattener.Emit | eval/miniwob/sidecar.py:104-122 | appends exactly the lines of the subtree, one level deeper below a rendered node and at the same level below an ignored one |
| AxTrees.Flattener.constructor | eval/miniwob/sidecar.py:92-95 | the children of every parent, and the roots, filed in list order |
| AxTrees.EmissionEndsExactly | eval/miniwob/sidecar.py:104-125 | for an arbitrary node list, the recursion ends, with paths no longer than the list, if and only if no path from a root meets a node twice |
| AxTrees.IdentifiedEnds | eval/miniwob/sidecar.py:104-125 | it does end if the nodes have distinct ids |
| AxTrees.WalkVisitsEachOnce | eval/miniwob/sidecar.py:104-123 | the walk visits exactly the paths from a root, in document order, each once |
| AxTrees.LinesAreTheVisibleTree | eval/miniwob/sidecar.py:104-125 | one line for each path from a root to a node that is not ignored, so one for each such node when ids are distinct, in document order, with the bid and the indentation of its rendered ancestors |
| AxTrees.PathUnique | eval/miniwob/sidecar.py:104-123 | with distinct ids a node hangs on one path only |
| AxTrees.Prune | eval/miniwob/sidecar.py:125-145 | the loop over the list with its running size computes the specified pruning |
| AxTrees.PruneKeepsActionable | eval/miniwob/sidecar.py:128-142 | the prune drops no actionable line and moves none |
| AxTrees.PruneStopsAtFirstFit | eval/miniwob/sidecar.py:134-142 | decorative lines go from the end only, and no more than needed; if the text still does not fit, no decorative line is left |
| AxTrees.ActionableSurviveExactly | eval/miniwob/sidecar.py:128-145 | actionable lines always survive, as lines 98-103 promise, if and only if they fit the budget by themselves; otherwise they are cut too, and the observation exceeds the bound by the notice |
| AxTrees.JoinedLength | eval/miniwob/sidecar.py:134-140 | the running size equals the joined length while a line is left, and is -1 where the joined length is 0 |
| AxTrees.SplitJoined | eval/miniwob/sidecar.py:127-127 | splitting the text at newlines gives the lines back in order, if no caption holds a newline |
| AxTrees.PruneStep | eval/miniwob/sidecar.py:135-140 | deleting one decorative line lowers the size by its length and newline and gives the next candidate |
| AxTrees.Cut | eval/miniwob/sidecar.py:134-140 | the largest prefix length whose decorative lines may stay, or 0 if none fits |

## Left out

- Timestamps of graphs (`CreatedAt`, `UpdatedAt`) and of optimisation runs: nothing proved here depends on them.
- WorkflowGraphs.WorkflowGraph.Clone: edges are values, since no code writes an edge after AddEdge, so the fresh edge objects and data mappings of lines 300-309 are not expressed; a nil and an empty tool list are one value.
- The accounting of `AFlowOptimizer.Optimize` around the prune, and `addParallelPaths`, which marks the configuration of every node with two or more incoming edges in place.
- The text heuristics of `computeGradient` and `applyGradient`: any function from prompt to prompt; the score they are given ends up in a feedback text only.
- Evaluators that answer differently for equal graphs: the evaluator is a function of the graph's content.
- HillClimbing.WorkflowOptimizer.Optimize: requires that the optimizer object is not part of the graph's footprint, which Go's types guarantee.
- RateLimiting.RateLimiter.WaitForSlot: proved for a caller that nobody disturbs; under contention each lock region is TryAcquire, proved for every state, and no bound on the attempts is claimed.
- RateLimiting.RateLimiter.TryAcquire: the panic for a limit of zero is an outcome here, as the one for a negative limit is of NewRateLimiter.
- The scheduler and the queue as objects with channels and mutexes: their steps act on values, so memory-level races and aliasing of request pointers are not captured; a worker's draining flag is merged with leaving once the queue is closed and empty.
- FairSharing.OvertakingExactly: speaks of requests in the channel; the order in which Go wakes submitters blocked at a full channel is not modelled, so nothing bounds how often those are overtaken.
- Liveness of the scheduler and fairness among the pool's waiters: what can be reached is claimed, not that it is.
- Promoting.PromotionPipeline.Submit: records are values; callers that keep the returned pointer and see later updates through it are not captured.
- Promoting.AutoPromoter.Process: modelled as one sequential step, since the code checks and acts under separate lock holds; races between two calls are not captured.
- Bandits.ContextualBandit.SelectArm: a Beta sample is any number in [0, 1]; Gamma and Beta sampling are not modelled, nor is the pseudo-random seed.
- Bandits.UpdateKeepsExact: requires a decay factor of at least zero; a negative one, which the code does not reject, flips signs.
- Bandits.ContextualBandit.BestArm: requires priors of positive sum and that decay, so that no mean divides by zero; the code goes on with a NaN.
- UpstreamPooling.UpstreamPool.Select: the random source is any function with results in range; how even its draws are is not modelled.
- UpstreamPooling.UpstreamPool.Collect: reads all health flags in one state; the code locks node by node, so a mark between two reads can show in one flag and not in another.
- Health probes over HTTP, the health loop's timing and the pool's logger.
- The similarity function of the cluster engine: any function, symmetric or not; drift and confidence scoring, which only clamp one number.
- Rounding of floats everywhere: rates, means and scores are exact.
- JsonText.LoadsDumps: a number is its literal, which Python would write anew from its value (1e2 as 100.0); an escaped lone surrogate, which Python reads and a character cannot hold here, is not read; Python's limits on nesting and on the digits of an integer are not modelled.
- Numeric equality such as 1 == 1.0 or True == 1, which no result of the repair depends on.
- AxTrees.Flattener.Flatten: requires that the emission ends; for every other list the code recurses for ever.
- The rendering of role, name, value and bid into a line's caption, and the JSON dump of an input that is no node list.
- HTTP handlers, browser control, subprocesses, persistence, metrics export, prompts, reply parsing, reports and command-line code: input and output without state of their own.
- Pattern maturity tracking, fleet coordination, the approval gate and the feedback loop: they would add only easy members.
