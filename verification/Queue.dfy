/** The bounded request queue of pkg/llm/queue.go. */
module RequestQueueing {
  import opened Collections

  // Every channel operation, atomic counter operation and check is one action of a caller or of a worker; a run is any
  // interleaving. Requests are numbered in order of arrival. Deadlines and model calls only decide which enabled
  // action happens.

  datatype Config = Config(maxPending: nat, maxConcurrent: nat, maxMemory: nat)

  /** Settings that are not positive are replaced; the memory limit is given in megabytes. */
  function Configured(maxPending: int, maxConcurrent: int, maxMemoryMB: int): (c: Config)
    ensures c.maxPending > 0 && c.maxConcurrent > 0 && c.maxMemory >= 1024 * 1024
    ensures maxPending > 0 ==> c.maxPending == maxPending
    ensures maxConcurrent > 0 ==> c.maxConcurrent == maxConcurrent
    ensures maxMemoryMB > 0 ==> c.maxMemory == maxMemoryMB * 1024 * 1024
    ensures maxPending <= 0 && maxConcurrent <= 0 && maxMemoryMB <= 0 ==> c == Config(100, 4, 0x2000_0000)
  {
    Config(
      if maxPending <= 0 then 100 else maxPending,
      if maxConcurrent <= 0 then 4 else maxConcurrent,
      (if maxMemoryMB <= 0 then 512 else maxMemoryMB) * 1024 * 1024)
  }

  /** What a worker answers with: the model's response, or its error. */
  datatype Reply = Response | Failure

  datatype Outcome = Got(reply: Reply) | QueueFull | ShuttingDown | Cancelled

  /** Where a call of Complete stands. */
  datatype Caller =
    | Arrived
    | Checked                     // saw the queue open
    | BackingOff                  // first memory check failed
    | Admitted                    // a memory check passed
    | Waiting                     // request is in the channel or beyond
    | Returned(outcome: Outcome)

  datatype Request = Request(estimate: nat, caller: Caller, replies: seq<Reply>)

  /** Where a worker stands in processRequest, with its request and estimate. */
  datatype Worker =
    | Idle
    | Taken(id: nat, estimate: nat)
    | Charged(id: nat, estimate: nat)    // memory added
    | Counted(id: nat, estimate: nat)    // in-flight counter up, the model is being called
    | Answered(id: nat, estimate: nat)   // reply sent
    | Uncounted(id: nat, estimate: nat)  // in-flight counter down
    | Exited

  datatype State = State(
    cfg: Config,
    requests: seq<Request>,
    pending: seq<nat>,
    workers: seq<Worker>,
    memory: int,
    inflight: int,
    done: bool,
    sent: seq<nat>,   // everything ever put into the channel
    taken: seq<nat>   // everything ever taken out of it
  )

  function Start(cfg: Config): State {
    State(cfg, [], [], seq(cfg.maxConcurrent, i => Idle), 0, 0, false, [], [])
  }

  datatype Action =
    | Arrive(estimate: nat)
    | CheckOpen(id: nat)
    | CheckMemory(id: nat)
    | RecheckMemory(id: nat)
    | Send(id: nat)
    | GiveUp(id: nat)
    | SeeShutdown(id: nat)
    | Receive(id: nat)
    | Close
    | Take(w: nat)
    | Charge(w: nat)
    | Count(w: nat)
    | Answer(w: nat, ok: bool)
    | Uncount(w: nat)
    | Discharge(w: nat)
    | Exit(w: nat)

  predicate CallerIs(s: State, id: nat, cs: set<Caller>) {
    id < |s.requests| && s.requests[id].caller in cs
  }

  predicate Enabled(s: State, a: Action) {
    match a
    case Arrive(_) => true
    case CheckOpen(id) => CallerIs(s, id, {Arrived})
    case CheckMemory(id) => CallerIs(s, id, {Checked})
    case RecheckMemory(id) => CallerIs(s, id, {BackingOff})
    case Send(id) => CallerIs(s, id, {Admitted}) && |s.pending| < s.cfg.maxPending
    case GiveUp(id) => CallerIs(s, id, {BackingOff, Admitted, Waiting})
    case SeeShutdown(id) => CallerIs(s, id, {Admitted, Waiting}) && s.done
    case Receive(id) => CallerIs(s, id, {Waiting}) && s.requests[id].replies != []
    case Close => true
    case Take(w) => w < |s.workers| && s.workers[w].Idle? && s.pending != [] && s.pending[0] < |s.requests|
    case Charge(w) => w < |s.workers| && s.workers[w].Taken?
    case Count(w) => w < |s.workers| && s.workers[w].Charged?
    case Answer(w, _) => w < |s.workers| && s.workers[w].Counted? && s.workers[w].id < |s.requests|
                      && |s.requests[s.workers[w].id].replies| < 1  // both reply channels hold one value
    case Uncount(w) => w < |s.workers| && s.workers[w].Answered?
    case Discharge(w) => w < |s.workers| && s.workers[w].Uncounted?
    case Exit(w) => w < |s.workers| && s.workers[w].Idle? && s.done && s.pending == []
  }

  function WithCaller(s: State, id: nat, c: Caller): State
    requires id < |s.requests|
  {
    s.(requests := s.requests[id := s.requests[id].(caller := c)])
  }

  function WithWorker(s: State, w: nat, p: Worker): State
    requires w < |s.workers|
  {
    s.(workers := s.workers[w := p])
  }

  predicate Fits(s: State, id: nat)
    requires id < |s.requests|
  {
    s.memory + s.requests[id].estimate <= s.cfg.maxMemory
  }

  function Step(s: State, a: Action): State
    requires Enabled(s, a)
  {
    match a
    case Arrive(estimate) => s.(requests := s.requests + [Request(estimate, Arrived, [])])
    case CheckOpen(id) => WithCaller(s, id, if s.done then Returned(ShuttingDown) else Checked)
    case CheckMemory(id) => WithCaller(s, id, if Fits(s, id) then Admitted else BackingOff)
    case RecheckMemory(id) => WithCaller(s, id, if Fits(s, id) then Admitted else Returned(QueueFull))
    case Send(id) => WithCaller(s, id, Waiting).(pending := s.pending + [id], sent := s.sent + [id])
    case GiveUp(id) => WithCaller(s, id, Returned(Cancelled))
    case SeeShutdown(id) =>
      var r := s.requests[id];
      WithCaller(s, id, Returned(if r.caller == Waiting && r.replies != [] then Got(r.replies[0]) else ShuttingDown))
    case Receive(id) => WithCaller(s, id, Returned(Got(s.requests[id].replies[0])))
    case Close => s.(done := true)
    case Take(w) =>
      var id := s.pending[0];
      WithWorker(s, w, Taken(id, s.requests[id].estimate)).(pending := s.pending[1..], taken := s.taken + [id])
    case Charge(w) =>
      var p := s.workers[w];
      WithWorker(s, w, Charged(p.id, p.estimate)).(memory := s.memory + p.estimate)
    case Count(w) =>
      var p := s.workers[w];
      WithWorker(s, w, Counted(p.id, p.estimate)).(inflight := s.inflight + 1)
    case Answer(w, ok) =>
      var p := s.workers[w];
      var r := s.requests[p.id];
      WithWorker(s, w, Answered(p.id, p.estimate)).(requests := s.requests[p.id := r.(replies := r.replies + [if ok then Response else Failure])])
    case Uncount(w) =>
      var p := s.workers[w];
      WithWorker(s, w, Uncounted(p.id, p.estimate)).(inflight := s.inflight - 1)
    case Discharge(w) => WithWorker(s, w, Idle).(memory := s.memory - s.workers[w].estimate)
    case Exit(w) => WithWorker(s, w, Exited)
  }

  ghost predicate Follows(s: State, a: Action, t: State) {
    Enabled(s, a) && Step(s, a) == t
  }

  ghost predicate IsRun(states: seq<State>, actions: seq<Action>) {
    && |states| == |actions| + 1
    && forall i :: 0 <= i < |actions| ==> Follows(states[i], actions[i], states[i + 1])
  }

  // ------------------------------------------------------------ the counters

  /** What a worker contributes to the memory counter and to the in-flight counter. */
  function MemoryOf(p: Worker): nat {
    match p
    case Charged(_, e) => e
    case Counted(_, e) => e
    case Answered(_, e) => e
    case Uncounted(_, e) => e
    case _ => 0
  }

  function InflightOf(p: Worker): nat {
    if p.Counted? || p.Answered? then 1 else 0
  }

  function Sum(ws: seq<Worker>, f: Worker -> nat): nat {
    if ws == [] then 0 else Sum(ws[..|ws| - 1], f) + f(ws[|ws| - 1])
  }

  lemma {:induction false} SumAfterUpdate(ws: seq<Worker>, f: Worker -> nat, w: nat, p: Worker)
    requires w < |ws|
    ensures Sum(ws[w := p], f) == Sum(ws, f) - f(ws[w]) + f(p)
  {
    var front := ws[..|ws| - 1];
    if w == |ws| - 1 {
      assert ws[w := p][..w] == front;
    } else {
      SumAfterUpdate(front, f, w, p);
      assert ws[w := p][..|ws| - 1] == front[w := p];
    }
  }

  lemma {:induction false} SumAtMost(ws: seq<Worker>, f: Worker -> nat, bound: nat)
    requires forall i :: 0 <= i < |ws| ==> f(ws[i]) <= bound
    ensures Sum(ws, f) <= |ws| * bound
  {
    if ws != [] {
      SumAtMost(ws[..|ws| - 1], f, bound);
      assert |ws| * bound == (|ws| - 1) * bound + bound;
    }
  }

  lemma {:induction false} SumOfZeros(ws: seq<Worker>, f: Worker -> nat)
    requires forall i :: 0 <= i < |ws| ==> f(ws[i]) == 0
    ensures Sum(ws, f) == 0
  {
    if ws != [] {
      SumOfZeros(ws[..|ws| - 1], f);
    }
  }

  // ------------------------------------------------------------- invariants

  predicate Holds(p: Worker) {
    !p.Idle? && !p.Exited?
  }

  predicate IsWorkerAction(a: Action) {
    a.Take? || a.Charge? || a.Count? || a.Answer? || a.Uncount? || a.Discharge? || a.Exit?
  }

  /** The two counters equal what the workers contribute. */
  ghost predicate CountersExact(s: State) {
    && |s.workers| == s.cfg.maxConcurrent
    && s.memory == Sum(s.workers, MemoryOf)
    && s.inflight == Sum(s.workers, InflightOf)
  }

  /** Every estimate beyond admission is within the limit. */
  ghost predicate EstimatesFit(s: State) {
    && (forall i :: 0 <= i < |s.workers| && Holds(s.workers[i]) ==> s.workers[i].estimate <= s.cfg.maxMemory)
    && (forall i :: 0 <= i < |s.pending| ==>
          s.pending[i] < |s.requests| && s.requests[s.pending[i]].estimate <= s.cfg.maxMemory)
    && (forall i :: 0 <= i < |s.requests| && s.requests[i].caller == Admitted ==> s.requests[i].estimate <= s.cfg.maxMemory)
  }

  lemma StepKeepsCounters(s: State, a: Action)
    requires CountersExact(s) && Enabled(s, a)
    ensures CountersExact(Step(s, a)) && Step(s, a).cfg == s.cfg
  {
    hide Sum;
    if IsWorkerAction(a) {
      var p := Step(s, a).workers[a.w];
      assert Step(s, a).workers == s.workers[a.w := p];
      SumAfterUpdate(s.workers, MemoryOf, a.w, p);
      SumAfterUpdate(s.workers, InflightOf, a.w, p);
    } else {
      assert Step(s, a).workers == s.workers;
    }
  }

  lemma StepKeepsEstimates(s: State, a: Action)
    requires EstimatesFit(s) && s.memory >= 0 && Enabled(s, a)
    ensures EstimatesFit(Step(s, a))
  {
    var t := Step(s, a);
    forall i | 0 <= i < |t.pending|
      ensures t.pending[i] < |t.requests| && t.requests[t.pending[i]].estimate <= t.cfg.maxMemory
    {
      match a
      case Take(_) => assert t.pending[i] == s.pending[i + 1];
      case _ => assert i < |s.pending| ==> t.pending[i] == s.pending[i];
    }
  }

  // ----------------------------------------------------------------- replies

  predicate Unanswered(p: Worker, id: nat) {
    (p.Taken? || p.Charged? || p.Counted?) && p.id == id
  }

  ghost predicate AwaitsAnswer(s: State, id: nat) {
    exists w :: 0 <= w < |s.workers| && Unanswered(s.workers[w], id)
  }

  predicate BeforeChannel(c: Caller) {
    c.Arrived? || c.Checked? || c.BackingOff? || c.Admitted?
  }

  /** The channel is first in, first out, and no request enters it twice. */
  ghost predicate ChannelExact(s: State) {
    && s.sent == s.taken + s.pending && |s.pending| <= s.cfg.maxPending
    && Distinct(s.sent)
    && forall i :: 0 <= i < |s.sent| ==> s.sent[i] < |s.requests| && !BeforeChannel(s.requests[s.sent[i]].caller)
  }

  /** No two workers hold the same request, and what they hold came out of the channel. */
  ghost predicate WorkersApart(s: State) {
    && (forall w :: 0 <= w < |s.workers| && Holds(s.workers[w]) ==> s.workers[w].id in s.taken)
    && forall v, w :: 0 <= v < w < |s.workers| && Holds(s.workers[v]) && Holds(s.workers[w]) ==>
         s.workers[v].id != s.workers[w].id
  }

  /** A request has been answered once if a worker took it and is past answering it, and not at all otherwise. */
  ghost predicate RepliesExact(s: State) {
    forall id :: 0 <= id < |s.requests| ==>
      |s.requests[id].replies| == if id in s.taken && !AwaitsAnswer(s, id) then 1 else 0
  }

  lemma SendKeepsChannel(s: State, id: nat)
    requires ChannelExact(s) && Enabled(s, Send(id))
    ensures ChannelExact(Step(s, Send(id)))
  {
    assert id !in s.sent;
    assert s.sent + [id] == s.taken + (s.pending + [id]);
  }

  lemma TakeKeepsChannel(s: State, w: nat)
    requires ChannelExact(s) && Enabled(s, Take(w))
    ensures ChannelExact(Step(s, Take(w)))
  {
    assert s.taken + s.pending == (s.taken + [s.pending[0]]) + s.pending[1..];
  }

  lemma StepKeepsChannel(s: State, a: Action)
    requires ChannelExact(s) && Enabled(s, a)
    ensures ChannelExact(Step(s, a))
  {
    if a.Send? {
      SendKeepsChannel(s, a.id);
    } else if a.Take? {
      TakeKeepsChannel(s, a.w);
    } else {
      var t := Step(s, a);
      assert t.sent == s.sent && t.taken == s.taken && t.pending == s.pending;
      assert |t.requests| >= |s.requests|;
      assert forall id :: 0 <= id < |s.requests| && !BeforeChannel(s.requests[id].caller) ==>
                            !BeforeChannel(t.requests[id].caller);
    }
  }

  /** What is still in the channel was not taken before. */
  lemma HeadIsNew(s: State)
    requires ChannelExact(s) && s.pending != []
    ensures s.pending[0] !in s.taken
  {
    assert s.sent[|s.taken|] == s.pending[0];
    forall i | 0 <= i < |s.taken| ensures s.taken[i] != s.pending[0] {
      assert s.sent[i] == s.taken[i];
    }
  }

  lemma StepKeepsWorkersApart(s: State, a: Action)
    requires ChannelExact(s) && WorkersApart(s) && Enabled(s, a)
    ensures WorkersApart(Step(s, a))
  {
    var t := Step(s, a);
    if a.Take? {
      HeadIsNew(s);
      assert t.workers == s.workers[a.w := t.workers[a.w]];
    } else {
      assert t.taken == s.taken;
      assert forall v :: 0 <= v < |s.workers| && Holds(t.workers[v]) ==>
                           Holds(s.workers[v]) && t.workers[v].id == s.workers[v].id;
    }
  }

  lemma StepKeepsReplies(s: State, a: Action)
    requires ChannelExact(s) && WorkersApart(s) && RepliesExact(s) && Enabled(s, a)
    ensures RepliesExact(Step(s, a))
  {
    var t := Step(s, a);
    if IsWorkerAction(a) {
      WorkerStepKeepsReplies(s, a);
    } else {
      assert t.workers == s.workers && t.taken == s.taken;
      forall id | 0 <= id < |t.requests|
        ensures |t.requests[id].replies| == if id in t.taken && !AwaitsAnswer(t, id) then 1 else 0
      {
        assert AwaitsAnswer(t, id) <==> AwaitsAnswer(s, id);
        if id >= |s.requests| {
          assert id !in s.taken by {
            forall i | 0 <= i < |s.taken| ensures s.taken[i] != id {
              assert s.sent[i] == s.taken[i];
            }
          }
        }
      }
    }
  }

  lemma WorkerStepKeepsReplies(s: State, a: Action)
    requires ChannelExact(s) && WorkersApart(s) && RepliesExact(s) && Enabled(s, a) && IsWorkerAction(a)
    ensures RepliesExact(Step(s, a))
  {
    var t := Step(s, a);
    if a.Take? {
      HeadIsNew(s);
    }
    forall id | 0 <= id < |t.requests|
      ensures |t.requests[id].replies| == if id in t.taken && !AwaitsAnswer(t, id) then 1 else 0
    {
      OthersKeepAwaiting(s, a, id);
    }
  }

  /** A worker action changes who awaits an answer only for the request it is about. */
  lemma OthersKeepAwaiting(s: State, a: Action, id: nat)
    requires WorkersApart(s) && Enabled(s, a) && IsWorkerAction(a)
    ensures var t := Step(s, a);
            AwaitsAnswer(t, id) <==> Unanswered(t.workers[a.w], id)
                                     || (AwaitsAnswer(s, id) && !Unanswered(s.workers[a.w], id))
  {
    var t := Step(s, a);
    assert t.workers == s.workers[a.w := t.workers[a.w]];
    if AwaitsAnswer(s, id) && !Unanswered(s.workers[a.w], id) {
      var w :| 0 <= w < |s.workers| && Unanswered(s.workers[w], id);
      assert Unanswered(t.workers[w], id);
    }
    if AwaitsAnswer(t, id) && !Unanswered(t.workers[a.w], id) {
      var w :| 0 <= w < |t.workers| && Unanswered(t.workers[w], id);
      assert Unanswered(s.workers[w], id);
    }
  }

  // --------------------------------------------------------------- every run

  ghost predicate Invariant(s: State) {
    CountersExact(s) && EstimatesFit(s) && ChannelExact(s) && WorkersApart(s) && RepliesExact(s)
  }

  lemma StepKeepsInvariant(s: State, a: Action)
    requires Invariant(s) && Enabled(s, a)
    ensures Invariant(Step(s, a)) && Step(s, a).cfg == s.cfg
  {
    hide EstimatesFit, ChannelExact, WorkersApart, RepliesExact, Step, Enabled;
    CountersNotNegative(s);
    StepKeepsCounters(s, a);
    StepKeepsEstimates(s, a);
    StepKeepsChannel(s, a);
    StepKeepsWorkersApart(s, a);
    StepKeepsReplies(s, a);
  }

  lemma CountersNotNegative(s: State)
    requires CountersExact(s)
    ensures s.memory >= 0
  {
  }

  lemma StartInvariant(cfg: Config)
    ensures Invariant(Start(cfg))
  {
    SumOfZeros(Start(cfg).workers, MemoryOf);
    SumOfZeros(Start(cfg).workers, InflightOf);
  }

  lemma {:induction false} RunKeepsInvariant(states: seq<State>, actions: seq<Action>, i: nat)
    requires IsRun(states, actions) && i < |states| && Invariant(states[0])
    ensures Invariant(states[i]) && states[i].cfg == states[0].cfg
  {
    hide Invariant;
    if i > 0 {
      RunKeepsInvariant(states, actions, i - 1);
      assert Follows(states[i - 1], actions[i - 1], states[i]);
      StepKeepsInvariant(states[i - 1], actions[i - 1]);
    }
  }

  /** In every interleaving the memory counter is exact and stays within workers times limit. */
  lemma MemoryBounded(cfg: Config, states: seq<State>, actions: seq<Action>, i: nat)
    requires IsRun(states, actions) && states[0] == Start(cfg) && i < |states|
    ensures states[i].memory == Sum(states[i].workers, MemoryOf)
    ensures 0 <= states[i].memory <= cfg.maxConcurrent * cfg.maxMemory
    ensures states[i].inflight == Sum(states[i].workers, InflightOf)
    ensures 0 <= states[i].inflight <= cfg.maxConcurrent
  {
    hide ChannelExact, WorkersApart, RepliesExact, Sum;
    StartInvariant(cfg);
    RunKeepsInvariant(states, actions, i);
    SumAtMost(states[i].workers, MemoryOf, cfg.maxMemory);
    SumAtMost(states[i].workers, InflightOf, 1);
  }

  /**
     In every interleaving a reply never blocks its worker, no request is answered twice, and a request that a
     worker is done with has exactly one reply.
   */
  lemma ExactlyOneReply(cfg: Config, states: seq<State>, actions: seq<Action>, i: nat)
    requires IsRun(states, actions) && states[0] == Start(cfg) && i < |states|
    ensures var s := states[i];
            && (forall w :: 0 <= w < |s.workers| && s.workers[w].Counted? ==> forall ok :: Enabled(s, Answer(w, ok)))
            && (forall id :: 0 <= id < |s.requests| ==> |s.requests[id].replies| <= 1)
            && (forall id :: id in s.taken && !AwaitsAnswer(s, id) ==> id < |s.requests| && |s.requests[id].replies| == 1)
            && s.taken <= s.sent && |s.pending| <= cfg.maxPending
  {
    hide CountersExact, EstimatesFit, Distinct;
    StartInvariant(cfg);
    RunKeepsInvariant(states, actions, i);
    var s := states[i];
    forall w | 0 <= w < |s.workers| && s.workers[w].Counted? ensures forall ok :: Enabled(s, Answer(w, ok)) {
      TakenWereSent(s, s.workers[w].id);
      assert AwaitsAnswer(s, s.workers[w].id);
    }
    forall id | id in s.taken && !AwaitsAnswer(s, id) ensures id < |s.requests| && |s.requests[id].replies| == 1 {
      TakenWereSent(s, id);
    }
  }

  lemma TakenWereSent(s: State, id: nat)
    requires ChannelExact(s) && id in s.taken
    ensures id < |s.requests|
  {
    var i :| 0 <= i < |s.taken| && s.taken[i] == id;
    assert s.sent[i] == id;
  }

  ghost predicate AllExited(ws: seq<Worker>) {
    forall v :: 0 <= v < |ws| ==> ws[v].Exited?
  }

  /** When the last worker leaves after a shutdown, everything sent until then has been answered. */
  lemma ShutdownDrains(cfg: Config, states: seq<State>, actions: seq<Action>, i: nat, w: nat)
    requires IsRun(states, actions) && states[0] == Start(cfg) && i < |actions|
    requires actions[i] == Exit(w) && AllExited(states[i + 1].workers)
    ensures forall id :: id in states[i].sent ==> id < |states[i].requests| && |states[i].requests[id].replies| == 1
  {
    hide CountersExact, EstimatesFit, WorkersApart, Distinct;
    var s := states[i];
    assert Follows(s, actions[i], states[i + 1]);
    StartInvariant(cfg);
    RunKeepsInvariant(states, actions, i);
    assert s.sent == s.taken;
    forall id | id in s.sent ensures id < |s.requests| && |s.requests[id].replies| == 1 {
      TakenWereSent(s, id);
      forall v | 0 <= v < |s.workers| ensures !Unanswered(s.workers[v], id) {
        assert v != w ==> states[i + 1].workers[v] == s.workers[v];
      }
    }
  }

  // -------------------------------------------------- what a call comes to

  /** This action sends `reply` to a request. */
  predicate Sends(s: State, a: Action, id: nat, reply: Reply) {
    && a.Answer? && a.w < |s.workers| && s.workers[a.w].Counted? && s.workers[a.w].id == id
    && (a.ok <==> reply == Response)
  }

  /** With this action a call returns `o`. */
  predicate Ends(s: State, a: Action, id: nat, o: Outcome) {
    && id < |s.requests|
    && match o
       case Got(reply) =>
         (a == Receive(id) || (a == SeeShutdown(id) && s.requests[id].caller == Waiting)) && s.requests[id].replies == [reply]
       case QueueFull => a == RecheckMemory(id) && !Fits(s, id)
       case ShuttingDown =>
         || (a == CheckOpen(id) && s.done)
         || (a == SeeShutdown(id) && (s.requests[id].caller == Admitted || s.requests[id].replies == []))
       case Cancelled => a == GiveUp(id)
  }

  ghost predicate WasSent(states: seq<State>, actions: seq<Action>, j: nat, id: nat, reply: Reply)
    requires j <= |actions| < |states|
  {
    exists i :: 0 <= i < j && Sends(states[i], actions[i], id, reply)
  }

  ghost predicate HasEnded(states: seq<State>, actions: seq<Action>, j: nat, id: nat, o: Outcome)
    requires j <= |actions| < |states|
  {
    exists i :: 0 <= i < j && Ends(states[i], actions[i], id, o)
  }

  lemma RepliesAfter(s: State, a: Action, id: nat, reply: Reply)
    requires Enabled(s, a) && id < |s.requests| && |Step(s, a).requests[id].replies| <= 1
    ensures Step(s, a).requests[id].replies == [reply] <==> s.requests[id].replies == [reply] || Sends(s, a, id, reply)
  {
    var before, after := s.requests[id].replies, Step(s, a).requests[id].replies;
    assert after != before ==> before == [] && after == [after[0]];
  }

  lemma OutcomeAfter(s: State, a: Action, id: nat, o: Outcome)
    requires Enabled(s, a) && id < |s.requests| && |s.requests[id].replies| <= 1
    ensures Step(s, a).requests[id].caller == Returned(o) <==> s.requests[id].caller == Returned(o) || Ends(s, a, id, o)
  {
    hide Fits, Enabled, Step;
    if IsCallerAction(a) && a.id == id {
      CallerAfter(s, a, o);
    } else {
      OthersLeaveCaller(s, a, id);
    }
  }

  predicate IsCallerAction(a: Action) {
    !IsWorkerAction(a) && !a.Arrive? && !a.Close?
  }

  lemma OthersLeaveCaller(s: State, a: Action, id: nat)
    requires Enabled(s, a) && id < |s.requests| && !(IsCallerAction(a) && a.id == id)
    ensures Step(s, a).requests[id].caller == s.requests[id].caller
  {
    hide Fits;
  }

  lemma CallerAfter(s: State, a: Action, o: Outcome)
    requires Enabled(s, a) && IsCallerAction(a) && a.id < |s.requests| && |s.requests[a.id].replies| <= 1
    ensures Step(s, a).requests[a.id].caller == Returned(o) <==> s.requests[a.id].caller == Returned(o) || Ends(s, a, a.id, o)
  {
    hide Fits;
  }

  /** Requests are only added, and one that arrives has no reply and its call has not returned. */
  lemma Arrivals(s: State, a: Action)
    requires Enabled(s, a)
    ensures |s.requests| <= |Step(s, a).requests|
    ensures forall id :: |s.requests| <= id < |Step(s, a).requests| ==>
              Step(s, a).requests[id].replies == [] && Step(s, a).requests[id].caller == Arrived
  {
  }

  lemma {:induction false} NothingBeforehand(states: seq<State>, actions: seq<Action>, j: nat, id: nat)
    requires IsRun(states, actions) && j < |states| && Invariant(states[0])
    requires j > 0 ==> |states[j - 1].requests| <= id
    ensures forall i, reply :: 0 <= i < j ==> !Sends(states[i], actions[i], id, reply)
    ensures forall i, o :: 0 <= i < j ==> !Ends(states[i], actions[i], id, o)
  {
    hide Step, Enabled, Invariant, Sends, Ends;
    if j > 0 {
      assert Follows(states[j - 1], actions[j - 1], states[j]);
      RunKeepsInvariant(states, actions, j - 1);
      NothingForNobody(states[j - 1], actions[j - 1], id);
      if j > 1 {
        assert Follows(states[j - 2], actions[j - 2], states[j - 1]);
        Arrivals(states[j - 2], actions[j - 2]);
      }
      NothingBeforehand(states, actions, j - 1, id);
    }
  }

  lemma NothingForNobody(s: State, a: Action, id: nat)
    requires Enabled(s, a) && |s.requests| <= id
    ensures forall reply :: !Sends(s, a, id, reply)
    ensures forall o :: !Ends(s, a, id, o)
  {
  }

  /** In every run a request's reply is what a worker answered it with before. */
  lemma {:induction false} ReplyExactly(cfg: Config, states: seq<State>, actions: seq<Action>, j: nat, id: nat, reply: Reply)
    requires IsRun(states, actions) && states[0] == Start(cfg) && j < |states| && id < |states[j].requests|
    ensures states[j].requests[id].replies == [reply] <==> WasSent(states, actions, j, id, reply)
  {
    hide Step, Enabled, Invariant, Sends, Ends;
    if j > 0 {
      var s, a := states[j - 1], actions[j - 1];
      assert Follows(s, a, states[j]);
      Arrivals(s, a);
      StartInvariant(cfg);
      if id < |s.requests| {
        ReplyExactly(cfg, states, actions, j - 1, id, reply);
        ExactlyOneReply(cfg, states, actions, j);
        RepliesAfter(s, a, id, reply);
        assert WasSent(states, actions, j, id, reply) <==>
               WasSent(states, actions, j - 1, id, reply) || Sends(s, a, id, reply);
      } else {
        NothingBeforehand(states, actions, j, id);
      }
    }
  }

  /** A call has returned with an outcome exactly if an action that gives this outcome stands earlier in the run. */
  lemma {:induction false} OutcomeExactly(cfg: Config, states: seq<State>, actions: seq<Action>, j: nat, id: nat, o: Outcome)
    requires IsRun(states, actions) && states[0] == Start(cfg) && j < |states| && id < |states[j].requests|
    ensures states[j].requests[id].caller == Returned(o) <==> HasEnded(states, actions, j, id, o)
  {
    hide Step, Enabled, Invariant, Sends, Ends;
    if j > 0 {
      var s, a := states[j - 1], actions[j - 1];
      assert Follows(s, a, states[j]);
      Arrivals(s, a);
      StartInvariant(cfg);
      if id < |s.requests| {
        OutcomeExactly(cfg, states, actions, j - 1, id, o);
        ExactlyOneReply(cfg, states, actions, j - 1);
        OutcomeAfter(s, a, id, o);
        assert HasEnded(states, actions, j, id, o) <==>
               HasEnded(states, actions, j - 1, id, o) || Ends(s, a, id, o);
      } else {
        NothingBeforehand(states, actions, j, id);
      }
    }
  }

  /** The first reading of the memory counter, taken at `i`, was too high. */
  predicate FirstTooHigh(states: seq<State>, actions: seq<Action>, i: nat, id: nat)
    requires i < |actions| < |states|
  {
    actions[i] == CheckMemory(id) && id < |states[i].requests| && !Fits(states[i], id)
  }

  predicate SecondTooHigh(states: seq<State>, actions: seq<Action>, i: nat, id: nat)
    requires i < |actions| < |states|
  {
    actions[i] == RecheckMemory(id) && id < |states[i].requests| && !Fits(states[i], id)
  }

  /** Some reading of the memory counter left room for the request. */
  predicate Fitted(states: seq<State>, actions: seq<Action>, i: nat, id: nat)
    requires i < |actions| < |states|
  {
    (actions[i] == CheckMemory(id) || actions[i] == RecheckMemory(id)) && id < |states[i].requests| && Fits(states[i], id)
  }

  /** A call that backs off found its first reading too high; one that is admitted found a reading that fitted. */
  lemma {:induction false} ReadingsBefore(cfg: Config, states: seq<State>, actions: seq<Action>, j: nat, id: nat)
    requires IsRun(states, actions) && states[0] == Start(cfg) && j < |states| && id < |states[j].requests|
    ensures states[j].requests[id].caller == BackingOff ==> exists i :: 0 <= i < j && FirstTooHigh(states, actions, i, id)
    ensures states[j].requests[id].caller in {Admitted, Waiting} ==> exists i :: 0 <= i < j && Fitted(states, actions, i, id)
  {
    if j > 0 {
      assert Follows(states[j - 1], actions[j - 1], states[j]);
      if id < |states[j - 1].requests| {
        ReadingsBefore(cfg, states, actions, j - 1, id);
        assert actions[j - 1] == CheckMemory(id) ==>
                 FirstTooHigh(states, actions, j - 1, id) || Fitted(states, actions, j - 1, id);
        assert actions[j - 1] == RecheckMemory(id) ==>
                 SecondTooHigh(states, actions, j - 1, id) || Fitted(states, actions, j - 1, id);
      }
    }
  }

  /** A call is turned away as finding the queue full exactly if both its readings of the memory were too high. */
  lemma TurnedAwayExactly(cfg: Config, states: seq<State>, actions: seq<Action>, j: nat, id: nat)
    requires IsRun(states, actions) && states[0] == Start(cfg) && j < |states| && id < |states[j].requests|
    ensures states[j].requests[id].caller == Returned(QueueFull) <==>
              exists i, k :: 0 <= i < k < j && FirstTooHigh(states, actions, i, id) && SecondTooHigh(states, actions, k, id)
  {
    hide Step;
    OutcomeExactly(cfg, states, actions, j, id, QueueFull);
    if states[j].requests[id].caller == Returned(QueueFull) {
      var k :| 0 <= k < j && Ends(states[k], actions[k], id, QueueFull);
      assert Follows(states[k], actions[k], states[k + 1]);
      ReadingsBefore(cfg, states, actions, k, id);
      assert SecondTooHigh(states, actions, k, id);
    }
    if i, k :| 0 <= i < k < j && FirstTooHigh(states, actions, i, id) && SecondTooHigh(states, actions, k, id) {
      assert Ends(states[k], actions[k], id, QueueFull);
    }
  }

  // ------------------------------------------- how far the limit is exceeded

  ghost predicate Reachable(cfg: Config, s: State) {
    exists states, actions :: RunTo(cfg, states, actions, s)
  }

  ghost predicate RunTo(cfg: Config, states: seq<State>, actions: seq<Action>, s: State) {
    IsRun(states, actions) && states[0] == Start(cfg) && states[|actions|] == s
  }

  lemma ReachableStep(cfg: Config, s: State, a: Action)
    requires Reachable(cfg, s) && Enabled(s, a)
    ensures Reachable(cfg, Step(s, a))
  {
    var states, actions :| RunTo(cfg, states, actions, s);
    var states', actions' := states + [Step(s, a)], actions + [a];
    forall i | 0 <= i < |actions'| ensures Follows(states'[i], actions'[i], states'[i + 1]) {
      assert i < |actions| ==> Follows(states[i], actions[i], states[i + 1]);
    }
    assert RunTo(cfg, states', actions', Step(s, a));
  }

  lemma ReachableStart(cfg: Config)
    ensures Reachable(cfg, Start(cfg))
  {
    assert RunTo(cfg, [Start(cfg)], [], Start(cfg));
  }

  /** `k` requests of the largest size were admitted while nothing was being processed. */
  function AllAdmitted(cfg: Config, k: nat): State {
    Start(cfg).(requests := seq(k, i => Request(cfg.maxMemory, Admitted, [])))
  }

  /** The first `k` of them are now charged to `k` workers. */
  function PartlyCharged(cfg: Config, k: nat): State
    requires k <= cfg.maxConcurrent
  {
    State(cfg,
          seq(cfg.maxConcurrent, i => Request(cfg.maxMemory, if i < k then Waiting else Admitted, [])),
          [],
          seq(cfg.maxConcurrent, i requires 0 <= i => if i < k then Charged(i, cfg.maxMemory) else Idle),
          k * cfg.maxMemory, 0, false, Numbers(k), Numbers(k))
  }

  lemma {:induction false} AdmitAll(cfg: Config, k: nat)
    ensures Reachable(cfg, AllAdmitted(cfg, k))
  {
    if k == 0 {
      ReachableStart(cfg);
      assert AllAdmitted(cfg, 0) == Start(cfg);
    } else {
      AdmitAll(cfg, k - 1);
      var s0 := AllAdmitted(cfg, k - 1);
      var s1 := Step(s0, Arrive(cfg.maxMemory));
      var s2 := Step(s1, CheckOpen(k - 1));
      var s3 := Step(s2, CheckMemory(k - 1));
      ReachableStep(cfg, s0, Arrive(cfg.maxMemory));
      ReachableStep(cfg, s1, CheckOpen(k - 1));
      ReachableStep(cfg, s2, CheckMemory(k - 1));
      assert s3.requests == AllAdmitted(cfg, k).requests;
    }
  }

  /** Between sending request `k` and charging it, it sits in the channel, then with worker `k`. */
  function InChannel(cfg: Config, k: nat): State
    requires k < cfg.maxConcurrent
  {
    PartlyCharged(cfg, k).(requests := PartlyCharged(cfg, k + 1).requests, pending := [k], sent := Numbers(k + 1))
  }

  lemma SendOne(cfg: Config, k: nat)
    requires k < cfg.maxConcurrent && cfg.maxPending > 0
    ensures Follows(PartlyCharged(cfg, k), Send(k), InChannel(cfg, k))
  {
    var t := Step(PartlyCharged(cfg, k), Send(k));
    assert t.requests == InChannel(cfg, k).requests && t.sent == Numbers(k + 1) && t.pending == [k];
  }

  lemma ChargeOne(cfg: Config, k: nat)
    requires k < cfg.maxConcurrent && cfg.maxPending > 0
    ensures Enabled(InChannel(cfg, k), Take(k))
    ensures Follows(Step(InChannel(cfg, k), Take(k)), Charge(k), PartlyCharged(cfg, k + 1))
  {
    var t := Step(Step(InChannel(cfg, k), Take(k)), Charge(k));
    assert t.workers == PartlyCharged(cfg, k + 1).workers && t.taken == Numbers(k + 1) && t.pending == [];
  }

  lemma ChargeOneMore(cfg: Config, k: nat)
    requires k < cfg.maxConcurrent && cfg.maxPending > 0 && Reachable(cfg, PartlyCharged(cfg, k))
    ensures Reachable(cfg, PartlyCharged(cfg, k + 1))
  {
    hide Reachable, InChannel, PartlyCharged, Enabled, Step;
    SendOne(cfg, k);
    ChargeOne(cfg, k);
    ReachableStep(cfg, PartlyCharged(cfg, k), Send(k));
    ReachableStep(cfg, InChannel(cfg, k), Take(k));
    ReachableStep(cfg, Step(InChannel(cfg, k), Take(k)), Charge(k));
  }

  lemma {:induction false} ChargeAll(cfg: Config, k: nat)
    requires k <= cfg.maxConcurrent && cfg.maxPending > 0
    ensures Reachable(cfg, PartlyCharged(cfg, k))
  {
    if k == 0 {
      AdmitAll(cfg, cfg.maxConcurrent);
      var s, t := AllAdmitted(cfg, cfg.maxConcurrent), PartlyCharged(cfg, 0);
      assert s.requests == t.requests && s.workers == t.workers && s.sent == t.sent;
    } else {
      ChargeAll(cfg, k - 1);
      ChargeOneMore(cfg, k - 1);
    }
  }

  /**
     The limit is checked against requests being processed, not against admitted ones, so the bound of
     MemoryBounded is attained: the limit itself holds in every run exactly when there is a single worker.
   */
  lemma LimitHoldsExactlyForOneWorker(cfg: Config)
    requires cfg.maxPending > 0 && cfg.maxConcurrent > 0 && cfg.maxMemory > 0
    ensures exists s :: Reachable(cfg, s) && s.memory == cfg.maxConcurrent * cfg.maxMemory
    ensures (forall s :: Reachable(cfg, s) ==> s.memory <= cfg.maxMemory) <==> cfg.maxConcurrent == 1
  {
    ChargeAll(cfg, cfg.maxConcurrent);
    var worst := PartlyCharged(cfg, cfg.maxConcurrent);
    assert worst.memory == cfg.maxConcurrent * cfg.maxMemory;
    if cfg.maxConcurrent == 1 {
      forall s | Reachable(cfg, s) ensures s.memory <= cfg.maxMemory {
        var states, actions :| RunTo(cfg, states, actions, s);
        MemoryBounded(cfg, states, actions, |actions|);
      }
    } else {
      assert cfg.maxConcurrent * cfg.maxMemory >= 2 * cfg.maxMemory;
    }
  }

  // ---------------------------------------------------------- the shutdown ends

  /** The queue is closed once it was told to be. */
  lemma {:induction false} ClosedExactly(cfg: Config, states: seq<State>, actions: seq<Action>, j: nat)
    requires IsRun(states, actions) && states[0] == Start(cfg) && j < |states|
    ensures states[j].done <==> exists i :: 0 <= i < j && actions[i].Close?
  {
    if j > 0 {
      ClosedExactly(cfg, states, actions, j - 1);
      assert Follows(states[j - 1], actions[j - 1], states[j]);
    }
  }

  /** How many steps a worker is away from leaving, and all of them with what is in the channel. */
  function StepsLeft(p: Worker): nat {
    match p
    case Exited => 0
    case Idle => 1
    case Uncounted(_, _) => 2
    case Answered(_, _) => 3
    case Counted(_, _) => 4
    case Charged(_, _) => 5
    case Taken(_, _) => 6
  }

  function AllStepsLeft(s: State): nat {
    Sum(s.workers, StepsLeft) + 6 * |s.pending|
  }

  /** The next step of a worker that has not left. */
  function NextOf(s: State, w: nat): Action
    requires w < |s.workers|
  {
    match s.workers[w]
    case Taken(_, _) => Charge(w)
    case Charged(_, _) => Count(w)
    case Counted(_, _) => Answer(w, true)
    case Answered(_, _) => Uncount(w)
    case Uncounted(_, _) => Discharge(w)
    case _ => if s.pending == [] then Exit(w) else Take(w)
  }

  lemma NextIsEnabled(s: State, w: nat)
    requires Invariant(s) && s.done && w < |s.workers| && !s.workers[w].Exited?
    ensures Enabled(s, NextOf(s, w))
  {
    hide CountersExact, EstimatesFit, Distinct;
    if s.workers[w].Counted? {
      TakenWereSent(s, s.workers[w].id);
      assert Unanswered(s.workers[w], s.workers[w].id);
      assert AwaitsAnswer(s, s.workers[w].id);
    } else if s.workers[w].Idle? && s.pending != [] {
      assert s.sent[|s.taken|] == s.pending[0];
    }
  }

  lemma NextBringsForward(s: State, w: nat)
    requires w < |s.workers| && !s.workers[w].Exited? && Enabled(s, NextOf(s, w))
    ensures var t := Step(s, NextOf(s, w)); AllStepsLeft(t) < AllStepsLeft(s) && t.done == s.done
  {
    hide Sum;
    var t := Step(s, NextOf(s, w));
    SumAfterUpdate(s.workers, StepsLeft, w, t.workers[w]);
    assert t.workers == s.workers[w := t.workers[w]];
  }

  /** Some run from here ends with every worker gone. */
  ghost predicate CanFinish(s: State) {
    exists states, actions :: Finishes(s, states, actions)
  }

  ghost predicate Finishes(s: State, states: seq<State>, actions: seq<Action>) {
    IsRun(states, actions) && states[0] == s && AllExited(states[|actions|].workers)
  }

  lemma FinishesOneEarlier(s: State, a: Action)
    requires Enabled(s, a) && CanFinish(Step(s, a))
    ensures CanFinish(s)
  {
    hide Step, Enabled;
    var states, actions :| Finishes(Step(s, a), states, actions);
    var states', actions' := [s] + states, [a] + actions;
    forall i | 0 <= i < |actions'| ensures Follows(states'[i], actions'[i], states'[i + 1]) {
      assert i > 0 ==> Follows(states[i - 1], actions[i - 1], states[i]);
    }
    assert Finishes(s, states', actions');
  }

  lemma {:induction false} ClosedCanFinish(s: State)
    requires Invariant(s) && s.done
    ensures CanFinish(s)
    decreases AllStepsLeft(s)
  {
    hide Invariant, Step, Enabled, NextOf, AllStepsLeft;
    if AllExited(s.workers) {
      assert Finishes(s, [s], []);
    } else {
      var w :| 0 <= w < |s.workers| && !s.workers[w].Exited?;
      NextIsEnabled(s, w);
      NextBringsForward(s, w);
      StepKeepsInvariant(s, NextOf(s, w));
      ClosedCanFinish(Step(s, NextOf(s, w)));
      FinishesOneEarlier(s, NextOf(s, w));
    }
  }

  /** Whatever callers and workers are doing, a shutdown can be brought to its end: no worker waits for ever. */
  lemma ShutdownCanFinish(cfg: Config, s: State)
    requires Reachable(cfg, s)
    ensures CanFinish(s)
  {
    hide Invariant, CanFinish;
    var states, actions :| RunTo(cfg, states, actions, s);
    StartInvariant(cfg);
    RunKeepsInvariant(states, actions, |actions|);
    StepKeepsInvariant(s, Close);
    ClosedCanFinish(Step(s, Close));
    FinishesOneEarlier(s, Close);
  }

  /** The default estimate: four bytes per character, at least one kilobyte. */
  method DefaultEstimateMemory(contents: seq<string>) returns (total: int)
    ensures total == if 4 * Characters(contents) < 1024 then 1024 else 4 * Characters(contents)
  {
    total := 0;
    for i := 0 to |contents|
      invariant total == 4 * Characters(contents[..i])
    {
      assert contents[..i + 1][..i] == contents[..i];
      total := total + |contents[i]| * 4;
    }
    assert contents[..|contents|] == contents;
    if total < 1024 {
      total := 1024;
    }
  }

  function Characters(contents: seq<string>): nat {
    if contents == [] then 0 else Characters(contents[..|contents| - 1]) + |contents[|contents| - 1]|
  }
}
