/** The per-user scheduler of pkg/llm/fairshare.go. */
module FairSharing {
  import opened Collections

  // Every locked region, channel operation and atomic counter operation of a submitter, of the scheduler loop, or of
  // a request's goroutine is one action; a run is any interleaving. Dispatch is from one channel, first in first out,
  // for all users together.

  datatype Config = Config(maxQueueDepth: nat, maxConcurrency: nat)

  function Configured(maxQueueDepth: int, maxConcurrency: int): (c: Config)
    ensures c.maxQueueDepth > 0 && c.maxConcurrency > 0
    ensures maxQueueDepth > 0 ==> c.maxQueueDepth == maxQueueDepth
    ensures maxConcurrency > 0 ==> c.maxConcurrency == maxConcurrency
    ensures maxQueueDepth <= 0 && maxConcurrency <= 0 ==> c == Config(10, 2)
  {
    Config(if maxQueueDepth <= 0 then 10 else maxQueueDepth, if maxConcurrency <= 0 then 2 else maxConcurrency)
  }

  function UserKey(userID: string): (key: string)
    ensures key != "" && (userID != "" ==> key == userID)
  {
    if userID == "" then "_anonymous" else userID
  }

  /** What is sent to a waiting submission: an answer, or why there is none. */
  datatype Reply = Response | Failure | ClosedError | CancelledError

  datatype Outcome = Got(reply: Reply) | QueueFull | SchedulerClosed | Cancelled

  /** Where the call of Submit stands. */
  datatype Submitter =
    | Started
    | Passed                      // saw the scheduler open
    | Found                       // looked its user's queue up, or created it
    | Admitted                    // appended to its user's queue, about to send
    | Waiting                     // sent, waiting for a reply
    | Returned(outcome: Outcome)

  /** Where the request stands. */
  datatype Work =
    | Unsent
    | InChannel
    | Held        // taken by the scheduler loop, which waits for a token
    | Launching   // token acquired
    | Running     // counted in flight, inside processRequest
    | Answered    // processRequest has sent its one reply
    | Released    // token given back
    | Uncounted   // no longer counted in flight
    | Located     // user's queue looked up again
    | Removed     // taken out of the user's queue
    | Dropped     // given up by the scheduler loop before dispatch

  datatype Request = Request(user: string, submitter: Submitter, admitted: bool, work: Work, replies: seq<Reply>)

  datatype Loop = Polling | Holding(id: nat) | Starting(id: nat) | Stopped

  datatype State = State(
    cfg: Config,
    requests: seq<Request>,
    queues: map<string, seq<nat>>,
    incoming: seq<nat>,
    loop: Loop,
    tokens: int,
    inflight: int,
    done: bool,
    sent: seq<nat>,   // everything ever sent on the channel
    taken: seq<nat>   // everything ever received from it
  )

  function Start(cfg: Config): State {
    State(cfg, [], map[], [], Polling, 0, 0, false, [], [])
  }

  datatype Action =
    | Begin(userID: string)
    | CheckOpen(id: nat)
    | Find(id: nat)
    | Admit(id: nat)
    | Send(id: nat)
    | Cancel(id: nat)
    | SeeClosed(id: nat)
    | Receive(id: nat)
    | Close
    | Poll
    | Stop
    | Acquire
    | DropClosed
    | DropCancelled
    | Launch
    | Process(id: nat, ok: bool)
    | ReleaseToken(id: nat)
    | Uncount(id: nat)
    | Locate(id: nat)
    | Remove(id: nat)

  function QueueOf(s: State, user: string): seq<nat> {
    if user in s.queues then s.queues[user] else []
  }

  predicate SubmitterIs(s: State, id: nat, stage: Submitter) {
    id < |s.requests| && s.requests[id].submitter == stage
  }

  predicate Blocked(s: State, id: nat) {
    SubmitterIs(s, id, Admitted) || SubmitterIs(s, id, Waiting)
  }

  predicate WorkIs(s: State, id: nat, w: Work) {
    id < |s.requests| && s.requests[id].work == w
  }

  predicate Enabled(s: State, a: Action) {
    match a
    case Begin(_) => true
    case CheckOpen(id) => SubmitterIs(s, id, Started)
    case Find(id) => SubmitterIs(s, id, Passed)
    case Admit(id) => SubmitterIs(s, id, Found)
    case Send(id) => SubmitterIs(s, id, Admitted) && |s.incoming| < s.cfg.maxQueueDepth * 10
    case Cancel(id) => Blocked(s, id)
    case SeeClosed(id) => Blocked(s, id) && s.done
    case Receive(id) => SubmitterIs(s, id, Waiting) && s.requests[id].replies != []
    case Close => true
    case Poll => s.loop == Polling && s.incoming != [] && s.incoming[0] < |s.requests|
    case Stop => s.loop == Polling && s.done
    case Acquire => s.loop.Holding? && s.tokens < s.cfg.maxConcurrency && s.loop.id < |s.requests|
    case DropClosed => s.loop.Holding? && s.done && s.loop.id < |s.requests|
    case DropCancelled => s.loop.Holding? && s.loop.id < |s.requests|
    case Launch => s.loop.Starting? && s.loop.id < |s.requests|
    case Process(id, _) => WorkIs(s, id, Running)
    case ReleaseToken(id) => WorkIs(s, id, Answered)
    case Uncount(id) => WorkIs(s, id, Released)
    case Locate(id) => WorkIs(s, id, Uncounted)
    case Remove(id) => WorkIs(s, id, Located)
  }

  function WithSubmitter(s: State, id: nat, stage: Submitter): State
    requires id < |s.requests|
  {
    s.(requests := s.requests[id := s.requests[id].(submitter := stage)])
  }

  function WithWork(s: State, id: nat, w: Work): State
    requires id < |s.requests|
  {
    s.(requests := s.requests[id := s.requests[id].(work := w)])
  }

  function WithReply(s: State, id: nat, w: Work, reply: Reply): State
    requires id < |s.requests|
  {
    var r := s.requests[id];
    s.(requests := s.requests[id := r.(work := w, replies := r.replies + [reply])])
  }

  /** The queue without the first occurrence of `id`. */
  function WithoutFirst(q: seq<nat>, id: nat): seq<nat> {
    if q == [] then [] else if q[0] == id then q[1..] else [q[0]] + WithoutFirst(q[1..], id)
  }

  function Step(s: State, a: Action): State
    requires Enabled(s, a)
  {
    match a
    case Begin(userID) => s.(requests := s.requests + [Request(UserKey(userID), Started, false, Unsent, [])])
    case CheckOpen(id) => WithSubmitter(s, id, if s.done then Returned(SchedulerClosed) else Passed)
    case Find(id) =>
      var u := s.requests[id].user;
      WithSubmitter(s, id, Found).(queues := s.queues[u := QueueOf(s, u)])
    case Admit(id) =>
      var r := s.requests[id];
      if |QueueOf(s, r.user)| >= s.cfg.maxQueueDepth then WithSubmitter(s, id, Returned(QueueFull))
      else s.(requests := s.requests[id := r.(submitter := Admitted, admitted := true)],
              queues := s.queues[r.user := QueueOf(s, r.user) + [id]])
    case Send(id) =>
      WithWork(WithSubmitter(s, id, Waiting), id, InChannel).(incoming := s.incoming + [id], sent := s.sent + [id])
    case Cancel(id) => WithSubmitter(s, id, Returned(Cancelled))
    case SeeClosed(id) => WithSubmitter(s, id, Returned(SchedulerClosed))
    case Receive(id) => WithSubmitter(s, id, Returned(Got(s.requests[id].replies[0])))
    case Close => s.(done := true)
    case Poll =>
      var id := s.incoming[0];
      WithWork(s, id, Held).(incoming := s.incoming[1..], taken := s.taken + [id], loop := Holding(id))
    case Stop => s.(loop := Stopped)
    case Acquire => WithWork(s, s.loop.id, Launching).(tokens := s.tokens + 1, loop := Starting(s.loop.id))
    case DropClosed => WithReply(s, s.loop.id, Dropped, ClosedError).(loop := Stopped)
    case DropCancelled => WithReply(s, s.loop.id, Dropped, CancelledError).(loop := Polling)
    case Launch => WithWork(s, s.loop.id, Running).(inflight := s.inflight + 1, loop := Polling)
    case Process(id, ok) => WithReply(s, id, Answered, if ok then Response else Failure)
    case ReleaseToken(id) => WithWork(s, id, Released).(tokens := s.tokens - 1)
    case Uncount(id) => WithWork(s, id, Uncounted).(inflight := s.inflight - 1)
    case Locate(id) => WithWork(s, id, if s.requests[id].user in s.queues then Located else Removed)
    case Remove(id) =>
      var u := s.requests[id].user;
      WithWork(s, id, Removed).(queues := s.queues[u := WithoutFirst(QueueOf(s, u), id)])
  }

  ghost predicate Follows(s: State, a: Action, t: State) {
    Enabled(s, a) && Step(s, a) == t
  }

  ghost predicate IsRun(states: seq<State>, actions: seq<Action>) {
    && |states| == |actions| + 1
    && forall i :: 0 <= i < |actions| ==> Follows(states[i], actions[i], states[i + 1])
  }

  // -------------------------------------------------------------- the queues

  /** The loop of removeFromQueue. */
  method RemoveFromQueue(requests: seq<nat>, id: nat) returns (left: seq<nat>)
    ensures left == WithoutFirst(requests, id)
  {
    for i := 0 to |requests|
      invariant forall j :: 0 <= j < i ==> requests[j] != id
    {
      if requests[i] == id {
        WithoutFirstAt(requests, i);
        return requests[..i] + requests[i + 1..];
      }
    }
    WithoutAbsent(requests, id);
    return requests;
  }

  lemma {:induction false} WithoutFirstAt(q: seq<nat>, i: nat)
    requires i < |q| && forall j :: 0 <= j < i ==> q[j] != q[i]
    ensures WithoutFirst(q, q[i]) == q[..i] + q[i + 1..]
  {
    if i > 0 {
      WithoutFirstAt(q[1..], i - 1);
      assert q[1..][..i - 1] == q[1..i];
      assert q[..i] == [q[0]] + q[1..i];
    }
  }

  lemma {:induction false} WithoutAbsent(q: seq<nat>, id: nat)
    requires forall j :: 0 <= j < |q| ==> q[j] != id
    ensures WithoutFirst(q, id) == q
  {
    if q != [] {
      WithoutAbsent(q[1..], id);
    }
  }

  lemma {:induction false} WithoutFirstKeepsOthers(q: seq<nat>, id: nat)
    requires Distinct(q)
    ensures Distinct(WithoutFirst(q, id)) && |WithoutFirst(q, id)| <= |q|
    ensures forall x :: x in WithoutFirst(q, id) <==> x in q && x != id
  {
    if q != [] {
      assert q == [q[0]] + q[1..];
      if q[0] != id {
        WithoutFirstKeepsOthers(q[1..], id);
        assert q[0] !in q[1..] && q[0] !in WithoutFirst(q[1..], id);
      }
    }
  }

  // ------------------------------------------------- one request at a time

  /** The request an action is about; actions about none get a number not in use. */
  function Target(s: State, a: Action): nat
    requires Enabled(s, a)
  {
    match a
    case Begin(_) => |s.requests|
    case Close => |s.requests|
    case Stop => |s.requests|
    case Poll => s.incoming[0]
    case Acquire => s.loop.id
    case DropClosed => s.loop.id
    case DropCancelled => s.loop.id
    case Launch => s.loop.id
    case CheckOpen(id) => id
    case Find(id) => id
    case Admit(id) => id
    case Send(id) => id
    case Cancel(id) => id
    case SeeClosed(id) => id
    case Receive(id) => id
    case Process(id, _) => id
    case ReleaseToken(id) => id
    case Uncount(id) => id
    case Locate(id) => id
    case Remove(id) => id
  }

  /** No action touches two requests, and none changes a request's user. */
  lemma OnlyTargetChanges(s: State, a: Action)
    requires Enabled(s, a)
    ensures var t := Step(s, a);
            var id := Target(s, a);
            && t.cfg == s.cfg
            && (id < |s.requests| ==>
                  |t.requests| == |s.requests| && t.requests == s.requests[id := t.requests[id]]
                  && t.requests[id].user == s.requests[id].user)
            && (id >= |s.requests| && a.Begin? ==> t.requests == s.requests + [Request(UserKey(a.userID), Started, false, Unsent, [])])
            && (id >= |s.requests| && !a.Begin? ==> t.requests == s.requests)
  {
  }

  predicate HasReply(w: Work) {
    w == Answered || w == Released || w == Uncounted || w == Located || w == Removed || w == Dropped
  }

  /** How far a submission is, how far its request is, and how many replies were sent, fit together. */
  predicate Coherent(r: Request) {
    && (r.submitter == Started || r.submitter == Passed || r.submitter == Found ==> !r.admitted)
    && (r.submitter == Admitted ==> r.admitted && r.work == Unsent)
    && (r.submitter == Waiting ==> r.admitted && r.work != Unsent)
    && (!r.admitted ==> r.work == Unsent)
    && |r.replies| == (if HasReply(r.work) then 1 else 0)
  }

  ghost predicate AllCoherent(s: State) {
    forall id :: 0 <= id < |s.requests| ==> Coherent(s.requests[id])
  }

  /** The scheduler loop's request, and only that one, is held or launching. */
  ghost predicate LoopAgrees(s: State) {
    && (forall id :: 0 <= id < |s.requests| ==> (s.requests[id].work == Held <==> s.loop == Holding(id)))
    && (forall id :: 0 <= id < |s.requests| ==> (s.requests[id].work == Launching <==> s.loop == Starting(id)))
    && (s.loop.Holding? || s.loop.Starting? ==> s.loop.id < |s.requests|)
    && (s.loop == Stopped ==> s.done)
  }

  /** First in, first out; nothing is sent twice; what waits in the channel is marked so. */
  ghost predicate ChannelExact(s: State) {
    && s.sent == s.taken + s.incoming && |s.incoming| <= s.cfg.maxQueueDepth * 10
    && Distinct(s.sent)
    && (forall i :: 0 <= i < |s.sent| ==> s.sent[i] < |s.requests| && s.requests[s.sent[i]].work != Unsent)
    && (forall i :: 0 <= i < |s.incoming| ==> s.incoming[i] < |s.requests| && s.requests[s.incoming[i]].work == InChannel)
    && (forall id :: 0 <= id < |s.requests| && s.requests[id].work == InChannel ==> id in s.incoming)
  }

  predicate IsLoopAction(a: Action) {
    a.Poll? || a.Stop? || a.Acquire? || a.DropClosed? || a.DropCancelled? || a.Launch?
  }

  lemma TargetStaysCoherent(s: State, a: Action)
    requires AllCoherent(s) && LoopAgrees(s) && ChannelExact(s) && Enabled(s, a)
    ensures Target(s, a) < |s.requests| ==> Coherent(Step(s, a).requests[Target(s, a)])
  {
    hide Step, Target, Coherent, LoopAgrees, ChannelExact, AllCoherent;
    if IsLoopAction(a) {
      LoopKeepsCoherent(s, a);
    } else {
      OthersKeepCoherent(s, a);
    }
  }

  lemma LoopKeepsCoherent(s: State, a: Action)
    requires AllCoherent(s) && LoopAgrees(s) && ChannelExact(s) && Enabled(s, a) && IsLoopAction(a)
    ensures Target(s, a) < |s.requests| ==> Coherent(Step(s, a).requests[Target(s, a)])
  {
    hide Distinct;
    assert Target(s, a) < |s.requests| ==> Coherent(s.requests[Target(s, a)]);
  }

  lemma OthersKeepCoherent(s: State, a: Action)
    requires AllCoherent(s) && Enabled(s, a) && !IsLoopAction(a)
    ensures Target(s, a) < |s.requests| ==> Coherent(Step(s, a).requests[Target(s, a)])
  {
    assert Target(s, a) < |s.requests| ==> Coherent(s.requests[Target(s, a)]);
  }

  lemma StepKeepsCoherent(s: State, a: Action)
    requires AllCoherent(s) && LoopAgrees(s) && ChannelExact(s) && Enabled(s, a)
    ensures AllCoherent(Step(s, a))
  {
    hide Step, Enabled, LoopAgrees, ChannelExact, Target;
    OnlyTargetChanges(s, a);
    TargetStaysCoherent(s, a);
  }

  /** The loop after an action of its own agrees with the request that the action is about. */
  lemma LoopFollowsTarget(s: State, a: Action)
    requires LoopAgrees(s) && ChannelExact(s) && Enabled(s, a) && IsLoopAction(a)
    ensures var t := Step(s, a);
            var id := Target(s, a);
            && (forall x :: x != id ==> (t.loop == Holding(x) <==> s.loop == Holding(x)))
            && (forall x :: x != id ==> (t.loop == Starting(x) <==> s.loop == Starting(x)))
            && (t.loop.Holding? || t.loop.Starting? ==> t.loop.id < |t.requests|)
            && (id < |s.requests| ==> (t.requests[id].work == Held <==> t.loop == Holding(id)))
            && (id < |s.requests| ==> (t.requests[id].work == Launching <==> t.loop == Starting(id)))
            && (t.loop == Stopped ==> t.done)
  {
    hide Distinct;
  }

  /** No other action changes the loop, or makes or unmakes a request that the loop holds. */
  lemma OtherStepsLeaveLoop(s: State, a: Action)
    requires AllCoherent(s) && Enabled(s, a) && !IsLoopAction(a)
    ensures var t := Step(s, a);
            var id := Target(s, a);
            && t.loop == s.loop && (s.done ==> t.done)
            && (id < |s.requests| ==> (t.requests[id].work == Held <==> s.requests[id].work == Held))
            && (id < |s.requests| ==> (t.requests[id].work == Launching <==> s.requests[id].work == Launching))
  {
    assert Target(s, a) < |s.requests| ==> Coherent(s.requests[Target(s, a)]);
  }

  lemma StepKeepsLoop(s: State, a: Action)
    requires LoopAgrees(s) && ChannelExact(s) && AllCoherent(s) && Enabled(s, a)
    ensures LoopAgrees(Step(s, a))
  {
    hide Step, Enabled, Target, ChannelExact, AllCoherent;
    OnlyTargetChanges(s, a);
    if IsLoopAction(a) {
      LoopFollowsTarget(s, a);
    } else {
      OtherStepsLeaveLoop(s, a);
    }
  }

  lemma SendKeepsChannel(s: State, id: nat)
    requires ChannelExact(s) && AllCoherent(s) && Enabled(s, Send(id))
    ensures ChannelExact(Step(s, Send(id)))
  {
    assert Coherent(s.requests[id]) && id !in s.sent;
    assert s.sent + [id] == s.taken + (s.incoming + [id]);
    var t := Step(s, Send(id));
    forall i | 0 <= i < |t.sent| ensures t.sent[i] < |t.requests| && t.requests[t.sent[i]].work != Unsent {
      assert i < |s.sent| ==> t.sent[i] == s.sent[i];
    }
    forall i | 0 <= i < |t.incoming|
      ensures t.incoming[i] < |t.requests| && t.requests[t.incoming[i]].work == InChannel
    {
      assert i < |s.incoming| ==> t.incoming[i] == s.incoming[i];
    }
  }

  lemma PollKeepsChannel(s: State)
    requires ChannelExact(s) && Enabled(s, Poll)
    ensures ChannelExact(Step(s, Poll))
  {
    var t := Step(s, Poll);
    var id := s.incoming[0];
    assert s.taken + s.incoming == (s.taken + [id]) + s.incoming[1..];
    forall i | 0 <= i < |t.incoming|
      ensures t.incoming[i] < |t.requests| && t.requests[t.incoming[i]].work == InChannel
    {
      assert t.incoming[i] == s.incoming[i + 1];
      assert s.sent[|s.taken|] == id && s.sent[|s.taken| + i + 1] == s.incoming[i + 1];
    }
  }

  lemma OtherStepsLeaveChannel(s: State, a: Action)
    requires LoopAgrees(s) && Enabled(s, a) && !a.Send? && !a.Poll?
    ensures var t := Step(s, a);
            var id := Target(s, a);
            && t.sent == s.sent && t.taken == s.taken && t.incoming == s.incoming
            && (id < |s.requests| ==> (t.requests[id].work == InChannel <==> s.requests[id].work == InChannel))
            && (id < |s.requests| && s.requests[id].work != Unsent ==> t.requests[id].work != Unsent)
  {
  }

  lemma StepKeepsChannel(s: State, a: Action)
    requires ChannelExact(s) && AllCoherent(s) && LoopAgrees(s) && Enabled(s, a)
    ensures ChannelExact(Step(s, a))
  {
    hide Step, Enabled, Target, Distinct, LoopAgrees, AllCoherent;
    if a.Send? {
      SendKeepsChannel(s, a.id);
    } else if a.Poll? {
      PollKeepsChannel(s);
    } else {
      OnlyTargetChanges(s, a);
      OtherStepsLeaveChannel(s, a);
    }
  }

  // ------------------------------------------------- contents of the queues

  /** A request sits in its user's queue from admission to removal. */
  predicate Listed(r: Request) {
    r.admitted && r.work != Removed
  }

  /** A queue is within its depth and holds exactly its user's listed requests, each once. */
  ghost predicate QueueExact(s: State, user: string) {
    && Distinct(QueueOf(s, user)) && |QueueOf(s, user)| <= s.cfg.maxQueueDepth
    && forall id: nat :: id in QueueOf(s, user) <==>
         id < |s.requests| && s.requests[id].user == user && Listed(s.requests[id])
  }

  ghost predicate QueuesExact(s: State) {
    forall user :: QueueExact(s, user)
  }

  lemma AdmitKeepsQueues(s: State, id: nat, user: string)
    requires QueueExact(s, user) && AllCoherent(s) && Enabled(s, Admit(id))
    ensures QueueExact(Step(s, Admit(id)), user)
  {
    hide Step, QueueOf, AllCoherent, Coherent;
    var t := Step(s, Admit(id));
    AdmitEffect(s, id, user);
    OnlyTargetChanges(s, Admit(id));
    var q := QueueOf(s, user);
    assert id !in q;
    assert forall x :: x in QueueOf(t, user) <==> x in q || (x == id && QueueOf(t, user) != q);
  }

  lemma AdmitEffect(s: State, id: nat, user: string)
    requires AllCoherent(s) && Enabled(s, Admit(id))
    ensures var t := Step(s, Admit(id));
            && !Listed(s.requests[id])
            && (Listed(t.requests[id]) <==> |QueueOf(s, s.requests[id].user)| < s.cfg.maxQueueDepth)
            && QueueOf(t, user) == if s.requests[id].user == user && |QueueOf(s, user)| < s.cfg.maxQueueDepth
                                   then QueueOf(s, user) + [id] else QueueOf(s, user)
  {
    assert Coherent(s.requests[id]);
  }

  lemma RemoveKeepsQueues(s: State, id: nat, user: string)
    requires QueueExact(s, user) && AllCoherent(s) && Enabled(s, Remove(id))
    ensures QueueExact(Step(s, Remove(id)), user)
  {
    assert Coherent(s.requests[id]);
    if s.requests[id].user == user {
      WithoutFirstKeepsOthers(QueueOf(s, user), id);
    }
  }

  /** A listed request's user has a queue, so the look-up before the removal succeeds. */
  lemma LocateKeepsQueues(s: State, id: nat, user: string)
    requires QueueExact(s, user) && AllCoherent(s) && Enabled(s, Locate(id))
    ensures QueueExact(Step(s, Locate(id)), user)
    ensures s.requests[id].user == user ==> Step(s, Locate(id)).requests[id].work == Located
  {
    hide Distinct;
    assert Coherent(s.requests[id]);
    assert s.requests[id].user == user ==> id in QueueOf(s, user);
  }

  lemma OtherStepsLeaveQueues(s: State, a: Action, user: string)
    requires Enabled(s, a) && !a.Admit? && !a.Locate? && !a.Remove? && AllCoherent(s) && LoopAgrees(s)
    requires a.Poll? ==> s.requests[s.incoming[0]].work == InChannel
    ensures QueueOf(Step(s, a), user) == QueueOf(s, user)
    ensures Target(s, a) < |s.requests| ==>
              Listed(Step(s, a).requests[Target(s, a)]) == Listed(s.requests[Target(s, a)])
  {
    assert Target(s, a) < |s.requests| ==> Coherent(s.requests[Target(s, a)]);
  }

  lemma StepKeepsQueue(s: State, a: Action, user: string)
    requires QueueExact(s, user) && AllCoherent(s) && LoopAgrees(s) && ChannelExact(s) && Enabled(s, a)
    ensures QueueExact(Step(s, a), user)
  {
    hide Step, Target, Distinct, LoopAgrees, AllCoherent, QueueOf;
    if a.Admit? {
      AdmitKeepsQueues(s, a.id, user);
    } else if a.Locate? {
      LocateKeepsQueues(s, a.id, user);
    } else if a.Remove? {
      RemoveKeepsQueues(s, a.id, user);
    } else {
      OnlyTargetChanges(s, a);
      OtherStepsLeaveQueues(s, a, user);
    }
  }

  // -------------------------------------------------------------- the tokens

  predicate HoldsToken(w: Work) {
    w == Launching || w == Running || w == Answered
  }

  predicate IsInflight(w: Work) {
    w == Running || w == Answered || w == Released
  }

  function Having(rs: seq<Request>, p: Work -> bool): set<nat> {
    set id | 0 <= id < |rs| && p(rs[id].work)
  }

  lemma HavingAfterUpdate(rs: seq<Request>, p: Work -> bool, id: nat, r: Request)
    requires id < |rs|
    ensures |Having(rs[id := r], p)|
            == |Having(rs, p)| - (if p(rs[id].work) then 1 else 0) + (if p(r.work) then 1 else 0)
  {
    HavingElsewhere(rs, p, id, r);
    WithAndWithout(Having(rs, p), id);
    WithAndWithout(Having(rs[id := r], p), id);
  }

  lemma HavingElsewhere(rs: seq<Request>, p: Work -> bool, id: nat, r: Request)
    requires id < |rs|
    ensures Having(rs[id := r], p) - {id} == Having(rs, p) - {id}
  {
  }

  lemma HavingAfterArrival(rs: seq<Request>, p: Work -> bool, r: Request)
    requires !p(r.work)
    ensures Having(rs + [r], p) == Having(rs, p)
  {
  }

  /** Tokens are counted exactly and stay within the limit; the in-flight counter is exact, but may be higher. */
  ghost predicate TokensExact(s: State) {
    && s.tokens == |Having(s.requests, HoldsToken)| <= s.cfg.maxConcurrency
    && s.inflight == |Having(s.requests, IsInflight)|
  }

  lemma CountersFollowTarget(s: State, a: Action)
    requires LoopAgrees(s) && ChannelExact(s) && AllCoherent(s) && Enabled(s, a) && Target(s, a) < |s.requests|
    ensures var t := Step(s, a);
            var before, after := s.requests[Target(s, a)].work, t.requests[Target(s, a)].work;
            && t.tokens == s.tokens - (if HoldsToken(before) then 1 else 0) + (if HoldsToken(after) then 1 else 0)
            && t.inflight == s.inflight - (if IsInflight(before) then 1 else 0) + (if IsInflight(after) then 1 else 0)
            && (t.tokens > s.tokens ==> s.tokens < s.cfg.maxConcurrency)
  {
    hide Distinct;
    assert Coherent(s.requests[Target(s, a)]);
  }

  lemma IdleActionsKeepCounters(s: State, a: Action)
    requires Enabled(s, a) && Target(s, a) >= |s.requests| && LoopAgrees(s)
    ensures Step(s, a).tokens == s.tokens && Step(s, a).inflight == s.inflight
  {
  }

  lemma StepKeepsTokens(s: State, a: Action)
    requires TokensExact(s) && LoopAgrees(s) && ChannelExact(s) && AllCoherent(s) && Enabled(s, a)
    ensures TokensExact(Step(s, a))
  {
    hide Step, Enabled, Target, LoopAgrees, AllCoherent, ChannelExact, Having;
    OnlyTargetChanges(s, a);
    var id := Target(s, a);
    if id < |s.requests| {
      CountersFollowTarget(s, a);
      HavingAfterUpdate(s.requests, HoldsToken, id, Step(s, a).requests[id]);
      HavingAfterUpdate(s.requests, IsInflight, id, Step(s, a).requests[id]);
    } else {
      IdleActionsKeepCounters(s, a);
      if a.Begin? {
        HavingAfterArrival(s.requests, HoldsToken, Request(UserKey(a.userID), Started, false, Unsent, []));
        HavingAfterArrival(s.requests, IsInflight, Request(UserKey(a.userID), Started, false, Unsent, []));
      }
    }
  }

  // -------------------------------------------------------------- every run

  ghost predicate Invariant(s: State) {
    AllCoherent(s) && LoopAgrees(s) && ChannelExact(s) && TokensExact(s) && QueuesExact(s)
  }

  lemma StepKeepsInvariant(s: State, a: Action)
    requires Invariant(s) && Enabled(s, a)
    ensures Invariant(Step(s, a)) && Step(s, a).cfg == s.cfg
  {
    hide Step, Enabled, AllCoherent, LoopAgrees, ChannelExact, TokensExact, QueueExact;
    OnlyTargetChanges(s, a);
    StepKeepsCoherent(s, a);
    StepKeepsLoop(s, a);
    StepKeepsChannel(s, a);
    StepKeepsTokens(s, a);
    forall user ensures QueueExact(Step(s, a), user) {
      StepKeepsQueue(s, a, user);
    }
  }

  lemma StartInvariant(cfg: Config)
    ensures Invariant(Start(cfg))
  {
    assert Having([], HoldsToken) == {} && Having([], IsInflight) == {};
  }

  lemma {:induction false} RunKeepsInvariant(states: seq<State>, actions: seq<Action>, i: nat)
    requires IsRun(states, actions) && i < |states| && Invariant(states[0])
    ensures Invariant(states[i]) && states[i].cfg == states[0].cfg
  {
    hide Invariant;
    if i > 0 {
      RunKeepsInvariant(states, actions, i - 1);
      assert Follows(states[i - 1], actions[i - 1], states[i]);
      StepKeepsInvariant(states[i - 1], actions[i - 1]);
    }
  }

  function Processing(s: State): set<nat> {
    set id | 0 <= id < |s.requests| && s.requests[id].work == Running
  }

  /**
     In every interleaving: at most `maxConcurrency` requests are being processed; no queue is deeper than allowed,
     and each holds exactly its user's admitted, not yet removed requests; requests leave the channel in the order
     of sending; and a request has one reply once it is answered or dropped, and none before, so that no sender
     of a reply ever blocks.
   */
  lemma SchedulerIsSafe(cfg: Config, states: seq<State>, actions: seq<Action>, i: nat, user: string)
    requires IsRun(states, actions) && states[0] == Start(cfg) && i < |states|
    ensures var s := states[i];
            && |Processing(s)| <= cfg.maxConcurrency
            && |QueueOf(s, user)| <= cfg.maxQueueDepth && Distinct(QueueOf(s, user))
            && (forall id: nat :: id in QueueOf(s, user) <==>
                  id < |s.requests| && s.requests[id].user == user && Listed(s.requests[id]))
            && s.taken <= s.sent && Distinct(s.sent) && |s.incoming| <= 10 * cfg.maxQueueDepth
            && forall id :: 0 <= id < |s.requests| ==>
                 |s.requests[id].replies| == (if HasReply(s.requests[id].work) then 1 else 0)
  {
    StartInvariant(cfg);
    RunKeepsInvariant(states, actions, i);
    var s := states[i];
    SubsetNotLarger(Processing(s), Having(s.requests, HoldsToken));
    assert QueueExact(s, user);
    forall id | 0 <= id < |s.requests|
      ensures |s.requests[id].replies| == (if HasReply(s.requests[id].work) then 1 else 0)
    {
      assert Coherent(s.requests[id]);
    }
  }

  // -------------------------------------------- what a submission comes to

  /** This action sends `reply` to a request. */
  predicate Sends(s: State, a: Action, id: nat, reply: Reply) {
    match reply
    case Response => a == Process(id, true)
    case Failure => a == Process(id, false)
    case ClosedError => a == DropClosed && s.loop == Holding(id)
    case CancelledError => a == DropCancelled && s.loop == Holding(id)
  }

  /** With this action a submission returns `o`. */
  predicate Ends(s: State, a: Action, id: nat, o: Outcome) {
    match o
    case Got(reply) => a == Receive(id) && id < |s.requests| && s.requests[id].replies == [reply]
    case QueueFull =>
      a == Admit(id) && id < |s.requests| && |QueueOf(s, s.requests[id].user)| >= s.cfg.maxQueueDepth
    case SchedulerClosed => (a == CheckOpen(id) && s.done) || a == SeeClosed(id)
    case Cancelled => a == Cancel(id)
  }

  lemma RepliesOfTarget(s: State, a: Action)
    requires Enabled(s, a) && Target(s, a) < |s.requests| <= |Step(s, a).requests|
    ensures var before, after := s.requests[Target(s, a)].replies, Step(s, a).requests[Target(s, a)].replies;
            match a
            case Process(_, ok) => after == before + [if ok then Response else Failure]
            case DropClosed => after == before + [ClosedError] && s.loop.Holding?
            case DropCancelled => after == before + [CancelledError] && s.loop.Holding?
            case _ => after == before
  {
    hide QueueOf;
  }

  lemma RepliesAfter(s: State, a: Action, id: nat, reply: Reply)
    requires Enabled(s, a) && id < |s.requests| <= |Step(s, a).requests| && |Step(s, a).requests[id].replies| <= 1
    ensures Step(s, a).requests[id].replies == [reply] <==> s.requests[id].replies == [reply] || Sends(s, a, id, reply)
  {
    hide Step, Enabled, QueueOf;
    OnlyTargetChanges(s, a);
    if Target(s, a) == id {
      RepliesOfTarget(s, a);
      var before, after := s.requests[id].replies, Step(s, a).requests[id].replies;
      assert after != before ==> before == [] && after == [after[0]];
    }
  }

  lemma OutcomeOfTarget(s: State, a: Action, o: Outcome)
    requires Enabled(s, a) && Target(s, a) < |s.requests| <= |Step(s, a).requests|
    requires |s.requests[Target(s, a)].replies| <= 1 && !IsLoopAction(a)
    ensures Step(s, a).requests[Target(s, a)].submitter == Returned(o) <==>
              s.requests[Target(s, a)].submitter == Returned(o) || Ends(s, a, Target(s, a), o)
  {
    hide QueueOf;
  }

  lemma LoopLeavesSubmitters(s: State, a: Action)
    requires Enabled(s, a) && Target(s, a) < |s.requests| <= |Step(s, a).requests| && IsLoopAction(a)
    ensures Step(s, a).requests[Target(s, a)].submitter == s.requests[Target(s, a)].submitter
  {
  }

  lemma OutcomeAfter(s: State, a: Action, id: nat, o: Outcome)
    requires Enabled(s, a) && id < |s.requests| <= |Step(s, a).requests| && |s.requests[id].replies| <= 1
    ensures Step(s, a).requests[id].submitter == Returned(o) <==>
              s.requests[id].submitter == Returned(o) || Ends(s, a, id, o)
  {
    hide Step, Enabled, QueueOf;
    OnlyTargetChanges(s, a);
    if Target(s, a) == id {
      if IsLoopAction(a) {
        LoopLeavesSubmitters(s, a);
      } else {
        OutcomeOfTarget(s, a, o);
      }
    }
  }

  /** Nothing is sent to a request, and no submission ends, before it began. */
  lemma {:induction false} NothingBeforehand(states: seq<State>, actions: seq<Action>, j: nat, id: nat)
    requires IsRun(states, actions) && j < |states| && Invariant(states[0])
    requires j > 0 ==> |states[j - 1].requests| <= id
    ensures forall i, reply :: 0 <= i < j ==> !Sends(states[i], actions[i], id, reply)
    ensures forall i, o :: 0 <= i < j ==> !Ends(states[i], actions[i], id, o)
  {
    hide Step, Enabled, Target, Invariant, Sends, Ends;
    if j > 0 {
      assert Follows(states[j - 1], actions[j - 1], states[j]);
      RunKeepsInvariant(states, actions, j - 1);
      NothingForNobody(states[j - 1], actions[j - 1], id);
      if j > 1 {
        assert Follows(states[j - 2], actions[j - 2], states[j - 1]);
        OnlyTargetChanges(states[j - 2], actions[j - 2]);
      }
      NothingBeforehand(states, actions, j - 1, id);
    }
  }

  lemma NothingForNobody(s: State, a: Action, id: nat)
    requires Enabled(s, a) && Invariant(s) && |s.requests| <= id
    ensures forall reply :: !Sends(s, a, id, reply)
    ensures forall o :: !Ends(s, a, id, o)
  {
    hide QueueOf, ChannelExact, TokensExact, AllCoherent, QueuesExact;
  }

  ghost predicate WasSent(states: seq<State>, actions: seq<Action>, j: nat, id: nat, reply: Reply)
    requires j <= |actions| < |states|
  {
    exists i :: 0 <= i < j && Sends(states[i], actions[i], id, reply)
  }

  ghost predicate HasEnded(states: seq<State>, actions: seq<Action>, j: nat, id: nat, o: Outcome)
    requires j <= |actions| < |states|
  {
    exists i :: 0 <= i < j && Ends(states[i], actions[i], id, o)
  }

  /**
   In every run, a request's reply is the response exactly if it was processed with success before; a failure exactly
   if its processing failed; and the error of a closed scheduler or of a cancelled context exactly if the loop
   dropped it for that reason.
   */
  lemma {:induction false} ReplyExactly(cfg: Config, states: seq<State>, actions: seq<Action>, j: nat, id: nat, reply: Reply)
    requires IsRun(states, actions) && states[0] == Start(cfg) && j < |states| && id < |states[j].requests|
    ensures states[j].requests[id].replies == [reply] <==> WasSent(states, actions, j, id, reply)
  {
    hide Step, Enabled, Target, Invariant, Sends, Ends;
    if j > 0 {
      var s, a := states[j - 1], actions[j - 1];
      assert Follows(s, a, states[j]);
      OnlyTargetChanges(s, a);
      StartInvariant(cfg);
      if id < |s.requests| {
        ReplyExactly(cfg, states, actions, j - 1, id, reply);
        RunKeepsInvariant(states, actions, j);
        OneReplyAtMost(states[j], id);
        RepliesAfter(s, a, id, reply);
        assert WasSent(states, actions, j, id, reply) <==>
               WasSent(states, actions, j - 1, id, reply) || Sends(s, a, id, reply);
      } else {
        NothingBeforehand(states, actions, j, id);
      }
    }
  }

  lemma OneReplyAtMost(s: State, id: nat)
    requires Invariant(s) && id < |s.requests|
    ensures |s.requests[id].replies| <= 1
  {
    assert Coherent(s.requests[id]);
  }

  /**
   A submission has returned with an outcome exactly if an action that gives this outcome stands earlier in the run;
   and what it got as a reply was sent to it.
   */
  lemma {:induction false} OutcomeExactly(cfg: Config, states: seq<State>, actions: seq<Action>, j: nat, id: nat, o: Outcome)
    requires IsRun(states, actions) && states[0] == Start(cfg) && j < |states| && id < |states[j].requests|
    ensures states[j].requests[id].submitter == Returned(o) <==> HasEnded(states, actions, j, id, o)
    ensures states[j].requests[id].submitter == Returned(o) && o.Got? ==> WasSent(states, actions, j, id, o.reply)
  {
    hide Step, Enabled, Target, Invariant, Sends, Ends;
    if j > 0 {
      var s, a := states[j - 1], actions[j - 1];
      assert Follows(s, a, states[j]);
      OnlyTargetChanges(s, a);
      StartInvariant(cfg);
      RunKeepsInvariant(states, actions, j - 1);
      if id < |s.requests| {
        OutcomeExactly(cfg, states, actions, j - 1, id, o);
        OneReplyAtMost(s, id);
        OutcomeAfter(s, a, id, o);
        if o.Got? && Ends(s, a, id, o) {
          GotWhatWasSent(s, a, id, o);
          ReplyExactly(cfg, states, actions, j - 1, id, o.reply);
        }
        assert HasEnded(states, actions, j, id, o) <==>
               HasEnded(states, actions, j - 1, id, o) || Ends(s, a, id, o);
      } else {
        NothingBeforehand(states, actions, j, id);
      }
    }
  }

  lemma GotWhatWasSent(s: State, a: Action, id: nat, o: Outcome)
    requires o.Got? && Ends(s, a, id, o)
    ensures id < |s.requests| && s.requests[id].replies == [o.reply]
  {
  }

  /** The scheduler is closed once it was told to be, and the loop has stopped once it found this out; both for good. */
  lemma {:induction false} ClosedExactly(cfg: Config, states: seq<State>, actions: seq<Action>, j: nat)
    requires IsRun(states, actions) && states[0] == Start(cfg) && j < |states|
    ensures states[j].done <==> exists i :: 0 <= i < j && actions[i].Close?
    ensures states[j].loop == Stopped <==> exists i :: 0 <= i < j && (actions[i].Stop? || actions[i].DropClosed?)
  {
    if j > 0 {
      ClosedExactly(cfg, states, actions, j - 1);
      assert Follows(states[j - 1], actions[j - 1], states[j]);
    }
  }

  // --------------------------------------------------- abandoned submissions

  /** Listed, but nobody will ever remove it: dropped by the loop, or its submitter left before sending. */
  predicate Abandoned(r: Request) {
    Listed(r) && (r.work == Dropped || (r.work == Unsent && r.submitter.Returned?))
  }

  /** Listed and not abandoned: while the scheduler is open, it can still be brought to its removal. */
  predicate Live(r: Request) {
    Listed(r) && !Abandoned(r)
  }

  /** What leads to abandonment: leaving between admission and send, or being dropped by the loop. */
  predicate Abandons(s: State, a: Action)
    requires Enabled(s, a)
  {
    || ((a.Cancel? || a.SeeClosed?) && SubmitterIs(s, a.id, Admitted))
    || a.DropCancelled? || a.DropClosed?
  }

  /** A request that is not abandoned becomes so by exactly these actions. */
  lemma AbandonedExactly(s: State, a: Action)
    requires LoopAgrees(s) && ChannelExact(s) && AllCoherent(s) && Enabled(s, a) && Target(s, a) < |s.requests|
    requires !Abandoned(s.requests[Target(s, a)])
    ensures Abandoned(Step(s, a).requests[Target(s, a)]) <==> Abandons(s, a)
  {
    hide Distinct;
    assert Coherent(s.requests[Target(s, a)]);
  }

  lemma AbandonedTargetStays(s: State, a: Action)
    requires LoopAgrees(s) && ChannelExact(s) && AllCoherent(s) && Enabled(s, a) && Target(s, a) < |s.requests|
    requires Abandoned(s.requests[Target(s, a)])
    ensures Abandoned(Step(s, a).requests[Target(s, a)])
  {
    hide Distinct;
    assert Coherent(s.requests[Target(s, a)]);
  }

  /** An abandoned request stays in its user's queue for ever. */
  lemma {:induction false} AbandonedForEver(states: seq<State>, actions: seq<Action>, id: nat, i: nat)
    requires IsRun(states, actions) && i < |states| && Invariant(states[0])
    requires id < |states[0].requests| && Abandoned(states[0].requests[id])
    ensures id < |states[i].requests| && Abandoned(states[i].requests[id])
    ensures states[i].requests[id].user == states[0].requests[id].user
    ensures id in QueueOf(states[i], states[0].requests[id].user)
  {
    hide Step, Enabled, Target, AllCoherent, LoopAgrees, ChannelExact, TokensExact, Distinct, Abandoned;
    RunKeepsInvariant(states, actions, i);
    if i > 0 {
      AbandonedForEver(states, actions, id, i - 1);
      RunKeepsInvariant(states, actions, i - 1);
      var s, a := states[i - 1], actions[i - 1];
      assert Follows(s, a, states[i]);
      OnlyTargetChanges(s, a);
      if Target(s, a) == id {
        AbandonedTargetStays(s, a);
      }
    }
    AbandonedIsListed(states[i].requests[id]);
    assert QueueExact(states[i], states[0].requests[id].user);
  }

  lemma AbandonedIsListed(r: Request)
    ensures Abandoned(r) ==> Listed(r)
  {
  }

  ghost predicate LockedOut(s: State, user: string) {
    && |QueueOf(s, user)| >= s.cfg.maxQueueDepth
    && forall id :: id in QueueOf(s, user) ==> id < |s.requests| && Abandoned(s.requests[id])
  }

  /** Every admission of this user that could happen now would find the queue full. */
  ghost predicate Rejects(s: State, user: string) {
    forall id: nat :: id < |s.requests| && s.requests[id].user == user && Enabled(s, Admit(id)) ==>
      Step(s, Admit(id)).requests[id].submitter == Returned(QueueFull)
  }

  lemma FullQueueRejects(s: State, user: string)
    requires |QueueOf(s, user)| >= s.cfg.maxQueueDepth
    ensures Rejects(s, user)
  {
  }

  /** Once a user's queue is full of abandoned requests, every later submission of that user finds it full. */
  lemma LockedOutForEver(states: seq<State>, actions: seq<Action>, user: string, i: nat)
    requires IsRun(states, actions) && i < |states| && Invariant(states[0]) && LockedOut(states[0], user)
    ensures |QueueOf(states[i], user)| >= states[i].cfg.maxQueueDepth
    ensures Rejects(states[i], user)
  {
    hide Step, Enabled, Rejects, AllCoherent, LoopAgrees, ChannelExact, TokensExact, Abandoned, Elements;
    var q, q' := QueueOf(states[0], user), QueueOf(states[i], user);
    RunKeepsInvariant(states, actions, i);
    assert QueueExact(states[0], user) && QueueExact(states[i], user);
    forall id | id in q ensures id in q' {
      AbandonedForEver(states, actions, id, i);
    }
    ContainedIsNotLonger(q, q');
    FullQueueRejects(states[i], user);
  }

  ghost predicate Becomes(s: State, t: State) {
    exists states, actions :: RunBetween(s, states, actions, t)
  }

  ghost predicate RunBetween(s: State, states: seq<State>, actions: seq<Action>, t: State) {
    IsRun(states, actions) && states[0] == s && states[|actions|] == t
  }

  ghost predicate Reachable(cfg: Config, s: State) {
    Becomes(Start(cfg), s)
  }

  lemma BecomesItself(s: State)
    ensures Becomes(s, s)
  {
    assert RunBetween(s, [s], [], s);
  }

  lemma BecomesNext(s: State, t: State, a: Action)
    requires Becomes(s, t) && Enabled(t, a)
    ensures Becomes(s, Step(t, a))
  {
    hide Step, Enabled;
    var states, actions :| RunBetween(s, states, actions, t);
    var states', actions' := states + [Step(t, a)], actions + [a];
    forall i | 0 <= i < |actions'| ensures Follows(states'[i], actions'[i], states'[i + 1]) {
      assert i < |actions| ==> Follows(states[i], actions[i], states[i + 1]);
    }
    assert RunBetween(s, states', actions', Step(t, a));
  }

  /** One user has submitted `k` times and left each time before the request went into the channel. */
  function LeftEarly(cfg: Config, userID: string, k: nat): State {
    Start(cfg).(
      requests := seq(k, i => Request(UserKey(userID), Returned(Cancelled), true, Unsent, [])),
      queues := if k == 0 then map[] else map[UserKey(userID) := Numbers(k)])
  }

  lemma LeaveOnceMore(cfg: Config, userID: string, k: nat)
    requires k < cfg.maxQueueDepth && Reachable(cfg, LeftEarly(cfg, userID, k))
    ensures Reachable(cfg, LeftEarly(cfg, userID, k + 1))
  {
    hide Becomes;
    var s0 := LeftEarly(cfg, userID, k);
    BecomesNext(Start(cfg), s0, Begin(userID));
    var s1 := Step(s0, Begin(userID));
    BecomesNext(Start(cfg), s1, CheckOpen(k));
    var s2 := Step(s1, CheckOpen(k));
    BecomesNext(Start(cfg), s2, Find(k));
    var s3 := Step(s2, Find(k));
    BecomesNext(Start(cfg), s3, Admit(k));
    var s4 := Step(s3, Admit(k));
    BecomesNext(Start(cfg), s4, Cancel(k));
    var s5 := Step(s4, Cancel(k));
    var t := LeftEarly(cfg, userID, k + 1);
    assert QueueOf(s3, UserKey(userID)) == Numbers(k) && Numbers(k + 1) == Numbers(k) + [k];
    assert s5.requests == t.requests && s5.queues == t.queues;
  }

  lemma {:induction false} LeaveOften(cfg: Config, userID: string, k: nat)
    requires k <= cfg.maxQueueDepth
    ensures Reachable(cfg, LeftEarly(cfg, userID, k))
  {
    if k == 0 {
      assert LeftEarly(cfg, userID, 0) == Start(cfg);
      BecomesItself(Start(cfg));
    } else {
      LeaveOften(cfg, userID, k - 1);
      LeaveOnceMore(cfg, userID, k - 1);
    }
  }

  /** Such a lock-out can happen to any user, whatever the limits. */
  lemma LockOutIsReachable(cfg: Config, userID: string)
    requires cfg.maxQueueDepth > 0
    ensures exists s :: Reachable(cfg, s) && LockedOut(s, UserKey(userID)) && !s.done
  {
    LeaveOften(cfg, userID, cfg.maxQueueDepth);
    var s := LeftEarly(cfg, userID, cfg.maxQueueDepth);
    assert LockedOut(s, UserKey(userID));
  }

  // -------------------------------------------- no other user is locked out

  /** How many steps a request is away from its end. */
  function StepsLeft(w: Work): nat {
    match w
    case Unsent => 10
    case InChannel => 9
    case Held => 8
    case Launching => 7
    case Running => 6
    case Answered => 5
    case Released => 4
    case Uncounted => 3
    case Located => 2
    case Removed => 0
    case Dropped => 0
  }

  function AllStepsLeft(rs: seq<Request>): nat {
    if rs == [] then 0 else AllStepsLeft(rs[..|rs| - 1]) + StepsLeft(rs[|rs| - 1].work)
  }

  lemma {:induction false} StepsLeftAfterUpdate(rs: seq<Request>, id: nat, r: Request)
    requires id < |rs|
    ensures AllStepsLeft(rs[id := r]) == AllStepsLeft(rs) - StepsLeft(rs[id].work) + StepsLeft(r.work)
  {
    var front := rs[..|rs| - 1];
    if id == |rs| - 1 {
      assert rs[id := r][..id] == front;
    } else {
      StepsLeftAfterUpdate(front, id, r);
      assert rs[id := r][..|rs| - 1] == front[id := r];
    }
  }

  /** The actions that bring an admitted request forward. */
  predicate IsProgress(a: Action) {
    a.Send? || a.Poll? || a.Acquire? || a.Launch? || a.Process? || a.ReleaseToken? || a.Uncount? || a.Locate? || a.Remove?
  }

  predicate Advances(s: State, a: Action) {
    Enabled(s, a) && IsProgress(a)
  }

  /** Open, and with every limit positive. */
  ghost predicate IsOpen(s: State) {
    Invariant(s) && !s.done && s.cfg.maxQueueDepth > 0 && s.cfg.maxConcurrency > 0
  }

  /** Some request can be brought forward by a step that removes nothing. */
  ghost predicate CanAdvance(s: State) {
    exists a :: Advances(s, a) && !a.Remove?
  }

  /** With all tokens taken and the loop waiting for one, some request can give its token back. */
  lemma FreeToken(s: State)
    requires IsOpen(s) && s.loop.Holding? && s.tokens >= s.cfg.maxConcurrency
    ensures CanAdvance(s)
  {
    assert Having(s.requests, HoldsToken) != {};
    var x :| x in Having(s.requests, HoldsToken);
    assert s.requests[x].work != Launching;
    var a := if s.requests[x].work == Running then Process(x, true) else ReleaseToken(x);
    assert Advances(s, a);
  }

  /** A request in the loop's hands can be brought forward, if need be by bringing one that holds a token forward. */
  lemma LoopProgress(s: State)
    requires IsOpen(s) && (s.loop.Holding? || s.loop.Starting?)
    ensures CanAdvance(s)
  {
    hide TokensExact, ChannelExact, QueuesExact, AllCoherent;
    if s.loop.Starting? {
      assert Advances(s, Launch);
    } else if s.tokens < s.cfg.maxConcurrency {
      assert Advances(s, Acquire);
    } else {
      FreeToken(s);
    }
  }

  /** So can the head of the channel. */
  lemma HeadProgress(s: State)
    requires IsOpen(s) && s.incoming != []
    ensures CanAdvance(s)
  {
    hide TokensExact, QueuesExact, AllCoherent;
    if s.loop == Polling {
      assert Advances(s, Poll);
    } else {
      LoopProgress(s);
    }
  }

  /** Whatever a live request waits for can be brought forward; the only removal this takes is its own. */
  lemma Progress(s: State, id: nat)
    requires IsOpen(s) && id < |s.requests| && Live(s.requests[id])
    ensures CanAdvance(s) || Advances(s, Remove(id))
  {
    hide TokensExact, QueuesExact, Distinct;
    assert Coherent(s.requests[id]);
    match s.requests[id].work
    case Unsent =>
      if |s.incoming| < s.cfg.maxQueueDepth * 10 {
        assert Advances(s, Send(id));
      } else {
        HeadProgress(s);
      }
    case InChannel =>
      assert s.incoming != [];
      HeadProgress(s);
    case Held => LoopProgress(s);
    case Launching => LoopProgress(s);
    case Running => assert Advances(s, Process(id, true));
    case Answered => assert Advances(s, ReleaseToken(id));
    case Released => assert Advances(s, Uncount(id));
    case Uncounted => assert Advances(s, Locate(id));
    case Located => assert Advances(s, Remove(id));
  }

  /** One step forward: fewer steps are left, and a live request stays live unless the step is its removal. */
  lemma AdvanceStep(s: State, a: Action, id: nat)
    requires IsOpen(s) && Advances(s, a)
    requires id < |s.requests| && Live(s.requests[id]) && a != Remove(id)
    ensures var t := Step(s, a);
            && IsOpen(t) && |t.requests| == |s.requests|
            && AllStepsLeft(t.requests) < AllStepsLeft(s.requests)
            && Live(t.requests[id]) && t.requests[id].user == s.requests[id].user
  {
    hide Step, Enabled, Target, Invariant, AllStepsLeft, Live, Abandoned;
    StepKeepsInvariant(s, a);
    AdvanceOfTarget(s, a);
    OnlyTargetChanges(s, a);
    StepsLeftAfterUpdate(s.requests, Target(s, a), Step(s, a).requests[Target(s, a)]);
  }

  ghost predicate BroughtForward(s: State, a: Action)
    requires Enabled(s, a) && Target(s, a) < |s.requests| && Target(s, a) < |Step(s, a).requests|
  {
    var r, r' := s.requests[Target(s, a)], Step(s, a).requests[Target(s, a)];
    && StepsLeft(r'.work) < StepsLeft(r.work)
    && (Live(r) && !a.Remove? ==> Live(r'))
    && (a.Remove? ==> Target(s, a) == a.id)
    && Step(s, a).done == s.done
  }

  lemma AdvanceOfTarget(s: State, a: Action)
    requires Invariant(s) && Advances(s, a)
    ensures Target(s, a) < |s.requests| == |Step(s, a).requests| && BroughtForward(s, a)
  {
    hide Step, Live, TokensExact, QueueExact, BroughtForward;
    if IsLoopAction(a) {
      AdvanceOfLoop(s, a);
    } else if a.Locate? {
      AdvanceOfLocate(s, a.id);
    } else {
      AdvanceOfOthers(s, a);
    }
  }

  lemma AdvanceOfLoop(s: State, a: Action)
    requires LoopAgrees(s) && ChannelExact(s) && AllCoherent(s) && Advances(s, a) && IsLoopAction(a)
    ensures Target(s, a) < |s.requests| == |Step(s, a).requests| && BroughtForward(s, a)
  {
    hide BroughtForward, Step, LoopAgrees, ChannelExact, AllCoherent;
    match a
    case Poll => AdvanceOfPoll(s);
    case Acquire => AdvanceOfAcquire(s);
    case Launch => AdvanceOfLaunch(s);
  }

  lemma AdvanceOfPoll(s: State)
    requires ChannelExact(s) && Enabled(s, Poll)
    ensures Target(s, Poll) < |s.requests| == |Step(s, Poll).requests| && BroughtForward(s, Poll)
  {
    hide Distinct;
  }

  lemma AdvanceOfAcquire(s: State)
    requires LoopAgrees(s) && Enabled(s, Acquire)
    ensures Target(s, Acquire) < |s.requests| == |Step(s, Acquire).requests| && BroughtForward(s, Acquire)
  {
  }

  lemma AdvanceOfLaunch(s: State)
    requires LoopAgrees(s) && Enabled(s, Launch)
    ensures Target(s, Launch) < |s.requests| == |Step(s, Launch).requests| && BroughtForward(s, Launch)
  {
  }

  lemma AdvanceOfOthers(s: State, a: Action)
    requires AllCoherent(s) && Advances(s, a) && !IsLoopAction(a) && !a.Locate?
    ensures Target(s, a) < |s.requests| == |Step(s, a).requests| && BroughtForward(s, a)
  {
    assert Coherent(s.requests[Target(s, a)]);
  }

  lemma AdvanceOfLocate(s: State, id: nat)
    requires AllCoherent(s) && QueuesExact(s) && Enabled(s, Locate(id))
    ensures id < |s.requests| == |Step(s, Locate(id)).requests| && BroughtForward(s, Locate(id))
  {
    hide QueueExact;
    assert QueueExact(s, s.requests[id].user);
    LocateKeepsQueues(s, id, s.requests[id].user);
  }

  lemma RemovalMakesRoom(s: State, id: nat)
    requires IsOpen(s) && Enabled(s, Remove(id)) && id in QueueOf(s, s.requests[id].user)
    ensures var t := Step(s, Remove(id));
            && IsOpen(t) && |t.requests| == |s.requests|
            && |QueueOf(t, s.requests[id].user)| < s.cfg.maxQueueDepth
  {
    var user := s.requests[id].user;
    StepKeepsInvariant(s, Remove(id));
    assert QueueExact(s, user) && QueueExact(Step(s, Remove(id)), user);
    RemovedIsShorter(QueueOf(s, user), id);
  }

  lemma {:induction false} RemovedIsShorter(q: seq<nat>, id: nat)
    requires id in q
    ensures |WithoutFirst(q, id)| == |q| - 1
  {
    if q[0] != id {
      RemovedIsShorter(q[1..], id);
    }
  }

  /** A continuation of `s` in which the scheduler is not closed. */
  ghost predicate Continues(s: State, states: seq<State>, actions: seq<Action>) {
    IsRun(states, actions) && states[0] == s && Close !in actions
  }

  ghost predicate LeadsTo(s: State, t: State) {
    exists states, actions :: Continues(s, states, actions) && states[|actions|] == t
  }

  lemma LeadsToItself(s: State)
    ensures LeadsTo(s, s)
  {
    assert Continues(s, [s], []);
  }

  lemma LeadsOn(s: State, t: State, a: Action)
    requires LeadsTo(s, t) && Enabled(t, a) && a != Close
    ensures LeadsTo(s, Step(t, a))
  {
    hide Step, Enabled;
    var states, actions :| Continues(s, states, actions) && states[|actions|] == t;
    var states', actions' := states + [Step(t, a)], actions + [a];
    forall i | 0 <= i < |actions'| ensures Follows(states'[i], actions'[i], states'[i + 1]) {
      assert i < |actions| ==> Follows(states[i], actions[i], states[i + 1]);
    }
    assert Continues(s, states', actions') && states'[|actions'|] == Step(t, a);
  }

  /** From `s0`, room in the user's queue can be made without a new submission. */
  ghost predicate CanMakeRoom(s0: State, user: string, submissions: nat) {
    exists t :: LeadsTo(s0, t) && HasRoom(t, user, submissions)
  }

  ghost predicate HasRoom(t: State, user: string, submissions: nat) {
    IsOpen(t) && |t.requests| == submissions && |QueueOf(t, user)| < t.cfg.maxQueueDepth
  }

  /** A live request can be brought to its removal, which makes room in its user's queue. */
  lemma {:induction false} RoomCanBeMade(s: State, s0: State, id: nat)
    requires IsOpen(s) && LeadsTo(s0, s)
    requires id < |s.requests| && Live(s.requests[id])
    ensures CanMakeRoom(s0, s.requests[id].user, |s.requests|)
    decreases AllStepsLeft(s.requests)
  {
    hide Step, Enabled, Target, LeadsTo, Live, AllStepsLeft, QueueOf, AllCoherent, LoopAgrees, ChannelExact, TokensExact, QueuesExact;
    Progress(s, id);
    if CanAdvance(s) {
      var a :| Advances(s, a) && !a.Remove?;
      LeadsOn(s0, s, a);
      AdvanceStep(s, a, id);
      RoomCanBeMade(Step(s, a), s0, id);
    } else {
      StepKeepsInvariant(s, Remove(id));
      LeadsOn(s0, s, Remove(id));
      LiveIsListed(s, id);
      RemovalMakesRoom(s, id);
      assert HasRoom(Step(s, Remove(id)), s.requests[id].user, |s.requests|);
    }
  }

  lemma LiveIsListed(s: State, id: nat)
    requires Invariant(s) && id < |s.requests| && Live(s.requests[id])
    ensures id in QueueOf(s, s.requests[id].user)
  {
    assert QueueExact(s, s.requests[id].user);
  }

  /** Some request of the user is admitted in `t` that was not in `s`. */
  ghost predicate AdmitsAnother(s: State, t: State, user: string) {
    exists id: nat :: NewlyAdmitted(s, t, user, id)
  }

  ghost predicate NewlyAdmitted(s: State, t: State, user: string, id: nat) {
    && IsAdmitted(t, user, id)
    && (id < |s.requests| ==> !s.requests[id].admitted)
  }

  lemma RoomAdmits(s: State, t: State, userID: string)
    requires LeadsTo(s, t) && HasRoom(t, UserKey(userID), |s.requests|)
    ensures exists u :: LeadsTo(s, u) && AdmitsAnother(s, u, UserKey(userID))
  {
    hide LeadsTo, Invariant;
    var n := |t.requests|;
    LeadsOn(s, t, Begin(userID));
    var t1 := Step(t, Begin(userID));
    LeadsOn(s, t1, CheckOpen(n));
    var t2 := Step(t1, CheckOpen(n));
    LeadsOn(s, t2, Find(n));
    var t3 := Step(t2, Find(n));
    LeadsOn(s, t3, Admit(n));
    assert NewlyAdmitted(s, Step(t3, Admit(n)), UserKey(userID), n);
  }

  /** A rejected user stays without admissions. */
  lemma {:induction false} LockedOutAdmitsNone(states: seq<State>, actions: seq<Action>, user: string, i: nat, id: nat)
    requires IsRun(states, actions) && i < |states| && Invariant(states[0]) && LockedOut(states[0], user)
    ensures !NewlyAdmitted(states[0], states[i], user, id)
  {
    hide Step, Enabled, Target, Invariant, LockedOut, Rejects, QueueOf;
    if i > 0 {
      LockedOutAdmitsNone(states, actions, user, i - 1, id);
      LockedOutForEver(states, actions, user, i - 1);
      assert Follows(states[i - 1], actions[i - 1], states[i]);
      RejectedStep(states[i - 1], actions[i - 1], user, id);
    }
  }

  predicate IsAdmitted(s: State, user: string, id: nat) {
    id < |s.requests| && s.requests[id].user == user && s.requests[id].admitted
  }

  lemma RejectedStep(s: State, a: Action, user: string, id: nat)
    requires Enabled(s, a) && |QueueOf(s, user)| >= s.cfg.maxQueueDepth
    ensures IsAdmitted(Step(s, a), user, id) ==> IsAdmitted(s, user, id)
  {
    hide Enabled, QueueOf;
    OnlyTargetChanges(s, a);
    if Target(s, a) < |s.requests| {
      AdmittedOnlyByAdmit(s, a);
    }
  }

  lemma AdmittedOnlyByAdmit(s: State, a: Action)
    requires Enabled(s, a) && Target(s, a) < |s.requests| && |Step(s, a).requests| == |s.requests|
    ensures var r, r' := s.requests[Target(s, a)], Step(s, a).requests[Target(s, a)];
            r'.admitted ==> r.admitted || (a == Admit(Target(s, a)) && |QueueOf(s, r.user)| < s.cfg.maxQueueDepth)
  {
  }

  /**
     With the scheduler open, a user can still have another request admitted in some continuation unless its queue is
     full of abandoned requests: every other full queue can be emptied of a live request, whatever that waits for.
   */
  lemma LockedOutExactly(cfg: Config, s: State, userID: string)
    requires Reachable(cfg, s) && !s.done && cfg.maxQueueDepth > 0 && cfg.maxConcurrency > 0
    ensures LockedOut(s, UserKey(userID)) <==>
              !exists t :: LeadsTo(s, t) && AdmitsAnother(s, t, UserKey(userID))
  {
    hide Invariant, QueueOf, Abandoned, LeadsTo;
    var user := UserKey(userID);
    ReachableIsSound(cfg, s);
    LeadsToItself(s);
    if LockedOut(s, user) {
      forall t | LeadsTo(s, t) ensures !AdmitsAnother(s, t, user) {
        LockedOutLeadsNowhere(s, t, user);
      }
    } else {
      if |QueueOf(s, user)| >= s.cfg.maxQueueDepth {
        var id :| id in QueueOf(s, user) && !(id < |s.requests| && Abandoned(s.requests[id]));
        QueuedIsLive(s, user, id);
        RoomCanBeMade(s, s, id);
      } else {
        assert HasRoom(s, user, |s.requests|);
      }
      var t :| LeadsTo(s, t) && HasRoom(t, user, |s.requests|);
      RoomAdmits(s, t, userID);
    }
  }

  lemma LockedOutLeadsNowhere(s: State, t: State, user: string)
    requires Invariant(s) && LockedOut(s, user) && LeadsTo(s, t)
    ensures !AdmitsAnother(s, t, user)
  {
    hide Invariant, LockedOut, NewlyAdmitted;
    var states, actions :| Continues(s, states, actions) && states[|actions|] == t;
    forall id: nat ensures !NewlyAdmitted(s, t, user, id) {
      LockedOutAdmitsNone(states, actions, user, |actions|, id);
    }
  }

  lemma QueuedIsLive(s: State, user: string, id: nat)
    requires Invariant(s) && id in QueueOf(s, user) && !(id < |s.requests| && Abandoned(s.requests[id]))
    ensures id < |s.requests| && Live(s.requests[id]) && s.requests[id].user == user
  {
    assert QueueExact(s, user);
  }

  // ------------------------------------------------- how far a user overtakes

  /** The requests of one user that wait in the channel. */
  function InChannelOf(s: State, user: string): set<nat> {
    set id | id in s.incoming && id < |s.requests| && s.requests[id].user == user
  }

  /** The requests of one user that were taken out of the channel on the way from `s` to `t`. */
  function TakenOf(s: State, t: State, user: string): set<nat>
    requires |s.taken| <= |t.taken|
  {
    set id | id in t.taken[|s.taken|..] && id < |t.requests| && t.requests[id].user == user
  }

  /** A request of a user in the channel is listed in that user's queue. */
  lemma ChannelShareBounded(s: State, user: string)
    requires Invariant(s)
    ensures |InChannelOf(s, user)| <= s.cfg.maxQueueDepth
  {
    hide LoopAgrees, TokensExact;
    assert QueueExact(s, user);
    var q := QueueOf(s, user);
    forall id | id in InChannelOf(s, user) ensures id in Elements(q) {
      assert Coherent(s.requests[id]);
      var k :| 0 <= k < |s.incoming| && s.incoming[k] == id;
    }
    SubsetNotLarger(InChannelOf(s, user), Elements(q));
    DistinctSize(q);
  }

  /** What was sent and taken stays so, and requests keep their users. */
  ghost predicate Extends(s: State, t: State) {
    && s.sent <= t.sent && s.taken <= t.taken && t.cfg == s.cfg && |s.requests| <= |t.requests|
    && forall id :: 0 <= id < |s.requests| ==> t.requests[id].user == s.requests[id].user
  }

  lemma StepExtends(s: State, a: Action)
    requires Enabled(s, a)
    ensures Extends(s, Step(s, a))
  {
    hide Enabled, Target;
    OnlyTargetChanges(s, a);
    StepAppends(s, a);
  }

  lemma StepAppends(s: State, a: Action)
    requires Enabled(s, a)
    ensures s.sent <= Step(s, a).sent && s.taken <= Step(s, a).taken
  {
  }

  lemma {:induction false} RunExtends(states: seq<State>, actions: seq<Action>, i: nat)
    requires IsRun(states, actions) && i < |states|
    ensures Extends(states[0], states[i])
  {
    hide Enabled, Step;
    if i > 0 {
      RunExtends(states, actions, i - 1);
      assert Follows(states[i - 1], actions[i - 1], states[i]);
      StepExtends(states[i - 1], actions[i - 1]);
    }
  }

  /** Whatever is taken while a request waits was in the channel, ahead of it, when the wait began. */
  lemma TakenWereAhead(s: State, t: State, w: nat, user: string)
    requires ChannelExact(s) && ChannelExact(t) && Extends(s, t)
    requires w in s.incoming && w in t.incoming
    ensures TakenOf(s, t, user) <= InChannelOf(s, user)
  {
    var i :| 0 <= i < |s.incoming| && s.incoming[i] == w;
    var j :| 0 <= j < |t.incoming| && t.incoming[j] == w;
    assert t.sent[|s.taken| + i] == s.sent[|s.taken| + i] == w == t.sent[|t.taken| + j];
    forall id | id in TakenOf(s, t, user) ensures id in InChannelOf(s, user) {
      var k :| 0 <= k < |t.taken[|s.taken|..]| && t.taken[|s.taken|..][k] == id;
      assert t.sent[|s.taken| + k] == id;
      assert s.sent[|s.taken| + k] == id == s.incoming[k];
    }
  }

  /** While any request waits in the channel, at most `n` requests of any one user are taken out of it. */
  ghost predicate OvertakesAtMost(cfg: Config, n: nat) {
    forall s, t, w, user :: Reachable(cfg, s) && Becomes(s, t) && Waits(s, t, w) ==> TakesAtMost(s, t, user, n)
  }

  predicate Waits(s: State, t: State, w: nat) {
    w in s.incoming && w in t.incoming
  }

  predicate TakesAtMost(s: State, t: State, user: string, n: nat) {
    |s.taken| <= |t.taken| && |TakenOf(s, t, user)| <= n
  }

  /** No user has more than `n` requests in the channel at a time. */
  ghost predicate ChannelHoldsAtMost(cfg: Config, n: nat) {
    forall s, user :: Reachable(cfg, s) ==> |InChannelOf(s, user)| <= n
  }

  lemma ReachableIsSound(cfg: Config, s: State)
    requires Reachable(cfg, s)
    ensures Invariant(s) && s.cfg == cfg
  {
    hide Invariant;
    var states, actions :| RunBetween(Start(cfg), states, actions, s);
    StartInvariant(cfg);
    RunKeepsInvariant(states, actions, |actions|);
  }

  /** Whatever goes on, closing the scheduler can be brought to its end, the loop having stopped. */
  lemma CloseCanFinish(cfg: Config, s: State)
    requires Reachable(cfg, s)
    ensures exists t :: Becomes(s, t) && t.loop == Stopped
  {
    hide Invariant, Becomes;
    ReachableIsSound(cfg, s);
    BecomesItself(s);
    BecomesNext(s, s, Close);
    var closed := Step(s, Close);
    LoopHasRequest(s);
    match s.loop
    case Stopped => assert closed.loop == Stopped;
    case Polling => BecomesNext(s, closed, Stop);
    case Holding(_) => BecomesNext(s, closed, DropClosed);
    case Starting(_) =>
      BecomesNext(s, closed, Launch);
      BecomesNext(s, Step(closed, Launch), Stop);
  }

  lemma LoopHasRequest(s: State)
    requires Invariant(s)
    ensures s.loop.Holding? || s.loop.Starting? ==> s.loop.id < |s.requests|
  {
  }

  lemma OvertakingBounded(cfg: Config, s: State, t: State, w: nat, user: string)
    requires Reachable(cfg, s) && Becomes(s, t) && Waits(s, t, w)
    ensures TakesAtMost(s, t, user, cfg.maxQueueDepth)
  {
    hide Extends, QueuesExact, AllCoherent, LoopAgrees, TokensExact, ChannelExact, InChannelOf, TakenOf, Reachable;
    ReachableIsSound(cfg, s);
    var states, actions :| RunBetween(s, states, actions, t);
    RunKeepsInvariant(states, actions, |actions|);
    RunExtends(states, actions, |actions|);
    ExtendsTaken(s, t);
    TakenWereAhead(s, t, w, user);
    ChannelShareBounded(s, user);
    SubsetNotLarger(TakenOf(s, t, user), InChannelOf(s, user));
  }

  lemma ExtendsTaken(s: State, t: State)
    requires Extends(s, t)
    ensures |s.taken| <= |t.taken|
  {
  }

  // The bound is attained: one user fills its queue, another one submits, and the loop dispatches in turn.

  /** One undisturbed submission, up to the send. */
  function AfterSubmit(s: State, userID: string): State {
    var n, user := |s.requests|, UserKey(userID);
    s.(requests := s.requests + [Request(user, Waiting, true, InChannel, [])],
       queues := s.queues[user := QueueOf(s, user) + [n]],
       incoming := s.incoming + [n],
       sent := s.sent + [n])
  }

  lemma SubmitGoesThrough(s0: State, s: State, userID: string)
    requires Becomes(s0, s) && !s.done
    requires |QueueOf(s, UserKey(userID))| < s.cfg.maxQueueDepth && |s.incoming| < s.cfg.maxQueueDepth * 10
    ensures Becomes(s0, AfterSubmit(s, userID))
  {
    hide Becomes;
    var n := |s.requests|;
    BecomesNext(s0, s, Begin(userID));
    var s1 := Step(s, Begin(userID));
    BecomesNext(s0, s1, CheckOpen(n));
    var s2 := Step(s1, CheckOpen(n));
    BecomesNext(s0, s2, Find(n));
    var s3 := Step(s2, Find(n));
    BecomesNext(s0, s3, Admit(n));
    var s4 := Step(s3, Admit(n));
    BecomesNext(s0, s4, Send(n));
    var s5 := Step(s4, Send(n));
    var t := AfterSubmit(s, userID);
    assert s5.requests == t.requests && s5.queues == t.queues;
    assert s5 == t;
  }

  /** `k` submissions of one user. */
  function Burst(cfg: Config, k: nat): State {
    if k == 0 then Start(cfg) else AfterSubmit(Burst(cfg, k - 1), "u")
  }

  lemma {:induction false} BurstHolds(cfg: Config, k: nat)
    requires k <= cfg.maxQueueDepth
    ensures var s := Burst(cfg, k);
            && s.cfg == cfg && !s.done && s.loop == Polling && s.tokens == 0 && s.taken == []
            && s.incoming == Numbers(k) && s.requests == Repeat(Request("u", Waiting, true, InChannel, []), k)
            && QueueOf(s, "u") == Numbers(k) && QueueOf(s, "v") == []
    ensures Becomes(Start(cfg), Burst(cfg, k))
  {
    hide Becomes;
    if k == 0 {
      BecomesItself(Start(cfg));
    } else {
      BurstHolds(cfg, k - 1);
      SubmitGoesThrough(Start(cfg), Burst(cfg, k - 1), "u");
    }
  }

  /** A full burst, and another user's request behind it. */
  function Crowded(cfg: Config): State {
    AfterSubmit(Burst(cfg, cfg.maxQueueDepth), "v")
  }

  lemma CrowdedHolds(cfg: Config)
    requires cfg.maxQueueDepth > 0
    ensures var s, n := Crowded(cfg), cfg.maxQueueDepth;
            && s.cfg == cfg && s.loop == Polling && s.tokens == 0 && s.taken == []
            && s.incoming == Numbers(n + 1) && |s.requests| == n + 1
            && forall id :: 0 <= id < n ==> s.requests[id].user == "u"
    ensures Reachable(cfg, Crowded(cfg))
  {
    hide Becomes;
    BurstHolds(cfg, cfg.maxQueueDepth);
    SubmitGoesThrough(Start(cfg), Burst(cfg, cfg.maxQueueDepth), "v");
  }

  predicate CanTake(s: State) {
    s.loop == Polling && s.tokens < s.cfg.maxConcurrency && s.incoming != [] && s.incoming[0] < |s.requests|
  }

  /** The head of the channel has been taken and has a token. */
  function AfterTake(s: State): State
    requires CanTake(s)
  {
    var id := s.incoming[0];
    s.(requests := s.requests[id := s.requests[id].(work := Launching)], incoming := s.incoming[1..],
       taken := s.taken + [id], tokens := s.tokens + 1, loop := Starting(id))
  }

  lemma TakeGoesThrough(s0: State, s: State)
    requires Becomes(s0, s) && CanTake(s)
    ensures Becomes(s0, AfterTake(s))
  {
    hide Becomes;
    BecomesNext(s0, s, Poll);
    BecomesNext(s0, Step(s, Poll), Acquire);
    assert s.requests[s.incoming[0] := s.requests[s.incoming[0]].(work := Held)]
                     [s.incoming[0] := s.requests[s.incoming[0]].(work := Launching)] == AfterTake(s).requests;
    assert Step(Step(s, Poll), Acquire) == AfterTake(s);
  }

  /** The request that was being started has been answered and has given its token back. */
  function AfterReply(s: State, id: nat): State
    requires id < |s.requests|
  {
    var r := s.requests[id];
    s.(requests := s.requests[id := r.(work := Released, replies := r.replies + [Response])],
       inflight := s.inflight + 1, tokens := s.tokens - 1, loop := Polling)
  }

  lemma ReplyGoesThrough(s0: State, s: State, id: nat)
    requires Becomes(s0, s) && s.loop == Starting(id) && id < |s.requests|
    ensures Becomes(s0, AfterReply(s, id))
  {
    hide Becomes;
    BecomesNext(s0, s, Launch);
    var s1 := Step(s, Launch);
    BecomesNext(s0, s1, Process(id, true));
    var s2 := Step(s1, Process(id, true));
    BecomesNext(s0, s2, ReleaseToken(id));
    assert Step(s2, ReleaseToken(id)).requests == AfterReply(s, id).requests;
  }

  /** From `s` to `t`, the first `k` requests in the channel were dispatched, one after the other. */
  ghost predicate Dispatched(s: State, t: State, k: nat)
    requires k <= |s.incoming|
  {
    && Becomes(s, t)
    && t.cfg == s.cfg && t.loop == Polling && t.tokens == s.tokens
    && t.taken == s.taken + s.incoming[..k] && t.incoming == s.incoming[k..]
    && |t.requests| == |s.requests| && forall id :: 0 <= id < |s.requests| ==> t.requests[id].user == s.requests[id].user
  }

  lemma {:induction false} DispatchMany(s: State, k: nat)
    requires s.loop == Polling && s.tokens < s.cfg.maxConcurrency && k <= |s.incoming|
    requires forall i :: 0 <= i < |s.incoming| ==> s.incoming[i] < |s.requests|
    ensures exists t :: Dispatched(s, t, k)
  {
    hide Becomes;
    if k == 0 {
      BecomesItself(s);
      assert Dispatched(s, s, 0);
    } else {
      DispatchMany(s, k - 1);
      var u :| Dispatched(s, u, k - 1);
      assert u.incoming[0] == s.incoming[k - 1];
      TakeGoesThrough(s, u);
      ReplyGoesThrough(s, AfterTake(u), u.incoming[0]);
      assert s.incoming[..k] == s.incoming[..k - 1] + [s.incoming[k - 1]];
      assert Dispatched(s, AfterReply(AfterTake(u), u.incoming[0]), k);
    }
  }

  /** Between `s` and `t` a user whose queue was full is taken as often as it is deep, while a request waits. */
  ghost predicate Attains(cfg: Config, s: State, t: State) {
    && Reachable(cfg, s) && Becomes(s, t) && Waits(s, t, cfg.maxQueueDepth)
    && |s.taken| <= |t.taken| && |TakenOf(s, t, "u")| == cfg.maxQueueDepth
    && |InChannelOf(s, "u")| >= cfg.maxQueueDepth
  }

  lemma OvertakingAttained(cfg: Config)
    requires cfg.maxQueueDepth > 0 && cfg.maxConcurrency > 0
    ensures exists s, t :: Attains(cfg, s, t)
  {
    hide Becomes, Reachable, Crowded;
    var n, s := cfg.maxQueueDepth, Crowded(cfg);
    CrowdedHolds(cfg);
    DispatchMany(s, n);
    var t :| Dispatched(s, t, n);
    assert t.taken == Numbers(n);
    assert s.incoming[n] == n && t.incoming[0] == n;
    assert TakenOf(s, t, "u") == Elements(Numbers(n));
    assert forall id :: id in Numbers(n) ==> s.incoming[id] == id;
    assert Elements(Numbers(n)) <= InChannelOf(s, "u");
    DistinctSize(Numbers(n));
    SubsetNotLarger(Elements(Numbers(n)), InChannelOf(s, "u"));
    assert Attains(cfg, s, t);
  }

  /**
   No user is taken out of the channel more than `n` times while another request waits there, in any run, exactly if
   the queues are at most `n` deep. Taking turns is the case of one.
   */
  lemma OvertakingExactly(cfg: Config, n: nat)
    requires cfg.maxQueueDepth > 0 && cfg.maxConcurrency > 0
    ensures OvertakesAtMost(cfg, n) <==> cfg.maxQueueDepth <= n
  {
    hide Reachable, Becomes, TakenOf, Waits;
    if cfg.maxQueueDepth <= n {
      forall s, t, w, user | Reachable(cfg, s) && Becomes(s, t) && Waits(s, t, w) ensures TakesAtMost(s, t, user, n) {
        OvertakingBounded(cfg, s, t, w, user);
      }
    } else {
      OvertakingAttained(cfg);
      var s, t :| Attains(cfg, s, t);
      assert !TakesAtMost(s, t, "u", n);
    }
  }

  /** Nor does any user ever have more than `n` requests in the channel, under the same condition. */
  lemma ChannelShareExactly(cfg: Config, n: nat)
    requires cfg.maxQueueDepth > 0 && cfg.maxConcurrency > 0
    ensures ChannelHoldsAtMost(cfg, n) <==> cfg.maxQueueDepth <= n
  {
    hide Reachable, InChannelOf, Invariant;
    if cfg.maxQueueDepth <= n {
      forall s, user | Reachable(cfg, s) ensures |InChannelOf(s, user)| <= n {
        ReachableIsSound(cfg, s);
        ChannelShareBounded(s, user);
      }
    } else {
      OvertakingAttained(cfg);
      var s, t :| Attains(cfg, s, t);
    }
  }
}
