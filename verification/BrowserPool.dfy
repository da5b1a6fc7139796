/**
 The bounded session pool of pkg/uiauto/browser_iface.go. Each locked region, and each outcome of a factory
 call made outside the lock, is one action; a run is any interleaving of actions in which a session is
 released only by whoever leases it. Sessions are numbered in the order the factory made them.
 */
module BrowserPooling {

  datatype Pool = Pool(
    maxSize: nat,
    idle: seq<nat>,
    active: int,
    closed: bool,
    creating: nat,        // factory calls under way
    leased: set<nat>,
    closeCalls: seq<nat>, // sessions in the order Close was called on them
    created: nat
  )

  function NewPool(maxSize: int): Pool {
    Pool(if maxSize <= 0 then 4 else maxSize, [], 0, false, 0, {}, [], 0)
  }

  datatype Action =
    | Acquire
    | FactoryOk
    | FactoryFail
    | Release(session: nat)
    | CloseAll

  /** A factory call ends only if one is going on. */
  predicate Possible(s: Pool, a: Action) {
    a.FactoryOk? || a.FactoryFail? ==> s.creating > 0
  }

  /** What the pool expects of its callers besides: that they release what is leased, and so release each lease once. */
  predicate Enabled(s: Pool, a: Action) {
    Possible(s, a) && (a.Release? ==> a.session in s.leased)
  }

  datatype Reply = PoolClosed | Reuse(session: nat) | Create | Full

  /** What one pass of Acquire's loop finds under the lock. */
  function AcquireReply(s: Pool): Reply {
    if s.closed then PoolClosed
    else if s.idle != [] then Reuse(s.idle[|s.idle| - 1])
    else if s.active + |s.idle| < s.maxSize then Create
    else Full
  }

  function Step(s: Pool, a: Action): Pool
    requires Possible(s, a)
  {
    match a
    case Acquire =>
      (match AcquireReply(s)
       case Reuse(b) => s.(idle := s.idle[..|s.idle| - 1], active := s.active + 1, leased := s.leased + {b})
       case Create => s.(active := s.active + 1, creating := s.creating + 1)
       case _ => s)
    case FactoryOk => s.(creating := s.creating - 1, leased := s.leased + {s.created}, created := s.created + 1)
    case FactoryFail => s.(creating := s.creating - 1, active := s.active - 1)
    case Release(b) =>
      var t := s.(active := s.active - 1, leased := s.leased - {b});
      if s.closed || |s.idle| >= s.maxSize then t.(closeCalls := s.closeCalls + [b]) else t.(idle := s.idle + [b])
    case CloseAll =>
      if s.closed then s else s.(closed := true, idle := [], closeCalls := s.closeCalls + s.idle)
  }

  /** A run: the states between actions, each action enabled where it happens. */
  ghost predicate IsRun(states: seq<Pool>, actions: seq<Action>) {
    && |states| == |actions| + 1
    && forall i :: 0 <= i < |actions| ==> Follows(states[i], actions[i], states[i + 1])
  }

  ghost predicate Follows(s: Pool, a: Action, t: Pool) {
    Enabled(s, a) && Step(s, a) == t
  }

  function Sessions(n: nat): (sessions: set<nat>)
    ensures forall b :: b in sessions <==> 0 <= b < n
    ensures |sessions| == n
  {
    if n == 0 then {} else Sessions(n - 1) + {n - 1}
  }

  /** Every session ever made is accounted for once: idle, leased or closed. */
  ghost predicate Conserved(s: Pool) {
    multiset(s.idle) + multiset(s.leased) + multiset(s.closeCalls) == multiset(Sessions(s.created))
  }

  ghost predicate Invariant(s: Pool) {
    && s.active == s.creating + |s.leased|
    && s.active + |s.idle| <= s.maxSize
    && (s.closed ==> s.idle == [])
    && Conserved(s)
  }

  lemma NextSession(n: nat)
    ensures n !in Sessions(n) && multiset(Sessions(n + 1)) == multiset(Sessions(n)) + multiset{n}
  {
  }

  lemma LeaseMoves(leased: set<nat>, b: nat)
    ensures b !in leased ==> multiset(leased + {b}) == multiset(leased) + multiset{b} && |leased + {b}| == |leased| + 1
    ensures b in leased ==> multiset(leased - {b}) + multiset{b} == multiset(leased) && |leased - {b}| == |leased| - 1
  {
  }

  /** A session in one place is in no other. */
  lemma OnlyOnePlace(s: Pool, b: nat)
    requires Conserved(s)
    ensures multiset(s.idle)[b] + multiset(s.leased)[b] + multiset(s.closeCalls)[b] == (if b < s.created then 1 else 0)
  {
    var all := multiset(s.idle) + multiset(s.leased) + multiset(s.closeCalls);
    assert all[b] == multiset(Sessions(s.created))[b];
  }

  lemma AcquireKeepsInvariant(s: Pool)
    requires Invariant(s)
    ensures Invariant(Step(s, Acquire))
  {
    if AcquireReply(s).Reuse? {
      var b := s.idle[|s.idle| - 1];
      assert s.idle == s.idle[..|s.idle| - 1] + [b];
      OnlyOnePlace(s, b);
      assert multiset(s.idle)[b] >= 1;
      LeaseMoves(s.leased, b);
    }
  }

  lemma ReleaseKeepsInvariant(s: Pool, b: nat)
    requires Invariant(s) && b in s.leased
    ensures Invariant(Step(s, Release(b)))
    ensures !s.closed ==> Step(s, Release(b)).idle == s.idle + [b]  // an open pool never closes a returned session
  {
    LeaseMoves(s.leased, b);
    assert multiset(s.idle + [b]) == multiset(s.idle) + multiset{b};
    assert multiset(s.closeCalls + [b]) == multiset(s.closeCalls) + multiset{b};
  }

  lemma CreationKeepsInvariant(s: Pool)
    requires Invariant(s) && s.creating > 0
    ensures Invariant(Step(s, FactoryOk))
  {
    OnlyOnePlace(s, s.created);
    NextSession(s.created);
    LeaseMoves(s.leased, s.created);
  }

  lemma StepKeepsInvariant(s: Pool, a: Action)
    requires Invariant(s) && Enabled(s, a)
    ensures Invariant(Step(s, a)) && Step(s, a).maxSize == s.maxSize
    ensures s.closed ==> Step(s, a).closed
  {
    match a
    case Acquire => AcquireKeepsInvariant(s);
    case Release(b) => ReleaseKeepsInvariant(s, b);
    case FactoryOk => CreationKeepsInvariant(s);
    case CloseAll =>
      assert multiset(s.closeCalls + s.idle) == multiset(s.closeCalls) + multiset(s.idle);
    case FactoryFail =>
  }

  /** A possible step from a sound pool keeps it sound exactly if it is no release of a session that is not leased. */
  lemma InvariantKeptExactly(s: Pool, a: Action)
    requires Invariant(s) && Possible(s, a)
    ensures Invariant(Step(s, a)) <==> Enabled(s, a)
  {
    if Enabled(s, a) {
      StepKeepsInvariant(s, a);
    } else {
      assert s.leased - {a.session} == s.leased;
    }
  }

  /** In every interleaving the pool stays within its size and no session is in two places. */
  lemma {:induction false} RunKeepsInvariant(states: seq<Pool>, actions: seq<Action>, i: nat)
    requires IsRun(states, actions) && Invariant(states[0]) && i < |states|
    ensures Invariant(states[i]) && states[i].maxSize == states[0].maxSize
    ensures states[0].closed ==> states[i].closed
  {
    if i > 0 {
      RunKeepsInvariant(states, actions, i - 1);
      assert Follows(states[i - 1], actions[i - 1], states[i]);
      StepKeepsInvariant(states[i - 1], actions[i - 1]);
    }
  }

  lemma NewPoolInvariant(maxSize: int)
    ensures Invariant(NewPool(maxSize)) && NewPool(maxSize).maxSize > 0
  {
    assert Sessions(0) == {};
  }

  /** A pool at its limit: every slot is a lease or a factory call, so a wait can only end with one of those. */
  lemma FullMeansAllOut(s: Pool)
    requires Invariant(s) && AcquireReply(s) == Full
    ensures s.creating + |s.leased| == s.maxSize && s.idle == []
  {
  }

  /** Once the pool is closed and every lease and factory call is over, each session was closed exactly once. */
  lemma ShutdownClosesEachOnce(maxSize: int, states: seq<Pool>, actions: seq<Action>)
    requires IsRun(states, actions) && states[0] == NewPool(maxSize)
    requires var t := states[|states| - 1];
             t.closed && t.active == 0
    ensures var t := states[|states| - 1];
            |t.closeCalls| == t.created && forall b :: 0 <= b < t.created ==> multiset(t.closeCalls)[b] == 1
  {
    var t := states[|states| - 1];
    NewPoolInvariant(maxSize);
    RunKeepsInvariant(states, actions, |states| - 1);
    assert t.leased == {} && t.idle == [];
    assert multiset(t.closeCalls) == multiset(Sessions(t.created));
    assert |t.closeCalls| == |multiset(t.closeCalls)| == |Sessions(t.created)|;
    forall b: nat | b < t.created ensures multiset(t.closeCalls)[b] == 1 {
      OnlyOnePlace(t, b);
    }
  }

  /** A closed pool leases nothing and begins no factory call: what it still hands out was being created before. */
  lemma {:induction false} ClosedServesNobody(states: seq<Pool>, actions: seq<Action>, i: nat)
    requires IsRun(states, actions) && Invariant(states[0]) && states[0].closed && i < |states|
    ensures AcquireReply(states[i]) == PoolClosed && states[i].idle == []
    ensures states[i].creating <= states[0].creating
    ensures states[i].created + states[i].creating <= states[0].created + states[0].creating
    ensures |states[i].leased| + states[i].creating <= |states[0].leased| + states[0].creating
  {
    hide Conserved;
    if i > 0 {
      ClosedServesNobody(states, actions, i - 1);
      RunKeepsInvariant(states, actions, i - 1);
      RunKeepsInvariant(states, actions, i);
      assert Follows(states[i - 1], actions[i - 1], states[i]);
    }
  }

  /** Sessions are reused most recent first. */
  lemma ReleasedIsNextReused(s: Pool, b: nat)
    requires Invariant(s) && b in s.leased && !s.closed
    ensures AcquireReply(Step(s, Release(b))) == Reuse(b)
    ensures Step(Step(s, Release(b)), Acquire) == s
  {
    ReleaseKeepsInvariant(s, b);
    assert s.leased - {b} + {b} == s.leased;
    assert (s.idle + [b])[..|s.idle|] == s.idle;
  }

  /** The pool object: its fields, plus the book-keeping the statement above needs. */
  class BrowserPool {
    const maxSize: nat
    var idle: seq<nat>
    var active: int
    var closed: bool
    var totalLeased: int
    ghost var creating: nat
    ghost var leased: set<nat>
    ghost var closeCalls: seq<nat>
    ghost var created: nat

    ghost function View(): Pool
      reads this
    {
      Pool(maxSize, idle, active, closed, creating, leased, closeCalls, created)
    }

    ghost predicate Valid()
      reads this
    {
      Invariant(View())
    }

    constructor (maxSize: int)
      ensures Valid() && View() == NewPool(maxSize) && totalLeased == 0
    {
      this.maxSize := if maxSize <= 0 then 4 else maxSize;
      idle, active, closed, totalLeased := [], 0, false, 0;
      creating, leased, closeCalls, created := 0, {}, [], 0;
      new;
      NewPoolInvariant(maxSize);
    }

    /** One pass of Acquire's loop. The lease counter also counts creations that later fail. */
    method TryAcquire() returns (reply: Reply)
      modifies this
      ensures reply == AcquireReply(old(View())) && View() == Step(old(View()), Acquire)
      ensures old(Valid()) ==> Valid()
      ensures totalLeased == old(totalLeased) + (if reply.Reuse? || reply.Create? then 1 else 0)
    {
      hide Invariant, Conserved;
      if Valid() {
        AcquireKeepsInvariant(View());
      }
      if closed {
        return PoolClosed;
      }
      if |idle| > 0 {
        var b := idle[|idle| - 1];
        idle := idle[..|idle| - 1];
        active := active + 1;
        totalLeased := totalLeased + 1;
        leased := leased + {b};
        return Reuse(b);
      }
      if active + |idle| < maxSize {
        active := active + 1;
        totalLeased := totalLeased + 1;
        creating := creating + 1;
        return Create;
      }
      return Full;
    }

    /** The end of a factory call, outside the lock: a failure gives its slot back. */
    method FactoryReturns(ok: bool)
      requires creating > 0
      modifies this
      ensures View() == Step(old(View()), if ok then FactoryOk else FactoryFail)
      ensures old(Valid()) ==> Valid()
      ensures totalLeased == old(totalLeased)
    {
      hide Invariant, Conserved;
      if Valid() {
        StepKeepsInvariant(View(), if ok then FactoryOk else FactoryFail);
      }
      creating := creating - 1;
      if ok {
        leased := leased + {created};
        created := created + 1;
      } else {
        active := active - 1;
      }
    }

    /** Takes any session; a sound pool stays sound exactly if the session was leased. */
    method Release(b: nat)
      modifies this
      ensures View() == Step(old(View()), Action.Release(b))
      ensures old(Valid()) ==> (Valid() <==> b in old(leased))
      ensures totalLeased == old(totalLeased)
    {
      hide Invariant, Conserved;
      if Valid() {
        InvariantKeptExactly(View(), Action.Release(b));
      }
      active := active - 1;
      leased := leased - {b};
      if closed {
        closeCalls := closeCalls + [b];
        return;
      }
      if |idle| < maxSize {
        idle := idle + [b];
      } else {
        closeCalls := closeCalls + [b];
      }
    }

    /** Closes every idle session the first time it is called, and does nothing afterwards. */
    method CloseAll()
      modifies this
      ensures View() == Step(old(View()), Action.CloseAll)
      ensures old(Valid()) ==> Valid()
      ensures totalLeased == old(totalLeased)
    {
      hide Invariant, Conserved;
      if Valid() {
        StepKeepsInvariant(View(), Action.CloseAll);
      }
      if closed {
        return;
      }
      closed := true;
      for i := 0 to |idle|
        invariant View() == old(View()).(closed := true, closeCalls := old(closeCalls) + idle[..i])
        invariant totalLeased == old(totalLeased)
      {
        closeCalls := closeCalls + [idle[i]];
        assert idle[..i + 1] == idle[..i] + [idle[i]];
      }
      assert idle[..|idle|] == idle;
      idle := [];
    }
  }
}
