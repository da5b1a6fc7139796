/**
 The promotion pipeline and the auto-promoter of pkg/evolver, run sequentially. The evaluation, the capsule
 builder and the capsule store are oracles: their outcomes are arguments. Reading the clock gives integers
 that never go back.
 */
module Promoting {
  import opened Collections
  import opened Wrappers

  datatype Risk = Low | Medium | High

  datatype Mutation = Mutation(id: string, signalID: string, geneID: string, risk: Risk)

  datatype Evaluation = Evaluation(score: real, pass: bool)

  datatype Status = Pending | Evaluated | Approved | Rejected | Promoted | RolledBack

  datatype Record = Record(
    mutationID: string,
    capsuleID: string,
    status: Status,
    evaluation: Option<Evaluation>,
    reviewedBy: string,
    reason: string
  )

  datatype Error = EvaluationFailed | NotFound | WrongState(actual: Status) | SaveFailed | BuildFailed

  datatype Metrics = Metrics(
    submitted: int,
    evaluated: int,
    approved: int,
    rejected: int,
    promoted: int,
    rolledBack: int
  )

  type Records = map<string, Record>

  function InStatus(rs: Records, st: Status): set<string> {
    set id | id in rs && rs[id].status == st
  }

  lemma StatusAfterUpdate(rs: Records, id: string, r: Record, st: Status)
    ensures |InStatus(rs[id := r], st)|
            == |InStatus(rs, st)|
               - (if id in rs && rs[id].status == st then 1 else 0)
               + (if r.status == st then 1 else 0)
  {
    hide InStatus;
    WithAndWithout(InStatus(rs, st), id);
    WithAndWithout(InStatus(rs[id := r], st), id);
    InStatusHolds(rs, st, id);
    InStatusHolds(rs[id := r], st, id);
    OthersUnmoved(rs, id, r, st);
  }

  lemma InStatusHolds(rs: Records, st: Status, id: string)
    ensures id in InStatus(rs, st) <==> id in rs && rs[id].status == st
  {
  }

  lemma OthersUnmoved(rs: Records, id: string, r: Record, st: Status)
    ensures InStatus(rs[id := r], st) - {id} == InStatus(rs, st) - {id}
  {
    hide InStatus;
    forall x | x != id ensures x in InStatus(rs[id := r], st) <==> x in InStatus(rs, st) {
      InStatusHolds(rs, st, x);
      InStatusHolds(rs[id := r], st, x);
    }
  }

  /** Past evaluation means a passed evaluation; past promotion means a saved capsule. */
  ghost predicate RecordSound(id: string, r: Record, saved: set<string>) {
    && r.mutationID == id
    && (r.status in {Evaluated, Approved, Promoted, RolledBack} ==> r.evaluation.Some? && r.evaluation.value.pass)
    && (r.status in {Promoted, RolledBack} ==> r.capsuleID in saved)
  }

  /** Each counter bounds the next: every stage is entered from the one before, once per entry. */
  ghost predicate Ledger(rs: Records, m: Metrics) {
    && m.evaluated <= m.submitted
    && m.approved + |InStatus(rs, Evaluated)| <= m.evaluated
    && m.promoted + |InStatus(rs, Approved)| <= m.approved
    && m.rolledBack + |InStatus(rs, Promoted)| <= m.promoted
  }

  lemma LedgerBounds(rs: Records, m: Metrics)
    requires Ledger(rs, m)
    ensures m.rolledBack <= m.promoted <= m.approved <= m.evaluated <= m.submitted
  {
  }

  /** Moving one record along keeps the ledger if the counters move with it. */
  lemma LedgerAfterUpdate(rs: Records, m: Metrics, id: string, r: Record, m': Metrics)
    requires Ledger(rs, m)
    requires m'.evaluated - m.evaluated <= m'.submitted - m.submitted
    requires var was := if id in rs then Some(rs[id].status) else None;
             && m'.approved - m.approved + (if r.status == Evaluated then 1 else 0) - (if was == Some(Evaluated) then 1 else 0)
                <= m'.evaluated - m.evaluated
             && m'.promoted - m.promoted + (if r.status == Approved then 1 else 0) - (if was == Some(Approved) then 1 else 0)
                <= m'.approved - m.approved
             && m'.rolledBack - m.rolledBack + (if r.status == Promoted then 1 else 0) - (if was == Some(Promoted) then 1 else 0)
                <= m'.promoted - m.promoted
    ensures Ledger(rs[id := r], m')
  {
    StatusAfterUpdate(rs, id, r, Evaluated);
    StatusAfterUpdate(rs, id, r, Approved);
    StatusAfterUpdate(rs, id, r, Promoted);
  }

  class PromotionPipeline {
    const autoPromoteLowRisk: bool
    const requireHITL: bool
    var records: Records
    var metrics: Metrics
    ghost var saved: set<string>  // capsules in the store

    ghost predicate Valid()
      reads this
    {
      && (forall id :: id in records ==> RecordSound(id, records[id], saved))
      && Ledger(records, metrics)
    }

    constructor (autoPromoteLowRisk: bool, requireHITL: bool)
      ensures Valid() && records == map[] && saved == {} && metrics == Metrics(0, 0, 0, 0, 0, 0)
      ensures this.autoPromoteLowRisk == autoPromoteLowRisk && this.requireHITL == requireHITL
    {
      this.autoPromoteLowRisk, this.requireHITL := autoPromoteLowRisk, requireHITL;
      records, metrics, saved := map[], Metrics(0, 0, 0, 0, 0, 0), {};
    }

    /** Starts the mutation over with a fresh record, whatever record it had. */
    method Submit(mut: Mutation, evaluation: Option<Evaluation>) returns (rec: Record, err: Option<Error>)
      requires Valid()
      modifies `records, `metrics
      ensures Valid()
      ensures err == if evaluation.None? then Some(EvaluationFailed) else None
      ensures records == old(records)[mut.id := rec] && rec.evaluation == evaluation
      ensures rec.status == if evaluation.None? then Pending
                            else if !evaluation.value.pass then Rejected
                            else if autoPromoteLowRisk && mut.risk == Low && !requireHITL then Approved
                            else Evaluated
      ensures rec.status == Approved ==> rec.reviewedBy == "auto_promote"
      ensures metrics == old(metrics).(
                           submitted := old(metrics).submitted + 1,
                           evaluated := old(metrics).evaluated + (if evaluation.Some? then 1 else 0),
                           rejected := old(metrics).rejected + (if rec.status == Rejected then 1 else 0),
                           approved := old(metrics).approved + (if rec.status == Approved then 1 else 0))
    {
      hide InStatus, Ledger;
      rec := Record(mut.id, "", Pending, None, "", "");
      LedgerAfterUpdate(records, metrics, mut.id, rec, metrics.(submitted := metrics.submitted + 1));
      records := records[mut.id := rec];
      metrics := metrics.(submitted := metrics.submitted + 1);
      if evaluation.None? {
        return rec, Some(EvaluationFailed);
      }
      var eval := evaluation.value;
      var m := metrics.(evaluated := metrics.evaluated + 1);
      rec := rec.(evaluation := Some(eval), status := Evaluated);
      if !eval.pass {
        rec := rec.(status := Rejected, reason := "score below threshold");
        m := m.(rejected := m.rejected + 1);
      } else if autoPromoteLowRisk && mut.risk == Low && !requireHITL {
        rec := rec.(status := Approved, reviewedBy := "auto_promote");
        m := m.(approved := m.approved + 1);
      }
      LedgerAfterUpdate(old(records), old(metrics), mut.id, rec, m);
      assert old(records)[mut.id := rec] == records[mut.id := rec];
      records, metrics := records[mut.id := rec], m;
      return rec, None;
    }

    /** The one place where a record changes after its submission. */
    method Update(r: Record, m: Metrics)
      requires Valid() && r.mutationID in records && RecordSound(r.mutationID, r, saved)
      requires Ledger(records[r.mutationID := r], m)
      modifies `records, `metrics
      ensures Valid() && records == old(records)[r.mutationID := r] && metrics == m
    {
      records, metrics := records[r.mutationID := r], m;
    }

    /** Only an evaluated record can be approved. */
    method Approve(mutationID: string, reviewerID: string, reason: string) returns (err: Option<Error>)
      requires Valid()
      modifies `records, `metrics
      ensures Valid()
      ensures err == if mutationID !in old(records) then Some(NotFound)
                     else if old(records)[mutationID].status != Evaluated then Some(WrongState(old(records)[mutationID].status))
                     else None
      ensures err.Some? ==> records == old(records) && metrics == old(metrics)
      ensures err.None? ==>
                && records == old(records)[mutationID := old(records)[mutationID].(
                     status := Approved, reviewedBy := reviewerID, reason := reason)]
                && metrics == old(metrics).(approved := old(metrics).approved + 1)
    {
      if mutationID !in records {
        return Some(NotFound);
      }
      var rec := records[mutationID];
      if rec.status != Evaluated {
        return Some(WrongState(rec.status));
      }
      rec := rec.(status := Approved, reviewedBy := reviewerID, reason := reason);
      var m := metrics.(approved := metrics.approved + 1);
      LedgerAfterUpdate(records, metrics, mutationID, rec, m);
      Update(rec, m);
      return None;
    }

    /** Any record can be rejected, a promoted one as well. */
    method Reject(mutationID: string, reviewerID: string, reason: string) returns (err: Option<Error>)
      requires Valid()
      modifies `records, `metrics
      ensures Valid()
      ensures err == if mutationID !in old(records) then Some(NotFound) else None
      ensures err.Some? ==> records == old(records) && metrics == old(metrics)
      ensures err.None? ==>
                && records == old(records)[mutationID := old(records)[mutationID].(
                     status := Rejected, reviewedBy := reviewerID, reason := reason)]
                && metrics == old(metrics).(rejected := old(metrics).rejected + 1)
    {
      if mutationID !in records {
        return Some(NotFound);
      }
      var rec := records[mutationID].(status := Rejected, reviewedBy := reviewerID, reason := reason);
      var m := metrics.(rejected := metrics.rejected + 1);
      LedgerAfterUpdate(records, metrics, mutationID, rec, m);
      Update(rec, m);
      return None;
    }

    /** Only an approved record can be promoted, and only after its capsule was saved. */
    method Promote(mutationID: string, capsuleID: string, saveOk: bool) returns (err: Option<Error>)
      requires Valid()
      modifies `records, `metrics, `saved
      ensures Valid()
      ensures err == if mutationID !in old(records) then Some(NotFound)
                     else if old(records)[mutationID].status != Approved then Some(WrongState(old(records)[mutationID].status))
                     else if !saveOk then Some(SaveFailed)
                     else None
      ensures err.Some? ==> records == old(records) && metrics == old(metrics) && saved == old(saved)
      ensures err.None? ==>
                && saved == old(saved) + {capsuleID}
                && records == old(records)[mutationID := old(records)[mutationID].(capsuleID := capsuleID, status := Promoted)]
                && metrics == old(metrics).(promoted := old(metrics).promoted + 1)
    {
      if mutationID !in records {
        return Some(NotFound);
      }
      var rec := records[mutationID];
      if rec.status != Approved {
        return Some(WrongState(rec.status));
      }
      if !saveOk {
        return Some(SaveFailed);
      }
      saved := saved + {capsuleID};
      rec := rec.(capsuleID := capsuleID, status := Promoted);
      var m := metrics.(promoted := metrics.promoted + 1);
      LedgerAfterUpdate(records, metrics, mutationID, rec, m);
      Update(rec, m);
      return None;
    }

    /** Only a promoted record can be rolled back. */
    method Rollback(mutationID: string, reason: string) returns (err: Option<Error>)
      requires Valid()
      modifies `records, `metrics
      ensures Valid()
      ensures err == if mutationID !in old(records) then Some(NotFound)
                     else if old(records)[mutationID].status != Promoted then Some(WrongState(old(records)[mutationID].status))
                     else None
      ensures err.Some? ==> records == old(records) && metrics == old(metrics)
      ensures err.None? ==>
                && records == old(records)[mutationID := old(records)[mutationID].(status := RolledBack, reason := reason)]
                && metrics == old(metrics).(rolledBack := old(metrics).rolledBack + 1)
    {
      if mutationID !in records {
        return Some(NotFound);
      }
      var rec := records[mutationID];
      if rec.status != Promoted {
        return Some(WrongState(rec.status));
      }
      rec := rec.(status := RolledBack, reason := reason);
      var m := metrics.(rolledBack := metrics.rolledBack + 1);
      LedgerAfterUpdate(records, metrics, mutationID, rec, m);
      Update(rec, m);
      return None;
    }
  }

  // ---------------------------------------------------------- auto-promotion

  const DAY: int := 24 * 3600 * 1000000000

  datatype RollbackEntry = RollbackEntry(capsuleID: string, at: int)

  function Recent(rs: seq<RollbackEntry>, cutoff: int): seq<RollbackEntry> {
    if rs == [] then []
    else
      var r := rs[|rs| - 1];
      Recent(rs[..|rs| - 1], cutoff) + (if r.at > cutoff then [r] else [])
  }

  lemma RecentPush(rs: seq<RollbackEntry>, r: RollbackEntry, cutoff: int)
    ensures Recent(rs + [r], cutoff) == Recent(rs, cutoff) + (if r.at > cutoff then [r] else [])
  {
    assert (rs + [r])[..|rs|] == rs;
  }

  /** Trimming at an earlier cutoff does not change what is recent at a later one. */
  lemma {:induction false} RecentOfRecent(rs: seq<RollbackEntry>, earlier: int, later: int)
    requires earlier <= later
    ensures Recent(Recent(rs, earlier), later) == Recent(rs, later)
  {
    if rs != [] {
      var front, r := rs[..|rs| - 1], rs[|rs| - 1];
      RecentOfRecent(front, earlier, later);
      RecentPush(Recent(front, earlier), r, later);
      assert Recent(front, earlier) + [] == Recent(front, earlier);
    }
  }

  /** The trimmed list and the whole history agree on every cutoff from `since` on. */
  ghost predicate SameRecent(trimmed: seq<RollbackEntry>, all: seq<RollbackEntry>, since: int) {
    forall cutoff :: cutoff >= since ==> Recent(trimmed, cutoff) == Recent(all, cutoff)
  }

  lemma TrimKeepsRecent(trimmed: seq<RollbackEntry>, all: seq<RollbackEntry>, since: int, cutoff: int)
    requires SameRecent(trimmed, all, since) && cutoff >= since
    ensures Recent(trimmed, cutoff) == Recent(all, cutoff)
    ensures SameRecent(Recent(trimmed, cutoff), all, cutoff)
  {
    forall later | later >= cutoff ensures Recent(Recent(trimmed, cutoff), later) == Recent(all, later) {
      RecentOfRecent(trimmed, cutoff, later);
    }
  }

  lemma PushKeepsRecent(trimmed: seq<RollbackEntry>, all: seq<RollbackEntry>, since: int, r: RollbackEntry)
    requires SameRecent(trimmed, all, since)
    ensures SameRecent(trimmed + [r], all + [r], since)
  {
    forall cutoff | cutoff >= since ensures Recent(trimmed + [r], cutoff) == Recent(all + [r], cutoff) {
      RecentPush(trimmed, r, cutoff);
      RecentPush(all, r, cutoff);
    }
  }

  /** One promotion made by the auto-promoter, with what stood when it was made. */
  datatype Promotion = Promotion(mutation: Mutation, signalID: string, at: int, capsuleID: string,
                                 evaluation: Evaluation, recentRollbacks: nat)

  /** Some earlier promotion for this signal is less than the cooldown ago. */
  ghost predicate Cooling(ps: seq<Promotion>, signalID: string, now: int, cooldown: int) {
    exists i :: 0 <= i < |ps| && ps[i].signalID == signalID && now - ps[i].at < cooldown
  }

  /** Promotions for one signal are a cooldown apart. */
  ghost predicate SpacedBySignal(ps: seq<Promotion>, cooldown: int) {
    forall i, j :: 0 <= i < j < |ps| && ps[i].signalID == ps[j].signalID ==> ps[j].at - ps[i].at >= cooldown
  }

  /** The cooldown table holds each signal's latest promotion. */
  ghost predicate TableExact(ps: seq<Promotion>, table: map<string, int>, lastReading: int) {
    && (forall i :: 0 <= i < |ps| ==> ps[i].at <= lastReading && ps[i].signalID in table && ps[i].at <= table[ps[i].signalID])
    && (forall sig :: sig in table ==> exists i :: 0 <= i < |ps| && ps[i].signalID == sig && ps[i].at == table[sig])
  }

  lemma TableDecidesCooling(ps: seq<Promotion>, table: map<string, int>, lastReading: int, signalID: string, now: int, cooldown: int)
    requires TableExact(ps, table, lastReading)
    ensures Cooling(ps, signalID, now, cooldown) <==> signalID in table && now - table[signalID] < cooldown
  {
  }

  lemma PromotionKeepsTable(ps: seq<Promotion>, table: map<string, int>, lastReading: int, p: Promotion)
    requires TableExact(ps, table, lastReading) && p.at >= lastReading
    ensures TableExact(ps + [p], table[p.signalID := p.at], p.at)
  {
    var ps', table' := ps + [p], table[p.signalID := p.at];
    forall sig | sig in table'
      ensures exists i :: 0 <= i < |ps'| && ps'[i].signalID == sig && ps'[i].at == table'[sig]
    {
      if sig == p.signalID {
        assert ps'[|ps|] == p;
      } else {
        var i :| 0 <= i < |ps| && ps[i].signalID == sig && ps[i].at == table[sig];
        assert ps'[i] == ps[i];
      }
    }
  }

  lemma PromotionKeepsSpacing(ps: seq<Promotion>, cooldown: int, p: Promotion)
    requires SpacedBySignal(ps, cooldown) && !Cooling(ps, p.signalID, p.at, cooldown)
    ensures SpacedBySignal(ps + [p], cooldown)
  {
  }

  /** What every promotion on record went through. */
  ghost predicate PromotionSound(p: Promotion, allowedCategories: set<string>, resolve: string -> Option<string>,
                                 maxRollbacks: int, saved: set<string>) {
    && p.mutation.risk == Low
    && resolve(p.mutation.geneID).Some? && resolve(p.mutation.geneID).value in allowedCategories
    && p.evaluation.pass
    && p.capsuleID in saved
    && p.recentRollbacks < maxRollbacks
  }

  datatype Verdict =
    | RiskTooHigh
    | CategoryNotAllowed
    | BudgetExhausted
    | CooldownActive
    | EvaluationError
    | LeftToPipeline   // evaluated, but not approved by the pipeline itself
    | CapsuleNotBuilt
    | CapsuleNotSaved
    | AutoPromoted

  datatype AutoMetrics = AutoMetrics(autoPromoted: int, guardrailRejected: int, circuitBreakerTripped: int,
                                     cooldownGated: int, builderFailed: int)

  /** Each verdict moves at most one counter. */
  function Counted(m: AutoMetrics, v: Verdict): AutoMetrics {
    match v
    case AutoPromoted => m.(autoPromoted := m.autoPromoted + 1)
    case RiskTooHigh => m.(guardrailRejected := m.guardrailRejected + 1)
    case CategoryNotAllowed => m.(guardrailRejected := m.guardrailRejected + 1)
    case BudgetExhausted => m.(circuitBreakerTripped := m.circuitBreakerTripped + 1)
    case CooldownActive => m.(cooldownGated := m.cooldownGated + 1)
    case CapsuleNotBuilt => m.(builderFailed := m.builderFailed + 1)
    case _ => m
  }

  lemma CountedExactly(m: AutoMetrics)
    ensures forall v :: v in {RiskTooHigh, CategoryNotAllowed} ==> Counted(m, v) == m.(guardrailRejected := m.guardrailRejected + 1)
    ensures Counted(m, CapsuleNotBuilt) == m.(builderFailed := m.builderFailed + 1)
    ensures forall v :: v in {EvaluationError, LeftToPipeline, CapsuleNotSaved} ==> Counted(m, v) == m
  {
  }

  function CountedAll(vs: seq<Verdict>): AutoMetrics {
    if vs == [] then AutoMetrics(0, 0, 0, 0, 0) else Counted(CountedAll(vs[..|vs| - 1]), vs[|vs| - 1])
  }

  /** After any verdicts, the counters are the numbers of promotions, guardrail hits, and the other three gates. */
  lemma {:induction false} CountersAreVerdicts(vs: seq<Verdict>)
    ensures CountedAll(vs) == AutoMetrics(
      multiset(vs)[AutoPromoted],
      multiset(vs)[RiskTooHigh] + multiset(vs)[CategoryNotAllowed],
      multiset(vs)[BudgetExhausted],
      multiset(vs)[CooldownActive],
      multiset(vs)[CapsuleNotBuilt])
  {
    if vs != [] {
      CountersAreVerdicts(vs[..|vs| - 1]);
      assert vs == vs[..|vs| - 1] + [vs[|vs| - 1]];
    }
  }

  /** What the gates are configured with, the pipeline's two switches included. */
  datatype Gates = Gates(
    allowedCategories: set<string>,
    maxRollbacksPerDay: int,
    minCooldownPerSignal: int,
    resolve: string -> Option<string>,
    autoPromoteLowRisk: bool,
    requireHITL: bool
  )

  /** One call of Process: its arguments, the clock, and the answers of the oracles. */
  datatype Attempt = Attempt(mutation: Mutation, signalID: string, now: int,
                             evaluation: Option<Evaluation>, built: Option<string>, saveOk: bool)

  datatype History = History(rollbacks: seq<RollbackEntry>, promotions: seq<Promotion>)

  /** The gates in order, decided on the whole history of rollbacks and promotions. */
  ghost function Decide(g: Gates, h: History, a: Attempt): Verdict {
    if a.mutation.risk != Low then RiskTooHigh
    else if g.resolve(a.mutation.geneID).None? || g.resolve(a.mutation.geneID).value !in g.allowedCategories
    then CategoryNotAllowed
    else if |Recent(h.rollbacks, a.now - DAY)| >= g.maxRollbacksPerDay then BudgetExhausted
    else if g.minCooldownPerSignal > 0 && Cooling(h.promotions, a.signalID, a.now, g.minCooldownPerSignal)
    then CooldownActive
    else if a.evaluation.None? then EvaluationError
    else if !a.evaluation.value.pass || !g.autoPromoteLowRisk || g.requireHITL then LeftToPipeline
    else if a.built.None? then CapsuleNotBuilt
    else if !a.saveOk then CapsuleNotSaved
    else AutoPromoted
  }

  ghost function AfterAttempt(g: Gates, h: History, a: Attempt): History {
    if Decide(g, h, a) == AutoPromoted
    then h.(promotions := h.promotions + [Promotion(a.mutation, a.signalID, a.now, a.built.value, a.evaluation.value,
                                                    |Recent(h.rollbacks, a.now - DAY)|)])
    else h
  }

  class AutoPromoter {
    const pipeline: PromotionPipeline
    const allowedCategories: set<string>
    const maxRollbacksPerDay: int
    const minCooldownPerSignal: int
    const resolve: string -> Option<string>
    var rollbacks: seq<RollbackEntry>
    var cooldown: map<string, int>
    var metrics: AutoMetrics
    ghost var allRollbacks: seq<RollbackEntry>
    ghost var promotions: seq<Promotion>
    ghost var lastReading: int

    ghost predicate Valid()
      reads this, pipeline
    {
      && pipeline.Valid()
      && SameRecent(rollbacks, allRollbacks, lastReading - DAY)
      && TableExact(promotions, cooldown, lastReading)
      && (minCooldownPerSignal > 0 ==> SpacedBySignal(promotions, minCooldownPerSignal))
      && (forall i :: 0 <= i < |promotions| ==>
            PromotionSound(promotions[i], allowedCategories, resolve, maxRollbacksPerDay, pipeline.saved))
      && metrics.autoPromoted == |promotions|
    }

    ghost function Configuration(): Gates {
      Gates(allowedCategories, maxRollbacksPerDay, minCooldownPerSignal, resolve, pipeline.autoPromoteLowRisk,
            pipeline.requireHITL)
    }

    ghost function Past(): History
      reads this
    {
      History(allRollbacks, promotions)
    }

    /** A budget of zero means three. */
    constructor (pipeline: PromotionPipeline, allowedCategories: set<string>, maxRollbacksPerDay: int,
                 minCooldownPerSignal: int, resolve: string -> Option<string>, start: int)
      requires pipeline.Valid()
      ensures Valid() && promotions == [] && allRollbacks == [] && lastReading == start
      ensures metrics == CountedAll([])
      ensures this.pipeline == pipeline && this.resolve == resolve && this.minCooldownPerSignal == minCooldownPerSignal
      ensures this.maxRollbacksPerDay == if maxRollbacksPerDay == 0 then 3 else maxRollbacksPerDay
      ensures this.allowedCategories == if allowedCategories == {} then {"selector", "pattern", "resilience"} else allowedCategories
    {
      this.pipeline := pipeline;
      this.allowedCategories := if allowedCategories == {} then {"selector", "pattern", "resilience"} else allowedCategories;
      this.maxRollbacksPerDay := if maxRollbacksPerDay == 0 then 3 else maxRollbacksPerDay;
      this.minCooldownPerSignal, this.resolve := minCooldownPerSignal, resolve;
      rollbacks, cooldown, metrics := [], map[], AutoMetrics(0, 0, 0, 0, 0);
      allRollbacks, promotions, lastReading := [], [], start;
    }

    method RecordRollback(capsuleID: string, at: int)
      requires Valid()
      modifies `rollbacks, `allRollbacks
      ensures Valid() && allRollbacks == old(allRollbacks) + [RollbackEntry(capsuleID, at)]
    {
      PushKeepsRecent(rollbacks, allRollbacks, lastReading - DAY, RollbackEntry(capsuleID, at));
      rollbacks := rollbacks + [RollbackEntry(capsuleID, at)];
      allRollbacks := allRollbacks + [RollbackEntry(capsuleID, at)];
    }

    /** Filters the list in place; the verdict is that of the full history. */
    method RollbackBudgetExceeded(now: int) returns (exceeded: bool)
      requires Valid() && now >= lastReading
      modifies `rollbacks, `lastReading
      ensures Valid() && lastReading == now
      ensures exceeded <==> |Recent(allRollbacks, now - DAY)| >= maxRollbacksPerDay
    {
      hide SpacedBySignal, SameRecent, PromotionSound;
      TrimKeepsRecent(rollbacks, allRollbacks, lastReading - DAY, now - DAY);
      Trim(now - DAY);
      lastReading := now;
      return |rollbacks| >= maxRollbacksPerDay;
    }

    method Trim(cutoff: int)
      modifies `rollbacks
      ensures rollbacks == Recent(old(rollbacks), cutoff)
    {
      var live := 0;
      for i := 0 to |rollbacks|
        invariant live <= i && |rollbacks| == |old(rollbacks)|
        invariant rollbacks[..live] == Recent(old(rollbacks)[..i], cutoff)
        invariant rollbacks[i..] == old(rollbacks)[i..]
      {
        var r := rollbacks[i];
        assert r == rollbacks[i..][0] == old(rollbacks)[i];
        assert old(rollbacks)[..i + 1][..i] == old(rollbacks)[..i];
        assert rollbacks[i + 1..] == rollbacks[i..][1..];
        if r.at > cutoff {
          rollbacks := rollbacks[live := r];
          live := live + 1;
          assert rollbacks[..live] == rollbacks[..live - 1] + [r];
        }
      }
      assert old(rollbacks)[..|rollbacks|] == old(rollbacks);
      rollbacks := rollbacks[..live];
    }

    /** The two gates that look only at the mutation. */
    method PassesGuardrails(mut: Mutation) returns (verdict: Option<Verdict>)
      ensures verdict == if mut.risk != Low then Some(RiskTooHigh)
                         else if resolve(mut.geneID).None? || resolve(mut.geneID).value !in allowedCategories
                         then Some(CategoryNotAllowed)
                         else None
    {
      if mut.risk != Low {
        return Some(RiskTooHigh);
      }
      var category := resolve(mut.geneID);
      if category.None? || category.value !in allowedCategories {
        return Some(CategoryNotAllowed);
      }
      return None;
    }

    /** The two gates that look at the history. */
    method PassesHistory(signalID: string, now: int) returns (verdict: Option<Verdict>)
      requires Valid() && now >= lastReading
      modifies `rollbacks, `lastReading, `metrics
      ensures Valid() && lastReading == now
      ensures verdict == if |Recent(allRollbacks, now - DAY)| >= maxRollbacksPerDay then Some(BudgetExhausted)
                         else if minCooldownPerSignal > 0 && Cooling(promotions, signalID, now, minCooldownPerSignal)
                         then Some(CooldownActive)
                         else None
      ensures metrics == if verdict.Some? then Counted(old(metrics), verdict.value) else old(metrics)
    {
      hide SameRecent, PromotionSound, SpacedBySignal, Cooling, TableExact, Recent;
      TableDecidesCooling(promotions, cooldown, lastReading, signalID, now, minCooldownPerSignal);
      var exceeded := RollbackBudgetExceeded(now);
      if exceeded {
        metrics := metrics.(circuitBreakerTripped := metrics.circuitBreakerTripped + 1);
        return Some(BudgetExhausted);
      }
      if minCooldownPerSignal > 0 {
        if signalID in cooldown && now - cooldown[signalID] < minCooldownPerSignal {
          metrics := metrics.(cooldownGated := metrics.cooldownGated + 1);
          return Some(CooldownActive);
        }
      }
      return None;
    }

    /** Books a promotion that the pipeline has just made. */
    method RecordPromotion(mut: Mutation, signalID: string, now: int, capsuleID: string, evaluation: Evaluation)
      requires Valid() && now == lastReading
      requires minCooldownPerSignal > 0 ==> !Cooling(promotions, signalID, now, minCooldownPerSignal)
      requires var p := Promotion(mut, signalID, now, capsuleID, evaluation, |Recent(allRollbacks, now - DAY)|);
               PromotionSound(p, allowedCategories, resolve, maxRollbacksPerDay, pipeline.saved)
      modifies `cooldown, `metrics, `promotions
      ensures Valid() && metrics == Counted(old(metrics), AutoPromoted)
      ensures promotions == old(promotions) + [Promotion(mut, signalID, now, capsuleID, evaluation, |Recent(allRollbacks, now - DAY)|)]
    {
      hide SameRecent, PromotionSound, SpacedBySignal, Cooling, TableExact, Recent;
      ghost var p := Promotion(mut, signalID, now, capsuleID, evaluation, |Recent(allRollbacks, now - DAY)|);
      PromotionKeepsTable(promotions, cooldown, lastReading, p);
      if minCooldownPerSignal > 0 {
        PromotionKeepsSpacing(promotions, minCooldownPerSignal, p);
      }
      cooldown := cooldown[signalID := now];
      metrics := metrics.(autoPromoted := metrics.autoPromoted + 1);
      promotions := promotions + [p];
    }

    /**
     Drives one mutation through every gate. A mutation the auto-promoter gates never reaches the pipeline; one
     whose capsule cannot be built is rejected there, but one whose capsule cannot be saved stays approved.
     */
    method Process(mut: Mutation, signalID: string, now: int,
                   evaluation: Option<Evaluation>, built: Option<string>, saveOk: bool) returns (rec: Record, verdict: Verdict)
      requires Valid() && now >= lastReading
      modifies this, pipeline
      ensures Valid() && old(lastReading) <= lastReading <= now
      ensures var a := Attempt(mut, signalID, now, evaluation, built, saveOk);
              && verdict == Decide(Configuration(), old(Past()), a)
              && Past() == AfterAttempt(Configuration(), old(Past()), a)
      ensures metrics == Counted(old(metrics), verdict)
      ensures pipeline.saved == if verdict == AutoPromoted then old(pipeline.saved) + {built.value} else old(pipeline.saved)
      ensures verdict in {RiskTooHigh, CategoryNotAllowed, BudgetExhausted, CooldownActive} ==>
                pipeline.records == old(pipeline.records) && rec.status == Rejected
      ensures verdict !in {RiskTooHigh, CategoryNotAllowed, BudgetExhausted, CooldownActive} ==>
                && mut.id in pipeline.records && rec == pipeline.records[mut.id] && rec.evaluation == evaluation
                && pipeline.records == old(pipeline.records)[mut.id := rec]
                && (verdict == EvaluationError ==> rec.status == Pending)
                && (verdict == LeftToPipeline ==> rec.status in {Rejected, Evaluated})
                && (verdict == CapsuleNotBuilt ==> rec.status == Rejected)
                && (verdict == CapsuleNotSaved ==> rec.status == Approved)
                && (verdict == AutoPromoted ==> rec.status == Promoted && rec.capsuleID == built.value)
    {
      hide SameRecent, SpacedBySignal, Cooling, TableExact, Recent, Ledger, RecordSound, Counted;
      var early := PassesGuardrails(mut);
      CountedExactly(metrics);
      if early.Some? {
        metrics := metrics.(guardrailRejected := metrics.guardrailRejected + 1);
        return Record(mut.id, "", Rejected, None, "", "guardrail"), early.value;
      }
      var gated := PassesHistory(signalID, now);
      if gated.Some? {
        return Record(mut.id, "", Rejected, None, "", "gated"), gated.value;
      }
      var submitErr;
      rec, submitErr := pipeline.Submit(mut, evaluation);
      if submitErr.Some? {
        return rec, EvaluationError;
      }
      if rec.status != Approved {
        return rec, LeftToPipeline;
      }
      if built.None? {
        var _ := pipeline.Reject(mut.id, "auto_promote", "build capsule");
        metrics := metrics.(builderFailed := metrics.builderFailed + 1);
        assert pipeline.records == old(pipeline.records)[mut.id := pipeline.records[mut.id]];
        return pipeline.records[mut.id], CapsuleNotBuilt;
      }
      var promoteErr := pipeline.Promote(mut.id, built.value, saveOk);
      if promoteErr.Some? {
        return rec, CapsuleNotSaved;
      }
      RecordPromotion(mut, signalID, now, built.value, evaluation.value);
      assert pipeline.records == old(pipeline.records)[mut.id := pipeline.records[mut.id]];
      return pipeline.records[mut.id], AutoPromoted;
    }
  }

  // -------------------------------------- the cooldown and the mutation's own signal

  datatype Event = Tried(attempt: Attempt) | RollbackRecorded(entry: RollbackEntry)

  ghost function After(g: Gates, h: History, e: Event): History {
    match e
    case Tried(a) => AfterAttempt(g, h, a)
    case RollbackRecorded(r) => h.(rollbacks := h.rollbacks + [r])
  }

  /** What is on record after a sequence of calls. */
  ghost function Played(g: Gates, es: seq<Event>): History {
    if es == [] then History([], []) else After(g, Played(g, es[..|es| - 1]), es[|es| - 1])
  }

  /** The clock does not go back from one attempt to a later one. */
  ghost predicate InOrder(es: seq<Event>) {
    forall i, j :: 0 <= i < j < |es| && es[i].Tried? && es[j].Tried? ==> es[i].attempt.now <= es[j].attempt.now
  }

  /** The caller passes the signal `f` names for the mutation. */
  ghost predicate Passes(es: seq<Event>, f: Mutation -> string) {
    forall i :: 0 <= i < |es| && es[i].Tried? ==> es[i].attempt.signalID == f(es[i].attempt.mutation)
  }

  /** Promotions for one signal ID of the mutation are a cooldown apart: what the configuration's comment says. */
  ghost predicate SpacedByMutation(ps: seq<Promotion>, cooldown: int) {
    forall i, j :: 0 <= i < j < |ps| && ps[i].mutation.signalID == ps[j].mutation.signalID ==>
      ps[j].at - ps[i].at >= cooldown
  }

  /** The gates that do not depend on history let the mutation through. */
  predicate CanPromote(g: Gates, m: Mutation) {
    && m.risk == Low
    && g.resolve(m.geneID).Some? && g.resolve(m.geneID).value in g.allowedCategories
    && g.maxRollbacksPerDay > 0 && g.autoPromoteLowRisk && !g.requireHITL
  }

  ghost predicate SameSignal(g: Gates, f: Mutation -> string) {
    forall m, m' :: CanPromote(g, m) && CanPromote(g, m') && m.signalID == m'.signalID ==> f(m) == f(m')
  }

  /** Every promotion so far passed the gates with its signal, in the order of time and not after `now`. */
  ghost predicate OnRecord(g: Gates, f: Mutation -> string, ps: seq<Promotion>, now: int) {
    && (forall i :: 0 <= i < |ps| ==> ps[i].signalID == f(ps[i].mutation) && CanPromote(g, ps[i].mutation) && ps[i].at <= now)
    && (forall i, j :: 0 <= i < j < |ps| ==> ps[i].at <= ps[j].at)
    && (g.minCooldownPerSignal > 0 ==> SpacedBySignal(ps, g.minCooldownPerSignal))
  }

  lemma AttemptKeepsRecord(g: Gates, f: Mutation -> string, h: History, a: Attempt, now: int)
    requires OnRecord(g, f, h.promotions, now) && now <= a.now && a.signalID == f(a.mutation)
    ensures OnRecord(g, f, AfterAttempt(g, h, a).promotions, a.now)
  {
    hide Recent, Cooling, SpacedBySignal;
    if Decide(g, h, a) == AutoPromoted && g.minCooldownPerSignal > 0 {
      var p := AfterAttempt(g, h, a).promotions[|h.promotions|];
      PromotionKeepsSpacing(h.promotions, g.minCooldownPerSignal, p);
    }
  }

  lemma {:induction false} PlayedKeepsRecord(g: Gates, f: Mutation -> string, es: seq<Event>, now: int)
    requires InOrder(es) && Passes(es, f)
    requires forall i :: 0 <= i < |es| && es[i].Tried? ==> es[i].attempt.now <= now
    ensures OnRecord(g, f, Played(g, es).promotions, now)
  {
    hide OnRecord, AfterAttempt;
    if es == [] {
      NothingOnRecord(g, f, now);
    } else {
      var front, e := es[..|es| - 1], es[|es| - 1];
      match e
      case Tried(a) =>
        PlayedKeepsRecord(g, f, front, a.now);
        AttemptKeepsRecord(g, f, Played(g, front), a, a.now);
        RecordStays(g, f, Played(g, es).promotions, a.now, now);
      case RollbackRecorded(_) =>
        PlayedKeepsRecord(g, f, front, now);
    }
  }

  lemma NothingOnRecord(g: Gates, f: Mutation -> string, now: int)
    ensures OnRecord(g, f, [], now)
  {
  }

  lemma RecordStays(g: Gates, f: Mutation -> string, ps: seq<Promotion>, now: int, later: int)
    requires OnRecord(g, f, ps, now) && now <= later
    ensures OnRecord(g, f, ps, later)
  {
  }

  lemma RecordIsSpaced(g: Gates, f: Mutation -> string, ps: seq<Promotion>, now: int)
    requires OnRecord(g, f, ps, now) && (g.minCooldownPerSignal <= 0 || SameSignal(g, f))
    ensures SpacedByMutation(ps, g.minCooldownPerSignal)
  {
  }

  function Trial(m: Mutation, signalID: string): Event {
    Tried(Attempt(m, signalID, 0, Some(Evaluation(1.0, true)), Some("capsule"), true))
  }

  /** Two mutations of one signal, passed with two signals at one instant, are both promoted. */
  lemma PromotedTwice(g: Gates, f: Mutation -> string, m: Mutation, m': Mutation)
    requires CanPromote(g, m) && CanPromote(g, m') && f(m) != f(m')
    ensures var ps := Played(g, [Trial(m, f(m)), Trial(m', f(m'))]).promotions;
      |ps| == 2 && ps[0].mutation == m && ps[1].mutation == m' && ps[0].at == ps[1].at
  {
    var es := [Trial(m, f(m)), Trial(m', f(m'))];
    assert es[..1] == [Trial(m, f(m))] && es[..1][..0] == [];
    assert Played(g, es[..1][..0]) == History([], []);
    assert Recent([], 0 - DAY) == [];
    var ps := Played(g, es[..1]).promotions;
    assert |ps| == 1 && ps[0].mutation == m && ps[0].signalID == f(m);
  }

  /**
   Every run is spaced by the mutations' own signals exactly when there is no cooldown to keep, or the caller passes
   the same signal for any two promotable mutations that carry the same one.
   */
  lemma SpacedByMutationExactly(g: Gates, f: Mutation -> string)
    ensures (forall es :: InOrder(es) && Passes(es, f) ==> SpacedByMutation(Played(g, es).promotions, g.minCooldownPerSignal))
            <==> g.minCooldownPerSignal <= 0 || SameSignal(g, f)
  {
    hide Played, OnRecord;
    if g.minCooldownPerSignal <= 0 || SameSignal(g, f) {
      forall es | InOrder(es) && Passes(es, f)
        ensures SpacedByMutation(Played(g, es).promotions, g.minCooldownPerSignal)
      {
        var now := LatestAttempt(es);
        PlayedKeepsRecord(g, f, es, now);
        RecordIsSpaced(g, f, Played(g, es).promotions, now);
      }
    } else {
      var m, m' :| CanPromote(g, m) && CanPromote(g, m') && m.signalID == m'.signalID && f(m) != f(m');
      var es := [Trial(m, f(m)), Trial(m', f(m'))];
      PromotedTwice(g, f, m, m');
      assert InOrder(es) && Passes(es, f);
    }
  }

  lemma {:induction false} LatestAttempt(es: seq<Event>) returns (now: int)
    ensures forall i :: 0 <= i < |es| && es[i].Tried? ==> es[i].attempt.now <= now
  {
    if es == [] {
      now := 0;
    } else {
      now := LatestAttempt(es[..|es| - 1]);
      var e := es[|es| - 1];
      now := if e.Tried? && e.attempt.now > now then e.attempt.now else now;
    }
  }
}
