/**
 The sliding-window limiter of pkg/llm/rate_limited.go. One call of TryAcquire or Stats is one locked
 region; the clock is read inside it, so readings never go back. Times and durations are integers.
 */
module RateLimiting {
  import opened Collections
  import opened Wrappers

  ghost predicate Sorted(log: seq<int>) {
    forall i, j :: 0 <= i <= j < |log| ==> log[i] <= log[j]
  }

  /** The entries after `cutoff`, in order. */
  function Live(log: seq<int>, cutoff: int): seq<int> {
    if log == [] then []
    else
      var t := log[|log| - 1];
      Live(log[..|log| - 1], cutoff) + (if t > cutoff then [t] else [])
  }

  /** Any entry and the one `limit` places later lie at least a window apart. */
  ghost predicate Spaced(log: seq<int>, limit: nat, window: int) {
    forall i :: 0 <= i < |log| - limit ==> Apart(log, limit, window, i)
  }

  ghost predicate Apart(log: seq<int>, limit: nat, window: int, i: nat)
    requires i + limit < |log|
  {
    log[i + limit] - log[i] >= window
  }

  ghost function IndicesWithin(log: seq<int>, after: int, upTo: int): set<int> {
    set i | 0 <= i < |log| && after < log[i] <= upTo
  }

  lemma {:induction false} IntervalSize(s: set<int>, lo: int, hi: int)
    requires lo <= hi && forall i :: i in s ==> lo <= i < hi
    ensures |s| <= hi - lo
    decreases hi - lo
  {
    if lo == hi {
      assert s == {};
    } else {
      var t := s - {lo};
      IntervalSize(t, lo + 1, hi);
      assert s == t || s == t + {lo};
    }
  }

  lemma WithinSameWindow(log: seq<int>, limit: nat, window: int, lo: nat, i: nat)
    requires Sorted(log) && Spaced(log, limit, window)
    requires lo <= i < |log| && log[i] - log[lo] < window
    ensures i < lo + limit
  {
    assert lo < |log| - limit ==> Apart(log, limit, window, lo);
  }

  // ----------------------------------------------------------- live entries

  lemma {:induction false} LiveOfSorted(log: seq<int>, cutoff: int, k: nat)
    requires Sorted(log) && k <= |log|
    requires forall i :: 0 <= i < k ==> log[i] <= cutoff
    requires forall i :: k <= i < |log| ==> log[i] > cutoff
    ensures Live(log, cutoff) == log[k..]
  {
    if log != [] {
      var front := log[..|log| - 1];
      if k == |log| {
        LiveOfSorted(front, cutoff, k - 1);
      } else {
        LiveOfSorted(front, cutoff, k);
        assert log[k..] == front[k..] + [log[|log| - 1]];
      }
    }
  }

  /** Where a sorted log crosses the cutoff. */
  lemma {:induction false} Crossing(log: seq<int>, cutoff: int) returns (k: nat)
    requires Sorted(log)
    ensures k <= |log| && Live(log, cutoff) == log[k..]
    ensures forall i :: 0 <= i < k ==> log[i] <= cutoff
    ensures forall i :: k <= i < |log| ==> log[i] > cutoff
  {
    k := |log|;
    while k > 0 && log[k - 1] > cutoff
      invariant k <= |log| && forall i :: k <= i < |log| ==> log[i] > cutoff
    {
      k := k - 1;
    }
    LiveOfSorted(log, cutoff, k);
  }

  /** No half-open window of the given length holds more than `limit` entries of a spaced log. */
  lemma WindowHoldsAtMostLimit(log: seq<int>, limit: nat, window: int, after: int)
    requires Sorted(log) && Spaced(log, limit, window)
    ensures |IndicesWithin(log, after, after + window)| <= limit
  {
    var s := IndicesWithin(log, after, after + window);
    var lo := Crossing(log, after);
    forall i | i in s ensures lo <= i < lo + limit {
      WithinSameWindow(log, limit, window, lo, i);
    }
    IntervalSize(s, lo, lo + limit);
  }

  /** Entries already too old for an earlier cutoff do not matter for a later one. */
  lemma DroppedDoNotMatter(log: seq<int>, dropped: nat, cutoff: int)
    requires Sorted(log) && dropped <= |log|
    requires forall i :: 0 <= i < dropped ==> log[i] <= cutoff
    ensures Live(log[dropped..], cutoff) == Live(log, cutoff)
  {
    var k := Crossing(log, cutoff);
    assert k < |log| ==> log[k] > cutoff;
    LiveOfSorted(log[dropped..], cutoff, k - dropped);
    assert log[dropped..][k - dropped..] == log[k..];
  }

  /** What is live at `now` is what the window that ends at `now` holds. */
  lemma LiveWithinLimit(log: seq<int>, limit: nat, window: int, now: int)
    requires Sorted(log) && Spaced(log, limit, window)
    requires forall i :: 0 <= i < |log| ==> log[i] <= now
    ensures |Live(log, now - window)| <= limit
  {
    var k := Crossing(log, now - window);
    assert k < |log| - limit ==> Apart(log, limit, window, k);
  }

  // ----------------------------------------------------- what can be granted

  /** The readings at which a limiter grants, one after the other: each finds less than `limit` live grants. */
  ghost predicate IsGrantLog(log: seq<int>, limit: nat, window: int) {
    Sorted(log) && forall i :: 0 <= i < |log| ==> GrantedAt(log, limit, window, i)
  }

  ghost predicate GrantedAt(log: seq<int>, limit: nat, window: int, i: nat)
    requires i < |log|
  {
    |Live(log[..i], log[i] - window)| < limit
  }

  lemma LiveBefore(log: seq<int>, limit: nat, window: int, i: nat)
    requires Sorted(log) && i < |log| && limit > 0
    ensures GrantedAt(log, limit, window, i) <==> (i >= limit ==> log[i] - log[i - limit] >= window)
  {
    var k := Crossing(log[..i], log[i] - window);
    assert i >= limit ==> log[..i][i - limit] == log[i - limit];
  }

  /** The limiter can grant at exactly the times that are in order and spaced. */
  lemma GrantLogsExactly(log: seq<int>, limit: nat, window: int)
    requires limit > 0
    ensures IsGrantLog(log, limit, window) <==> Sorted(log) && Spaced(log, limit, window)
  {
    hide GrantedAt, Live;
    if Sorted(log) {
      forall i | 0 <= i < |log|
        ensures GrantedAt(log, limit, window, i) <==> (i >= limit ==> Apart(log, limit, window, i - limit))
      {
        LiveBefore(log, limit, window, i);
      }
      if IsGrantLog(log, limit, window) {
        forall i | 0 <= i < |log| - limit ensures Apart(log, limit, window, i) {
          assert GrantedAt(log, limit, window, i + limit);
        }
      }
    }
  }

  lemma UnionAtMost(a: set<int>, b: set<int>, c: set<int>)
    requires a <= b + c
    ensures |a| <= |b| + |c|
  {
    SubsetNotLarger(a, b + c);
    assert |b + c| == |b| + |c| - |b * c|;
  }

  /** The grants in a window closed at both ends. */
  ghost function ClosedWindow(log: seq<int>, from: int, window: int): set<int> {
    IndicesWithin(log, from - 1, from + window)
  }

  /** Such a window holds at most twice the limit. */
  lemma ClosedWindowHoldsAtMostTwice(log: seq<int>, limit: nat, window: int, from: int)
    requires limit > 0 && window > 0 && IsGrantLog(log, limit, window)
    ensures |ClosedWindow(log, from, window)| <= 2 * limit
  {
    hide IsGrantLog, Sorted, Spaced;
    GrantLogsExactly(log, limit, window);
    WindowHoldsAtMostLimit(log, limit, window, from - 1);
    WindowHoldsAtMostLimit(log, limit, window, from - 1 + window);
    UnionAtMost(IndicesWithin(log, from - 1, from + window), IndicesWithin(log, from - 1, from - 1 + window),
                IndicesWithin(log, from - 1 + window, from - 1 + window + window));
  }

  function TwoBursts(limit: nat, window: int): seq<int> {
    seq(2 * limit, i => if i < limit then 0 else window)
  }

  /** Two bursts one window apart are granted, and fall into one closed window. */
  lemma TwoBurstsAreGranted(limit: nat, window: int)
    requires limit > 0 && window > 0
    ensures IsGrantLog(TwoBursts(limit, window), limit, window)
    ensures |ClosedWindow(TwoBursts(limit, window), 0, window)| == 2 * limit
  {
    var log := TwoBursts(limit, window);
    forall i | 0 <= i < |log| - limit ensures Apart(log, limit, window, i) {}
    GrantLogsExactly(log, limit, window);
    FirstHolds(2 * limit);
    assert ClosedWindow(log, 0, window) == First(2 * limit);
  }

  function First(n: nat): set<int> {
    if n == 0 then {} else First(n - 1) + {n - 1}
  }

  lemma {:induction false} FirstHolds(n: nat)
    ensures |First(n)| == n
    ensures forall i :: i in First(n) <==> 0 <= i < n
  {
    if n > 0 {
      FirstHolds(n - 1);
    }
  }

  /** The bound on grants is for half-open windows; for windows closed at both ends the exact one is twice as large. */
  lemma ClosedWindowExactly(limit: nat, window: int, bound: nat)
    requires limit > 0 && window > 0
    ensures (forall log, from :: IsGrantLog(log, limit, window) ==> |ClosedWindow(log, from, window)| <= bound)
            <==> bound >= 2 * limit
  {
    hide IsGrantLog, ClosedWindow;
    if bound >= 2 * limit {
      forall log, from | IsGrantLog(log, limit, window) ensures |ClosedWindow(log, from, window)| <= bound {
        ClosedWindowHoldsAtMostTwice(log, limit, window, from);
      }
    } else {
      TwoBurstsAreGranted(limit, window);
    }
  }

  /** The retained tokens are the tail of all grants; what was dropped is too old; grants are spaced. */
  ghost predicate Retains(granted: seq<int>, tokens: seq<int>, lastReading: int, window: int, limit: int) {
    && Sorted(granted)
    && (forall i :: 0 <= i < |granted| ==> granted[i] <= lastReading)
    && |tokens| <= |granted|
    && tokens == granted[|granted| - |tokens|..]
    && (forall i :: 0 <= i < |granted| - |tokens| ==> granted[i] <= lastReading - window)
    && (if limit > 0 then Spaced(granted, limit, window) else granted == [])
  }

  /** Pruning the retained tokens keeps exactly what is live among all grants. */
  lemma PruneRetains(granted: seq<int>, tokens: seq<int>, lastReading: int, window: int, limit: int, now: int)
    requires Retains(granted, tokens, lastReading, window, limit) && now >= lastReading
    ensures Live(tokens, now - window) == Live(granted, now - window)
    ensures Retains(granted, Live(granted, now - window), now, window, limit)
  {
    hide Live, Spaced;
    DroppedDoNotMatter(granted, |granted| - |tokens|, now - window);
    var k := Crossing(granted, now - window);
  }

  lemma GrantRetains(granted: seq<int>, tokens: seq<int>, now: int, window: int, limit: int)
    requires Retains(granted, tokens, now, window, limit) && |tokens| < limit
    ensures Retains(granted + [now], tokens + [now], now, window, limit)
  {
    var longer := granted + [now];
    assert tokens + [now] == longer[|granted| - |tokens|..];
    forall i | 0 <= i < |longer| - limit ensures Apart(longer, limit, window, i) {
      assert i < |granted| - limit ==> Apart(granted, limit, window, i);
    }
  }

  /** A full window is exactly full, and its oldest grant expires within the window length. */
  lemma WaitIsPositive(granted: seq<int>, now: int, window: int, limit: int)
    requires Retains(granted, Live(granted, now - window), now, window, limit)
    requires |Live(granted, now - window)| >= limit > 0
    ensures |Live(granted, now - window)| == limit
    ensures 0 < Live(granted, now - window)[0] + window - now <= window
  {
    hide Live;
    LiveWithinLimit(granted, limit, window, now);
    var k := Crossing(granted, now - window);
  }

  /** Once the announced duration has passed, one grant fewer is live. */
  lemma WaitedLongEnough(granted: seq<int>, window: int, limit: int, now: int, later: int)
    requires Sorted(granted) && |Live(granted, now - window)| == limit > 0
    requires later >= Live(granted, now - window)[0] + window && later >= now
    ensures |Live(granted, later - window)| < limit
  {
    hide Live, Sorted;
    var k := Crossing(granted, now - window);
    var m := Crossing(granted, later - window);
    assert granted[k] <= later - window;
    assert m > k;
  }

  datatype Outcome =
    | Granted
    | Wait(duration: int)
    | Panic  // an empty token list is indexed

  datatype Ending =
    | GrantedSlot(time: int)
    | GivenUp
    | Crashed

  class RateLimiter {
    const requestsPerMinute: int
    const burstSize: int
    const window: int
    var tokens: seq<int>
    ghost var granted: seq<int>  // the times of all grants so far
    ghost var lastReading: int   // the latest clock reading

    ghost function MaxAllowed(): int {
      requestsPerMinute + burstSize
    }

    ghost predicate Valid()
      reads this
    {
      MaxAllowed() >= 0 && Retains(granted, tokens, lastReading, window, MaxAllowed())
    }

    /** A window of zero means one minute. */
    constructor (requestsPerMinute: int, burstSize: int, window: int, minute: int, start: int)
      requires requestsPerMinute + burstSize >= 0
      ensures Valid() && granted == [] && lastReading == start
      ensures this.requestsPerMinute == requestsPerMinute && this.burstSize == burstSize
      ensures this.window == if window == 0 then minute else window
    {
      this.requestsPerMinute, this.burstSize := requestsPerMinute, burstSize;
      this.window := if window == 0 then minute else window;
      tokens, granted, lastReading := [], [], start;
    }

    /** Whatever the calls, the grants form a grant log. */
    lemma GrantsAreGrantLog()
      requires Valid()
      ensures MaxAllowed() > 0 ==> IsGrantLog(granted, MaxAllowed(), window)
    {
      if MaxAllowed() > 0 {
        GrantLogsExactly(granted, MaxAllowed(), window);
      }
    }

    /** Compacts the token list in place to the entries after the cutoff. */
    method Prune(cutoff: int)
      modifies `tokens
      ensures tokens == Live(old(tokens), cutoff)
    {
      var valid := 0;
      for i := 0 to |tokens|
        invariant valid <= i && |tokens| == |old(tokens)|
        invariant tokens[..valid] == Live(old(tokens)[..i], cutoff)
        invariant tokens[i..] == old(tokens)[i..]
      {
        var t := tokens[i];
        assert t == tokens[i..][0] == old(tokens)[i];
        assert old(tokens)[..i + 1][..i] == old(tokens)[..i];
        assert tokens[i + 1..] == tokens[i..][1..];
        if t > cutoff {
          tokens := tokens[valid := t];
          valid := valid + 1;
          assert tokens[..valid] == tokens[..valid - 1] + [t];
        }
      }
      assert old(tokens)[..|tokens|] == old(tokens);
      tokens := tokens[..valid];
    }

    /**
     One locked region of waitForSlot. The verdict depends on all grants ever made, not only on the retained
     ones, and a caller that must wait is told exactly when the oldest grant in the window expires.
     */
    method TryAcquire(now: int) returns (out: Outcome)
      requires Valid() && now >= lastReading
      modifies this
      ensures Valid() && lastReading == now
      ensures out == Panic <==> MaxAllowed() == 0
      ensures out == Granted <==> |Live(old(granted), now - window)| < MaxAllowed()
      ensures granted == if out == Granted then old(granted) + [now] else old(granted)
      ensures out.Wait? ==>
                && |Live(granted, now - window)| == MaxAllowed()
                && out.duration == Live(granted, now - window)[0] + window - now
                && 0 < out.duration <= window
    {
      hide Retains, Live;
      var maxAllowed := requestsPerMinute + burstSize;
      PruneRetains(granted, tokens, lastReading, window, maxAllowed, now);
      Prune(now - window);
      lastReading := now;
      if |tokens| < maxAllowed {
        GrantRetains(granted, tokens, now, window, maxAllowed);
        tokens, granted := tokens + [now], granted + [now];
        return Granted;
      }
      if tokens == [] {
        return Panic;
      }
      NothingGrantedWithoutLimit(granted, tokens, now, window, maxAllowed);
      WaitIsPositive(granted, now, window, maxAllowed);
      return Wait(tokens[0] + window - now);
    }

    static lemma NothingGrantedWithoutLimit(granted: seq<int>, tokens: seq<int>, now: int, window: int, limit: int)
      requires Retains(granted, tokens, now, window, limit)
      ensures limit <= 0 ==> tokens == []
      ensures Sorted(granted)
    {
    }

    /**
     The whole of waitForSlot for a caller that nobody disturbs: it sleeps once at most, only if the window is full,
     and at least as long as it was told. The non-positive wait never happens.
     */
    method WaitForSlot(start: int) returns (end: Ending, sleeps: nat)
      requires Valid() && start >= lastReading
      modifies this
      ensures Valid() && lastReading >= start && sleeps <= 1
      ensures end == Crashed <==> MaxAllowed() == 0
      ensures end.GrantedSlot? ==> granted == old(granted) + [end.time] && lastReading == end.time
      ensures !end.GrantedSlot? ==> granted == old(granted) && lastReading == start && sleeps == 0
      ensures |Live(old(granted), start - window)| < MaxAllowed() ==> end == GrantedSlot(start) && sleeps == 0
      ensures sleeps == 1 ==> end.time >= Live(old(granted), start - window)[0] + window > start
    {
      hide Retains, Live;
      var now := start;
      sleeps := 0;
      while true
        invariant Valid() && now >= lastReading && granted == old(granted)
        invariant sleeps <= 1
        invariant sleeps == 0 ==> now == start
        invariant sleeps == 1 ==>
                    && |Live(granted, now - window)| < MaxAllowed()
                    && |Live(granted, start - window)| == MaxAllowed() > 0
                    && now >= Live(granted, start - window)[0] + window > start
        decreases 1 - sleeps
      {
        var out := TryAcquire(now);
        NothingGrantedWithoutLimit(granted, tokens, now, window, MaxAllowed());
        match out
        case Granted =>
          return GrantedSlot(now), sleeps;
        case Panic =>
          return Crashed, sleeps;
        case Wait(duration) =>
          assert duration > 0;
          var cancelled := *;
          if cancelled {
            return GivenUp, sleeps;
          }
          var oversleep :| oversleep >= 0;
          WaitedLongEnough(granted, window, MaxAllowed(), now, now + duration + oversleep);
          now := now + duration + oversleep;
          sleeps := sleeps + 1;
      }
    }

    static lemma RetainedWithinLimit(granted: seq<int>, tokens: seq<int>, lastReading: int, now: int, window: int, limit: int)
      requires Retains(granted, tokens, lastReading, window, limit) && limit > 0 && now >= lastReading
      ensures |Live(granted, now - window)| <= limit
    {
      LiveWithinLimit(granted, limit, window, now);
    }

    /** Counts the grants still inside the window, of all grants ever made. */
    method Stats(now: int) returns (active: nat, maxAllowed: int)
      requires Valid() && now >= lastReading
      ensures active == |Live(granted, now - window)| && maxAllowed == MaxAllowed()
      ensures MaxAllowed() > 0 ==> active <= maxAllowed
    {
      hide Retains;
      var cutoff := now - window;
      active := 0;
      for i := 0 to |tokens|
        invariant active == |Live(tokens[..i], cutoff)|
      {
        assert tokens[..i + 1][..i] == tokens[..i];
        if tokens[i] > cutoff {
          active := active + 1;
        }
      }
      assert tokens[..|tokens|] == tokens;
      maxAllowed := requestsPerMinute + burstSize;
      PruneRetains(granted, tokens, lastReading, window, maxAllowed, now);
      if maxAllowed > 0 {
        RetainedWithinLimit(granted, tokens, lastReading, now, window, maxAllowed);
      }
    }
  }

  /** There is no limiter for a negative limit: the token list cannot be made with a negative capacity. */
  method NewRateLimiter(requestsPerMinute: int, burstSize: int, window: int, minute: int, start: int)
    returns (limiter: Option<RateLimiter>)
    ensures limiter.None? <==> requestsPerMinute + burstSize < 0
    ensures limiter.Some? ==>
              && fresh(limiter.value) && limiter.value.Valid()
              && limiter.value.granted == [] && limiter.value.lastReading == start
              && limiter.value.MaxAllowed() == requestsPerMinute + burstSize
              && limiter.value.window == (if window == 0 then minute else window)
  {
    if requestsPerMinute + burstSize < 0 {
      return None;
    }
    var made := new RateLimiter(requestsPerMinute, burstSize, window, minute, start);
    return Some(made);
  }

  /** Every grant log is granted by some calls: those at its times. */
  method Replay(limiter: RateLimiter, log: seq<int>)
    requires limiter.Valid() && limiter.granted == [] && limiter.MaxAllowed() > 0
    requires IsGrantLog(log, limiter.MaxAllowed(), limiter.window) && (log != [] ==> limiter.lastReading <= log[0])
    modifies limiter
    ensures limiter.Valid() && limiter.granted == log
  {
    for i := 0 to |log|
      invariant limiter.Valid() && limiter.granted == log[..i]
      invariant i < |log| ==> limiter.lastReading <= log[i]
    {
      assert GrantedAt(log, limiter.MaxAllowed(), limiter.window, i);
      var out := limiter.TryAcquire(log[i]);
      assert log[..i + 1] == log[..i] + [log[i]];
    }
    assert log[..|log|] == log;
  }
}
