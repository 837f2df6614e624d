/** What the readiness loop promises over whole runs. Every theorem speaks about where and how
    the loop stops (StopsAt), which WaitForReady is proved to meet. */
module ReadinessRuns {
  import opened Arithmetic
  import opened RequestConfigs
  import opened Readiness

  /** If some poll up to i does not wait, the run stops at or before i. */
  lemma {:induction false} StopsBy(c: RequestConfig, polls: seq<Poll>, i: nat) returns (k: nat)
    requires i < |polls| && Verdict(c, polls, i) != Waiting
    ensures k <= i && StopsAt(c, polls, k, Verdict(c, polls, k))
  {
    if j: nat :| j < i && Verdict(c, polls, j) != Waiting {
      k := StopsBy(c, polls, j);
    } else {
      k := i;
    }
  }

  // ---------- What the outcomes mean ----------

  /** Each way for the loop to end, in the fields of the configuration and of the last poll. */
  lemma OutcomesMean(c: RequestConfig, polls: seq<Poll>, i: nat, o: Outcome)
    requires StopsAt(c, polls, i, o)
    ensures o == ContextEnded <==> polls[i].wake == ContextDone
    ensures o == TimedOut <==> polls[i].wake == DeadlineReached
    ensures o == QueryFailed <==>
              && polls[i].wake == Tick && polls[i].running == Failed
              && (c.readinessDisableNetworkWait || polls[i].inflight <= 0
                  || 0 < c.readinessNetworkIdleTimeout <= polls[i].atNetwork)
              && !c.readinessDisableQueryWait
              && (c.readinessQueriesTimeout <= 0 || polls[i].atQueries < c.readinessQueriesTimeout)
    ensures o == DOMFailed <==>
              && polls[i].wake == Tick && polls[i].hash == Failed
              && (c.readinessDisableQueryWait || 0 < c.readinessQueriesTimeout <= polls[i].atQueries
                  || polls[i].running == Answered(false))
              && !c.readinessDisableDOMHashCodeWait
              && (c.readinessDOMHashCodeTimeout <= 0 || polls[i].atDOM < c.readinessDOMHashCodeTimeout)
    ensures o == Ready ==>
              && polls[i].wake == Tick
              && (c.readinessDisableNetworkWait || polls[i].inflight <= 0
                  || 0 < c.readinessNetworkIdleTimeout <= polls[i].atNetwork)
  {
  }

  /** The loop waits at every tick at which a gate that still watches is not satisfied. */
  lemma UnsatisfiedGateWaits(c: RequestConfig, polls: seq<Poll>, i: nat)
    requires i < |polls| && polls[i].wake == Tick
    ensures !c.readinessDisableNetworkWait && polls[i].inflight > 0
            && (c.readinessNetworkIdleTimeout <= 0 || polls[i].atNetwork < c.readinessNetworkIdleTimeout)
            ==> Verdict(c, polls, i) == Waiting
    ensures !c.readinessDisableQueryWait && polls[i].running == Answered(true)
            && (c.readinessQueriesTimeout <= 0 || polls[i].atQueries < c.readinessQueriesTimeout)
            ==> Verdict(c, polls, i) == Waiting
    ensures i == 0 && !c.readinessDisableDOMHashCodeWait && polls[i].hash.Answered?
            && (c.readinessDisableQueryWait || polls[i].running.Answered?)
            && (c.readinessDOMHashCodeTimeout <= 0 || polls[i].atDOM < c.readinessDOMHashCodeTimeout)
            ==> Verdict(c, polls, i) == Waiting
  {
  }

  // ---------- Safety: a stable DOM ----------

  /** Ready with the DOM gate active means two successive polls saw the same DOM: the hash
      compared was recorded on the poll just before, and neither poll was held back by the
      network or by a running query. */
  lemma ReadyOnStableDOM(c: RequestConfig, polls: seq<Poll>, i: nat)
    requires StopsAt(c, polls, i, Ready) && !c.readinessDisableDOMHashCodeWait
    requires c.readinessDOMHashCodeTimeout <= 0 || polls[i].atDOM < c.readinessDOMHashCodeTimeout
    ensures i > 0 && polls[i].hash.Answered? && polls[i - 1].hash == polls[i].hash
    ensures forall j | i - 1 <= j <= i ::
              && polls[j].wake == Tick
              && (c.readinessDisableNetworkWait || polls[j].inflight <= 0
                  || 0 < c.readinessNetworkIdleTimeout <= polls[j].atNetwork)
              && (c.readinessDisableQueryWait || polls[j].running == Answered(false)
                  || 0 < c.readinessQueriesTimeout <= polls[j].atQueries)
              && (c.readinessDOMHashCodeTimeout <= 0 || polls[j].atDOM < c.readinessDOMHashCodeTimeout)
    ensures QueriesPass(c, polls, i - 1) && QueriesPass(c, polls, i)
    ensures DOMRow(c, polls, i - 1) % 2 == 0
  {
    ReadyCompares(c, polls, i);
    OddRowFollowsRecording(c, polls, i);
    assert Verdict(c, polls, i - 1) == Waiting;
    ReachedDOMUnblocked(c, polls, i - 1);
    ReachedDOMUnblocked(c, polls, i);
  }

  lemma ReadyCompares(c: RequestConfig, polls: seq<Poll>, i: nat)
    requires i < |polls| && Verdict(c, polls, i) == Ready && DOMWatched(c, polls[i])
    ensures polls[i].wake == Tick && ReachesDOM(c, polls, i)
    ensures DOMRow(c, polls, i) % 2 == 1 && polls[i].hash.Answered? && polls[i - 1].hash == polls[i].hash
  {
  }

  lemma OddRowFollowsRecording(c: RequestConfig, polls: seq<Poll>, i: nat)
    requires i <= |polls| && DOMRow(c, polls, i) % 2 == 1
    ensures i > 0 && ReachesDOM(c, polls, i - 1) && DOMRow(c, polls, i - 1) % 2 == 0
  {
  }

  lemma ReachedDOMUnblocked(c: RequestConfig, polls: seq<Poll>, i: nat)
    requires i < |polls| && ReachesDOM(c, polls, i) && Verdict(c, polls, i) in {Waiting, Ready}
    ensures polls[i].wake == Tick && QueriesPass(c, polls, i)
    ensures c.readinessDisableNetworkWait || polls[i].inflight <= 0
            || 0 < c.readinessNetworkIdleTimeout <= polls[i].atNetwork
    ensures c.readinessDisableQueryWait || polls[i].running == Answered(false)
            || 0 < c.readinessQueriesTimeout <= polls[i].atQueries
  {
  }

  // ---------- Safety: quiet queries ----------

  /** The polls before i that evaluated the queries, in order. */
  ghost function Evaluations(c: RequestConfig, polls: seq<Poll>, i: nat): (e: seq<nat>)
    requires i <= |polls|
    ensures forall k | 0 <= k < |e| :: e[k] < i
  {
    if i == 0 then []
    else if Evaluated(c, polls[i - 1]) then Evaluations(c, polls, i - 1) + [i - 1]
    else Evaluations(c, polls, i - 1)
  }

  lemma {:induction false} EvaluationsAre(c: RequestConfig, polls: seq<Poll>, i: nat)
    requires i <= |polls|
    ensures var e := Evaluations(c, polls, i);
            && Increasing(e)
            && (forall j: nat :: j in e <==> j < i && Evaluated(c, polls[j]))
  {
    if i > 0 {
      EvaluationsAre(c, polls, i - 1);
    }
  }

  /** The last k of the given evaluations exist and were all settled. */
  ghost predicate LastSettled(c: RequestConfig, polls: seq<Poll>, e: seq<nat>, k: nat)
    requires forall m | 0 <= m < |e| :: e[m] < |polls|
  {
    |e| >= k && forall m | |e| - k <= m < |e| :: Settled(c, polls, e[m])
  }

  lemma LastSettledStep(c: RequestConfig, polls: seq<Poll>, e: seq<nat>, x: nat, k: nat)
    requires x < |polls| && forall m | 0 <= m < |e| :: e[m] < |polls|
    ensures LastSettled(c, polls, e + [x], k + 1) <==> LastSettled(c, polls, e, k) && Settled(c, polls, x)
  {
    var e' := e + [x];
    assert e'[|e|] == x && forall m | 0 <= m < |e| :: e'[m] == e[m];
    if LastSettled(c, polls, e', k + 1) {
      forall m | |e| - k <= m < |e| ensures Settled(c, polls, e[m]) {
        assert Settled(c, polls, e'[m]);
      }
    }
  }

  /** Streak counts exactly what its name says: it is at least k when the last k evaluations
      exist and were all settled, and only then. Polls without an evaluation do not matter. */
  lemma {:induction false} StreakIsLastEvaluations(c: RequestConfig, polls: seq<Poll>, i: nat, k: nat)
    requires i <= |polls|
    ensures Streak(c, polls, i) >= k <==> LastSettled(c, polls, Evaluations(c, polls, i), k)
  {
    if i > 0 && k > 0 {
      if !Evaluated(c, polls[i - 1]) {
        StreakIsLastEvaluations(c, polls, i - 1, k);
      } else {
        StreakIsLastEvaluations(c, polls, i - 1, k - 1);
        LastSettledStep(c, polls, Evaluations(c, polls, i - 1), i - 1, k - 1);
      }
    }
  }

  /** The last k of the given evaluations exist and found no query running. */
  ghost predicate LastFoundIdle(polls: seq<Poll>, e: seq<nat>, k: nat)
    requires forall m | 0 <= m < |e| :: e[m] < |polls|
  {
    |e| >= k && forall m | |e| - k <= m < |e| :: polls[e[m]].running == Answered(false)
  }

  lemma SettledFoundIdle(c: RequestConfig, polls: seq<Poll>, e: seq<nat>, k: nat)
    requires forall m | 0 <= m < |e| :: e[m] < |polls|
    requires LastSettled(c, polls, e, k)
    ensures LastFoundIdle(polls, e, k)
  {
    forall m | |e| - k <= m < |e| ensures polls[e[m]].running == Answered(false) {
      assert Settled(c, polls, e[m]);
    }
  }

  lemma ReadyNeedsStreak(c: RequestConfig, polls: seq<Poll>, i: nat)
    requires i < |polls| && Verdict(c, polls, i) == Ready && QueriesWatched(c, polls[i])
    ensures Settled(c, polls, i) && Evaluated(c, polls[i])
    ensures Streak(c, polls, i + 1) >= Max(1, c.readinessWaitForNQueryCycles)
  {
    assert QueriesPass(c, polls, i);
  }

  lemma ReadyAfterIdleEvaluations(c: RequestConfig, polls: seq<Poll>, i: nat)
    requires StopsAt(c, polls, i, Ready) && QueriesWatched(c, polls[i])
    ensures LastFoundIdle(polls, Evaluations(c, polls, i + 1), Max(1, c.readinessWaitForNQueryCycles))
    ensures Evaluated(c, polls[i]) && polls[i].running == Answered(false)
    ensures EverSawRunning(c, polls, i)
            || 0 < c.readinessFirstQueryTimeout <= polls[i].atFirstQuery
  {
    ReadyNeedsStreak(c, polls, i);
    StreakIsLastEvaluations(c, polls, i + 1, Max(1, c.readinessWaitForNQueryCycles));
    SettledFoundIdle(c, polls, Evaluations(c, polls, i + 1), Max(1, c.readinessWaitForNQueryCycles));
  }

  /** While the query gate watches, the polls between evaluations are those the network held back. */
  lemma SkippedIsBlocked(c: RequestConfig, polls: seq<Poll>, i: nat, j: nat)
    requires Ordered(polls) && j <= i < |polls| && QueriesWatched(c, polls[i])
    ensures j in Evaluations(c, polls, i + 1) <==>
              c.readinessDisableNetworkWait || polls[j].inflight <= 0
              || 0 < c.readinessNetworkIdleTimeout <= polls[j].atNetwork
  {
    EvaluationsAre(c, polls, i + 1);
    assert j < i ==> polls[j].atDOM <= polls[i].atNetwork;
  }

  /** An increasing sequence ends in its only member that is not below the others. */
  lemma LastOfEvaluations(c: RequestConfig, polls: seq<Poll>, i: nat)
    requires i < |polls| && Evaluated(c, polls[i])
    ensures var e := Evaluations(c, polls, i + 1); e != [] && e[|e| - 1] == i
  {
  }

  /** Ready with the query gate active means that the last N checks, this poll's included, all
      found no query running, the polls between them being exactly those that the network held
      back, and that the loop either saw a query run before or gave up on the first one because
      its positive give-up time had passed. */
  lemma ReadyAfterQuietQueries(c: RequestConfig, polls: seq<Poll>, i: nat) returns (checks: seq<nat>)
    requires Ordered(polls) && StopsAt(c, polls, i, Ready) && !c.readinessDisableQueryWait
    requires c.readinessQueriesTimeout <= 0 || polls[i].atQueries < c.readinessQueriesTimeout
    ensures |checks| == if c.readinessWaitForNQueryCycles < 1 then 1 else c.readinessWaitForNQueryCycles
    ensures checks[|checks| - 1] == i && Increasing(checks)
    ensures forall k | 0 <= k < |checks| :: checks[k] <= i && polls[checks[k]].running == Answered(false)
    ensures forall j | checks[0] <= j <= i ::
              j in checks <==>
                c.readinessDisableNetworkWait || polls[j].inflight <= 0
                || 0 < c.readinessNetworkIdleTimeout <= polls[j].atNetwork
    ensures || 0 < c.readinessFirstQueryTimeout <= polls[i].atFirstQuery
            || exists j ::
                 && 0 <= j < i && polls[j].running == Answered(true)
                 && (c.readinessDisableNetworkWait || polls[j].inflight <= 0
                     || 0 < c.readinessNetworkIdleTimeout <= polls[j].atNetwork)
  {
    ReadyAfterIdleEvaluations(c, polls, i);
    checks := LastChecks(c, polls, i, Max(1, c.readinessWaitForNQueryCycles));
    if EverSawRunning(c, polls, i) {
      SawRunningUnblocked(c, polls, i);
    }
  }

  lemma LastChecks(c: RequestConfig, polls: seq<Poll>, i: nat, n: nat) returns (checks: seq<nat>)
    requires Ordered(polls) && i < |polls| && QueriesWatched(c, polls[i]) && Evaluated(c, polls[i])
    requires n >= 1 && LastFoundIdle(polls, Evaluations(c, polls, i + 1), n)
    ensures |checks| == n && checks[n - 1] == i && Increasing(checks)
    ensures forall k | 0 <= k < n :: checks[k] <= i && polls[checks[k]].running == Answered(false)
    ensures forall j | checks[0] <= j <= i ::
              j in checks <==>
                c.readinessDisableNetworkWait || polls[j].inflight <= 0
                || 0 < c.readinessNetworkIdleTimeout <= polls[j].atNetwork
  {
    var e := Evaluations(c, polls, i + 1);
    LastOfEvaluations(c, polls, i);
    IncreasingEvaluations(c, polls, i + 1);
    checks := Tail(e, n);
    forall j | checks[0] <= j <= i
      ensures j in checks <==>
                c.readinessDisableNetworkWait || polls[j].inflight <= 0
                || 0 < c.readinessNetworkIdleTimeout <= polls[j].atNetwork
    {
      SkippedIsBlocked(c, polls, i, j);
      InTail(e, n, j);
    }
  }

  lemma IncreasingEvaluations(c: RequestConfig, polls: seq<Poll>, i: nat)
    requires i <= |polls|
    ensures Increasing(Evaluations(c, polls, i))
  {
    EvaluationsAre(c, polls, i);
  }

  lemma SawRunningUnblocked(c: RequestConfig, polls: seq<Poll>, i: nat)
    requires i <= |polls| && EverSawRunning(c, polls, i)
    ensures exists j ::
              && 0 <= j < i && polls[j].running == Answered(true)
              && (c.readinessDisableNetworkWait || polls[j].inflight <= 0
                  || 0 < c.readinessNetworkIdleTimeout <= polls[j].atNetwork)
  {
    var j :| 0 <= j < i && SawRunning(c, polls[j]);
    assert polls[j].running == Answered(true);
  }

  ghost predicate Increasing(e: seq<nat>) {
    forall k, l | 0 <= k < l < |e| :: e[k] < e[l]
  }

  /** The last n elements. */
  ghost function Tail(e: seq<nat>, n: nat): (t: seq<nat>)
    requires n <= |e|
    ensures |t| == n && forall k | 0 <= k < n :: t[k] == e[|e| - n + k]
  {
    e[|e| - n..]
  }

  lemma InTail(e: seq<nat>, n: nat, j: nat)
    requires 0 < n <= |e| && Increasing(e) && j >= Tail(e, n)[0]
    ensures j in Tail(e, n) <==> j in e
  {
    if j in e {
      var k :| 0 <= k < |e| && e[k] == j;
      assert k >= |e| - n;
      assert Tail(e, n)[k - (|e| - n)] == j;
    }
  }

  lemma {:induction false} WindowOfEvaluations(c: RequestConfig, polls: seq<Poll>, i: nat, n: nat)
    requires n <= i <= |polls| && forall j | i - n <= j < i :: Evaluated(c, polls[j])
    ensures var e := Evaluations(c, polls, i);
            |e| >= n && forall m | |e| - n <= m < |e| :: e[m] == i - |e| + m
  {
    if n > 0 {
      WindowOfEvaluations(c, polls, i - 1, n - 1);
    }
  }

  /** The poll asked and found no query running. */
  ghost predicate FoundIdle(c: RequestConfig, p: Poll) {
    Evaluated(c, p) && p.running == Answered(false)
  }

  ghost predicate AllIdle(c: RequestConfig, polls: seq<Poll>, from: nat, to: nat)
    requires to <= |polls|
  {
    forall j | from <= j < to :: FoundIdle(c, polls[j])
  }

  ghost predicate NoneBlocked(c: RequestConfig, polls: seq<Poll>, from: nat, to: nat)
    requires to <= |polls|
  {
    forall j | from <= j < to :: !NetworkBlocks(c, polls[j])
  }

  /** The configuration promises N consecutive checks. What holds is N consecutive evaluations:
      the last N polls before ready are all such checks exactly when the network gate held none
      of them back, because that gate skips the query check without starting the count again. */
  lemma ConsecutiveChecksUnlessNetworkBlocked(c: RequestConfig, polls: seq<Poll>, i: nat, n: nat)
    requires Ordered(polls) && StopsAt(c, polls, i, Ready) && !c.readinessDisableQueryWait
    requires c.readinessQueriesTimeout <= 0 || polls[i].atQueries < c.readinessQueriesTimeout
    requires n == if c.readinessWaitForNQueryCycles < 1 then 1 else c.readinessWaitForNQueryCycles
    ensures n <= i + 1
    ensures (forall j | i + 1 - n <= j <= i :: FoundIdle(c, polls[j])) <==>
              forall j | i + 1 - n <= j <= i ::
                c.readinessDisableNetworkWait || polls[j].inflight <= 0
                || 0 < c.readinessNetworkIdleTimeout <= polls[j].atNetwork
    ensures forall j | i + 1 - n <= j <= i :: FoundIdle(c, polls[j]) ==> polls[j].running == Answered(false)
  {
    ReadyAfterIdleEvaluations(c, polls, i);
    ConsecutiveUnlessBlocked(c, polls, i, n);
    assert AllIdle(c, polls, i + 1 - n, i + 1) <==> forall j | i + 1 - n <= j <= i :: FoundIdle(c, polls[j]);
    assert NoneBlocked(c, polls, i + 1 - n, i + 1) <==> forall j | i + 1 - n <= j <= i :: !NetworkBlocks(c, polls[j]);
  }

  lemma ConsecutiveUnlessBlocked(c: RequestConfig, polls: seq<Poll>, i: nat, n: nat)
    requires Ordered(polls) && i < |polls| && QueriesWatched(c, polls[i])
    requires LastFoundIdle(polls, Evaluations(c, polls, i + 1), n)
    ensures n <= i + 1
    ensures AllIdle(c, polls, i + 1 - n, i + 1) <==> NoneBlocked(c, polls, i + 1 - n, i + 1)
  {
    EvaluationsFit(c, polls, i + 1);
    if NoneBlocked(c, polls, i + 1 - n, i + 1) {
      UnblockedIsEvaluated(c, polls, i, n);
      EvaluatedWindowIsIdle(c, polls, i + 1, n);
    }
    if AllIdle(c, polls, i + 1 - n, i + 1) {
      IdleIsUnblocked(c, polls, i + 1 - n, i + 1);
    }
  }

  lemma IdleIsUnblocked(c: RequestConfig, polls: seq<Poll>, from: nat, to: nat)
    requires to <= |polls| && AllIdle(c, polls, from, to)
    ensures NoneBlocked(c, polls, from, to)
  {
    forall j | from <= j < to ensures !NetworkBlocks(c, polls[j]) {
      assert FoundIdle(c, polls[j]);
    }
  }

  lemma UnblockedIsEvaluated(c: RequestConfig, polls: seq<Poll>, i: nat, n: nat)
    requires Ordered(polls) && i < |polls| && QueriesWatched(c, polls[i]) && n <= i + 1
    requires NoneBlocked(c, polls, i + 1 - n, i + 1)
    ensures forall j | i + 1 - n <= j < i + 1 :: Evaluated(c, polls[j])
  {
    forall j | i + 1 - n <= j < i + 1 ensures Evaluated(c, polls[j]) {
      assert j < i ==> polls[j].atDOM <= polls[i].atNetwork;
    }
  }

  lemma EvaluatedWindowIsIdle(c: RequestConfig, polls: seq<Poll>, i: nat, n: nat)
    requires n <= i <= |polls| && forall j | i - n <= j < i :: Evaluated(c, polls[j])
    requires LastFoundIdle(polls, Evaluations(c, polls, i), n)
    ensures AllIdle(c, polls, i - n, i)
  {
    var e := Evaluations(c, polls, i);
    WindowOfEvaluations(c, polls, i, n);
    forall j | i - n <= j < i ensures FoundIdle(c, polls[j]) {
      assert e[|e| - (i - j)] == j;
    }
  }

  lemma {:induction false} EvaluationsFit(c: RequestConfig, polls: seq<Poll>, i: nat)
    requires i <= |polls|
    ensures |Evaluations(c, polls, i)| <= i
  {
    if i > 0 {
      EvaluationsFit(c, polls, i - 1);
    }
  }

  /** A run in which the two checks before ready are not consecutive polls. */
  lemma ChecksNeedNotBeConsecutive(c: RequestConfig, p: Poll, polls: seq<Poll>)
    requires p == Poll(Tick, 0, 0, 0, Answered(false), 0, 0, Answered(0))
    requires polls == [p.(running := Answered(true)), p, p.(inflight := 1), p]
    requires !c.readinessDisableNetworkWait && c.readinessNetworkIdleTimeout == 0
    requires !c.readinessDisableQueryWait && c.readinessQueriesTimeout == 0
    requires c.readinessWaitForNQueryCycles == 2 && c.readinessDisableDOMHashCodeWait
    ensures Ordered(polls) && StopsAt(c, polls, 3, Ready) && !FoundIdle(c, polls[2])
  {
    assert SawRunning(c, polls[0]);
    assert Streak(c, polls, 1) == 0;
    assert Settled(c, polls, 1) && Streak(c, polls, 2) == 1;
    assert Streak(c, polls, 3) == 1;
    assert Settled(c, polls, 3);
  }

  // ---------- Two runs on the same page ----------

  /** c' watches the DOM no longer than c does and is otherwise the same configuration. */
  ghost predicate WatchesDOMLess(c': RequestConfig, c: RequestConfig) {
    && c' == c.(readinessDisableDOMHashCodeWait := c'.readinessDisableDOMHashCodeWait,
                readinessDOMHashCodeTimeout := c'.readinessDOMHashCodeTimeout)
    && (c'.readinessDisableDOMHashCodeWait
        || (!c.readinessDisableDOMHashCodeWait
            && (c.readinessDOMHashCodeTimeout <= 0
                || 0 < c'.readinessDOMHashCodeTimeout <= c.readinessDOMHashCodeTimeout)))
  }

  lemma {:induction false} SameQueryHistory(c: RequestConfig, c': RequestConfig, polls: seq<Poll>, i: nat)
    requires WatchesDOMLess(c', c) && i <= |polls|
    ensures EverSawRunning(c', polls, i) == EverSawRunning(c, polls, i)
    ensures Streak(c', polls, i) == Streak(c, polls, i)
    ensures i < |polls| ==> QueriesPass(c', polls, i) == QueriesPass(c, polls, i)
  {
    if i > 0 {
      SameQueryHistory(c, c', polls, i - 1);
      EverSawRunningStep(c, polls, i - 1);
      EverSawRunningStep(c', polls, i - 1);
    }
  }

  /** While the shorter watch still watches, both runs record and compare on the same polls. */
  lemma {:induction false} SameDOMRow(c: RequestConfig, c': RequestConfig, polls: seq<Poll>, i: nat)
    requires WatchesDOMLess(c', c) && Ordered(polls) && i < |polls| && DOMWatched(c', polls[i])
    ensures DOMRow(c', polls, i) == DOMRow(c, polls, i)
  {
    if i > 0 {
      assert polls[i - 1].atDOM <= polls[i].atNetwork;
      SameQueryHistory(c, c', polls, i - 1);
      SameDOMRow(c, c', polls, i - 1);
    }
  }

  /** Disabling the DOM wait, or giving it up sooner, never makes the page ready later. */
  lemma LessDOMWatchingIsNeverLater(c: RequestConfig, c': RequestConfig, polls: seq<Poll>, i: nat) returns (k: nat)
    requires WatchesDOMLess(c', c) && Ordered(polls) && StopsAt(c, polls, i, Ready)
    ensures k <= i && StopsAt(c', polls, k, Ready)
  {
    forall j: nat | j <= i
      ensures Verdict(c', polls, j) in {Waiting, Ready}
      ensures j == i ==> Verdict(c', polls, j) == Ready
    {
      SameQueryHistory(c, c', polls, j);
      if DOMWatched(c', polls[j]) {
        SameDOMRow(c, c', polls, j);
      }
      assert j < i ==> Verdict(c, polls, j) == Waiting;
    }
    k := StopsBy(c', polls, i);
  }

  // ---------- Liveness ----------

  /** A poll of a page at rest, as far as the gates that still watch it can see. */
  ghost predicate Quiet(c: RequestConfig, p: Poll, h: int) {
    && p.wake == Tick && !NetworkBlocks(c, p)
    && (QueriesWatched(c, p) ==> p.running == Answered(false))
    && (DOMWatched(c, p) ==> p.hash == Answered(h))
  }

  ghost predicate QuietFrom(c: RequestConfig, polls: seq<Poll>, i: nat, h: int) {
    forall j | i <= j < |polls| :: Quiet(c, polls[j], h)
  }

  /** The decreasing measure of a quiet page: missing query cycles and then the DOM phase. */
  ghost function Remaining(c: RequestConfig, polls: seq<Poll>, i: nat): (n: nat)
    requires i < |polls|
  {
    if DOMRow(c, polls, i) % 2 == 1 then
      if DOMWatched(c, polls[i]) && polls[i - 1].hash != polls[i].hash then 3 else 1
    else if QueriesWatched(c, polls[i]) then
      Max(0, c.readinessWaitForNQueryCycles - 1 - Streak(c, polls, i)) + 2
    else 2
  }

  /** A query gate that still watches has seen a query run, or has given up on the first one. */
  ghost predicate FirstQuerySettled(c: RequestConfig, polls: seq<Poll>, i: nat)
    requires i < |polls|
  {
    QueriesWatched(c, polls[i]) ==>
      EverSawRunning(c, polls, i) || !Under(c.readinessFirstQueryTimeout, polls[i].atFirstQuery)
  }

  lemma FirstQueryStaysSettled(c: RequestConfig, polls: seq<Poll>, i: nat)
    requires Ordered(polls) && i + 1 < |polls| && FirstQuerySettled(c, polls, i)
    ensures FirstQuerySettled(c, polls, i + 1)
  {
    assert polls[i].atDOM <= polls[i + 1].atNetwork;
    EverSawRunningStep(c, polls, i);
  }

  /** Each quiet poll ends the run or brings the end one poll nearer. */
  lemma QuietPollProgress(c: RequestConfig, polls: seq<Poll>, i: nat, h: int)
    requires Ordered(polls) && i < |polls| && Quiet(c, polls[i], h) && FirstQuerySettled(c, polls, i)
    ensures Remaining(c, polls, i) >= 1
    ensures Verdict(c, polls, i) in {Waiting, Ready}
    ensures Remaining(c, polls, i) == 1 ==> Verdict(c, polls, i) == Ready
    ensures Verdict(c, polls, i) == Waiting && i + 1 < |polls| && Quiet(c, polls[i + 1], h) ==>
              Remaining(c, polls, i + 1) < Remaining(c, polls, i)
  {
    assert !NetworkBlocks(c, polls[i]) && !SawRunning(c, polls[i]);
    if DOMRow(c, polls, i) % 2 == 1 {
      QueryGateStaysPassed(c, polls, i);
    }
    if i + 1 < |polls| && Quiet(c, polls[i + 1], h) {
      assert polls[i].atDOM <= polls[i + 1].atNetwork;
      assert Evaluated(c, polls[i]) ==> Settled(c, polls, i);
      if DOMRow(c, polls, i) % 2 == 0 && QueriesPass(c, polls, i) && DOMWatched(c, polls[i]) {
        assert DOMRow(c, polls, i + 1) == DOMRow(c, polls, i) + 1;
      }
    }
  }

  lemma {:induction false} QuietRunEnds(c: RequestConfig, polls: seq<Poll>, i: nat, h: int) returns (k: nat)
    requires Ordered(polls) && i < |polls| && WaitsBefore(c, polls, i)
    requires QuietFrom(c, polls, i, h) && FirstQuerySettled(c, polls, i)
    requires i + Remaining(c, polls, i) <= |polls|
    ensures i <= k < i + Remaining(c, polls, i) && StopsAt(c, polls, k, Ready)
    decreases |polls| - i
  {
    QuietPollProgress(c, polls, i, h);
    if Verdict(c, polls, i) == Ready {
      k := i;
    } else {
      FirstQueryStaysSettled(c, polls, i);
      k := QuietRunEnds(c, polls, i + 1, h);
    }
  }

  lemma QuietPageEnds(c: RequestConfig, polls: seq<Poll>, i: nat, h: int) returns (k: nat)
    requires Ordered(polls) && i < |polls| && WaitsBefore(c, polls, i)
    requires QuietFrom(c, polls, i, h) && FirstQuerySettled(c, polls, i)
    requires |polls| >= i + Max(c.readinessWaitForNQueryCycles + 1, 3)
    ensures i <= k < i + Max(c.readinessWaitForNQueryCycles + 1, 3) && StopsAt(c, polls, k, Ready)
  {
    k := QuietRunEnds(c, polls, i, h);
  }

  /** Bounded liveness. From any point a run can reach, once no gate that still watches sees the
      page move (no blocking request, no running query, no change of the DOM) and the first query
      was seen or given up on, if anything waits for it, the loop is ready within N + 1 polls, or
      three if N is at most one. */
  lemma QuietPageBecomesReady(c: RequestConfig, polls: seq<Poll>, i: nat, h: int) returns (k: nat)
    requires Ordered(polls) && i < |polls| && WaitsBefore(c, polls, i)
    requires |polls| >= i + (if c.readinessWaitForNQueryCycles <= 1 then 3 else c.readinessWaitForNQueryCycles + 1)
    requires forall j | i <= j < |polls| ::
               && polls[j].wake == Tick
               && (c.readinessDisableNetworkWait || polls[j].inflight <= 0
                   || 0 < c.readinessNetworkIdleTimeout <= polls[j].atNetwork)
               && (c.readinessDisableQueryWait || polls[j].running == Answered(false)
                   || 0 < c.readinessQueriesTimeout <= polls[j].atQueries)
               && (c.readinessDisableDOMHashCodeWait || polls[j].hash == Answered(h)
                   || 0 < c.readinessDOMHashCodeTimeout <= polls[j].atDOM)
    requires || c.readinessDisableQueryWait || 0 < c.readinessQueriesTimeout <= polls[i].atQueries
             || 0 < c.readinessFirstQueryTimeout <= polls[i].atFirstQuery
             || exists j ::
                  && 0 <= j < i && polls[j].running == Answered(true)
                  && (c.readinessDisableNetworkWait || polls[j].inflight <= 0
                      || 0 < c.readinessNetworkIdleTimeout <= polls[j].atNetwork)
    ensures i <= k < i + (if c.readinessWaitForNQueryCycles <= 1 then 3 else c.readinessWaitForNQueryCycles + 1) && StopsAt(c, polls, k, Ready)
  {
    forall j | i <= j < |polls| ensures Quiet(c, polls[j], h) {
    }
    if exists j ::
         && 0 <= j < i && polls[j].running == Answered(true)
         && (c.readinessDisableNetworkWait || polls[j].inflight <= 0
             || 0 < c.readinessNetworkIdleTimeout <= polls[j].atNetwork) {
      SeenWhileWatched(c, polls, i);
    }
    k := QuietPageEnds(c, polls, i, h);
  }

  /** A query that was found running earlier was found so by a gate that watched. */
  lemma SeenWhileWatched(c: RequestConfig, polls: seq<Poll>, i: nat)
    requires Ordered(polls) && i < |polls|
    requires exists j ::
               && 0 <= j < i && polls[j].running == Answered(true)
               && (c.readinessDisableNetworkWait || polls[j].inflight <= 0
                   || 0 < c.readinessNetworkIdleTimeout <= polls[j].atNetwork)
    ensures FirstQuerySettled(c, polls, i)
  {
    var j :| 0 <= j < i && polls[j].running == Answered(true) && !NetworkBlocks(c, polls[j]);
    assert polls[j].atDOM <= polls[i].atNetwork;
    assert QueriesWatched(c, polls[i]) ==> SawRunning(c, polls[j]);
  }

  // ---------- The hard stop ----------

  /** The give-up time of one gate; a disabled gate needs none. */
  function GiveUp(disabled: bool, limit: int): int {
    if disabled then 0 else limit
  }

  function LongestGiveUp(c: RequestConfig): int {
    Max(GiveUp(c.readinessDisableNetworkWait, c.readinessNetworkIdleTimeout),
        Max(GiveUp(c.readinessDisableQueryWait, c.readinessQueriesTimeout),
            GiveUp(c.readinessDisableDOMHashCodeWait, c.readinessDOMHashCodeTimeout)))
  }

  ghost predicate EveryGateGivesUp(c: RequestConfig) {
    && (c.readinessDisableNetworkWait || c.readinessNetworkIdleTimeout > 0)
    && (c.readinessDisableQueryWait || c.readinessQueriesTimeout > 0)
    && (c.readinessDisableDOMHashCodeWait || c.readinessDOMHashCodeTimeout > 0)
  }

  /** Every iteration waits one interval before it looks at anything. */
  ghost predicate Paced(c: RequestConfig, polls: seq<Poll>) {
    forall j | 0 <= j < |polls| :: polls[j].atNetwork >= (j + 1) * c.readinessIterationInterval
  }

  /** The number of iterations after which every enabled gate has given up. */
  function IterationBound(c: RequestConfig): (k: int)
    requires c.readinessIterationInterval > 0
  {
    Max(1, (LongestGiveUp(c) + c.readinessIterationInterval - 1) / c.readinessIterationInterval)
  }

  lemma CeilingCovers(m: int, d: int)
    requires d > 0
    ensures (m + d - 1) / d * d >= m
  {
  }

  /** Whatever the page reports, a loop whose enabled gates all give up ends within the bound. */
  lemma GiveUpsBoundTheLoop(c: RequestConfig, polls: seq<Poll>) returns (k: nat)
    requires Ordered(polls) && Paced(c, polls)
    requires c.readinessIterationInterval > 0 && EveryGateGivesUp(c)
    requires |polls| >= IterationBound(c)
    ensures k < IterationBound(c) && StopsAt(c, polls, k, Verdict(c, polls, k))
  {
    var d := c.readinessIterationInterval;
    var b := IterationBound(c);
    CeilingCovers(LongestGiveUp(c), d);
    ScaleUp((LongestGiveUp(c) + d - 1) / d, b, d);
    assert polls[b - 1].atNetwork >= (b - 1 + 1) * d >= LongestGiveUp(c);
    k := StopsBy(c, polls, b - 1);
  }
}
