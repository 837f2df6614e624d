/** The legacy polling loop of waitForReady.

    The source decides with four mutable variables whether a page is ready. Here that loop
    (method WaitForReady) is proved equal to a decision that keeps no state at all: Verdict
    looks only at what the page answered at each poll. The theorems about runs are then
    theorems about Verdict. */
module Readiness {
  import opened Arithmetic
  import opened RequestConfigs

  datatype Wake = Tick | ContextDone | DeadlineReached

  /** An answer of the page to an evaluated script, or the error of the evaluation. */
  datatype Answer<T> = Answered(value: T) | Failed

  /** Everything one iteration of the loop may observe. The clock is read up to four times
      in one iteration, with a page evaluation between the readings. */
  datatype Poll = Poll(
    wake: Wake,
    inflight: int,
    atNetwork: int,
    atQueries: int,
    running: Answer<bool>,
    atFirstQuery: int,
    atDOM: int,
    hash: Answer<int>
  )

  datatype Outcome = Waiting | Ready | ContextEnded | TimedOut | QueryFailed | DOMFailed

  /** The clock is monotonic within an iteration and from each iteration to later ones. */
  ghost predicate Ordered(polls: seq<Poll>) {
    && (forall i | 0 <= i < |polls| ::
          polls[i].atNetwork <= polls[i].atQueries <= polls[i].atFirstQuery <= polls[i].atDOM)
    && (forall i, j | 0 <= i < j < |polls| :: polls[i].atDOM <= polls[j].atNetwork)
  }

  /** A give-up time that is disabled (not positive) or not reached yet. */
  predicate Under(limit: int, elapsed: int) {
    limit <= 0 || elapsed < limit
  }

  predicate NetworkBlocks(c: RequestConfig, p: Poll) {
    !c.readinessDisableNetworkWait && Under(c.readinessNetworkIdleTimeout, p.atNetwork) && p.inflight > 0
  }

  predicate QueriesWatched(c: RequestConfig, p: Poll) {
    !c.readinessDisableQueryWait && Under(c.readinessQueriesTimeout, p.atQueries)
  }

  predicate DOMWatched(c: RequestConfig, p: Poll) {
    !c.readinessDisableDOMHashCodeWait && Under(c.readinessDOMHashCodeTimeout, p.atDOM)
  }

  /** The poll asked the page whether queries run. */
  predicate Evaluated(c: RequestConfig, p: Poll) {
    !NetworkBlocks(c, p) && QueriesWatched(c, p)
  }

  predicate SawRunning(c: RequestConfig, p: Poll) {
    Evaluated(c, p) && p.running == Answered(true)
  }

  ghost predicate EverSawRunning(c: RequestConfig, polls: seq<Poll>, i: nat)
    requires i <= |polls|
  {
    exists j | 0 <= j < i :: SawRunning(c, polls[j])
  }

  /** Poll i evaluated the queries, found none running, and is past waiting for a first one. */
  ghost predicate Settled(c: RequestConfig, polls: seq<Poll>, i: nat)
    requires i < |polls|
  {
    && Evaluated(c, polls[i])
    && polls[i].running == Answered(false)
    && (EverSawRunning(c, polls, i) || !Under(c.readinessFirstQueryTimeout, polls[i].atFirstQuery))
  }

  /** How many of the most recent evaluations before poll i were settled, without a gap. */
  ghost function Streak(c: RequestConfig, polls: seq<Poll>, i: nat): (n: nat)
    requires i <= |polls|
  {
    if i == 0 then 0
    else if !Evaluated(c, polls[i - 1]) then Streak(c, polls, i - 1)
    else if Settled(c, polls, i - 1) then Streak(c, polls, i - 1) + 1
    else 0
  }

  ghost predicate QueriesPass(c: RequestConfig, polls: seq<Poll>, i: nat)
    requires i < |polls|
  {
    QueriesWatched(c, polls[i]) ==>
      Settled(c, polls, i) && Streak(c, polls, i) + 1 >= c.readinessWaitForNQueryCycles
  }

  ghost predicate ReachesDOM(c: RequestConfig, polls: seq<Poll>, i: nat)
    requires i < |polls|
  {
    !NetworkBlocks(c, polls[i]) && QueriesPass(c, polls, i) && DOMWatched(c, polls[i])
  }

  /** The number of polls immediately before poll i that all reached the DOM gate. The gate
      records a hash on the first, third, fifth, ... of them and compares on the others. */
  ghost function DOMRow(c: RequestConfig, polls: seq<Poll>, i: nat): (n: nat)
    requires i <= |polls|
    ensures n <= i
  {
    if i == 0 || !ReachesDOM(c, polls, i - 1) then 0 else DOMRow(c, polls, i - 1) + 1
  }

  /** The stateless decision at poll i, given the polls before it. */
  ghost function Verdict(c: RequestConfig, polls: seq<Poll>, i: nat): Outcome
    requires i < |polls|
  {
    var p := polls[i];
    if p.wake == ContextDone then ContextEnded
    else if p.wake == DeadlineReached then TimedOut
    else if NetworkBlocks(c, p) then Waiting
    else if QueriesWatched(c, p) && p.running.Failed? then QueryFailed
    else if !QueriesPass(c, polls, i) then Waiting
    else if !DOMWatched(c, p) then Ready
    else if p.hash.Failed? then DOMFailed
    else if DOMRow(c, polls, i) % 2 == 1 && polls[i - 1].hash == p.hash then Ready
    else Waiting
  }

  ghost predicate WaitsBefore(c: RequestConfig, polls: seq<Poll>, i: nat)
    requires i <= |polls|
  {
    forall j | 0 <= j < i :: Verdict(c, polls, j) == Waiting
  }

  ghost predicate StopsAt(c: RequestConfig, polls: seq<Poll>, i: nat, outcome: Outcome) {
    i < |polls| && WaitsBefore(c, polls, i) && Verdict(c, polls, i) == outcome != Waiting
  }

  /** A poll compares hashes only when the poll just before recorded one: with a monotonic
      clock, having passed the query gate once means passing it on the next poll too, unless
      the network gate or a running query sends the loop back. */
  lemma QueryGateStaysPassed(c: RequestConfig, polls: seq<Poll>, i: nat)
    requires Ordered(polls) && 0 < i < |polls|
    requires ReachesDOM(c, polls, i - 1)
    requires !NetworkBlocks(c, polls[i]) && !SawRunning(c, polls[i])
    requires QueriesWatched(c, polls[i]) ==> polls[i].running.Answered?
    ensures QueriesPass(c, polls, i)
  {
    if QueriesWatched(c, polls[i]) {
      assert polls[i - 1].atDOM <= polls[i].atNetwork;
      assert polls[i].running.value == false;
      if EverSawRunning(c, polls, i - 1) {
        assert EverSawRunning(c, polls, i);
      }
      assert Settled(c, polls, i);
    }
  }

  /** While no query was seen and the first-query give-up has not expired, nothing was settled. */
  lemma {:induction false} NoStreakBeforeFirstQuery(c: RequestConfig, polls: seq<Poll>, i: nat)
    requires Ordered(polls) && i < |polls|
    requires !EverSawRunning(c, polls, i) && Under(c.readinessFirstQueryTimeout, polls[i].atFirstQuery)
    ensures Streak(c, polls, i) == 0
  {
    if i > 0 {
      assert polls[i - 1].atDOM <= polls[i].atNetwork;
      NoStreakBeforeFirstQuery(c, polls, i - 1);
    }
  }

  /** What the four variables of the loop hold before poll n, in terms of the polls alone. */
  ghost predicate QueryVarsTrack(c: RequestConfig, polls: seq<Poll>, n: nat, hasSeenAnyQuery: bool,
                                 numSuccessfulCycles: int)
    requires n <= |polls|
  {
    && hasSeenAnyQuery == EverSawRunning(c, polls, n)
    && numSuccessfulCycles == Max(0, Min(Streak(c, polls, n), c.readinessWaitForNQueryCycles - 1))
  }

  ghost predicate DOMVarsTrack(c: RequestConfig, polls: seq<Poll>, n: nat, domHashCode: int, initialDOMPass: bool)
    requires n <= |polls|
  {
    && initialDOMPass == (DOMRow(c, polls, n) % 2 == 0)
    && (!initialDOMPass ==> polls[n - 1].hash == Answered(domHashCode))
  }

  lemma EverSawRunningStep(c: RequestConfig, polls: seq<Poll>, n: nat)
    requires n < |polls|
    ensures EverSawRunning(c, polls, n + 1) == (EverSawRunning(c, polls, n) || SawRunning(c, polls[n]))
  {
  }

  lemma GatesAre(c: RequestConfig, p: Poll)
    ensures NetworkBlocks(c, p) <==>
              && !c.readinessDisableNetworkWait
              && (c.readinessNetworkIdleTimeout <= 0 || p.atNetwork < c.readinessNetworkIdleTimeout)
              && p.inflight > 0
    ensures QueriesWatched(c, p) <==>
              !c.readinessDisableQueryWait && (c.readinessQueriesTimeout <= 0 || p.atQueries < c.readinessQueriesTimeout)
    ensures DOMWatched(c, p) <==>
              && !c.readinessDisableDOMHashCodeWait
              && (c.readinessDOMHashCodeTimeout <= 0 || p.atDOM < c.readinessDOMHashCodeTimeout)
  {
  }

  lemma WaitsOneMore(c: RequestConfig, polls: seq<Poll>, n: nat)
    requires n < |polls| && WaitsBefore(c, polls, n) && Verdict(c, polls, n) == Waiting
    ensures WaitsBefore(c, polls, n + 1)
  {
  }

  /** A poll that does not ask about queries leaves the query variables in step. */
  lemma UnevaluatedKeepsTrack(c: RequestConfig, polls: seq<Poll>, n: nat, seen: bool, cycles: int)
    requires n < |polls| && !Evaluated(c, polls[n]) && QueryVarsTrack(c, polls, n, seen, cycles)
    ensures QueryVarsTrack(c, polls, n + 1, seen, cycles)
  {
    EverSawRunningStep(c, polls, n);
  }

  /** After a poll that does not reach the DOM gate, the next one to reach it records. */
  lemma UnreachedRestartsDOM(c: RequestConfig, polls: seq<Poll>, n: nat, recorded: int)
    requires n < |polls| && !ReachesDOM(c, polls, n)
    ensures DOMVarsTrack(c, polls, n + 1, recorded, true)
  {
  }

  /** The query gate of the source, as two variables see it: it passes exactly when QueriesPass
      says so, and otherwise leaves the variables in step with the polls. */
  method QueryGate(c: RequestConfig, polls: seq<Poll>, n: nat, seen: bool, cycles: int)
    returns (pass: bool, hasSeenAnyQuery: bool, numSuccessfulCycles: int)
    requires Ordered(polls) && n < |polls| && Evaluated(c, polls[n]) && polls[n].running.Answered?
    requires QueryVarsTrack(c, polls, n, seen, cycles)
    ensures QueryVarsTrack(c, polls, n + 1, hasSeenAnyQuery, numSuccessfulCycles)
    ensures pass == QueriesPass(c, polls, n)
  {
    var p := polls[n];
    hasSeenAnyQuery, numSuccessfulCycles := seen, cycles;
    EverSawRunningStep(c, polls, n);
    if p.running.value {
      hasSeenAnyQuery := true;
      numSuccessfulCycles := 0;
      return false, hasSeenAnyQuery, numSuccessfulCycles;
    } else if !hasSeenAnyQuery
      && (c.readinessFirstQueryTimeout <= 0 || p.atFirstQuery < c.readinessFirstQueryTimeout) {
      NoStreakBeforeFirstQuery(c, polls, n);
      return false, hasSeenAnyQuery, numSuccessfulCycles;
    } else if numSuccessfulCycles + 1 < c.readinessWaitForNQueryCycles {
      numSuccessfulCycles := numSuccessfulCycles + 1;
      return false, hasSeenAnyQuery, numSuccessfulCycles;
    }
    return true, hasSeenAnyQuery, numSuccessfulCycles;
  }

  /** The DOM gate of the source, reached by poll n: record a hash, or compare with the one
      recorded on the poll before. */
  method DOMGate(c: RequestConfig, polls: seq<Poll>, n: nat, recorded: int, initial: bool)
    returns (pass: bool, domHashCode: int, initialDOMPass: bool)
    requires n < |polls| && ReachesDOM(c, polls, n) && polls[n].hash.Answered? && polls[n].wake == Tick
    requires QueriesWatched(c, polls[n]) ==> polls[n].running.Answered?
    requires DOMVarsTrack(c, polls, n, recorded, initial)
    ensures pass == (Verdict(c, polls, n) == Ready)
    ensures !pass ==> Verdict(c, polls, n) == Waiting
    ensures !pass ==> DOMVarsTrack(c, polls, n + 1, domHashCode, initialDOMPass)
  {
    domHashCode, initialDOMPass := recorded, initial;
    if initialDOMPass {
      domHashCode := polls[n].hash.value;
      initialDOMPass := false;
      return false, domHashCode, initialDOMPass;
    }
    var newHashCode := polls[n].hash.value;
    if newHashCode != domHashCode {
      domHashCode := newHashCode;
      initialDOMPass := true;
      return false, domHashCode, initialDOMPass;
    }
    return true, domHashCode, initialDOMPass;
  }

  /** The loop of the source with its four variables, run over the observed polls. It stops
      exactly where the stateless Verdict first is not Waiting, with that verdict. */
  method WaitForReady(c: RequestConfig, polls: seq<Poll>) returns (outcome: Outcome, n: nat)
    requires Ordered(polls)
    ensures outcome == Waiting ==> n == |polls| && WaitsBefore(c, polls, n)
    ensures outcome != Waiting ==> StopsAt(c, polls, n, outcome)
  {
    var hasSeenAnyQuery, numSuccessfulCycles := false, 0;
    var domHashCode, initialDOMPass := 0, true;
    n := 0;
    while n < |polls|
      invariant n <= |polls| && WaitsBefore(c, polls, n)
      invariant QueryVarsTrack(c, polls, n, hasSeenAnyQuery, numSuccessfulCycles)
      invariant DOMVarsTrack(c, polls, n, domHashCode, initialDOMPass)
    {
      var p := polls[n];
      GatesAre(c, p);
      if p.wake == ContextDone {
        return ContextEnded, n;
      } else if p.wake == DeadlineReached {
        return TimedOut, n;
      }

      if !c.readinessDisableNetworkWait
        && (c.readinessNetworkIdleTimeout <= 0 || p.atNetwork < c.readinessNetworkIdleTimeout)
        && p.inflight > 0 {
        initialDOMPass := true;
        UnevaluatedKeepsTrack(c, polls, n, hasSeenAnyQuery, numSuccessfulCycles);
        UnreachedRestartsDOM(c, polls, n, domHashCode);
        WaitsOneMore(c, polls, n);
        n := n + 1;
        continue;
      }

      if !c.readinessDisableQueryWait
        && (c.readinessQueriesTimeout <= 0 || p.atQueries < c.readinessQueriesTimeout) {
        if p.running.Failed? {
          return QueryFailed, n;
        }
        if !initialDOMPass && !p.running.value {
          QueryGateStaysPassed(c, polls, n);
        }
        var pass;
        pass, hasSeenAnyQuery, numSuccessfulCycles :=
          QueryGate(c, polls, n, hasSeenAnyQuery, numSuccessfulCycles);
        if p.running.value {
          initialDOMPass := true;
        }
        if !pass {
          UnreachedRestartsDOM(c, polls, n, domHashCode);
          WaitsOneMore(c, polls, n);
          n := n + 1;
          continue;
        }
      } else {
        UnevaluatedKeepsTrack(c, polls, n, hasSeenAnyQuery, numSuccessfulCycles);
      }

      if !c.readinessDisableDOMHashCodeWait
        && (c.readinessDOMHashCodeTimeout <= 0 || p.atDOM < c.readinessDOMHashCodeTimeout) {
        if p.hash.Failed? {
          return DOMFailed, n;
        }
        var pass;
        pass, domHashCode, initialDOMPass := DOMGate(c, polls, n, domHashCode, initialDOMPass);
        if !pass {
          WaitsOneMore(c, polls, n);
          n := n + 1;
          continue;
        }
      }
      return Ready, n;
    }
    return Waiting, n;
  }
}
