/** The readiness loop reads the counter of the network observer while calls of the observer are
    under way. */
module ReadinessNetwork {
  import opened RequestConfigs
  import opened Readiness
  import NetworkObserver

  /** Ready while the network gate still holds means that, at the moment the counter was read, no
      request was outstanding but those whose send had not returned yet. */
  lemma ReadyMeansNetworkIdle(c: RequestConfig, polls: seq<Poll>, i: nat, schedule: seq<NetworkObserver.Action>)
    requires StopsAt(c, polls, i, Ready)
    requires !c.readinessDisableNetworkWait
    requires c.readinessNetworkIdleTimeout <= 0 || polls[i].atNetwork < c.readinessNetworkIdleTimeout
    requires polls[i].inflight == NetworkObserver.After(schedule).inflight
    ensures var s := NetworkObserver.After(schedule);
            forall id :: NetworkObserver.IsOutstanding(s.log, id) ==> NetworkObserver.BeingInserted(s, id)
  {
    var s := NetworkObserver.After(schedule);
    NetworkObserver.CounterNeverUnderReports(schedule);
    assert NetworkObserver.Accounted(s) == {};
  }
}
