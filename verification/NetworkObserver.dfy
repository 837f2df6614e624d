/** The in-flight counter of readinessNetworkObserver: a map of request ids under a mutex and
    an atomic counter beside it. The counter is incremented inside the lock but decremented
    after the unlock, so the two are out of step while calls run.

    First the protocol as interleaved steps of any number of threads, then the observer as the
    class of the source, whose calls run alone. */
module NetworkObserver {
  import opened Threads

  type RequestId = string

  // ---------- Which requests count ----------

  datatype ResourceType = EventSource | WebSocket | OtherType

  /** network.EventRequestWillBeSent; url is None for a nil request payload. */
  datatype SentEvent = NilEvent | SentEvent(id: RequestId, resource: ResourceType, url: Url)

  datatype Url = NilRequest | Url(text: string)

  function LowerLetter(c: char): char {
    if 'A' <= c <= 'Z' then (c as int + 32) as char else c
  }

  /** ASCII lower case. No other letter has a lower case that occurs in the two prefixes below. */
  function Lower(s: string): (r: string)
    ensures |r| == |s|
  {
    if s == [] then []
    else [LowerLetter(s[0])] + Lower(s[1..])
  }

  predicate ShouldTrack(e: SentEvent) {
    && e.SentEvent? && e.url.Url?
    && e.resource == OtherType
    && ("http://" <= Lower(e.url.text) || "https://" <= Lower(e.url.text))
  }

  /** The first characters of a url, letter by letter: "http", in capitals or not, then an "s" or
      none, then "://". */
  predicate IsHttpUrl(text: string) {
    && |text| >= 7
    && text[0] in {'h', 'H'} && text[1] in {'t', 'T'} && text[2] in {'t', 'T'} && text[3] in {'p', 'P'}
    && (|| (text[4] == ':' && text[5] == '/' && text[6] == '/')
        || (text[4] in {'s', 'S'} && |text| >= 8 && text[5] == ':' && text[6] == '/' && text[7] == '/'))
  }

  lemma {:induction false} LowerAt(s: string, i: nat)
    requires i < |s|
    ensures Lower(s)[i] == LowerLetter(s[i])
  {
    if i > 0 {
      LowerAt(s[1..], i - 1);
    }
  }

  /** A letter of the lower-cased text is c exactly when it was c or its capital. */
  lemma LowerIsLetter(s: string, i: nat, c: char, capital: char)
    requires i < |s| && 'a' <= c <= 'z' && capital as int + 32 == c as int
    ensures Lower(s)[i] == c <==> s[i] == c || s[i] == capital
  {
    LowerAt(s, i);
    LowerLetterIs(s[i], c, capital);
  }

  lemma LowerLetterIs(x: char, c: char, capital: char)
    requires 'a' <= c <= 'z' && capital as int + 32 == c as int
    ensures LowerLetter(x) == c <==> x == c || x == capital
  {
    assert LowerLetter(x) as int == if 'A' <= x <= 'Z' then x as int + 32 else x as int;
    assert x == capital <==> x as int == capital as int;
    assert LowerLetter(x) == c <==> LowerLetter(x) as int == c as int;
  }

  lemma LowerIsSign(s: string, i: nat, c: char)
    requires i < |s| && c < 'A'
    ensures Lower(s)[i] == c <==> s[i] == c
  {
    LowerAt(s, i);
  }

  lemma BeginsHttp(s: string)
    ensures "http://" <= s <==>
              && |s| >= 7 && s[0] == 'h' && s[1] == 't' && s[2] == 't' && s[3] == 'p'
              && s[4] == ':' && s[5] == '/' && s[6] == '/'
  {
  }

  lemma BeginsHttps(s: string)
    ensures "https://" <= s <==>
              && |s| >= 8 && s[0] == 'h' && s[1] == 't' && s[2] == 't' && s[3] == 'p'
              && s[4] == 's' && s[5] == ':' && s[6] == '/' && s[7] == '/'
  {
  }

  lemma LowerBegins(text: string)
    ensures "http://" <= Lower(text) || "https://" <= Lower(text) <==> IsHttpUrl(text)
  {
    BeginsHttp(Lower(text));
    BeginsHttps(Lower(text));
    if |text| >= 7 {
      LowerIsLetter(text, 0, 'h', 'H');
      LowerIsLetter(text, 1, 't', 'T');
      LowerIsLetter(text, 2, 't', 'T');
      LowerIsLetter(text, 3, 'p', 'P');
      LowerIsSign(text, 4, ':');
      LowerIsLetter(text, 4, 's', 'S');
      LowerIsSign(text, 5, ':');
      LowerIsSign(text, 5, '/');
      LowerIsSign(text, 6, '/');
    }
    if |text| >= 8 {
      LowerIsSign(text, 7, '/');
    }
  }

  /** Which requests count: those of another type than event sources and web sockets whose url
      begins with "http://" or "https://", in capitals or not. */
  lemma TrackedExactly(e: SentEvent)
    ensures ShouldTrack(e) <==>
              e.SentEvent? && e.url.Url? && !e.resource.EventSource? && !e.resource.WebSocket? && IsHttpUrl(e.url.text)
  {
    if e.SentEvent? && e.url.Url? {
      LowerBegins(e.url.text);
    }
  }

  // ---------- The sequential meaning ----------

  /** What the observer was told, in the order in which the calls held the lock. */
  datatype Note = Sent(id: RequestId) | Completed(id: RequestId)

  /** The ids with a tracked send and no later completion. */
  ghost predicate IsOutstanding(log: seq<Note>, id: RequestId) {
    exists i :: 0 <= i < |log| && log[i] == Sent(id) && NoCompletionAfter(log, i, id)
  }

  ghost predicate NoCompletionAfter(log: seq<Note>, i: int, id: RequestId) {
    forall j :: i < j < |log| && j >= 0 ==> log[j] != Completed(id)
  }

  ghost predicate AreOutstanding(ids: set<RequestId>, log: seq<Note>) {
    forall id :: id in ids <==> IsOutstanding(log, id)
  }

  lemma OutstandingAfter(log: seq<Note>, note: Note, id: RequestId)
    ensures IsOutstanding(log + [note], id) <==>
              note == Sent(id) || (IsOutstanding(log, id) && note != Completed(id))
  {
    var log' := log + [note];
    if note == Sent(id) {
      assert log'[|log|] == Sent(id) && NoCompletionAfter(log', |log|, id);
    } else if IsOutstanding(log, id) && note != Completed(id) {
      var i :| 0 <= i < |log| && log[i] == Sent(id) && NoCompletionAfter(log, i, id);
      assert log'[i] == Sent(id) && NoCompletionAfter(log', i, id);
    }
    if IsOutstanding(log', id) && note != Sent(id) {
      var i :| 0 <= i < |log'| && log'[i] == Sent(id) && NoCompletionAfter(log', i, id);
      assert log'[|log|] == note;
      forall j | i < j < |log| ensures log[j] != Completed(id) {
        assert log'[j] == log[j];
      }
      assert log[i] == Sent(id) && NoCompletionAfter(log, i, id);
    }
  }

  // ---------- The protocol ----------

  /** Where a call stands. A send holds the lock from SendLocked to its return; a completion
      releases it before it decrements. */
  datatype Point =
    | SendCalled(id: RequestId)
    | SendLocked(id: RequestId)
    | SendInserted(id: RequestId)   // in the map, not yet counted
    | SendCounted(id: RequestId)    // counted, lock still held
    | SendRepeated(id: RequestId)   // the id was known, lock still held
    | CompleteCalled(id: RequestId)
    | CompleteLocked(id: RequestId)
    | CompleteUnknown(id: RequestId) // the id was not known, lock still held
    | CompleteDeleted(id: RequestId) // out of the map, lock still held
    | CompleteUnlocked(id: RequestId) // out of the map, not yet uncounted
    | Returned

  predicate HoldsLock(p: Point) {
    p.SendLocked? || p.SendInserted? || p.SendCounted? || p.SendRepeated?
    || p.CompleteLocked? || p.CompleteUnknown? || p.CompleteDeleted?
  }

  predicate Inserting(p: Point) { p.SendInserted? }

  predicate Uncounting(p: Point) { p.CompleteDeleted? || p.CompleteUnlocked? }

  /** locked is the mutex, requestIDs the map, inflight the atomic counter. log is history. */
  datatype State = State(
    locked: bool,
    requestIDs: set<RequestId>,
    inflight: int,
    points: map<ThreadId, Point>,
    log: seq<Note>
  )

  const INIT := State(false, {}, 0, map[], [])

  /** One scheduling choice: start a call on a thread, or let a thread take its next step. */
  datatype Action = CallSend(t: ThreadId, e: SentEvent) | CallComplete(t: ThreadId, id: RequestId) | Advance(t: ThreadId)

  predicate Idle(s: State, t: ThreadId) {
    t in s.points ==> s.points[t].Returned?
  }

  predicate Enabled(s: State, a: Action) {
    match a
    case CallSend(t, _) => Idle(s, t)
    case CallComplete(t, _) => Idle(s, t)
    case Advance(t) =>
      && !Idle(s, t)
      && (s.points[t].SendCalled? || s.points[t].CompleteCalled? ==> !s.locked)
  }

  function Step(s: State, a: Action): State
    requires Enabled(s, a)
  {
    match a
    case CallSend(t, e) =>
      s.(points := s.points[t := if ShouldTrack(e) then SendCalled(e.id) else Returned])
    case CallComplete(t, id) =>
      s.(points := s.points[t := CompleteCalled(id)])
    case Advance(t) =>
      match s.points[t]
      case SendCalled(id) => s.(locked := true, points := s.points[t := SendLocked(id)])
      case SendLocked(id) =>
        if id in s.requestIDs then
          s.(points := s.points[t := SendRepeated(id)], log := s.log + [Sent(id)])
        else
          s.(requestIDs := s.requestIDs + {id}, points := s.points[t := SendInserted(id)], log := s.log + [Sent(id)])
      case SendInserted(id) => s.(inflight := s.inflight + 1, points := s.points[t := SendCounted(id)])
      case SendCounted(id) => s.(locked := false, points := s.points[t := Returned])
      case SendRepeated(id) => s.(locked := false, points := s.points[t := Returned])
      case CompleteCalled(id) => s.(locked := true, points := s.points[t := CompleteLocked(id)])
      case CompleteLocked(id) =>
        if id in s.requestIDs then
          s.(requestIDs := s.requestIDs - {id}, points := s.points[t := CompleteDeleted(id)], log := s.log + [Completed(id)])
        else
          s.(points := s.points[t := CompleteUnknown(id)], log := s.log + [Completed(id)])
      case CompleteUnknown(id) => s.(locked := false, points := s.points[t := Returned])
      case CompleteDeleted(id) => s.(locked := false, points := s.points[t := CompleteUnlocked(id)])
      case CompleteUnlocked(id) => s.(inflight := s.inflight - 1, points := s.points[t := Returned])
      case Returned => s
  }

  /** The state after a schedule. The scheduler passes over choices that are not enabled. */
  ghost function After(schedule: seq<Action>): State {
    if schedule == [] then INIT
    else
      var s, a := After(schedule[..|schedule| - 1]), schedule[|schedule| - 1];
      if Enabled(s, a) then Step(s, a) else s
  }

  /** A send takes part in the protocol exactly when its request counts. */
  lemma CallSendTracks(s: State, t: ThreadId, e: SentEvent)
    requires Enabled(s, CallSend(t, e))
    ensures Step(s, CallSend(t, e)).points[t].SendCalled? <==>
              e.SentEvent? && e.url.Url? && !e.resource.EventSource? && !e.resource.WebSocket? && IsHttpUrl(e.url.text)
  {
    TrackedExactly(e);
  }

  /** How many steps a call has still to take, at most. */
  function StepsLeft(p: Point): nat {
    match p
    case SendCalled(_) => 4
    case SendLocked(_) => 3
    case SendInserted(_) => 2
    case SendCounted(_) => 1
    case SendRepeated(_) => 1
    case CompleteCalled(_) => 4
    case CompleteLocked(_) => 3
    case CompleteUnknown(_) => 1
    case CompleteDeleted(_) => 2
    case CompleteUnlocked(_) => 1
    case Returned => 0
  }

  /** Every step of a call brings it nearer to its return, for the same id, and moves no other call. */
  lemma CallsEnd(s: State, t: ThreadId, u: ThreadId)
    requires Enabled(s, Advance(t))
    ensures var s' := Step(s, Advance(t));
            && t in s'.points && StepsLeft(s'.points[t]) < StepsLeft(s.points[t])
            && (s'.points[t].Returned? || s'.points[t].id == s.points[t].id)
            && (u != t ==> (u in s'.points <==> u in s.points) && (u in s.points ==> s'.points[u] == s.points[u]))
  {
  }

  // ---------- The invariant of every reachable state ----------

  ghost predicate LockCounted(s: State) {
    CountAt(s.points, HoldsLock) == if s.locked then 1 else 0
  }

  /** The counter is the size of the map, plus the deletions not yet uncounted, minus the
      insertion not yet counted. */
  ghost predicate CounterBalanced(s: State) {
    s.inflight == |s.requestIDs| + CountAt(s.points, Uncounting) - CountAt(s.points, Inserting)
  }

  ghost predicate InsertedInMap(s: State) {
    forall t | t in s.points && s.points[t].SendInserted? :: s.points[t].id in s.requestIDs
  }

  ghost predicate Inv(s: State) {
    && LockCounted(s)
    && CounterBalanced(s)
    && InsertedInMap(s)
    && AreOutstanding(s.requestIDs, s.log)
  }

  lemma StepKeepsOutstanding(s: State, a: Action)
    requires Enabled(s, a) && AreOutstanding(s.requestIDs, s.log)
    ensures AreOutstanding(Step(s, a).requestIDs, Step(s, a).log)
  {
    var s' := Step(s, a);
    if s'.log != s.log {
      var note := s'.log[|s.log|];
      assert s'.log == s.log + [note];
      forall id ensures id in s'.requestIDs <==> IsOutstanding(s'.log, id) {
        OutstandingAfter(s.log, note, id);
      }
    }
  }

  /** Only one thread at a time is between taking and releasing the lock. */
  lemma LockIsExclusive(s: State, t: ThreadId, u: ThreadId)
    requires CountAt(s.points, HoldsLock) <= 1
    requires t in s.points && HoldsLock(s.points[t]) && u in s.points && HoldsLock(s.points[u])
    ensures t == u
  {
    SubsetSize({t, u}, At(s.points, HoldsLock));
  }

  lemma StepKeepsLock(s: State, a: Action)
    requires LockCounted(s) && Enabled(s, a)
    ensures LockCounted(Step(s, a))
  {
    CountMove(s.points, HoldsLock, a.t, Step(s, a).points[a.t]);
  }

  /** One if the thread is at such a point, zero if it is elsewhere or unknown. */
  ghost function Here(points: map<ThreadId, Point>, t: ThreadId, at: Point -> bool): int {
    if t in points && at(points[t]) then 1 else 0
  }

  lemma OneIdSize(ids: set<RequestId>, id: RequestId)
    ensures id !in ids ==> |ids + {id}| == |ids| + 1
    ensures id in ids ==> |ids - {id}| == |ids| - 1
  {
  }

  lemma StepChangesMapSize(s: State, a: Action)
    requires Enabled(s, a)
    ensures var p := Step(s, a).points[a.t];
            |Step(s, a).requestIDs| == |s.requestIDs| + (if p.SendInserted? then 1 else 0) - if p.CompleteDeleted? then 1 else 0
  {
    if a.Advance? && (s.points[a.t].SendLocked? || s.points[a.t].CompleteLocked?) {
      OneIdSize(s.requestIDs, s.points[a.t].id);
    }
  }

  /** What one step does to the balance, seen from the thread that takes it. */
  lemma StepBalance(s: State, a: Action)
    requires Enabled(s, a)
    ensures var s' := Step(s, a);
            s'.inflight - s.inflight
            == |s'.requestIDs| - |s.requestIDs|
               + Here(s'.points, a.t, Uncounting) - Here(s.points, a.t, Uncounting)
               - Here(s'.points, a.t, Inserting) + Here(s.points, a.t, Inserting)
  {
    StepChangesMapSize(s, a);
  }

  lemma StepMovesOneThread(s: State, a: Action)
    requires Enabled(s, a)
    ensures Step(s, a).points == s.points[a.t := Step(s, a).points[a.t]]
  {
  }

  lemma StepKeepsCounter(s: State, a: Action, s': State)
    requires CounterBalanced(s) && Enabled(s, a) && s' == Step(s, a)
    ensures CounterBalanced(s')
  {
    StepBalance(s, a);
    StepMovesOneThread(s, a);
    BalanceKeepsCounter(s, s', a.t);
  }

  lemma BalanceKeepsCounter(s: State, s': State, t: ThreadId)
    requires CounterBalanced(s) && t in s'.points && s'.points == s.points[t := s'.points[t]]
    requires s'.inflight - s.inflight
             == |s'.requestIDs| - |s.requestIDs|
                + Here(s'.points, t, Uncounting) - Here(s.points, t, Uncounting)
                - Here(s'.points, t, Inserting) + Here(s.points, t, Inserting)
    ensures CounterBalanced(s')
  {
    CountMove(s.points, Inserting, t, s'.points[t]);
    CountMove(s.points, Uncounting, t, s'.points[t]);
  }

  lemma StepKeepsInv(s: State, a: Action)
    requires Inv(s) && Enabled(s, a)
    ensures Inv(Step(s, a))
  {
    StepKeepsLock(s, a);
    StepKeepsCounter(s, a, Step(s, a));
    StepKeepsInserted(s, a);
    StepKeepsOutstanding(s, a);
  }

  lemma StepKeepsInserted(s: State, a: Action)
    requires Inv(s) && Enabled(s, a)
    ensures InsertedInMap(Step(s, a))
  {
    var s' := Step(s, a);
    forall t | t in s'.points && s'.points[t].SendInserted? ensures s'.points[t].id in s'.requestIDs {
      if t != a.t && a.t in s.points && HoldsLock(s.points[a.t]) {
        LockIsExclusive(s, t, a.t);
      }
    }
  }

  lemma {:induction false} ReachableInv(schedule: seq<Action>)
    ensures Inv(After(schedule))
  {
    if schedule == [] {
      assert At(INIT.points, HoldsLock) == {} && At(INIT.points, Inserting) == {} && At(INIT.points, Uncounting) == {};
    } else {
      var init := schedule[..|schedule| - 1];
      ReachableInv(init);
      if Enabled(After(init), schedule[|schedule| - 1]) {
        StepKeepsInv(After(init), schedule[|schedule| - 1]);
      }
    }
  }

  // ---------- What readers of the counter may rely on ----------

  /** The outstanding ids whose send is not still between the map write and the increment. */
  ghost function Accounted(s: State): set<RequestId> {
    set id | id in s.requestIDs && !BeingInserted(s, id)
  }

  ghost predicate BeingInserted(s: State, id: RequestId) {
    exists t :: t in s.points && s.points[t] == SendInserted(id)
  }

  lemma SingleSize(a: set<ThreadId>, t: ThreadId)
    requires |a| <= 1 && t in a
    ensures a == {t}
  {
    assert |a - {t}| == 0;
  }

  /** However the calls interleave, the counter is never negative, never misses an id whose send
      has returned and that no completion has taken out, and never exceeds those by more than
      the one insertion and the completions still under way. */
  lemma CounterNeverUnderReports(schedule: seq<Action>)
    ensures var s := After(schedule);
            && 0 <= s.inflight
            && |Accounted(s)| <= s.inflight <= |s.requestIDs| + CountAt(s.points, Uncounting)
            && forall id :: id in Accounted(s) <==> IsOutstanding(s.log, id) && !BeingInserted(s, id)
  {
    var s := After(schedule);
    ReachableInv(schedule);
    CountMonotone(s.points, Inserting, HoldsLock);
    if CountAt(s.points, Inserting) == 0 {
      SubsetSize(Accounted(s), s.requestIDs);
    } else {
      var t :| t in At(s.points, Inserting);
      SingleSize(At(s.points, Inserting), t);
      var id := s.points[t].id;
      assert BeingInserted(s, id);
      SubsetSize(Accounted(s), s.requestIDs - {id});
    }
  }

  ghost predicate Quiescent(s: State) {
    forall t | t in s.points :: s.points[t].Returned?
  }

  /** With no call in progress the counter is exactly the number of ids with a tracked send and
      no later completion, whatever duplicates and reorderings there were. */
  lemma CounterExactAtRest(schedule: seq<Action>)
    requires Quiescent(After(schedule))
    ensures var s := After(schedule);
            && s.inflight == |s.requestIDs|
            && AreOutstanding(s.requestIDs, s.log)
            && !s.locked
  {
    var s := After(schedule);
    ReachableInv(schedule);
    assert At(s.points, HoldsLock) == {} && At(s.points, Inserting) == {} && At(s.points, Uncounting) == {};
  }

  /** A send tells its caller that the id is new exactly when the id was not outstanding. */
  lemma SendReportsNewIds(schedule: seq<Action>, t: ThreadId, id: RequestId)
    requires t in After(schedule).points && After(schedule).points[t] == SendLocked(id)
    ensures var s := After(schedule);
            Step(s, Advance(t)).points[t] == if IsOutstanding(s.log, id) then SendRepeated(id) else SendInserted(id)
  {
    ReachableInv(schedule);
  }

  /** No deadlock: while some call is in progress, some call can take a step. */
  lemma SomeCallCanAdvance(schedule: seq<Action>) returns (t: ThreadId)
    requires !Quiescent(After(schedule))
    ensures !Idle(After(schedule), t) && Enabled(After(schedule), Advance(t))
  {
    var s := After(schedule);
    ReachableInv(schedule);
    if s.locked {
      t :| t in At(s.points, HoldsLock);
    } else {
      t :| t in s.points && !s.points[t].Returned?;
    }
  }

  lemma AfterOneMore(schedule: seq<Action>, a: Action)
    requires Enabled(After(schedule), a)
    ensures After(schedule + [a]) == Step(After(schedule), a)
  {
    assert (schedule + [a])[..|schedule|] == schedule;
  }

  /** A send can be overtaken by a reader: between the map write and the increment the counter
      is one less than the map. */
  lemma CounterCanLagTheMap(e: SentEvent) returns (schedule: seq<Action>)
    requires ShouldTrack(e)
    ensures After(schedule).inflight == |After(schedule).requestIDs| - 1
  {
    AfterOneMore([], CallSend(0, e));
    AfterOneMore([CallSend(0, e)], Advance(0));
    AfterOneMore([CallSend(0, e), Advance(0)], Advance(0));
    assert [CallSend(0, e)] + [Advance(0)] == [CallSend(0, e), Advance(0)];
    schedule := [CallSend(0, e), Advance(0)] + [Advance(0)];
    assert After(schedule).requestIDs == {e.id};
  }

  // ---------- The observer, one call at a time ----------

  /** The class of the source. Run one call at a time, it keeps the counter equal to the map. */
  class ReadinessNetworkObserver {
    var requestIDs: set<RequestId>
    var inflightRequests: int
    ghost var log: seq<Note>

    ghost predicate Valid()
      reads this
    {
      inflightRequests == |requestIDs| && AreOutstanding(requestIDs, log)
    }

    constructor ()
      ensures Valid() && log == [] && requestIDs == {}
    {
      requestIDs := {};
      inflightRequests := 0;
      log := [];
    }

    method OnRequestWillBeSent(e: SentEvent) returns (added: bool)
      requires Valid()
      modifies this
      ensures Valid()
      ensures added <==>
                && e.SentEvent? && e.url.Url? && !e.resource.EventSource? && !e.resource.WebSocket?
                && IsHttpUrl(e.url.text) && !IsOutstanding(old(log), e.id)
      ensures log == old(log) + if ShouldTrack(e) then [Sent(e.id)] else []
      ensures inflightRequests == old(inflightRequests) + if added then 1 else 0
    {
      TrackedExactly(e);
      if !ShouldTrack(e) {
        return false;
      }
      forall id ensures IsOutstanding(log + [Sent(e.id)], id) <==> id == e.id || IsOutstanding(log, id) {
        OutstandingAfter(log, Sent(e.id), id);
      }
      log := log + [Sent(e.id)];
      if e.id in requestIDs {
        return false;
      }
      requestIDs := requestIDs + {e.id};
      inflightRequests := inflightRequests + 1;
      return true;
    }

    method OnRequestCompleted(requestID: RequestId)
      requires Valid()
      modifies this
      ensures Valid()
      ensures log == old(log) + [Completed(requestID)]
      ensures inflightRequests == old(inflightRequests) - if IsOutstanding(old(log), requestID) then 1 else 0
    {
      forall id ensures IsOutstanding(log + [Completed(requestID)], id) <==> id != requestID && IsOutstanding(log, id) {
        OutstandingAfter(log, Completed(requestID), id);
      }
      log := log + [Completed(requestID)];
      if requestID !in requestIDs {
        return;
      }
      requestIDs := requestIDs - {requestID};
      inflightRequests := inflightRequests - 1;
    }

    method Inflight() returns (n: int)
      requires Valid()
      ensures n == |requestIDs| && AreOutstanding(requestIDs, log)
    {
      n := inflightRequests;
    }
  }
}
