/** processBasedLimiter: admission by a check of an atomic counter that is only incremented
    later, so that requests between their load and their add have all seen the same count.
    The protocol is modelled as interleaved steps of any number of requests. */
module RateLimiter {
  import opened Arithmetic
  import opened Threads

  const U32 := 0x1_0000_0000
  const U64 := 0x1_0000_0000_0000_0000
  const I64 := 0x8000_0000_0000_0000

  type uint32 = n: int | 0 <= n < U32
  type uint64 = n: int | 0 <= n < U64
  type int64 = n: int | -I64 <= n < I64

  datatype Config = Config(
    minLimit: uint32,
    maxLimit: uint32,
    maxAvailable: uint64,
    minMemoryPerBrowser: uint64,
    headroom: uint64
  )

  /** DividesByZero is the run-time panic of the slot computation. */
  datatype Decision = Fits(why: Reason) | Refused(why: Reason) | DividesByZero

  /** The reasons that the decision is logged and counted with. */
  datatype Reason =
    | BelowMinimum
    | MaximumReached
    | NoMemorySlot
    | HeadroomMissing
    | BrowserMemoryMissing
    | MemorySuffices

  function Uint64Of(n: int64): uint64 {
    if n < 0 then n + U64 else n
  }

  /** Total memory after the configured cap. */
  function CappedMemory(c: Config, totalMemory: uint64): uint64 {
    if c.maxAvailable > 0 && totalMemory > c.maxAvailable then c.maxAvailable else totalMemory
  }

  /** canFitRequest, for the counter it loaded and the memory it then probed. */
  function CanFit(c: Config, running: uint32, totalMemory: uint64, freeMemory: uint64, peakMemory: int64): Decision {
    if running < c.minLimit then Fits(BelowMinimum)
    else if c.maxLimit > 0 && running >= c.maxLimit then Refused(MaximumReached)
    else
      var total := CappedMemory(c, totalMemory);
      if total != 0 && c.minMemoryPerBrowser == 0 then DividesByZero
      else if total != 0 && SlotsTakenTruncated(total / c.minMemoryPerBrowser, running) then
        Refused(NoMemorySlot)
      else if freeMemory != 0 && freeMemory < c.headroom then
        Refused(HeadroomMissing)
      else if freeMemory != 0 && freeMemory - c.headroom < Max(c.minMemoryPerBrowser, Uint64Of(peakMemory)) then
        Refused(BrowserMemoryMissing)
      else Fits(MemorySuffices)
  }

  // ---------- The limit that the branches amount to ----------

  /** The slots that total memory offers; U32 when it is unknown, which no counter reaches. */
  function Slots(c: Config, totalMemory: uint64): int {
    var total := CappedMemory(c, totalMemory);
    if total == 0 then U32
    else if c.minMemoryPerBrowser == 0 then 0
    else total / c.minMemoryPerBrowser % U32
  }

  function Limit(c: Config, totalMemory: uint64): (limit: nat)
    ensures limit <= U32
  {
    Max(c.minLimit, Min(if c.maxLimit > 0 then c.maxLimit else U32, Slots(c, totalMemory)))
  }

  ghost predicate MayFit(c: Config, running: uint32, totalMemory: uint64) {
    exists free: uint64, peak: int64 :: CanFit(c, running, totalMemory, free, peak).Fits?
  }

  /** A request can be admitted, under some free memory, exactly below the limit. */
  lemma AdmittedExactlyBelowLimit(c: Config, running: uint32, totalMemory: uint64)
    ensures MayFit(c, running, totalMemory) <==> running < Limit(c, totalMemory)
    ensures running < Limit(c, totalMemory) ==> CanFit(c, running, totalMemory, 0, 0).Fits?
  {
    var free: uint64, peak: int64 := 0, 0;
    if running < Limit(c, totalMemory) {
      assert CanFit(c, running, totalMemory, free, peak).Fits?;
    }
  }

  lemma BelowLimitHasSlot(c: Config, running: uint32, totalMemory: uint64)
    requires c.minLimit <= running < Limit(c, totalMemory)
    ensures (c.maxLimit > 0 ==> running < c.maxLimit) && running < Slots(c, totalMemory)
  {
  }

  /** Beyond the guaranteed minimum, with total memory known, every admitted request leaves each
      of the browsers its minimum, out of all memory and out of the configured cap. */
  lemma AdmittedWithinMemory(c: Config, running: uint32, total: uint64, free: uint64, peak: int64)
    requires CanFit(c, running, total, free, peak).Fits? && running >= c.minLimit && total != 0
    ensures (running + 1) * c.minMemoryPerBrowser <= total
    ensures c.maxAvailable > 0 ==> (running + 1) * c.minMemoryPerBrowser <= c.maxAvailable
    ensures c.maxLimit > 0 ==> running < c.maxLimit
  {
    FitsBelowSlots(c, running, total, free, peak);
    var capped := if c.maxAvailable > 0 && c.maxAvailable < total then c.maxAvailable else total;
    QuotientCovers(capped, c.minMemoryPerBrowser, running);
    SlotsAtMost(c, total, capped / c.minMemoryPerBrowser);
  }

  lemma FitsBelowSlots(c: Config, running: uint32, total: uint64, free: uint64, peak: int64)
    requires CanFit(c, running, total, free, peak).Fits? && running >= c.minLimit && total != 0
    ensures c.minMemoryPerBrowser > 0 && running < Slots(c, total) && (c.maxLimit > 0 ==> running < c.maxLimit)
  {
    AdmittedExactlyBelowLimit(c, running, total);
    BelowLimitHasSlot(c, running, total);
  }

  lemma SlotsAtMost(c: Config, total: uint64, slots: int)
    requires total != 0 && slots >= 0 && c.minMemoryPerBrowser > 0
    requires slots == (if c.maxAvailable > 0 && c.maxAvailable < total then c.maxAvailable else total) / c.minMemoryPerBrowser
    ensures Slots(c, total) == slots % U32 <= slots
  {
  }

  /** A quotient is above n exactly when one more than n times the divisor is covered. */
  lemma QuotientCovers(a: nat, d: nat, n: nat)
    requires d > 0
    ensures 0 <= a / d && (n < a / d <==> (n + 1) * d <= a)
  {
    var q := a / d;
    assert a == q * d + a % d;
    if n < q {
      ScaleUp(n + 1, q, d);
    } else {
      ScaleUp(q + 1, n + 1, d);
    }
  }

  /** Another browser has room in all memory and in the configured cap, and the slots fit in 32 bits. */
  predicate HasRoom(c: Config, running: uint32, total: uint64) {
    && c.minMemoryPerBrowser > 0 && (running + 1) * c.minMemoryPerBrowser <= total
    && (c.maxAvailable > 0 ==> (running + 1) * c.minMemoryPerBrowser <= c.maxAvailable)
    && (total < U32 * c.minMemoryPerBrowser || 0 < c.maxAvailable < U32 * c.minMemoryPerBrowser)
  }

  /** And whoever those bounds leave room finds a slot, and is admitted if free memory is unknown. */
  lemma RoomIsAdmitted(c: Config, running: uint32, total: uint64, free: uint64, peak: int64)
    requires total != 0 ==> HasRoom(c, running, total)
    ensures !CanFit(c, running, total, free, peak).DividesByZero?
    ensures CanFit(c, running, total, free, peak) != Refused(NoMemorySlot)
    ensures c.maxLimit == 0 || running < c.maxLimit ==> CanFit(c, running, total, 0, peak).Fits?
  {
    if total != 0 {
      var capped := if c.maxAvailable > 0 && c.maxAvailable < total then c.maxAvailable else total;
      QuotientCovers(capped, c.minMemoryPerBrowser, running);
      QuotientCovers(capped, c.minMemoryPerBrowser, U32 - 1);
      SlotsSuffice(c, running, total, free, peak, capped / c.minMemoryPerBrowser);
      SlotsSuffice(c, running, total, 0, peak, capped / c.minMemoryPerBrowser);
    }
  }

  lemma SlotsSuffice(c: Config, running: uint32, total: uint64, free: uint64, peak: int64, slots: int)
    requires total != 0 && c.minMemoryPerBrowser > 0 && running < slots < U32
    requires slots == (if c.maxAvailable > 0 && c.maxAvailable < total then c.maxAvailable else total) / c.minMemoryPerBrowser
    ensures !CanFit(c, running, total, free, peak).DividesByZero?
    ensures CanFit(c, running, total, free, peak) != Refused(NoMemorySlot)
    ensures free == 0 && (c.maxLimit == 0 || running < c.maxLimit) ==> CanFit(c, running, total, free, peak).Fits?
  {
  }

  /** A refusal names a reason that is so. */
  lemma RefusedForAReason(c: Config, running: uint32, total: uint64, free: uint64, peak: int64)
    ensures var d := CanFit(c, running, total, free, peak);
            && (d == Fits(BelowMinimum) <==> running < c.minLimit)
            && (d == Refused(MaximumReached) <==> running >= c.minLimit && 0 < c.maxLimit <= running)
            && (d == Refused(NoMemorySlot) ==> total != 0 && !HasRoom(c, running, total))
            && (d == Refused(HeadroomMissing) ==> 0 < free < c.headroom)
            && (d == Refused(BrowserMemoryMissing) && peak >= 0 ==>
                  c.headroom <= free && (free < c.headroom + c.minMemoryPerBrowser || free < c.headroom + peak))
            && (d.Refused? ==> d.why !in {BelowMinimum, MemorySuffices})
            && (d.Fits? ==> d.why in {BelowMinimum, MemorySuffices})
  {
    if total != 0 && HasRoom(c, running, total) {
      RoomIsAdmitted(c, running, total, free, peak);
    }
  }

  /** The guaranteed minimum is admitted whatever memory there is. */
  lemma MinimumIsAdmitted(c: Config, running: uint32, total: uint64, free: uint64, peak: int64)
    requires running < c.minLimit
    ensures CanFit(c, running, total, free, peak).Fits?
  {
  }

  /** Above the guaranteed minimum, a request that fits while free memory is unknown fits exactly
      when free memory is unknown or covers the headroom and one more browser, which takes the
      configured minimum or the tracked peak, whichever is larger. */
  lemma FreeMemoryDecides(c: Config, running: uint32, total: uint64, free: uint64, peak: int64)
    requires CanFit(c, running, total, 0, peak).Fits? && running >= c.minLimit && peak >= 0
    ensures CanFit(c, running, total, free, peak).Fits? <==>
              free == 0 || (free >= c.headroom + c.minMemoryPerBrowser && free >= c.headroom + peak)
  {
  }

  /** A negative peak is taken for the huge unsigned number of the same bits. */
  lemma NegativePeakIsHuge(c: Config, running: uint32, total: uint64, free: uint64, peak: int64)
    requires running >= c.minLimit && peak < 0 && 0 < free && free + I64 < U64 + c.headroom
    ensures !CanFit(c, running, total, free, peak).Fits?
  {
  }

  /** A configured minimum memory of zero is documented as disabling the minimum. The code
      instead divides by it: it panics exactly when the counter passes both limits and total
      memory is known. */
  lemma PanicsExactlyWithoutMinimumMemory(c: Config, running: uint32, total: uint64, free: uint64, peak: int64)
    ensures CanFit(c, running, total, free, peak).DividesByZero? <==>
              && c.minMemoryPerBrowser == 0 && total != 0
              && running >= c.minLimit && (c.maxLimit == 0 || running < c.maxLimit)
  {
  }

  /** The slot test as coded, on the slot count truncated to 32 bits, and as documented. */
  predicate SlotsTakenTruncated(slots: uint64, running: uint32) { running >= slots % U32 }

  predicate SlotsTaken(slots: uint64, running: uint32) { running >= slots }

  /** The coded test agrees with the documented one, on every counter, exactly when the slot
      count fits in 32 bits. */
  lemma SlotTestExactUnlessTruncated(slots: uint64)
    ensures (forall running: uint32 :: SlotsTakenTruncated(slots, running) <==> SlotsTaken(slots, running))
            <==> slots < U32
  {
    if slots >= U32 {
      var top: uint32 := U32 - 1;
      assert SlotsTakenTruncated(slots, top) && !SlotsTaken(slots, top);
    }
  }

  /** A machine for which the truncation matters: 2^32 slots count as none. */
  lemma TruncationRefusesAll()
    ensures var c := Config(0, 0, 0, 1, 0);
            Slots(c, U32) == 0 && !MayFit(c, 0, U32) && U32 / c.minMemoryPerBrowser > 0
  {
    AdmittedExactlyBelowLimit(Config(0, 0, 0, 1, 0), 0, U32);
  }

  // ---------- The protocol ----------

  /** Where a request stands. It is in the check-then-act window from its load to its add. */
  datatype Point = Arrived | Loaded(running: uint32) | Accepted(seen: uint32) | Serving | Gone

  predicate InWindow(p: Point) { p.Loaded? || p.Accepted? }

  predicate IsServing(p: Point) { p.Serving? }

  datatype State = State(running: uint32, points: map<ThreadId, Point>)

  const INIT := State(0, map[])

  datatype Action =
    | Arrive(t: ThreadId)
    | Load(t: ThreadId)
    | Decide(t: ThreadId, freeMemory: uint64, peakMemory: int64)
    | Add(t: ThreadId)
    | Finish(t: ThreadId)

  predicate Enabled(s: State, a: Action) {
    match a
    case Arrive(t) => t !in s.points
    case Load(t) => t in s.points && s.points[t].Arrived?
    case Decide(t, _, _) => t in s.points && s.points[t].Loaded?
    case Add(t) => t in s.points && s.points[t].Accepted?
    case Finish(t) => t in s.points && s.points[t].Serving?
  }

  /** atomic.Uint32.Add */
  function AddUint32(a: uint32, b: uint32): uint32 {
    (a + b) % U32
  }

  function Step(c: Config, totalMemory: uint64, s: State, a: Action): State
    requires Enabled(s, a)
  {
    match a
    case Arrive(t) => s.(points := s.points[t := Arrived])
    case Load(t) => s.(points := s.points[t := Loaded(s.running)])
    case Decide(t, free, peak) =>
      var v := s.points[t].running;
      var fits := CanFit(c, v, totalMemory, free, peak).Fits?;
      s.(points := s.points[t := if fits then Accepted(v) else Gone])
    case Add(t) => State(AddUint32(s.running, 1), s.points[t := Serving])
    case Finish(t) => State(AddUint32(s.running, U32 - 1), s.points[t := Gone])
  }

  /** The state after a schedule. The scheduler passes over choices that are not enabled. */
  ghost function After(c: Config, totalMemory: uint64, schedule: seq<Action>): State {
    if schedule == [] then INIT
    else
      var s, a := After(c, totalMemory, schedule[..|schedule| - 1]), schedule[|schedule| - 1];
      if Enabled(s, a) then Step(c, totalMemory, s, a) else s
  }

  ghost function ServingCount(s: State): nat { CountAt(s.points, IsServing) }

  ghost function WindowCount(s: State): nat { CountAt(s.points, InWindow) }

  /** How many steps a request has still to take, at most. */
  function StepsLeft(p: Point): nat {
    match p
    case Arrived => 4
    case Loaded(_) => 3
    case Accepted(_) => 2
    case Serving => 1
    case Gone => 0
  }

  /** Every step takes its request forward and leaves the others where they are: a request loads
      once, and whoever is refused or has been served is gone for good. */
  lemma RequestsMoveForward(c: Config, totalMemory: uint64, s: State, a: Action, u: ThreadId)
    requires Enabled(s, a) && !a.Arrive?
    ensures var s' := Step(c, totalMemory, s, a);
            && a.t in s'.points && StepsLeft(s'.points[a.t]) < StepsLeft(s.points[a.t])
            && (u != a.t ==> (u in s'.points <==> u in s.points) && (u in s.points ==> s'.points[u] == s.points[u]))
  {
  }

  /** A decision serves the request exactly when what it loaded fits the memory it then found. */
  lemma DecisionIsFinal(c: Config, totalMemory: uint64, s: State, t: ThreadId, free: uint64, peak: int64)
    requires Enabled(s, Decide(t, free, peak))
    ensures var s' := Step(c, totalMemory, s, Decide(t, free, peak));
            var fits := CanFit(c, s.points[t].running, totalMemory, free, peak).Fits?;
            && (fits ==> Enabled(s', Add(t)))
            && (!fits ==> s'.points[t].Gone? && forall a | Enabled(s', a) :: a.t != t)
  {
  }

  // ---------- The counter counts ----------

  /** The number of requests being served that a step adds. */
  function ServingAdded(a: Action): int {
    if a.Add? then 1 else if a.Finish? then -1 else 0
  }

  lemma StepMovesOneRequest(c: Config, totalMemory: uint64, s: State, a: Action, s': State)
    requires Enabled(s, a) && s' == Step(c, totalMemory, s, a)
    ensures a.t in s'.points && s'.points == s.points[a.t := s'.points[a.t]]
    ensures s'.running == (s.running + ServingAdded(a)) % U32
    ensures ServingCount(s') == ServingCount(s) + ServingAdded(a)
  {
    CountMove(s.points, IsServing, a.t, s'.points[a.t]);
  }

  lemma StepKeepsCounter(c: Config, totalMemory: uint64, s: State, a: Action, s': State)
    requires Enabled(s, a) && s' == Step(c, totalMemory, s, a) && s.running == ServingCount(s) % U32
    ensures s'.running == ServingCount(s') % U32
  {
    StepMovesOneRequest(c, totalMemory, s, a, s');
  }

  /** In every interleaving the counter is the number of requests between their add and their
      deferred decrement, as far as 32 bits can hold it. */
  lemma {:induction false} CounterIsServing(c: Config, totalMemory: uint64, schedule: seq<Action>)
    ensures var s := After(c, totalMemory, schedule); s.running == ServingCount(s) % U32
  {
    if schedule == [] {
      assert At(INIT.points, IsServing) == {};
    } else {
      var init, a := schedule[..|schedule| - 1], schedule[|schedule| - 1];
      CounterIsServing(c, totalMemory, init);
      if Enabled(After(c, totalMemory, init), a) {
        var s := After(c, totalMemory, init);
        StepKeepsCounter(c, totalMemory, s, a, Step(c, totalMemory, s, a));
      }
    }
  }

  /** Adding 2^32 - 1 never wraps below zero: with fewer than 2^32 requests being served it is a
      plain decrement, and the counter is zero when nobody is being served. */
  lemma DecrementNeverWraps(c: Config, totalMemory: uint64, schedule: seq<Action>, t: ThreadId)
    requires ServingCount(After(c, totalMemory, schedule)) < U32
    requires Enabled(After(c, totalMemory, schedule), Finish(t))
    ensures var s := After(c, totalMemory, schedule);
            && 1 <= s.running == ServingCount(s)
            && Step(c, totalMemory, s, Finish(t)).running == s.running - 1
  {
    var s := After(c, totalMemory, schedule);
    CounterIsServing(c, totalMemory, schedule);
    SubsetSize({t}, At(s.points, IsServing));
  }

  // ---------- The admission bound ----------

  /** In the window with a loaded counter below the limit: the only requests that can still be
      admitted. */
  predicate Entitled(limit: nat, p: Point) {
    (p.Loaded? && p.running < limit) || (p.Accepted? && p.seen < limit)
  }

  function EntitledUnder(limit: nat): Point -> bool {
    p => Entitled(limit, p)
  }

  /** Every accepted request loaded a counter below the limit. */
  ghost predicate AcceptedBelow(s: State, limit: nat) {
    forall t | t in s.points && s.points[t].Accepted? :: s.points[t].seen < limit
  }

  /** At most k requests are in the window in every state of the run. */
  ghost predicate WindowAtMost(c: Config, totalMemory: uint64, schedule: seq<Action>, k: nat) {
    forall i | 0 <= i <= |schedule| :: WindowCount(After(c, totalMemory, schedule[..i])) <= k
  }

  /** The potential of the proof: requests served and requests that may still be served. */
  ghost predicate Bounded(s: State, limit: nat, k: nat) {
    && AcceptedBelow(s, limit)
    && ServingCount(s) + CountAt(s.points, EntitledUnder(limit)) <= limit + k - 1
  }

  lemma LoadKeepsBound(c: Config, totalMemory: uint64, s: State, t: ThreadId, k: nat)
    requires Enabled(s, Load(t)) && Bounded(s, Limit(c, totalMemory), k)
    requires s.running == ServingCount(s) && k >= 1
    requires WindowCount(Step(c, totalMemory, s, Load(t))) <= k
    ensures Bounded(Step(c, totalMemory, s, Load(t)), Limit(c, totalMemory), k)
  {
    var limit := Limit(c, totalMemory);
    var s' := Step(c, totalMemory, s, Load(t));
    CountMove(s.points, IsServing, t, s'.points[t]);
    CountMove(s.points, EntitledUnder(limit), t, s'.points[t]);
    CountMonotone(s'.points, EntitledUnder(limit), InWindow);
  }

  lemma OtherStepKeepsBound(c: Config, totalMemory: uint64, s: State, a: Action, k: nat)
    requires Enabled(s, a) && !a.Load? && Bounded(s, Limit(c, totalMemory), k)
    ensures Bounded(Step(c, totalMemory, s, a), Limit(c, totalMemory), k)
  {
    var limit := Limit(c, totalMemory);
    var s' := Step(c, totalMemory, s, a);
    if a.Decide? {
      AdmittedExactlyBelowLimit(c, s.points[a.t].running, totalMemory);
    }
    CountMove(s.points, IsServing, a.t, s'.points[a.t]);
    CountMove(s.points, EntitledUnder(limit), a.t, s'.points[a.t]);
  }

  lemma StepKeepsBound(c: Config, totalMemory: uint64, s: State, a: Action, k: nat, s': State)
    requires Enabled(s, a) && s' == Step(c, totalMemory, s, a) && Bounded(s, Limit(c, totalMemory), k)
    requires s.running == ServingCount(s) && k >= 1 && WindowCount(s') <= k
    ensures Bounded(s', Limit(c, totalMemory), k)
  {
    if a.Load? {
      LoadKeepsBound(c, totalMemory, s, a.t, k);
    } else {
      OtherStepKeepsBound(c, totalMemory, s, a, k);
    }
  }

  lemma BoundedCounts(s: State, limit: nat, k: nat)
    requires Bounded(s, limit, k) && limit + k - 1 < U32 && s.running == ServingCount(s) % U32
    ensures s.running == ServingCount(s) <= limit + k - 1
  {
  }

  lemma {:induction false} ReachableBounded(c: Config, totalMemory: uint64, schedule: seq<Action>, k: nat)
    requires k >= 1 && WindowAtMost(c, totalMemory, schedule, k)
    requires Limit(c, totalMemory) + k - 1 < U32
    ensures Bounded(After(c, totalMemory, schedule), Limit(c, totalMemory), k)
  {
    var limit := Limit(c, totalMemory);
    if schedule == [] {
      assert At(INIT.points, IsServing) == {} && At(INIT.points, EntitledUnder(limit)) == {};
    } else {
      var init, a := schedule[..|schedule| - 1], schedule[|schedule| - 1];
      var s := After(c, totalMemory, init);
      assert forall i | 0 <= i <= |init| :: init[..i] == schedule[..i];
      ReachableBounded(c, totalMemory, init, k);
      CounterIsServing(c, totalMemory, init);
      if Enabled(s, a) {
        BoundedCounts(s, limit, k);
        assert schedule[..|schedule|] == schedule;
        StepKeepsBound(c, totalMemory, s, a, k, Step(c, totalMemory, s, a));
      }
    }
  }

  /** The admission bound. If at most k requests are between load and add at once, no
      interleaving ever serves more than limit + k - 1 requests, and the counter is exact. */
  lemma AdmissionBound(c: Config, totalMemory: uint64, schedule: seq<Action>, k: nat)
    requires k >= 1 && WindowAtMost(c, totalMemory, schedule, k)
    requires Limit(c, totalMemory) + k - 1 < U32
    ensures var s := After(c, totalMemory, schedule);
            s.running == ServingCount(s) <= Limit(c, totalMemory) + k - 1
  {
    ReachableBounded(c, totalMemory, schedule, k);
    CounterIsServing(c, totalMemory, schedule);
    BoundedCounts(After(c, totalMemory, schedule), Limit(c, totalMemory), k);
  }
}
