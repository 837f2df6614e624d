/** The admission bound of RateLimiter is attained: a schedule for every limit and every width
    of the check-then-act window. */
module RateLimiterBound {
  import opened Threads
  import opened RateLimiter

  /** Requests 0..a are being served, a..b have loaded the counter v, and nobody else came. */
  ghost function Shape(a: nat, b: nat, v: uint32): State
    requires a <= b && a < U32
  {
    State(a, map t: nat | t < b :: PointOf(a, v, t))
  }

  ghost function PointOf(a: nat, v: uint32, t: nat): Point {
    if t < a then Serving else Loaded(v)
  }

  lemma NobodyWaiting(n: nat, v: uint32, w: uint32)
    requires n < U32
    ensures Shape(n, n, v) == Shape(n, n, w)
  {
    assert forall t: nat | t < n :: PointOf(n, v, t) == PointOf(n, w, t);
  }

  lemma RangeSize(s: set<ThreadId>, a: nat, b: nat)
    requires a <= b && forall t: nat :: t in s <==> a <= t < b
    ensures |s| == b - a
    decreases b - a
  {
    if a < b {
      RangeSize(s - {a}, a + 1, b);
    } else {
      assert s == {};
    }
  }

  /** A schedule that keeps the window at k and leaves the given state. */
  ghost predicate Leads(c: Config, m: uint64, schedule: seq<Action>, k: nat, s: State) {
    WindowAtMost(c, m, schedule, k) && After(c, m, schedule) == s
  }

  lemma Extend(c: Config, m: uint64, schedule: seq<Action>, k: nat, s: State, a: Action)
    requires Leads(c, m, schedule, k, s) && Enabled(s, a)
    requires WindowCount(Step(c, m, s, a)) <= k
    ensures Leads(c, m, schedule + [a], k, Step(c, m, s, a))
  {
    var longer := schedule + [a];
    assert longer[..|schedule|] == schedule;
    forall i | 0 <= i <= |longer| ensures WindowCount(After(c, m, longer[..i])) <= k {
      if i <= |schedule| {
        assert longer[..i] == schedule[..i];
      } else {
        assert longer[..i] == longer;
      }
    }
  }

  lemma ShapeCounts(a: nat, b: nat, v: uint32)
    requires a <= b && a < U32
    ensures WindowCount(Shape(a, b, v)) == b - a && ServingCount(Shape(a, b, v)) == a
  {
    RangeSize(At(Shape(a, b, v).points, InWindow), a, b);
    RangeSize(At(Shape(a, b, v).points, IsServing), 0, a);
  }

  /** A new request arrives; it is not in the window yet. */
  lemma ArriveOne(c: Config, m: uint64, schedule: seq<Action>, k: nat, s: State, t: ThreadId)
    requires Leads(c, m, schedule, k, s) && t !in s.points && WindowCount(s) <= k
    ensures Leads(c, m, schedule + [Arrive(t)], k, s.(points := s.points[t := Arrived]))
  {
    CountMove(s.points, InWindow, t, Arrived);
    Extend(c, m, schedule, k, s, Arrive(t));
  }

  /** It loads the counter, and so enters the window. */
  lemma LoadArrived(c: Config, m: uint64, schedule: seq<Action>, k: nat, s: State, t: ThreadId)
    requires Leads(c, m, schedule, k, s) && t in s.points && s.points[t] == Arrived && WindowCount(s) < k
    ensures Leads(c, m, schedule + [Load(t)], k, s.(points := s.points[t := Loaded(s.running)]))
  {
    CountMove(s.points, InWindow, t, Loaded(s.running));
    Extend(c, m, schedule, k, s, Load(t));
  }

  /** It is accepted, since it loaded a counter below the limit. */
  lemma DecideLoaded(c: Config, m: uint64, schedule: seq<Action>, k: nat, s: State, t: ThreadId, v: uint32)
    requires Leads(c, m, schedule, k, s) && t in s.points && s.points[t] == Loaded(v) && v < Limit(c, m)
    requires WindowCount(s) <= k
    ensures Leads(c, m, schedule + [Decide(t, 0, 0)], k, s.(points := s.points[t := Accepted(v)]))
  {
    AdmittedExactlyBelowLimit(c, v, m);
    CountMove(s.points, InWindow, t, Accepted(v));
    Extend(c, m, schedule, k, s, Decide(t, 0, 0));
  }

  /** It adds to the counter, and is out of the window. */
  lemma AddAccepted(c: Config, m: uint64, schedule: seq<Action>, k: nat, s: State, t: ThreadId)
    requires Leads(c, m, schedule, k, s) && t in s.points && s.points[t].Accepted? && s.running + 1 < U32
    requires WindowCount(s) <= k
    ensures Leads(c, m, schedule + [Add(t)], k, State(s.running + 1, s.points[t := Serving]))
  {
    CountMove(s.points, InWindow, t, Serving);
    Extend(c, m, schedule, k, s, Add(t));
  }

  lemma ShapeGrows(a: nat, b: nat, v: uint32)
    requires a <= b && a < U32 && (a == b || v == a)
    ensures Shape(a, b, v).points[b := Arrived][b := Loaded(a)] == Shape(a, b + 1, a).points
  {
  }

  lemma ShapeServes(a: nat, b: nat, v: uint32)
    requires a < b && a + 1 < U32
    ensures Shape(a, b, v).points[a := Accepted(v)][a := Serving] == Shape(a + 1, b, v).points
  {
  }

  /** One more request arrives and loads the counter. */
  lemma LoadOne(c: Config, m: uint64, schedule: seq<Action>, k: nat, a: nat, b: nat, v: uint32)
    requires a <= b && a < U32 && (a == b || v == a) && b - a < k
    requires Leads(c, m, schedule, k, Shape(a, b, v))
    ensures Leads(c, m, schedule + [Arrive(b)] + [Load(b)], k, Shape(a, b + 1, a))
  {
    var s := Shape(a, b, v);
    ShapeCounts(a, b, v);
    ArriveOne(c, m, schedule, k, s, b);
    CountMove(s.points, InWindow, b, Arrived);
    LoadArrived(c, m, schedule + [Arrive(b)], k, s.(points := s.points[b := Arrived]), b);
    ShapeGrows(a, b, v);
  }

  /** The first waiting request is admitted. */
  lemma AdmitOne(c: Config, m: uint64, schedule: seq<Action>, k: nat, a: nat, b: nat, v: uint32)
    requires a < b && b - a <= k && a + 1 < U32 && v < Limit(c, m)
    requires Leads(c, m, schedule, k, Shape(a, b, v))
    ensures Leads(c, m, schedule + [Decide(a, 0, 0)] + [Add(a)], k, Shape(a + 1, b, v))
  {
    var s := Shape(a, b, v);
    ShapeCounts(a, b, v);
    DecideLoaded(c, m, schedule, k, s, a, v);
    CountMove(s.points, InWindow, a, Accepted(v));
    AddAccepted(c, m, schedule + [Decide(a, 0, 0)], k, s.(points := s.points[a := Accepted(v)]), a);
    ShapeServes(a, b, v);
  }

  /** A request that loads and is admitted with nobody else in the window. */
  lemma ServeOne(c: Config, m: uint64, before: seq<Action>, k: nat, a: nat) returns (schedule: seq<Action>)
    requires k >= 1 && a < Limit(c, m) && a + 1 < U32
    requires Leads(c, m, before, k, Shape(a, a, 0))
    ensures Leads(c, m, schedule, k, Shape(a + 1, a + 1, 0))
  {
    LoadOne(c, m, before, k, a, a, 0);
    var loaded := before + [Arrive(a)] + [Load(a)];
    AdmitOne(c, m, loaded, k, a, a + 1, a);
    schedule := loaded + [Decide(a, 0, 0)] + [Add(a)];
    NobodyWaiting(a + 1, 0, a);
  }

  /** Requests that come one after the other fill the service up to n <= limit. */
  lemma {:induction false} Fill(c: Config, m: uint64, k: nat, n: nat) returns (schedule: seq<Action>)
    requires k >= 1 && n <= Limit(c, m) && n < U32
    ensures Leads(c, m, schedule, k, Shape(n, n, 0))
  {
    if n == 0 {
      schedule := [];
      assert At(INIT.points, InWindow) == {};
      assert INIT == Shape(0, 0, 0);
    } else {
      var before := Fill(c, m, k, n - 1);
      schedule := ServeOne(c, m, before, k, n - 1);
    }
  }

  /** Then j more requests load the same counter before any of them adds. */
  lemma {:induction false} Crowd(c: Config, m: uint64, k: nat, n: nat, j: nat) returns (schedule: seq<Action>)
    requires k >= 1 && n <= Limit(c, m) && n < U32 && j <= k
    ensures Leads(c, m, schedule, k, Shape(n, n + j, n))
  {
    if j == 0 {
      schedule := Fill(c, m, k, n);
      NobodyWaiting(n, 0, n);
    } else {
      var before := Crowd(c, m, k, n, j - 1);
      var b: nat := n + j - 1;
      LoadOne(c, m, before, k, n, b, n);
      schedule := before + [Arrive(b)] + [Load(b)];
    }
  }

  /** And j of them are admitted on that one reading. */
  lemma {:induction false} Rush(c: Config, m: uint64, k: nat, n: nat, j: nat) returns (schedule: seq<Action>)
    requires k >= 1 && n < Limit(c, m) && j <= k && n + j < U32
    ensures Leads(c, m, schedule, k, Shape(n + j, n + k, n))
  {
    if j == 0 {
      schedule := Crowd(c, m, k, n, k);
    } else {
      var before := Rush(c, m, k, n, j - 1);
      var a: nat := n + j - 1;
      AdmitOne(c, m, before, k, a, n + k, n);
      schedule := before + [Decide(a, 0, 0)] + [Add(a)];
    }
  }

  /** The bound of AdmissionBound cannot be lowered: for every limit of at least one and every
      window width, some run serves limit + k - 1 requests at once. */
  lemma AdmissionBoundAttained(c: Config, m: uint64, k: nat) returns (schedule: seq<Action>)
    requires k >= 1 && Limit(c, m) >= 1 && Limit(c, m) + k - 1 < U32
    ensures WindowAtMost(c, m, schedule, k)
    ensures After(c, m, schedule).running == ServingCount(After(c, m, schedule)) == Limit(c, m) + k - 1
  {
    var n := Limit(c, m) - 1;
    schedule := Rush(c, m, k, n, k);
    ShapeCounts(n + k, n + k, n);
  }
}
