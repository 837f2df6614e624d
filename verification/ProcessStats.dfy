/** ProcessStatService: the slow-moving average and the maximum of the peak memory of browser
    processes, in 64-bit integers with truncated division. */
module ProcessStats {
  import opened Arithmetic

  const U64 := 0x1_0000_0000_0000_0000
  const MAX_INT64 := 0x7FFF_FFFF_FFFF_FFFF

  type int64 = n: int | -0x8000_0000_0000_0000 <= n <= 0x7FFF_FFFF_FFFF_FFFF

  type uint64 = n: int | 0 <= n < 0x1_0000_0000_0000_0000

  /** The int64 that a result wraps around to. */
  function Wrap(n: int): int64 {
    (n + MAX_INT64 + 1) % U64 - MAX_INT64 - 1
  }

  lemma WrapIs(n: int)
    ensures (Wrap(n) - n) % U64 == 0
  {
  }

  /** Go's integer division truncates toward zero. */
  function Quotient(a: int, b: int): int
    requires b > 0
  {
    if a < 0 then -(-a / b) else a / b
  }

  /** What is left over has the sign of the dividend. */
  lemma QuotientTruncates(a: int, b: int) returns (rest: int)
    requires b > 0
    ensures 0 <= rest < b && a == Quotient(a, b) * b + if a < 0 then -rest else rest
  {
    var n := if a < 0 then -a else a;
    var q := n / b;
    rest := n % b;
    assert n == q * b + rest;
    if a < 0 {
      MultiplyDifference(0, q, b);
    }
  }

  /** The average after one more process, as computed. The decay n is validated to be at least 1. */
  function NextAverage(average: int64, sample: int64, n: int64): int
    requires n >= 1
  {
    if average == 0 then sample
    else Quotient(Wrap(Wrap(average * (n - 1)) + sample), n)
  }

  datatype Stats = Stats(maxMemory: int64, peakMemory: int64)

  /** The update made under the lock when a process with this peak has exited. */
  function Update(s: Stats, peak: int64, n: int64): Stats
    requires n >= 1
  {
    Stats(Max(s.maxMemory, peak), Wrap(NextAverage(s.peakMemory, peak, n)))
  }

  // ---------- One process ----------

  /** The largest of the samples and zero. */
  ghost predicate IsPeak(peak: int, samples: seq<int64>) {
    && (peak == 0 || peak in samples)
    && peak >= 0 && forall i | 0 <= i < |samples| :: samples[i] <= peak
  }

  /** The two branches of the locked update. */
  method MovedAverage(average: int64, peak: int64, n: int64) returns (r: int64)
    requires n >= 1
    ensures r == Wrap(NextAverage(average, peak, n))
  {
    if average == 0 {
      WrapSame(peak);
      return peak;
    }
    var numerator := Wrap(Wrap(average * (n - 1)) + peak);
    QuotientInRange(numerator, n);
    return Quotient(numerator, n);
  }

  lemma WrapSame(x: int64)
    ensures Wrap(x) == x
  {
  }

  class ProcessStatService {
    const trackerDecay: int64
    var maxMemory: int64
    var peakMemory: int64

    constructor (trackerDecay: int64)
      ensures this.trackerDecay == trackerDecay && maxMemory == 0 && peakMemory == 0
    {
      this.trackerDecay := trackerDecay;
      maxMemory, peakMemory := 0, 0;
    }

    /** One process, from the samples taken until it exits; the update at the end is made under
        the lock, in one step. */
    method TrackProcess(samples: seq<int64>) returns (peak: int64)
      requires trackerDecay >= 1
      modifies this
      ensures IsPeak(peak, samples)
      ensures Stats(maxMemory, peakMemory) == Update(old(Stats(maxMemory, peakMemory)), peak, trackerDecay)
    {
      peak := 0;
      for i := 0 to |samples|
        invariant IsPeak(peak, samples[..i])
      {
        assert samples[..i + 1] == samples[..i] + [samples[i]];
        peak := Max(peak, samples[i]);
      }
      assert samples[..|samples|] == samples;
      peakMemory := MovedAverage(peakMemory, peak, trackerDecay);
      maxMemory := Max(maxMemory, peak);
    }
  }

  lemma QuotientInRange(a: int64, n: int64)
    requires n >= 1
    ensures Wrap(Quotient(a, n)) == Quotient(a, n)
  {
    var magnitude: nat := if a < 0 then -(a as int) else a;
    DivideSmaller(magnitude, n);
  }

  lemma DivideSmaller(a: nat, n: int)
    requires n >= 1
    ensures 0 <= a / n <= a
  {
  }

  // ---------- The arithmetic of one update ----------

  /** Values for which the average cannot overflow. */
  predicate Fits(x: int, n: int64)
    requires n >= 1
  {
    0 <= x <= MAX_INT64 / n
  }

  lemma Bounded(x: int, n: int64)
    requires n >= 1
    ensures x <= MAX_INT64 / n <==> x * n <= MAX_INT64
  {
    if x <= MAX_INT64 / n {
      ScaleUp(x, MAX_INT64 / n, n);
    } else {
      ScaleUp(MAX_INT64 / n + 1, x, n);
    }
  }

  /** The bound on samples that rules out overflow is exact: every average and every sample up to
      b can be combined within 63 bits if and only if b is at most (2^63 - 1) / n. */
  lemma OverflowBoundIsExact(b: nat, n: int64)
    requires n >= 1
    ensures (forall p: nat, s: nat | p <= b && s <= b :: Numerator(p, s, n) <= MAX_INT64) <==> b <= MAX_INT64 / n
  {
    Bounded(b, n);
    if b * n <= MAX_INT64 {
      forall p: nat, s: nat | p <= b && s <= b ensures Numerator(p, s, n) <= MAX_INT64 {
        ScaleUp(p, b, n - 1);
      }
    } else {
      assert Numerator(b, b, n) == b * n;
    }
  }

  function Numerator(average: int, sample: int, n: int64): int {
    average * (n - 1) + sample
  }

  lemma DivideShifted(p: int, d: int, n: int)
    requires n > 0
    ensures (p * n + d) / n == p + d / n
  {
    var q, r := d / n, d % n;
    assert p * n + d == (p + q) * n + r;
    DivideUnique(p * n + d, p + q, r, n);
  }

  lemma DivideUnique(a: int, q: int, r: int, n: int)
    requires n > 0 && 0 <= r < n && a == q * n + r
    ensures a / n == q
  {
    var q' := a / n;
    if q' < q {
      ScaleUp(q' + 1, q, n);
    } else if q' > q {
      ScaleUp(q + 1, q', n);
    }
  }

  lemma NumeratorFits(average: int, sample: int, n: int64)
    requires n >= 1 && Fits(average, n) && Fits(sample, n)
    ensures 0 <= average * (n - 1) <= Numerator(average, sample, n) <= MAX_INT64
  {
    var most := Max(average, sample);
    Bounded(most, n);
    ScaleUp(0, average, n - 1);
    ScaleUp(average, most, n - 1);
    TakeOne(most, n);
  }

  lemma TakeOne(d: int, n: int)
    ensures d * (n - 1) == d * n - d
  {
  }

  lemma WrapInRange(x: int)
    requires 0 <= x <= MAX_INT64
    ensures Wrap(x) == x
  {
  }

  lemma NextAverageIsQuotient(average: int64, sample: int64, n: int64, part: int, whole: int)
    requires n >= 1 && average > 0 && part == average * (n - 1) && whole == part + sample
    requires 0 <= part <= MAX_INT64 && 0 <= whole <= MAX_INT64
    ensures NextAverage(average, sample, n) == whole / n
  {
    WrapInRange(part);
    WrapInRange(whole);
  }

  /** In range, one update moves the average by the floor of the n-th part of the gap. */
  lemma AverageMovesByFloor(average: int64, sample: int64, n: int64)
    requires n >= 1 && Fits(average, n) && Fits(sample, n) && average > 0
    ensures NextAverage(average, sample, n) == average + (sample - average) / n
  {
    NumeratorFits(average, sample, n);
    NextAverageIsQuotient(average, sample, n, average * (n - 1), Numerator(average, sample, n));
    TakeOne(average, n);
    DivideShifted(average, sample - average, n);
  }

  // ---------- Any sequence of processes ----------

  /** The statistics after processes with the given peaks have reported, in this order. */
  function After(peaks: seq<int64>, n: int64): Stats
    requires n >= 1
  {
    if peaks == [] then Stats(0, 0)
    else Update(After(peaks[..|peaks| - 1], n), peaks[|peaks| - 1], n)
  }

  lemma FloorBetween(d: int, n: int)
    requires n >= 1
    ensures d >= 0 ==> 0 <= d / n <= d
    ensures d <= 0 ==> d <= d / n <= 0
  {
    if d >= 0 {
      DivideSmaller(d, n);
    } else {
      var q := d / n;
      if q < d {
        ScaleUp(q + 1, d, n);
        assert d * n <= d by { ScaleUp(1, n, -d); }
      }
    }
  }

  lemma NextAverageBetween(average: int64, sample: int64, n: int64, lo: int, hi: int)
    requires n >= 1 && Fits(average, n) && Fits(sample, n)
    requires lo <= sample <= hi && (average != 0 ==> lo <= average <= hi)
    ensures lo <= NextAverage(average, sample, n) <= hi && Fits(NextAverage(average, sample, n), n)
    ensures Wrap(NextAverage(average, sample, n)) == NextAverage(average, sample, n)
  {
    DivideSmaller(MAX_INT64, n);
    if average != 0 {
      AverageMovesByFloor(average, sample, n);
      FloorBetween(sample - average, n);
      MoveStaysBetween(average, sample, (sample - average) / n, lo, hi);
      MoveStaysBetween(average, sample, (sample - average) / n, 0, MAX_INT64 / n);
    }
    WrapInRange(NextAverage(average, sample, n));
  }

  /** Moving towards a sample, and not past it, stays between any bounds of both. */
  lemma MoveStaysBetween(average: int, sample: int, move: int, lo: int, hi: int)
    requires lo <= average <= hi && lo <= sample <= hi
    requires sample >= average ==> 0 <= move <= sample - average
    requires sample <= average ==> sample - average <= move <= 0
    ensures lo <= average + move <= hi
  {
  }

  /** Whatever the order in which processes take the lock, if every peak fits then the average
      lies between any bounds that all peaks respect, and it never exceeds the maximum. */
  lemma {:induction false} AverageStaysInRange(peaks: seq<int64>, n: int64, lo: int, hi: int)
    requires n >= 1 && peaks != [] && forall i | 0 <= i < |peaks| :: Fits(peaks[i], n) && lo <= peaks[i] <= hi
    ensures var s := After(peaks, n);
            lo <= s.peakMemory <= hi && 0 <= s.peakMemory <= s.maxMemory && Fits(s.peakMemory, n)
  {
    var before, peak := peaks[..|peaks| - 1], peaks[|peaks| - 1];
    var s := After(before, n);
    if before == [] {
      DivideSmaller(MAX_INT64, n);
      assert Wrap(peak) == peak;
    } else {
      AverageStaysInRange(before, n, lo, hi);
      NextAverageBetween(s.peakMemory, peak, n, lo, hi);
      NextAverageBetween(s.peakMemory, peak, n, 0, Max(s.maxMemory, peak));
    }
  }

  /** Under the same condition no update of the run overflows: neither the product nor the sum
      that it forms leaves 63 bits. */
  lemma NothingOverflows(peaks: seq<int64>, n: int64, i: nat)
    requires n >= 1 && i < |peaks| && forall k | 0 <= k < |peaks| :: Fits(peaks[k], n)
    ensures var average := After(peaks[..i], n).peakMemory;
            0 <= average * (n - 1) <= Numerator(average, peaks[i], n) <= MAX_INT64
  {
    if i > 0 {
      AverageStaysInRange(peaks[..i], n, 0, MAX_INT64 / n);
    }
    NumeratorFits(After(peaks[..i], n).peakMemory, peaks[i], n);
  }

  /** The maximum is the largest peak reported, so the order of the reports makes no difference. */
  lemma {:induction false} MaximumIsLargest(peaks: seq<int64>, n: int64)
    requires n >= 1 && forall i | 0 <= i < |peaks| :: peaks[i] >= 0
    ensures IsPeak(After(peaks, n).maxMemory, peaks)
  {
    if peaks != [] {
      var before := peaks[..|peaks| - 1];
      MaximumIsLargest(before, n);
      assert peaks == before + [peaks[|peaks| - 1]];
    }
  }

  lemma MaximumIgnoresOrder(peaks: seq<int64>, peaks': seq<int64>, n: int64)
    requires n >= 1 && multiset(peaks) == multiset(peaks') && forall i | 0 <= i < |peaks| :: peaks[i] >= 0
    ensures After(peaks, n).maxMemory == After(peaks', n).maxMemory
  {
    forall x ensures x in peaks <==> x in peaks' {
      assert x in peaks <==> x in multiset(peaks);
      assert x in peaks' <==> x in multiset(peaks');
    }
    forall i | 0 <= i < |peaks'| ensures peaks'[i] >= 0 {
      assert peaks'[i] in peaks;
    }
    MaximumIsLargest(peaks, n);
    MaximumIsLargest(peaks', n);
    SamePeak(After(peaks, n).maxMemory, After(peaks', n).maxMemory, peaks, peaks');
  }

  lemma SamePeak(p: int, p': int, samples: seq<int64>, samples': seq<int64>)
    requires IsPeak(p, samples) && IsPeak(p', samples') && forall x :: x in samples <==> x in samples'
    ensures p == p'
  {
  }

  // ---------- Convergence under equal samples ----------

  /** The average after k more processes that all peak at x. */
  function Repeated(average: int64, x: int64, n: int64, k: nat): int64
    requires n >= 1
  {
    if k == 0 then average else Wrap(NextAverage(Repeated(average, x, n, k - 1), x, n))
  }

  /** What one step leaves of a gap d: the floor of d (n - 1) / n from above, its ceiling from
      below. */
  lemma GapAfterStep(d: int, n: int)
    requires n >= 1 && d >= 0
    ensures d + (-d) / n == d * (n - 1) / n
    ensures d - d / n == (d * (n - 1) + n - 1) / n
  {
    TakeOne(d, n);
    DivideShifted(d, -d, n);
    var q, r := d / n, d % n;
    MultiplyDifference(d, q, n);
    assert d == q * n + r;
    DivideUnique(d * (n - 1) + n - 1, d - q, n - 1 - r, n);
  }

  lemma MultiplyDifference(a: int, b: int, n: int)
    ensures (a - b) * n == a * n - b * n
  {
  }

  lemma QuotientZero(d: int, n: int)
    requires n >= 1 && d >= 0
    ensures d / n == 0 <==> d < n
  {
    assert d == d / n * n + d % n;
    if d < n {
      DivideUnique(d, 0, d, n);
    }
  }

  /** From above, a step goes strictly down but not below x. */
  lemma StepFromAbove(average: int64, x: int64, n: int64)
    requires n >= 1 && Fits(average, n) && Fits(x, n) && average > x
    ensures var next := NextAverage(average, x, n);
            x <= next < average && next - x == (average - x) * (n - 1) / n && Wrap(next) == next
  {
    var d := average - x;
    AverageMovesByFloor(average, x, n);
    NextAverageBetween(average, x, n, x, average);
    GapAfterStep(d, n);
    NegativeStep(d, n);
  }

  lemma NegativeStep(d: int, n: int)
    requires n >= 1 && d > 0
    ensures (-d) / n <= -1
  {
    var q := (-d) / n;
    if q >= 0 {
      ScaleUp(0, q, n);
    }
  }

  /** From a non-zero value below, a step stays put within n - 1 of x and otherwise goes up, but
      never past x. */
  lemma StepFromBelow(average: int64, x: int64, n: int64)
    requires n >= 1 && Fits(average, n) && Fits(x, n) && 0 < average <= x
    ensures var next := NextAverage(average, x, n);
            && average <= next <= x && x - next == ((x - average) * (n - 1) + n - 1) / n && Wrap(next) == next
            && (next == average <==> x - average <= n - 1)
  {
    var d := x - average;
    AverageMovesByFloor(average, x, n);
    NextAverageBetween(average, x, n, average, x);
    GapAfterStep(d, n);
    QuotientZero(d, n);
  }

  lemma OneMoreFromAbove(average: int64, x: int64, n: int64, bound: int)
    requires n >= 1 && Fits(average, n) && Fits(x, n) && x <= average <= Max(x, bound + 1)
    ensures x <= Wrap(NextAverage(average, x, n)) <= Max(x, bound)
  {
    if average > x {
      StepFromAbove(average, x, n);
    } else if x > 0 {
      StepFromBelow(average, x, n);
    } else {
      WrapInRange(0);
    }
  }

  /** From above the average reaches the repeated sample exactly, within as many steps as the gap
      is wide, and stays there. */
  lemma {:induction false} ConvergesFromAbove(average: int64, x: int64, n: int64, k: nat)
    requires n >= 1 && Fits(average, n) && Fits(x, n) && average >= x
    ensures x <= Repeated(average, x, n, k) <= Max(x, average - k)
  {
    if k > 0 {
      ConvergesFromAbove(average, x, n, k - 1);
      OneMoreFromAbove(Repeated(average, x, n, k - 1), x, n, average - k);
    }
  }

  /** From a non-zero value below the average never falls, and within as many steps as the gap is
      wide it stops at a value within n - 1 of the repeated sample. */
  lemma {:induction false} ConvergesFromBelow(average: int64, x: int64, n: int64, k: nat)
    requires n >= 1 && Fits(average, n) && Fits(x, n) && 0 < average <= x
    ensures average <= Repeated(average, x, n, k) <= x
    ensures Repeated(average, x, n, k) >= Min(x - n + 1, average + k)
    ensures k >= x - average ==> Repeated(average, x, n, k + 1) == Repeated(average, x, n, k)
  {
    if k > 0 {
      var before := Repeated(average, x, n, k - 1);
      ConvergesFromBelow(average, x, n, k - 1);
      StepFromBelow(before, x, n);
    }
    StepFromBelow(Repeated(average, x, n, k), x, n);
  }

  // ---------- The memory of a process tree ----------

  /** A process: its resident set, unless it could not be read, and its children. */
  datatype Process = Process(rss: Rss, children: seq<Process>)

  datatype Rss = Unreadable | Readable(bytes: uint64)

  /** The processes counted, in preorder: those that are readable and have only readable ancestors. */
  function Counted(p: Process): seq<uint64>
    decreases p, 0
  {
    if p.rss.Unreadable? then [] else [p.rss.bytes] + CountedAll(p.children)
  }

  function CountedAll(ps: seq<Process>): seq<uint64>
    decreases ps
  {
    if ps == [] then [] else Counted(ps[0]) + CountedAll(ps[1..])
  }

  function Sum(xs: seq<uint64>): int {
    if xs == [] then 0 else xs[0] + Sum(xs[1..])
  }

  lemma {:induction false} SumAppend(xs: seq<uint64>, ys: seq<uint64>)
    ensures Sum(xs + ys) == Sum(xs) + Sum(ys)
  {
    if xs == [] {
      assert xs + ys == ys;
    } else {
      assert (xs + ys)[1..] == xs[1..] + ys;
      SumAppend(xs[1..], ys);
    }
  }

  /** Wrapping at every addition or once at the end makes no difference. */
  lemma WrapAdds(a: int, b: int)
    ensures Wrap(Wrap(a) + Wrap(b)) == Wrap(a + b)
  {
  }

  /** What a readable process and its first i children count together. */
  ghost function SumUpTo(p: Process, i: nat): int
    requires p.rss.Readable? && i <= |p.children|
  {
    p.rss.bytes + Sum(CountedAll(p.children[..i]))
  }

  lemma SumOfOneMore(p: Process, i: nat)
    requires p.rss.Readable? && i < |p.children|
    ensures SumUpTo(p, i + 1) == SumUpTo(p, i) + Sum(Counted(p.children[i]))
  {
    var ps := p.children;
    assert ps[..i + 1] == ps[..i] + [ps[i]];
    CountedAllSnoc(ps[..i], ps[i]);
    SumAppend(CountedAll(ps[..i]), Counted(ps[i]));
  }

  /** recursiveMemory: the sum over the counted processes, in 64 bits. */
  method RecursiveMemory(p: Process) returns (sum: int64)
    ensures sum == Wrap(Sum(Counted(p)))
    decreases p
  {
    if p.rss.Unreadable? {
      return 0;
    }
    sum := Wrap(p.rss.bytes);
    OwnAndChildren(p);
    for i := 0 to |p.children|
      invariant sum == Wrap(SumUpTo(p, i))
    {
      var child := RecursiveMemory(p.children[i]);
      SumOfOneMore(p, i);
      WrapAdds(SumUpTo(p, i), Sum(Counted(p.children[i])));
      sum := Wrap(sum + child);
    }
  }

  lemma OwnAndChildren(p: Process)
    requires p.rss.Readable?
    ensures SumUpTo(p, 0) == p.rss.bytes && SumUpTo(p, |p.children|) == Sum(Counted(p))
  {
    assert p.children[..0] == [];
    assert p.children[..|p.children|] == p.children;
  }

  lemma {:induction false} CountedAllSnoc(ps: seq<Process>, p: Process)
    ensures CountedAll(ps + [p]) == CountedAll(ps) + Counted(p)
  {
    if ps == [] {
      assert ps + [p] == [p];
      assert CountedAll([p]) == Counted(p) + CountedAll([]);
    } else {
      assert (ps + [p])[1..] == ps[1..] + [p];
      CountedAllSnoc(ps[1..], p);
    }
  }

  // ---------- Which processes count ----------

  /** The path from a process down to a descendant, by positions among siblings. */
  type Path = seq<nat>

  predicate IsPath(p: Process, path: Path) {
    path == [] || (path[0] < |p.children| && IsPath(p.children[path[0]], path[1..]))
  }

  function At(p: Process, path: Path): Process
    requires IsPath(p, path)
  {
    if path == [] then p else At(p.children[path[0]], path[1..])
  }

  /** The process and all its ancestors can be read. */
  ghost predicate ReadableThroughout(p: Process, path: Path) {
    IsPath(p, path) && forall n | 0 <= n <= |path| :: IsPath(p, path[..n]) && At(p, path[..n]).rss.Readable?
  }

  /** The paths of the processes counted, in the order in which they are counted. */
  function CountedPaths(p: Process): seq<Path>
    decreases p, 1
  {
    if p.rss.Unreadable? then [] else [[]] + CountedPathsFrom(p, 0)
  }

  function CountedPathsFrom(p: Process, i: nat): seq<Path>
    requires i <= |p.children|
    decreases p, 0, |p.children| - i
  {
    if i == |p.children| then []
    else Below(i, CountedPaths(p.children[i])) + CountedPathsFrom(p, i + 1)
  }

  /** Paths from a child, seen from its parent. */
  function Below(i: nat, paths: seq<Path>): (r: seq<Path>)
    ensures |r| == |paths| && forall k | 0 <= k < |r| :: r[k] == [i] + paths[k]
  {
    seq(|paths|, k requires 0 <= k < |paths| => [i] + paths[k])
  }

  lemma ReadableBelow(p: Process, i: nat, path: Path)
    ensures ReadableThroughout(p, [i] + path) <==>
              p.rss.Readable? && i < |p.children| && ReadableThroughout(p.children[i], path)
  {
    var whole := [i] + path;
    assert whole[1..] == path;
    assert forall n | 1 <= n <= |whole| :: whole[..n] == [i] + path[..n - 1] && whole[..n][1..] == path[..n - 1];
    if ReadableThroughout(p, whole) {
      assert whole[..0] == [] && At(p, whole[..0]).rss.Readable?;
      forall n | 0 <= n <= |path| ensures IsPath(p.children[i], path[..n]) && At(p.children[i], path[..n]).rss.Readable? {
        assert At(p, whole[..n + 1]).rss.Readable?;
      }
    }
    if p.rss.Readable? && i < |p.children| && ReadableThroughout(p.children[i], path) {
      forall n | 0 <= n <= |whole| ensures IsPath(p, whole[..n]) && At(p, whole[..n]).rss.Readable? {
        if n > 0 {
          assert At(p.children[i], path[..n - 1]).rss.Readable?;
        }
      }
    }
  }

  /** Exactly the processes that can be read and have only such ancestors are counted. */
  lemma {:induction false} CountedExactly(p: Process, path: Path)
    ensures path in CountedPaths(p) <==> ReadableThroughout(p, path)
    decreases p, 1
  {
    if p.rss.Unreadable? {
      assert path[..0] == [];
      assert ReadableThroughout(p, path) ==> At(p, path[..0]).rss.Readable?;
    } else if path == [] {
      assert forall n | 0 <= n <= |path| :: path[..n] == [];
      assert path in CountedPaths(p);
    } else {
      CountedBelowExactly(p, 0, path);
      assert path == [path[0]] + path[1..];
      ReadableBelow(p, path[0], path[1..]);
      assert path in CountedPaths(p) <==> path in CountedPathsFrom(p, 0);
    }
  }

  lemma {:induction false} CountedBelowExactly(p: Process, i: nat, path: Path)
    requires i <= |p.children| && path != []
    ensures path in CountedPathsFrom(p, i) <==>
              i <= path[0] < |p.children| && ReadableThroughout(p.children[path[0]], path[1..])
    decreases p, 0, |p.children| - i
  {
    if i < |p.children| {
      CountedBelowExactly(p, i + 1, path);
      CountedExactly(p.children[i], path[1..]);
      InBelow(i, CountedPaths(p.children[i]), path);
    }
  }

  lemma InBelow(i: nat, paths: seq<Path>, path: Path)
    requires path != []
    ensures path in Below(i, paths) <==> path[0] == i && path[1..] in paths
  {
    var r := Below(i, paths);
    if path in r {
      var k :| 0 <= k < |r| && r[k] == path;
      assert path[1..] == paths[k];
    }
    if path[0] == i && path[1..] in paths {
      var k :| 0 <= k < |paths| && paths[k] == path[1..];
      assert r[k] == path;
    }
  }

  predicate Distinct(paths: seq<Path>) {
    forall k, l | 0 <= k < l < |paths| :: paths[k] != paths[l]
  }

  lemma DistinctAppend(a: seq<Path>, b: seq<Path>)
    requires Distinct(a) && Distinct(b) && forall path | path in a :: path !in b
    ensures Distinct(a + b)
  {
    forall k, l | 0 <= k < l < |a + b| ensures (a + b)[k] != (a + b)[l] {
      if k < |a| <= l {
        assert a[k] in a && b[l - |a|] in b;
      }
    }
  }

  /** No process is counted twice. */
  lemma {:induction false} CountedOnce(p: Process)
    ensures Distinct(CountedPaths(p))
    decreases p, 1
  {
    if p.rss.Readable? {
      CountedBelowOnce(p, 0);
      DistinctAppend([[]], CountedPathsFrom(p, 0));
    }
  }

  lemma {:induction false} CountedBelowOnce(p: Process, i: nat)
    requires i <= |p.children|
    ensures Distinct(CountedPathsFrom(p, i)) && forall path | path in CountedPathsFrom(p, i) :: path != [] && path[0] >= i
    decreases p, 0, |p.children| - i
  {
    if i < |p.children| {
      var first := Below(i, CountedPaths(p.children[i]));
      CountedOnce(p.children[i]);
      CountedBelowOnce(p, i + 1);
      BelowKeepsDistinct(i, CountedPaths(p.children[i]));
      assert forall path | path in first :: path != [] && path[0] == i;
      DistinctAppend(first, CountedPathsFrom(p, i + 1));
    }
  }

  lemma BelowKeepsDistinct(i: nat, paths: seq<Path>)
    requires Distinct(paths)
    ensures Distinct(Below(i, paths))
  {
    var r := Below(i, paths);
    forall k, l | 0 <= k < l < |paths| ensures r[k] != r[l] {
      assert r[k][1..] == paths[k] && r[l][1..] == paths[l];
    }
  }

  /** And the bytes that are summed are theirs. */
  lemma {:induction false} CountedAreBytes(p: Process)
    ensures |Counted(p)| == |CountedPaths(p)|
    ensures forall k | 0 <= k < |Counted(p)| :: BytesAt(p, CountedPaths(p)[k]) == Readable(Counted(p)[k])
    decreases p, 1
  {
    if p.rss.Readable? {
      CountedBelowAreBytes(p, 0);
      assert p.children[0..] == p.children;
    }
  }

  function BytesAt(p: Process, path: Path): Rss {
    if IsPath(p, path) then At(p, path).rss else Unreadable
  }

  lemma {:induction false} CountedBelowAreBytes(p: Process, i: nat)
    requires i <= |p.children|
    ensures var bytes, paths := CountedAll(p.children[i..]), CountedPathsFrom(p, i);
            |bytes| == |paths| && forall k | 0 <= k < |bytes| :: BytesAt(p, paths[k]) == Readable(bytes[k])
    decreases p, 0, |p.children| - i
  {
    if i < |p.children| {
      var c := p.children[i];
      assert p.children[i..][1..] == p.children[i + 1..];
      CountedAreBytes(c);
      CountedBelowAreBytes(p, i + 1);
      forall k | 0 <= k < |Counted(c)|
        ensures BytesAt(p, Below(i, CountedPaths(c))[k]) == BytesAt(c, CountedPaths(c)[k])
      {
        assert Below(i, CountedPaths(c))[k][1..] == CountedPaths(c)[k];
      }
    }
  }
}
