/** Counting the threads of an interleaved protocol by the program point they are at. */
module Threads {

  type ThreadId = nat

  /** The threads whose program point satisfies at. */
  ghost function At<P(!new)>(points: map<ThreadId, P>, at: P -> bool): set<ThreadId> {
    set t | t in points && at(points[t])
  }

  ghost function CountAt<P(!new)>(points: map<ThreadId, P>, at: P -> bool): nat {
    |At(points, at)|
  }

  /** Moving one thread changes a count by that thread alone. */
  lemma CountMove<P(!new)>(points: map<ThreadId, P>, at: P -> bool, t: ThreadId, p: P)
    ensures CountAt(points[t := p], at)
            == CountAt(points, at) - (if t in points && at(points[t]) then 1 else 0) + (if at(p) then 1 else 0)
  {
    AtMove(points, at, t, p);
    SizeMove(At(points, at), At(points[t := p], at), t, at(p));
  }

  lemma SizeMove(before: set<ThreadId>, after: set<ThreadId>, t: ThreadId, stays: bool)
    requires after == before - {t} + if stays then {t} else {}
    ensures |after| == |before| - (if t in before then 1 else 0) + if stays then 1 else 0
  {
    if !stays {
      assert after == before - {t};
    }
  }

  lemma AtMove<P(!new)>(points: map<ThreadId, P>, at: P -> bool, t: ThreadId, p: P)
    ensures At(points[t := p], at) == At(points, at) - {t} + if at(p) then {t} else {}
  {
    var points' := points[t := p];
    forall u ensures u in At(points', at) <==> u in At(points, at) - {t} + if at(p) then {t} else {} {
      if u != t {
        assert u in points <==> u in points';
      }
    }
  }

  /** A larger class of program points is never occupied by fewer threads. */
  lemma CountMonotone<P(!new)>(points: map<ThreadId, P>, at: P -> bool, at': P -> bool)
    requires forall p :: at(p) ==> at'(p)
    ensures CountAt(points, at) <= CountAt(points, at')
  {
    SubsetSize(At(points, at), At(points, at'));
  }

  lemma SubsetSize<T>(a: set<T>, b: set<T>)
    requires a <= b
    ensures |a| <= |b|
  {
    assert b == a + (b - a);
  }
}
