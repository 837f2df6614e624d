/** Text as the flag scanners cut it: at the positions where a flag starts.

    A Go string is its sequence of code points here. The scanners compare bytes with ASCII
    characters only, which never occur inside the encoding of another code point, so every
    position they can find is the position of a code point. */
module FlagText {

  /** unicode.IsSpace */
  predicate IsSpace(c: char) {
    || c == ' ' || '\t' <= c <= '\r' || c == '\U{0085}' || c == '\U{00A0}' || c == '\U{1680}'
    || '\U{2000}' <= c <= '\U{200A}' || c == '\U{2028}' || c == '\U{2029}' || c == '\U{202F}'
    || c == '\U{205F}' || c == '\U{3000}'
  }

  /** All 25 spaces: the ASCII ones, then the others. */
  lemma SpacesAre(c: char)
    ensures IsSpace(c) <==>
              c in {' ', '\t', '\n', '\U{000B}', '\U{000C}', '\r',
                    '\U{0085}', '\U{00A0}', '\U{1680}', '\U{2000}', '\U{2001}', '\U{2002}', '\U{2003}', '\U{2004}',
                    '\U{2005}', '\U{2006}', '\U{2007}', '\U{2008}', '\U{2009}', '\U{200A}', '\U{2028}', '\U{2029}',
                    '\U{202F}', '\U{205F}', '\U{3000}'}
  {
  }

  predicate AllSpace(s: string) {
    forall i | 0 <= i < |s| :: IsSpace(s[i])
  }

  function TrimLeft(s: string): string {
    if s != [] && IsSpace(s[0]) then TrimLeft(s[1..]) else s
  }

  function TrimRight(s: string): string {
    if s != [] && IsSpace(s[|s| - 1]) then TrimRight(s[..|s| - 1]) else s
  }

  /** strings.TrimSpace */
  function TrimSpace(s: string): string {
    TrimRight(TrimLeft(s))
  }

  predicate Trimmed(s: string) {
    s != [] ==> !IsSpace(s[0]) && !IsSpace(s[|s| - 1])
  }

  lemma AllSpaceAppend(a: string, b: string)
    requires AllSpace(a) && AllSpace(b)
    ensures AllSpace(a + b)
  {
  }

  lemma {:induction false} TrimLeftIs(s: string) returns (n: nat)
    ensures n <= |s| && TrimLeft(s) == s[n..] && AllSpace(s[..n])
    ensures n < |s| ==> !IsSpace(s[n])
  {
    if s != [] && IsSpace(s[0]) {
      var n' := TrimLeftIs(s[1..]);
      n := n' + 1;
      assert s[..n] == [s[0]] + s[1..][..n'];
      AllSpaceAppend([s[0]], s[1..][..n']);
    } else {
      n := 0;
    }
  }

  lemma {:induction false} TrimRightIs(s: string) returns (n: nat)
    ensures n <= |s| && TrimRight(s) == s[..n] && AllSpace(s[n..])
    ensures n > 0 ==> !IsSpace(s[n - 1])
  {
    if s != [] && IsSpace(s[|s| - 1]) {
      n := TrimRightIs(s[..|s| - 1]);
      assert s[n..] == s[..|s| - 1][n..] + [s[|s| - 1]];
      AllSpaceAppend(s[..|s| - 1][n..], [s[|s| - 1]]);
    } else {
      n := |s|;
    }
  }

  /** Trimming takes spaces off both ends and leaves none there. */
  lemma TrimSpaceIs(s: string) returns (a: nat, b: nat)
    ensures a <= b <= |s| && TrimSpace(s) == s[a..b]
    ensures AllSpace(s[..a]) && AllSpace(s[b..])
    ensures a < b ==> !IsSpace(s[a]) && !IsSpace(s[b - 1])
    ensures Trimmed(TrimSpace(s)) && |TrimSpace(s)| == b - a
  {
    a := TrimLeftIs(s);
    var n := TrimRightIs(s[a..]);
    b := a + n;
    assert s[b..] == s[a..][n..];
  }

  lemma TrimSpaceShrinks(s: string)
    ensures |TrimSpace(s)| <= |s|
  {
    var a, b := TrimSpaceIs(s);
  }

  lemma TrimSpaceKeeps(s: string)
    requires Trimmed(s)
    ensures TrimSpace(s) == s
  {
  }

  lemma {:induction false} TrimRightDropsTail(s: string, tail: string)
    requires s != [] && !IsSpace(s[|s| - 1]) && AllSpace(tail)
    ensures TrimRight(s + tail) == s
  {
    if tail == [] {
      assert s + tail == s;
    } else {
      var shorter := tail[..|tail| - 1];
      assert (s + tail)[..|s + tail| - 1] == s + shorter;
      TrimRightDropsTail(s, shorter);
    }
  }

  /** Spaces after a trimmed text are what trimming takes away. */
  lemma TrimSpaceDropsTail(s: string, tail: string)
    requires s != [] && Trimmed(s) && AllSpace(tail)
    ensures TrimSpace(s + tail) == s
  {
    TrimRightDropsTail(s, tail);
  }

  // ---------- Positions ----------

  /** A test whether a flag starts at a position of a text. */
  type Boundary = (string, nat) -> bool

  predicate Increasing(p: seq<nat>) {
    forall k, l | 0 <= k < l < |p| :: p[k] < p[l]
  }

  /** The positions below n at which a flag starts, in order. */
  function StartsBelow(t: string, starts: Boundary, n: nat): (p: seq<nat>)
    ensures |p| <= n
  {
    if n == 0 then []
    else if starts(t, n - 1) then StartsBelow(t, starts, n - 1) + [n - 1]
    else StartsBelow(t, starts, n - 1)
  }

  lemma {:induction false} StartsBelowAre(t: string, starts: Boundary, n: nat)
    ensures Increasing(StartsBelow(t, starts, n))
    ensures forall i: nat :: i in StartsBelow(t, starts, n) <==> i < n && starts(t, i)
  {
    if n > 0 {
      StartsBelowAre(t, starts, n - 1);
      var p := StartsBelow(t, starts, n - 1);
      forall k | 0 <= k < |p| ensures p[k] < n - 1 {
        assert p[k] in p;
      }
    }
  }

  function Starts(t: string, starts: Boundary): seq<nat> {
    StartsBelow(t, starts, |t|)
  }

  lemma StartAt(t: string, starts: Boundary, k: nat)
    requires k < |Starts(t, starts)|
    ensures Starts(t, starts)[k] < |t| && starts(t, Starts(t, starts)[k])
    ensures k + 1 < |Starts(t, starts)| ==> Starts(t, starts)[k] < Starts(t, starts)[k + 1] < |t|
  {
    var p := Starts(t, starts);
    StartsBelowAre(t, starts, |t|);
    assert p[k] in p;
    assert k + 1 < |p| ==> p[k + 1] in p;
  }

  lemma {:induction false} StartsGrow(t: string, starts: Boundary, m: nat, n: nat)
    requires m <= n
    ensures StartsBelow(t, starts, m) <= StartsBelow(t, starts, n)
  {
    if m < n {
      StartsGrow(t, starts, m, n - 1);
    }
  }

  /** An increasing sequence is determined by its members. */
  lemma {:induction false} IncreasingUnique(p: seq<nat>, q: seq<nat>)
    requires Increasing(p) && Increasing(q)
    requires forall i: nat :: i in p <==> i in q
    ensures p == q
  {
    assert p == [] <==> q == [] by {
      if p != [] { assert p[0] in p; }
      if q != [] { assert q[0] in q; }
    }
    if p != [] {
      var a, b := p[|p| - 1], q[|q| - 1];
      assert a in p && b in q;
      assert a == b;
      var p', q' := p[..|p| - 1], q[..|q| - 1];
      forall i: nat ensures i in p' <==> i in q' {
        assert i in p' <==> i in p && i != a;
        assert i in q' <==> i in q && i != a;
      }
      IncreasingUnique(p', q');
    }
  }

  /** The end of the segment that starts at p[k]. */
  function EndOf(p: seq<nat>, k: nat, length: nat): nat
    requires k < |p|
  {
    if k + 1 < |p| then p[k + 1] else length
  }

  /** The text from the k-th start up to the next one. */
  function Segment(t: string, starts: Boundary, k: nat): (s: string)
    requires k < |Starts(t, starts)|
    ensures s != []
  {
    var p := Starts(t, starts);
    StartAt(t, starts, k);
    t[p[k]..EndOf(p, k, |t|)]
  }

  /** All segments, each cleaned up. */
  function Pieces(t: string, starts: Boundary, clean: string -> string): (r: seq<string>)
    ensures |r| == |Starts(t, starts)|
    ensures forall k | 0 <= k < |r| :: r[k] == clean(Segment(t, starts, k))
  {
    seq(|Starts(t, starts)|, k requires 0 <= k < |Starts(t, starts)| => clean(Segment(t, starts, k)))
  }

  // ---------- Scanning from left to right ----------

  /** The start at position i is the first one not below i. */
  lemma StartsSplit(t: string, starts: Boundary, i: nat) returns (m: nat)
    requires i < |t| && starts(t, i)
    ensures m == |StartsBelow(t, starts, i)| < |Starts(t, starts)| && Starts(t, starts)[m] == i
    ensures StartsBelow(t, starts, i + 1) == StartsBelow(t, starts, i) + [i]
  {
    m := |StartsBelow(t, starts, i)|;
    StartsGrow(t, starts, i + 1, |t|);
    assert StartsBelow(t, starts, i + 1)[m] == i;
  }

  /** The segment at position i ends where the next start is, or at the end of the text. */
  lemma SegmentEnds(t: string, starts: Boundary, i: nat, next: nat) returns (m: nat)
    requires i < next <= |t| && starts(t, i)
    requires forall x: nat | i < x < next :: !starts(t, x)
    requires next < |t| ==> starts(t, next)
    ensures m == |StartsBelow(t, starts, i)| < |Starts(t, starts)|
    ensures Starts(t, starts)[m] == i && next == EndOf(Starts(t, starts), m, |t|)
    ensures Segment(t, starts, m) == t[i..next]
  {
    m := StartsSplit(t, starts, i);
    var p := Starts(t, starts);
    StartAt(t, starts, m);
    InStarts(t, starts, next);
    StartsBelowAre(t, starts, |t|);
    assert m + 1 < |p| ==> p[m + 1] in p && p[m + 1] >= next;
    assert next < |t| ==> exists k :: 0 <= k < |p| && p[k] == next;
  }

  /** Between a start and the end of its segment there is no other start. */
  lemma BetweenStarts(t: string, starts: Boundary, k: nat, x: nat)
    requires k < |Starts(t, starts)|
    requires Starts(t, starts)[k] < x < EndOf(Starts(t, starts), k, |t|)
    ensures !starts(t, x)
  {
    var p := Starts(t, starts);
    StartAt(t, starts, k);
    InStarts(t, starts, x);
    StartsBelowAre(t, starts, |t|);
    forall l | 0 <= l < |p| ensures p[l] != x {
      if l <= k {
        assert p[l] <= p[k];
      } else {
        assert p[k + 1] <= p[l];
      }
    }
  }

  /** The pieces of the flags that start before position i. */
  ghost predicate Collected(t: string, starts: Boundary, clean: string -> string, i: nat, collected: seq<string>)
    requires i <= |t|
  {
    && |collected| == |StartsBelow(t, starts, i)| <= |Starts(t, starts)|
    && forall k | 0 <= k < |collected| :: collected[k] == clean(Segment(t, starts, k))
  }

  lemma CollectedSkips(t: string, starts: Boundary, clean: string -> string, i: nat, collected: seq<string>)
    requires i < |t| && Collected(t, starts, clean, i, collected) && !starts(t, i)
    ensures Collected(t, starts, clean, i + 1, collected)
  {
  }

  lemma CollectedTakes(t: string, starts: Boundary, clean: string -> string, i: nat, collected: seq<string>)
    requires i < |t| && Collected(t, starts, clean, i, collected) && starts(t, i)
    ensures |collected| < |Starts(t, starts)|
    ensures Collected(t, starts, clean, i + 1, collected + [clean(Segment(t, starts, |collected|))])
  {
    var m := StartsSplit(t, starts, i);
  }

  lemma CollectedAll(t: string, starts: Boundary, clean: string -> string, collected: seq<string>)
    requires Collected(t, starts, clean, |t|, collected)
    ensures collected == Pieces(t, starts, clean)
  {
  }

  // ---------- Joining ----------

  function Join(fs: seq<string>, sep: char): string {
    if fs == [] then ""
    else if |fs| == 1 then fs[0]
    else fs[0] + [sep] + Join(fs[1..], sep)
  }

  /** Joining f and rest by sep neither makes nor hides a start. */
  ghost predicate Separates(starts: Boundary, sep: char, f: string, rest: string) {
    var t := f + [sep] + rest;
    && (forall i: nat | i < |f| :: starts(t, i) == starts(f, i))
    && !starts(t, |f|)
    && (forall i: nat | i < |rest| :: starts(t, |f| + 1 + i) == starts(rest, i))
  }

  function Shift(p: seq<nat>, d: nat): (q: seq<nat>)
    ensures |q| == |p| && forall k | 0 <= k < |p| :: q[k] == p[k] + d
  {
    seq(|p|, k requires 0 <= k < |p| => p[k] + d)
  }

  lemma StartsOfJoin(starts: Boundary, sep: char, f: string, rest: string)
    requires Separates(starts, sep, f, rest)
    ensures Starts(f + [sep] + rest, starts) == Starts(f, starts) + Shift(Starts(rest, starts), |f| + 1)
  {
    var t := f + [sep] + rest;
    var pq := Starts(f, starts) + Shift(Starts(rest, starts), |f| + 1);
    StartsBelowAre(t, starts, |t|);
    StartsBelowAre(f, starts, |f|);
    StartsBelowAre(rest, starts, |rest|);
    assert forall k | 0 <= k < |Starts(f, starts)| :: Starts(f, starts)[k] in Starts(f, starts);
    assert Increasing(pq);
    forall i: nat ensures i in Starts(t, starts) <==> i in pq {
      InStartsOfJoin(starts, sep, f, rest, i);
    }
    IncreasingUnique(Starts(t, starts), pq);
  }

  lemma InStartsOfJoin(starts: Boundary, sep: char, f: string, rest: string, i: nat)
    requires Separates(starts, sep, f, rest)
    ensures i in Starts(f + [sep] + rest, starts)
            <==> i in Starts(f, starts) + Shift(Starts(rest, starts), |f| + 1)
  {
    InStarts(f + [sep] + rest, starts, i);
    InStarts(f, starts, i);
    InShift(Starts(rest, starts), |f| + 1, i);
    if i > |f| {
      InStarts(rest, starts, i - |f| - 1);
    }
  }

  lemma InStarts(t: string, starts: Boundary, i: nat)
    ensures i in Starts(t, starts) <==> i < |t| && starts(t, i)
  {
    StartsBelowAre(t, starts, |t|);
  }

  lemma InShift(p: seq<nat>, d: nat, i: nat)
    ensures i in Shift(p, d) <==> i >= d && i - d in p
  {
    var q := Shift(p, d);
    if i in q {
      var k :| 0 <= k < |q| && q[k] == i;
      assert p[k] == i - d;
    }
    if i >= d && i - d in p {
      var k :| 0 <= k < |p| && p[k] == i - d;
      assert q[k] == i;
    }
  }

  lemma SegmentOfJoin(starts: Boundary, sep: char, f: string, rest: string, t: string, k: nat)
    requires t == f + [sep] + rest && k < |Starts(rest, starts)|
    requires Starts(t, starts) == [0] + Shift(Starts(rest, starts), |f| + 1)
    ensures Segment(t, starts, k + 1) == Segment(rest, starts, k)
  {
    var p, q := Starts(rest, starts), Starts(t, starts);
    StartAt(rest, starts, k);
    var a, b := p[k], EndOf(p, k, |rest|);
    assert q[k + 1] == a + |f| + 1;
    assert EndOf(q, k + 1, |t|) == b + |f| + 1;
    assert t[a + |f| + 1..b + |f| + 1] == rest[a..b];
  }

  /** When f holds one flag and rest begins with one, the first piece is f with its separator
      and the others are those of rest. */
  lemma PiecesOfJoin(starts: Boundary, clean: string -> string, sep: char, f: string, rest: string)
    requires Separates(starts, sep, f, rest)
    requires Starts(f, starts) == [0] && Starts(rest, starts) != [] && Starts(rest, starts)[0] == 0
    ensures Pieces(f + [sep] + rest, starts, clean) == [clean(f + [sep])] + Pieces(rest, starts, clean)
  {
    var t := f + [sep] + rest;
    StartsOfJoin(starts, sep, f, rest);
    PiecesFromStarts(starts, clean, sep, f, rest, t);
  }

  lemma PiecesFromStarts(starts: Boundary, clean: string -> string, sep: char, f: string, rest: string, t: string)
    requires t == f + [sep] + rest && Starts(rest, starts) != [] && Starts(rest, starts)[0] == 0
    requires Starts(t, starts) == [0] + Shift(Starts(rest, starts), |f| + 1)
    ensures Pieces(t, starts, clean) == [clean(f + [sep])] + Pieces(rest, starts, clean)
  {
    var whole, tail := Pieces(t, starts, clean), Pieces(rest, starts, clean);
    assert Segment(t, starts, 0) == f + [sep];
    forall k | 0 <= k < |tail| ensures whole[k + 1] == tail[k] {
      SegmentOfJoin(starts, sep, f, rest, t, k);
    }
  }

  /** sep keeps starts apart whatever it stands between. */
  ghost predicate AlwaysSeparates(starts: Boundary, sep: char) {
    forall f, rest :: Separates(starts, sep, f, rest)
  }

  /** Each flag with the separator behind it, but the last one, cleaned up. */
  function CleanedList(fs: seq<string>, sep: char, clean: string -> string): (r: seq<string>)
    ensures |r| == |fs|
  {
    seq(|fs|, k requires 0 <= k < |fs| => clean(if k + 1 < |fs| then fs[k] + [sep] else fs[k]))
  }

  lemma CleanedListIs(fs: seq<string>, sep: char, clean: string -> string)
    requires fs != [] && forall k | 0 <= k < |fs| - 1 :: clean(fs[k] + [sep]) == fs[k]
    ensures CleanedList(fs, sep, clean) == fs[..|fs| - 1] + [clean(fs[|fs| - 1])]
  {
  }

  lemma CleanedListUnchanged(fs: seq<string>, sep: char, clean: string -> string)
    requires forall k | 0 <= k < |fs| :: clean(fs[k] + [sep]) == fs[k] && clean(fs[k]) == fs[k]
    ensures CleanedList(fs, sep, clean) == fs
  {
  }

  lemma JoinedStartsFirst(starts: Boundary, sep: char, f: string, rest: string)
    requires Separates(starts, sep, f, rest) && Starts(f, starts) == [0]
    ensures Starts(f + [sep] + rest, starts) != [] && Starts(f + [sep] + rest, starts)[0] == 0
  {
    StartsOfJoin(starts, sep, f, rest);
  }

  /** Cutting a joined list of single flags gives them back, each with its separator. */
  lemma {:induction false} PiecesOfList(starts: Boundary, clean: string -> string, sep: char, fs: seq<string>)
    requires AlwaysSeparates(starts, sep) && fs != []
    requires forall k | 0 <= k < |fs| :: Starts(fs[k], starts) == [0]
    ensures Starts(Join(fs, sep), starts) != [] && Starts(Join(fs, sep), starts)[0] == 0
    ensures Pieces(Join(fs, sep), starts, clean) == CleanedList(fs, sep, clean)
  {
    if |fs| == 1 {
      assert Segment(fs[0], starts, 0) == fs[0];
    } else {
      var f, rest := fs[0], Join(fs[1..], sep);
      assert Join(fs, sep) == f + [sep] + rest;
      PiecesOfList(starts, clean, sep, fs[1..]);
      assert Separates(starts, sep, f, rest);
      JoinedStartsFirst(starts, sep, f, rest);
      PiecesOfJoin(starts, clean, sep, f, rest);
      assert CleanedList(fs, sep, clean) == [clean(f + [sep])] + CleanedList(fs[1..], sep, clean);
    }
  }

  function TotalStarts(fs: seq<string>, starts: Boundary): nat {
    if fs == [] then 0 else |Starts(fs[0], starts)| + TotalStarts(fs[1..], starts)
  }

  lemma {:induction false} StartsOfList(starts: Boundary, sep: char, fs: seq<string>)
    requires AlwaysSeparates(starts, sep)
    ensures |Starts(Join(fs, sep), starts)| == TotalStarts(fs, starts)
  {
    if |fs| == 1 {
      assert TotalStarts(fs[1..], starts) == 0;
    } else if |fs| > 1 {
      StartsOfList(starts, sep, fs[1..]);
      assert Separates(starts, sep, fs[0], Join(fs[1..], sep));
      StartsOfJoin(starts, sep, fs[0], Join(fs[1..], sep));
    }
  }

  /** If no flag has two starts and together they have as many starts as there are flags, each
      has exactly one. */
  lemma {:induction false} OneStartEach(starts: Boundary, fs: seq<string>)
    requires forall k | 0 <= k < |fs| :: |Starts(fs[k], starts)| <= 1
    ensures TotalStarts(fs, starts) <= |fs|
    ensures TotalStarts(fs, starts) == |fs| ==> forall k | 0 <= k < |fs| :: |Starts(fs[k], starts)| == 1
  {
    if fs != [] {
      OneStartEach(starts, fs[1..]);
      if TotalStarts(fs, starts) == |fs| {
        forall k | 0 < k < |fs| ensures |Starts(fs[k], starts)| == 1 {
          assert fs[k] == fs[1..][k - 1];
        }
      }
    }
  }

  /** A non-empty text without spaces at its ends. */
  predicate Solid(s: string) {
    s != [] && Trimmed(s)
  }

  lemma {:induction false} JoinSolid(fs: seq<string>, sep: char)
    requires fs != [] && forall k | 0 <= k < |fs| :: Solid(fs[k])
    ensures Solid(Join(fs, sep))
  {
    if |fs| > 1 {
      JoinSolid(fs[1..], sep);
    }
  }

  lemma JoinSurvivesTrimming(fs: seq<string>, sep: char)
    requires forall k | 0 <= k < |fs| :: Solid(fs[k])
    ensures TrimSpace(Join(fs, sep)) == Join(fs, sep)
  {
    if fs != [] {
      JoinSolid(fs, sep);
    }
    TrimSpaceKeeps(Join(fs, sep));
  }
}
