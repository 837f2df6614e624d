/** customParseBrowserFlags: cut the text at every "--" and clean each piece. */
module BrowserFlags {
  import opened FlagText

  predicate DoubleDash(t: string, i: nat) {
    i + 1 < |t| && t[i] == '-' && t[i + 1] == '-'
  }

  /** Drop the one comma that a configuration-file list leaves before the next flag. */
  function DropComma(s: string): string {
    if s != [] && s[|s| - 1] == ',' then s[..|s| - 1] else s
  }

  function Clean(s: string): string {
    TrimSpace(DropComma(s))
  }

  /** The meaning of the scanner: one cleaned piece per position of "--". */
  function Parse(flags: string): seq<string> {
    Pieces(TrimSpace(flags), DoubleDash, Clean)
  }

  /** The inner loop: from the flag at i, find where the next one starts. */
  method NextFlag(flags: string, i: nat) returns (startOfNextFlag: nat, ghost steps: nat)
    requires i < |flags| && DoubleDash(flags, i)
    ensures i < startOfNextFlag <= |flags| && (startOfNextFlag < |flags| ==> DoubleDash(flags, startOfNextFlag))
    ensures forall x: nat | i < x < startOfNextFlag :: !DoubleDash(flags, x)
    ensures steps <= startOfNextFlag - i + 1
  {
    startOfNextFlag := |flags|;
    steps := 0;
    var j := i;
    while j < startOfNextFlag
      invariant i <= j <= |flags| && startOfNextFlag == |flags| && steps == j - i
      invariant forall x: nat | i < x < j :: !DoubleDash(flags, x)
    {
      steps := steps + 1;
      if j + 1 < |flags| && flags[j] == '-' && flags[j + 1] == '-' && j != i {
        startOfNextFlag := j;
        break;
      }
      j := j + 1;
    }
  }

  /** The piece from the flag at i: drop an adjoining comma, then trim. */
  method CutFlag(flags: string, i: nat, startOfNextFlag: nat) returns (flag: string)
    requires i < startOfNextFlag <= |flags|
    ensures flag == Clean(flags[i..startOfNextFlag])
  {
    var endOfCurrentFlag := startOfNextFlag;
    if endOfCurrentFlag > i && flags[endOfCurrentFlag - 1] == ',' {
      endOfCurrentFlag := endOfCurrentFlag - 1;
    }
    assert flags[i..endOfCurrentFlag] == DropComma(flags[i..startOfNextFlag]);
    flag := TrimSpace(flags[i..endOfCurrentFlag]);
  }

  /** The end of the text that the first n pieces cover. */
  ghost function Covered(t: string, n: nat): (c: nat)
    requires n <= |Starts(t, DoubleDash)|
    ensures c <= |t|
    ensures n < |Starts(t, DoubleDash)| ==> c <= Starts(t, DoubleDash)[n]
  {
    if n == 0 then 0
    else
      StartAt(t, DoubleDash, n - 1);
      EndOf(Starts(t, DoubleDash), n - 1, |t|)
  }

  /** What the outer loop holds before position i: the pieces of the flags before it, at a cost
      bounded by the text those pieces cover. */
  ghost predicate Scanned(t: string, i: nat, collected: seq<string>, steps: nat)
    requires i <= |t|
  {
    && Collected(t, DoubleDash, Clean, i, collected)
    && steps <= Covered(t, |collected|) + |collected|
  }

  /** Collecting the flag at i moves what is covered on to the next flag. */
  lemma ScannedFlag(t: string, i: nat, next: nat, collected: seq<string>, steps: nat, inner: nat)
    requires i < next <= |t| && DoubleDash(t, i) && (next < |t| ==> DoubleDash(t, next))
    requires forall x: nat | i < x < next :: !DoubleDash(t, x)
    requires Scanned(t, i, collected, steps) && inner <= next - i + 1
    ensures Scanned(t, i + 1, collected + [Clean(t[i..next])], steps + inner)
  {
    var m := SegmentEnds(t, DoubleDash, i, next);
    CollectedTakes(t, DoubleDash, Clean, i, collected);
    assert Covered(t, |collected|) <= i && Covered(t, |collected| + 1) == next;
  }

  lemma ScannedSkip(t: string, i: nat, collected: seq<string>, steps: nat)
    requires i < |t| && !DoubleDash(t, i) && Scanned(t, i, collected, steps)
    ensures Scanned(t, i + 1, collected, steps)
  {
    CollectedSkips(t, DoubleDash, Clean, i, collected);
  }

  lemma ScannedAll(t: string, collected: seq<string>, steps: nat)
    requires Scanned(t, |t|, collected, steps)
    ensures collected == Pieces(t, DoubleDash, Clean) && steps <= 2 * |t|
  {
    CollectedAll(t, DoubleDash, Clean, collected);
  }

  /** The body of the outer loop at the start of a flag. */
  method CollectFlag(flags: string, i: nat, collectedBefore: seq<string>, ghost stepsBefore: nat)
    returns (collected: seq<string>, ghost steps: nat)
    requires i < |flags| && DoubleDash(flags, i) && Scanned(flags, i, collectedBefore, stepsBefore)
    ensures Scanned(flags, i + 1, collected, steps)
  {
    var startOfNextFlag;
    ghost var inner;
    startOfNextFlag, inner := NextFlag(flags, i);
    ScannedFlag(flags, i, startOfNextFlag, collectedBefore, stepsBefore, inner);
    var flag := CutFlag(flags, i, startOfNextFlag);
    collected := collectedBefore + [flag];
    steps := stepsBefore + inner;
  }

  /** The scanner of the source. Its nested loops take at most two inner steps per character. */
  method CustomParseBrowserFlags(text: string) returns (collected: seq<string>, ghost steps: nat)
    ensures collected == Parse(text)
    ensures steps <= 2 * |text|
  {
    var flags := TrimSpace(text);
    TrimSpaceShrinks(text);
    collected := [];
    steps := 0;
    var i := 0;
    while i < |flags|
      invariant i <= |flags| && Scanned(flags, i, collected, steps)
    {
      if i + 1 < |flags| && flags[i] == '-' && flags[i + 1] == '-' {
        collected, steps := CollectFlag(flags, i, collected, steps);
      } else {
        ScannedSkip(flags, i, collected, steps);
      }
      i := i + 1;
    }
    ScannedAll(flags, collected, steps);
  }

  // ---------- What the pieces are ----------

  /** What parsing takes away between a piece and the next flag: spaces, and then at most the
      one comma that adjoins the flag. */
  predicate Gap(s: string) {
    AllSpace(s) || (s[|s| - 1] == ',' && AllSpace(s[..|s| - 1]))
  }

  lemma CleanIs(s: string)
    requires s != [] && s[0] == '-'
    ensures var r := Clean(s); Solid(r) && r[0] == '-' && r <= s && Gap(s[|r|..])
  {
    var d := DropComma(s);
    var n := TrimRightIs(d);
    var tail := d[n..];
    assert !AllSpace(d) by {
      assert !IsSpace(d[0]);
    }
    assert n == 0 ==> tail == d;
    if d != s {
      assert s[n..][..|s[n..]| - 1] == d[n..];
    }
  }

  /** The piece r is the text from a up to b, but for a gap at its end. */
  ghost predicate Covers(t: string, a: nat, b: nat, r: string) {
    && a + |r| <= b <= |t|
    && r == t[a..a + |r|] && Gap(t[a + |r|..b])
    && Solid(r) && r[0] == '-'
  }

  lemma SegmentCovers(t: string, a: nat, b: nat, s: string, r: string)
    requires a < b <= |t| && s == t[a..b] && r <= s && Gap(s[|r|..]) && Solid(r) && r[0] == '-'
    ensures Covers(t, a, b, r)
  {
    assert r == t[a..a + |r|];
    assert t[a + |r|..b] == s[|r|..];
  }

  /** Nothing is lost: there is exactly one piece per position of "--", it is the text from that
      position on, and between its end and the next "--" stand only spaces and at most the one
      comma that adjoins the next flag. Before the first "--" there is no flag at all. */
  lemma PiecesCoverTheText(flags: string, k: nat)
    requires k < |Parse(flags)|
    ensures var t := TrimSpace(flags);
            var p := Starts(t, DoubleDash);
            && |Parse(flags)| == |p|
            && (forall i: nat :: i in p <==> DoubleDash(t, i))
            && Covers(t, p[k], EndOf(p, k, |t|), Parse(flags)[k])
  {
    var t := TrimSpace(flags);
    StartsBelowAre(t, DoubleDash, |t|);
    PieceCovers(t, k);
  }

  lemma PieceCovers(t: string, k: nat)
    requires k < |Starts(t, DoubleDash)|
    ensures var p := Starts(t, DoubleDash);
            Covers(t, p[k], EndOf(p, k, |t|), Clean(Segment(t, DoubleDash, k)))
  {
    var p := Starts(t, DoubleDash);
    StartAt(t, DoubleDash, k);
    var s := Segment(t, DoubleDash, k);
    CleanIs(s);
    SegmentCovers(t, p[k], EndOf(p, k, |t|), s, Clean(s));
  }

  lemma InsideCovers(t: string, a: nat, b: nat, r: string, i: nat)
    requires Covers(t, a, b, r) && DoubleDash(r, i)
    ensures DoubleDash(t, a + i) && a + i < b
  {
    assert t[a + i] == r[i] && t[a + i + 1] == r[i + 1];
  }

  /** No piece contains a "--" after its own beginning. */
  lemma NoFlagInsidePiece(flags: string, k: nat, i: nat)
    requires k < |Parse(flags)| && i > 0
    ensures !DoubleDash(Parse(flags)[k], i)
  {
    var t := TrimSpace(flags);
    var p := Starts(t, DoubleDash);
    PieceCovers(t, k);
    if DoubleDash(Parse(flags)[k], i) {
      InsideCovers(t, p[k], EndOf(p, k, |t|), Parse(flags)[k], i);
      BetweenStarts(t, DoubleDash, k, p[k] + i);
    }
  }

  // ---------- Round trips ----------

  /** A flag that survives joining: it begins with "--", holds no other "--", and does not end
      in a space. */
  predicate WellFormed(f: string) {
    && |f| >= 2 && f[0] == '-' && f[1] == '-' && !IsSpace(f[|f| - 1])
    && forall i | 1 <= i < |f| - 1 :: !(f[i] == '-' && f[i + 1] == '-')
  }

  lemma WellFormedIs(f: string)
    ensures WellFormed(f) <==> DoubleDash(f, 0) && !IsSpace(f[|f| - 1]) && forall i | 1 <= i < |f| :: !DoubleDash(f, i)
  {
    if WellFormed(f) {
      forall i | 1 <= i < |f| ensures !DoubleDash(f, i) {
        if i + 1 < |f| {
          assert !(f[i] == '-' && f[i + 1] == '-');
        }
      }
    } else if DoubleDash(f, 0) && forall i | 1 <= i < |f| :: !DoubleDash(f, i) {
      forall i | 1 <= i < |f| - 1 ensures !(f[i] == '-' && f[i + 1] == '-') {
        assert !DoubleDash(f, i);
      }
    }
  }

  predicate EndsInComma(f: string) {
    f != [] && f[|f| - 1] == ','
  }

  lemma DashesSeparate(sep: char)
    requires sep != '-'
    ensures AlwaysSeparates(DoubleDash, sep)
  {
  }

  lemma WellFormedHasOneStart(f: string)
    requires WellFormed(f)
    ensures Starts(f, DoubleDash) == [0] && Solid(f)
  {
    WellFormedIs(f);
    StartsBelowAre(f, DoubleDash, |f|);
    IncreasingUnique(Starts(f, DoubleDash), [0]);
  }

  lemma CleanOfSeparated(f: string, sep: char)
    requires WellFormed(f) && sep in {',', ' '}
    ensures Clean(f + [sep]) == f
  {
    assert DropComma(f + [sep]) == if sep == ',' then f else f + [sep];
    TrimSpaceKeeps(f);
    TrimSpaceDropsTail(f, [' ']);
  }

  lemma CleanOfLast(f: string)
    requires WellFormed(f)
    ensures Clean(f) == f <==> !EndsInComma(f)
  {
    if EndsInComma(f) {
      TrimSpaceShrinks(DropComma(f));
    } else {
      TrimSpaceKeeps(f);
    }
  }

  lemma PiecesOfWellFormedList(fs: seq<string>, sep: char)
    requires fs != [] && sep in {',', ' '} && forall k | 0 <= k < |fs| :: WellFormed(fs[k])
    ensures TrimSpace(Join(fs, sep)) == Join(fs, sep)
    ensures Pieces(Join(fs, sep), DoubleDash, Clean) == CleanedList(fs, sep, Clean)
  {
    forall k | 0 <= k < |fs| ensures Starts(fs[k], DoubleDash) == [0] && Solid(fs[k]) {
      WellFormedHasOneStart(fs[k]);
    }
    JoinSurvivesTrimming(fs, sep);
    DashesSeparate(sep);
    PiecesOfList(DoubleDash, Clean, sep, fs);
  }

  lemma ParseOfWellFormedList(fs: seq<string>, sep: char)
    requires fs != [] && sep in {',', ' '} && forall k | 0 <= k < |fs| :: WellFormed(fs[k])
    ensures Parse(Join(fs, sep)) == fs[..|fs| - 1] + [Clean(fs[|fs| - 1])]
  {
    PiecesOfWellFormedList(fs, sep);
    forall k | 0 <= k < |fs| - 1 ensures Clean(fs[k] + [sep]) == fs[k] {
      CleanOfSeparated(fs[k], sep);
    }
    CleanedListIs(fs, sep, Clean);
  }

  lemma FirstTwoIncrease(p: seq<nat>)
    requires Increasing(p)
    ensures |p| >= 2 ==> p[0] < p[1]
  {
  }

  lemma PieceHasAtMostOneStart(flags: string, k: nat)
    requires k < |Parse(flags)|
    ensures var f := Parse(flags)[k];
            Solid(f) && |Starts(f, DoubleDash)| <= 1 && (|Starts(f, DoubleDash)| == 1 ==> WellFormed(f))
  {
    var f := Parse(flags)[k];
    WellFormedIs(f);
    PiecesCoverTheText(flags, k);
    forall i: nat | i > 0 ensures !DoubleDash(f, i) {
      NoFlagInsidePiece(flags, k, i);
    }
    StartsBelowAre(f, DoubleDash, |f|);
    var p := Starts(f, DoubleDash);
    assert forall l | 0 <= l < |p| :: p[l] in p && DoubleDash(f, p[l]);
    FirstTwoIncrease(p);
    if |p| == 1 {
      assert p[0] == 0;
      assert DoubleDash(f, p[0]);
    }
  }

  lemma RoundTripNeedsWellFormed(fs: seq<string>, sep: char)
    requires fs != [] && sep in {',', ' '} && Parse(Join(fs, sep)) == fs
    ensures forall k | 0 <= k < |fs| :: WellFormed(fs[k])
  {
    var t := Join(fs, sep);
    forall k | 0 <= k < |fs|
      ensures Solid(fs[k]) && |Starts(fs[k], DoubleDash)| <= 1
      ensures |Starts(fs[k], DoubleDash)| == 1 ==> WellFormed(fs[k])
    {
      PieceHasAtMostOneStart(t, k);
    }
    JoinSurvivesTrimming(fs, sep);
    DashesSeparate(sep);
    StartsOfList(DoubleDash, sep, fs);
    OneStartEach(DoubleDash, fs);
  }

  lemma WellFormedRoundTrips(fs: seq<string>, sep: char)
    requires fs != [] && sep in {',', ' '} && forall k | 0 <= k < |fs| :: WellFormed(fs[k])
    ensures Parse(Join(fs, sep)) == fs <==> !EndsInComma(fs[|fs| - 1])
  {
    var last := fs[|fs| - 1];
    ParseOfWellFormedList(fs, sep);
    CleanOfLast(last);
    assert fs == fs[..|fs| - 1] + [last];
  }

  /** The round trip, exactly. A list of flags joined by "," (as a configuration file is) or by
      " " (as an environment variable is) parses back to that list if and only if every flag
      begins with "--", holds no other "--" and does not end in a space, and the last flag does
      not end in a comma. */
  lemma RoundTripsExactlyWhenWellFormed(fs: seq<string>, sep: char)
    requires sep in {',', ' '}
    ensures Parse(Join(fs, sep)) == fs <==>
              && (forall k | 0 <= k < |fs| :: WellFormed(fs[k]))
              && (fs != [] ==> !EndsInComma(fs[|fs| - 1]))
  {
    if fs == [] {
      TrimSpaceKeeps("");
    } else {
      if Parse(Join(fs, sep)) == fs {
        RoundTripNeedsWellFormed(fs, sep);
      }
      if forall k | 0 <= k < |fs| :: WellFormed(fs[k]) {
        WellFormedRoundTrips(fs, sep);
      }
    }
  }

  /** A list that the comma on its last flag keeps from coming back. */
  lemma TrailingCommaIsLost(f: string)
    requires WellFormed(f) && EndsInComma(f)
    ensures Parse(f) != [f]
  {
    RoundTripsExactlyWhenWellFormed([f], ',');
  }
}
