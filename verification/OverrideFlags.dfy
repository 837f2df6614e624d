/** parseOverrideFlags: cut the text at every dash that begins it or follows a space or tab. */
module OverrideFlags {
  import opened FlagText

  predicate FlagDash(t: string, i: nat) {
    i < |t| && t[i] == '-' && (i == 0 || t[i - 1] == ' ' || t[i - 1] == '\t')
  }

  /** The meaning of the scanner: one trimmed piece per flag dash. */
  function Parse(flags: string): seq<string> {
    Pieces(TrimSpace(flags), FlagDash, TrimSpace)
  }

  /** What the loop holds before position i: the finished flags, and in the builder the flag
      that has been started and not finished. The builder is empty exactly until the first flag
      is seen. */
  ghost predicate Scanned(t: string, i: nat, flags: seq<string>, current: string, seenFirstFlag: bool)
    requires i <= |t|
  {
    var n := |StartsBelow(t, FlagDash, i)|;
    && seenFirstFlag == (current != "")
    && seenFirstFlag == (n > 0)
    && (n == 0 ==> flags == [])
    && (n > 0 ==>
          && n <= |Starts(t, FlagDash)|
          && |flags| == n - 1
          && Starts(t, FlagDash)[n - 1] < i
          && current == t[Starts(t, FlagDash)[n - 1]..i]
          && forall k | 0 <= k < n - 1 :: flags[k] == TrimSpace(Segment(t, FlagDash, k)))
  }

  /** Before the next flag dash the builder only grows. */
  lemma ScannedGrows(t: string, i: nat, flags: seq<string>, current: string, seen: bool)
    requires i < |t| && Scanned(t, i, flags, current, seen) && !FlagDash(t, i)
    ensures Scanned(t, i + 1, flags, if seen then current + [t[i]] else current, seen)
  {
    if seen {
      var a := Starts(t, FlagDash)[|StartsBelow(t, FlagDash, i)| - 1];
      assert t[a..i + 1] == t[a..i] + [t[i]];
    }
  }

  /** At a flag dash the builder holds exactly the segment of the flag before it. */
  lemma BuilderHoldsSegment(t: string, i: nat, flags: seq<string>, current: string)
    requires i < |t| && Scanned(t, i, flags, current, true) && FlagDash(t, i)
    ensures |flags| < |Starts(t, FlagDash)| && current == Segment(t, FlagDash, |flags|)
  {
    var m := StartsSplit(t, FlagDash, i);
  }

  lemma ScannedStarts(t: string, i: nat, flags: seq<string>, current: string, seen: bool)
    requires i < |t| && Scanned(t, i, flags, current, seen) && FlagDash(t, i)
    ensures Scanned(t, i + 1, if seen then flags + [TrimSpace(current)] else flags, [t[i]], true)
  {
    var m := StartsSplit(t, FlagDash, i);
    if seen {
      BuilderHoldsSegment(t, i, flags, current);
    }
    assert t[i..i + 1] == [t[i]];
  }

  lemma ScannedAll(t: string, flags: seq<string>, current: string, seen: bool)
    requires Scanned(t, |t|, flags, current, seen)
    ensures Pieces(t, FlagDash, TrimSpace) == if current != "" then flags + [TrimSpace(current)] else flags
  {
    if seen {
      assert Segment(t, FlagDash, |flags|) == current;
    }
  }

  /** The body of the loop, at one position of the text. */
  method ScanByte(flagsStr: string, i: nat, flagsBefore: seq<string>, builder: string, seenBefore: bool)
    returns (flags: seq<string>, current: string, seenFirstFlag: bool)
    requires i < |flagsStr| && Scanned(flagsStr, i, flagsBefore, builder, seenBefore)
    ensures Scanned(flagsStr, i + 1, flags, current, seenFirstFlag)
  {
    flags, current, seenFirstFlag := flagsBefore, builder, seenBefore;
    var ch := flagsStr[i];
    var isAtFlagStart := false;
    if ch == '-' {
      var atBoundary := i == 0 || flagsStr[i - 1] == ' ' || flagsStr[i - 1] == '\t';
      if atBoundary {
        isAtFlagStart := true;
      }
    }
    if isAtFlagStart {
      ScannedStarts(flagsStr, i, flags, current, seenFirstFlag);
    } else {
      ScannedGrows(flagsStr, i, flags, current, seenFirstFlag);
    }

    if isAtFlagStart && seenFirstFlag && |current| > 0 {
      flags := flags + [TrimSpace(current)];
      current := "";
    }
    if isAtFlagStart {
      seenFirstFlag := true;
    }
    if seenFirstFlag {
      current := current + [ch];
    }
  }

  /** The scanner of the source. */
  method ParseOverrideFlags(text: string) returns (flags: seq<string>)
    ensures flags == Parse(text)
  {
    var flagsStr := TrimSpace(text);
    if flagsStr == "" {
      return [];
    }
    flags := [];
    var current := "";
    var seenFirstFlag := false;
    var i := 0;
    while i < |flagsStr|
      invariant i <= |flagsStr| && Scanned(flagsStr, i, flags, current, seenFirstFlag)
    {
      flags, current, seenFirstFlag := ScanByte(flagsStr, i, flags, current, seenFirstFlag);
      i := i + 1;
    }
    ScannedAll(flagsStr, flags, current, seenFirstFlag);
    if |current| > 0 {
      flags := flags + [TrimSpace(current)];
    }
  }

  // ---------- Round trips ----------

  /** A flag that survives joining by spaces: it begins with a dash, has no space at its ends,
      and no dash inside it follows a space or tab. */
  predicate WellFormed(f: string) {
    && f != [] && f[0] == '-' && !IsSpace(f[|f| - 1])
    && forall i | 1 <= i < |f| :: f[i] == '-' ==> f[i - 1] != ' ' && f[i - 1] != '\t'
  }

  lemma WellFormedIs(f: string)
    ensures WellFormed(f) <==> Solid(f) && f[0] == '-' && forall i | 1 <= i < |f| :: !FlagDash(f, i)
  {
    forall i | 1 <= i < |f| ensures FlagDash(f, i) <==> f[i] == '-' && (f[i - 1] == ' ' || f[i - 1] == '\t') {
    }
    if forall i | 1 <= i < |f| :: !FlagDash(f, i) {
      forall i | 1 <= i < |f| ensures f[i] == '-' ==> f[i - 1] != ' ' && f[i - 1] != '\t' {
        assert !FlagDash(f, i);
      }
    }
  }

  lemma SpacesSeparate()
    ensures AlwaysSeparates(FlagDash, ' ')
  {
    forall f, rest ensures Separates(FlagDash, ' ', f, rest) {
      var t := f + [' '] + rest;
      assert forall i | 0 <= i < |f| :: t[i] == f[i];
      assert t[|f|] == ' ';
      assert forall i | 0 <= i < |rest| :: t[|f| + 1 + i] == rest[i];
      forall i: nat | i < |rest| ensures FlagDash(t, |f| + 1 + i) == FlagDash(rest, i) {
        if i > 0 {
          assert t[|f| + 1 + i - 1] == rest[i - 1];
        }
      }
    }
  }

  lemma WellFormedHasOneStart(f: string)
    requires WellFormed(f)
    ensures Starts(f, FlagDash) == [0]
  {
    WellFormedIs(f);
    StartsBelowAre(f, FlagDash, |f|);
    IncreasingUnique(Starts(f, FlagDash), [0]);
  }

  lemma PiecesOfWellFormedList(fs: seq<string>)
    requires fs != [] && forall k | 0 <= k < |fs| :: WellFormed(fs[k])
    ensures TrimSpace(Join(fs, ' ')) == Join(fs, ' ')
    ensures Pieces(Join(fs, ' '), FlagDash, TrimSpace) == CleanedList(fs, ' ', TrimSpace)
  {
    forall k | 0 <= k < |fs| ensures Starts(fs[k], FlagDash) == [0] {
      WellFormedHasOneStart(fs[k]);
    }
    JoinSurvivesTrimming(fs, ' ');
    SpacesSeparate();
    PiecesOfList(FlagDash, TrimSpace, ' ', fs);
  }

  lemma WellFormedListRoundTrips(fs: seq<string>)
    requires fs != [] && forall k | 0 <= k < |fs| :: WellFormed(fs[k])
    ensures Parse(Join(fs, ' ')) == fs
  {
    PiecesOfWellFormedList(fs);
    forall k | 0 <= k < |fs| ensures TrimSpace(fs[k] + [' ']) == fs[k] && TrimSpace(fs[k]) == fs[k] {
      TrimmingWellFormed(fs[k]);
    }
    CleanedListUnchanged(fs, ' ', TrimSpace);
  }

  lemma TrimmingWellFormed(f: string)
    requires WellFormed(f)
    ensures TrimSpace(f + [' ']) == f && TrimSpace(f) == f
  {
    TrimSpaceDropsTail(f, [' ']);
    TrimSpaceKeeps(f);
  }

  lemma TrimmedSegmentIs(t: string, k: nat)
    requires k < |Starts(t, FlagDash)|
    ensures var s := Segment(t, FlagDash, k); s[0] == '-' && TrimSpace(s) <= s && Solid(TrimSpace(s))
  {
    StartAt(t, FlagDash, k);
    var s := Segment(t, FlagDash, k);
    var n := TrimRightIs(s);
    var tail := s[n..];
    assert !AllSpace(s) by {
      assert !IsSpace(s[0]);
    }
    assert n == 0 ==> tail == s;
  }

  lemma FlagDashInSegment(t: string, k: nat, r: string, i: nat)
    requires k < |Starts(t, FlagDash)| && r <= Segment(t, FlagDash, k) && 1 <= i < |r|
    ensures !FlagDash(r, i)
  {
    var a := Starts(t, FlagDash)[k];
    StartAt(t, FlagDash, k);
    BetweenStarts(t, FlagDash, k, a + i);
    assert r[i] == t[a + i] && r[i - 1] == t[a + i - 1];
  }

  /** Whatever the input, every flag the scanner returns is well formed. */
  lemma ParsedFlagsAreWellFormed(s: string, k: nat)
    requires k < |Parse(s)|
    ensures WellFormed(Parse(s)[k])
  {
    var t := TrimSpace(s);
    TrimmedSegmentIs(t, k);
    WellFormedIs(Parse(s)[k]);
    forall i: nat | 1 <= i < |Parse(s)[k]| ensures !FlagDash(Parse(s)[k], i) {
      FlagDashInSegment(t, k, Parse(s)[k], i);
    }
  }

  /** The round trip, exactly: a list joined by spaces parses back to itself if and only if each
      of its flags is well formed. */
  lemma RoundTripsExactlyWhenWellFormed(fs: seq<string>)
    ensures Parse(Join(fs, ' ')) == fs <==> forall k | 0 <= k < |fs| :: WellFormed(fs[k])
  {
    if fs == [] {
      TrimSpaceKeeps("");
    } else {
      if Parse(Join(fs, ' ')) == fs {
        forall k | 0 <= k < |fs| ensures WellFormed(fs[k]) {
          ParsedFlagsAreWellFormed(Join(fs, ' '), k);
        }
      }
      if forall k | 0 <= k < |fs| :: WellFormed(fs[k]) {
        WellFormedListRoundTrips(fs);
      }
    }
  }

  /** For every input, parsing what was parsed, joined by spaces, changes nothing. */
  lemma ParsingIsIdempotent(s: string)
    ensures Parse(Join(Parse(s), ' ')) == Parse(s)
  {
    forall k | 0 <= k < |Parse(s)| ensures WellFormed(Parse(s)[k]) {
      ParsedFlagsAreWellFormed(s, k);
    }
    RoundTripsExactlyWhenWellFormed(Parse(s));
  }
}
