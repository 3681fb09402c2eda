/** When two declared write scopes may touch the same path: path cover, globs and the overlap test
    (crates/impetus-core/src/declared_write_set.rs). */
module WriteOverlap {
  import opened Text

  type Path = seq<string>

  function Segments(s: string): Path {
    Split(s, '/')
  }

  //
  // Path cover.
  //

  /** `candidate` is `owner`, or `owner` followed by a slash and more. */
  predicate PathCovers(owner: string, candidate: string) {
    owner == candidate || (owner <= candidate && |owner| < |candidate| && candidate[|owner|] == '/')
  }

  lemma {:induction false} SplitAppend(a: string, b: string)
    ensures Segments(a + ['/'] + b) == Segments(a) + Segments(b)
    decreases |a|
  {
    var s := a + ['/'] + b;
    var k := Find(a, '/');
    FindInPrefix(a[..k], '/', if k < |a| then a[k + 1..] + ['/'] + b else b);
    if k == |a| {
      assert a[..k] == a;
      assert s[..k] == a && s[k + 1..] == b;
    } else {
      assert a == a[..k] + ['/'] + a[k + 1..];
      assert s == a[..k] + ['/'] + (a[k + 1..] + ['/'] + b);
      assert s[..k] == a[..k] && s[k + 1..] == a[k + 1..] + ['/'] + b;
      SplitAppend(a[k + 1..], b);
      Assoc([a[..k]], Segments(a[k + 1..]), Segments(b));
    }
  }

  lemma {:induction false} JoinSplitAt(a: Path, b: Path)
    requires a != [] && b != []
    ensures Join(a + b, '/') == Join(a, '/') + ['/'] + Join(b, '/')
    decreases |a|
  {
    assert (a + b)[0] == a[0] && (a + b)[1..] == a[1..] + b;
    if |a| == 1 {
      assert (a + b)[1..] == b;
    } else {
      JoinSplitAt(a[1..], b);
      assert a[0] + ['/'] + (Join(a[1..], '/') + ['/'] + Join(b, '/'))
             == a[0] + ['/'] + Join(a[1..], '/') + ['/'] + Join(b, '/');
    }
  }

  lemma CoverGivesPrefix(owner: string, candidate: string)
    requires PathCovers(owner, candidate)
    ensures Segments(owner) <= Segments(candidate)
  {
    if owner != candidate {
      var rest := candidate[|owner| + 1..];
      assert candidate == owner + ['/'] + rest;
      SplitAppend(owner, rest);
    }
  }

  lemma PrefixGivesCover(owner: string, candidate: string)
    requires Segments(owner) <= Segments(candidate)
    ensures PathCovers(owner, candidate)
  {
    var p, q := Segments(owner), Segments(candidate);
    JoinOfSplit(owner, '/');
    JoinOfSplit(candidate, '/');
    var rest := q[|p|..];
    assert q == p + rest;
    if rest == [] {
      assert q == p;
    } else {
      JoinSplitAt(p, rest);
      StartsAndCovers(owner, Join(rest, '/'));
    }
  }

  lemma StartsAndCovers(owner: string, rest: string)
    ensures PathCovers(owner, owner + ['/'] + rest)
  {
    var c := owner + ['/'] + rest;
    assert c[|owner|] == '/' && c[..|owner|] == owner;
  }

  /** The string test is the prefix test on segments, for any two strings. */
  lemma CoverIsSegmentPrefix(owner: string, candidate: string)
    ensures PathCovers(owner, candidate) <==> Segments(owner) <= Segments(candidate)
  {
    if PathCovers(owner, candidate) {
      CoverGivesPrefix(owner, candidate);
    }
    if Segments(owner) <= Segments(candidate) {
      PrefixGivesCover(owner, candidate);
    }
  }

  //
  // Globs.
  //

  predicate MatchGlob(pat: Path, segs: Path)
    decreases |pat| + |segs|
  {
    if pat == [] then segs == []
    else if pat[0] == "**" then
      || pat[1..] == []
      || MatchGlob(pat[1..], segs)
      || (segs != [] && MatchGlob(pat, segs[1..]))
    else segs != [] && (pat[0] == "*" || pat[0] == segs[0]) && MatchGlob(pat[1..], segs[1..])
  }

  predicate GlobMatches(pattern: string, path: string) {
    MatchGlob(Segments(pattern), Segments(path))
  }

  /** What one pattern segment may stand for. */
  predicate StandsFor(p: string, run: Path) {
    p == "**" || (|run| == 1 && (p == "*" || p == run[0]))
  }

  /** The meaning of a glob: the path falls into one run per pattern segment, any run for `**` and a
      run of exactly one segment otherwise. */
  ghost predicate Matches(pat: Path, segs: Path) {
    exists runs: seq<Path> :: Assigns(pat, segs, runs)
  }

  ghost predicate Assigns(pat: Path, segs: Path, runs: seq<Path>) {
    && |runs| == |pat| && Concat(runs) == segs
    && forall k | 0 <= k < |pat| :: StandsFor(pat[k], runs[k])
  }

  lemma AssignsCons(pat: Path, segs: Path, run: Path, runs: seq<Path>)
    requires pat != [] && StandsFor(pat[0], run) && Assigns(pat[1..], segs, runs)
    ensures Assigns(pat, run + segs, [run] + runs)
  {
    var all := [run] + runs;
    assert all[1..] == runs;
    forall k | 0 <= k < |pat|
      ensures StandsFor(pat[k], all[k])
    {
      if k > 0 {
        assert pat[k] == pat[1..][k - 1] && all[k] == runs[k - 1];
      }
    }
  }

  lemma AssignsTail(pat: Path, segs: Path, runs: seq<Path>)
    requires pat != [] && Assigns(pat, segs, runs)
    ensures StandsFor(pat[0], runs[0]) && segs == runs[0] + Concat(runs[1..])
    ensures Assigns(pat[1..], Concat(runs[1..]), runs[1..])
  {
    assert forall k | 0 <= k < |pat| - 1 :: pat[1..][k] == pat[k + 1] && runs[1..][k] == runs[k + 1];
  }

  lemma {:induction false} MatchGlobSound(pat: Path, segs: Path) returns (runs: seq<Path>)
    requires MatchGlob(pat, segs)
    ensures Assigns(pat, segs, runs)
    decreases |pat| + |segs|
  {
    if pat == [] {
      runs := [];
    } else if pat[0] == "**" {
      if MatchGlob(pat[1..], segs) {
        var rest := MatchGlobSound(pat[1..], segs);
        AssignsCons(pat, segs, [], rest);
        assert [] + segs == segs;
        runs := [[]] + rest;
      } else if pat[1..] == [] {
        assert Assigns(pat[1..], [], []);
        AssignsCons(pat, [], segs, []);
        assert segs + [] == segs;
        runs := [segs] + [];
      } else {
        var some := MatchGlobSound(pat, segs[1..]);
        AssignsTail(pat, segs[1..], some);
        var run := [segs[0]] + some[0];
        AssignsCons(pat, Concat(some[1..]), run, some[1..]);
        assert run + Concat(some[1..]) == segs;
        runs := [run] + some[1..];
      }
    } else {
      var rest := MatchGlobSound(pat[1..], segs[1..]);
      AssignsCons(pat, segs[1..], [segs[0]], rest);
      assert [segs[0]] + segs[1..] == segs;
      runs := [[segs[0]]] + rest;
    }
  }

  lemma {:induction false} MatchGlobComplete(pat: Path, segs: Path, runs: seq<Path>)
    requires Assigns(pat, segs, runs)
    ensures MatchGlob(pat, segs)
    decreases |pat| + |segs|
  {
    if pat != [] {
      AssignsTail(pat, segs, runs);
      var run, rest := runs[0], Concat(runs[1..]);
      if pat[0] == "**" {
        if run == [] {
          assert segs == rest;
          MatchGlobComplete(pat[1..], segs, runs[1..]);
        } else {
          AssignsCons(pat, rest, run[1..], runs[1..]);
          assert run[1..] + rest == segs[1..];
          MatchGlobComplete(pat, segs[1..], [run[1..]] + runs[1..]);
        }
      } else {
        assert segs[0] == run[0] && segs[1..] == rest;
        MatchGlobComplete(pat[1..], segs[1..], runs[1..]);
      }
    }
  }

  /** The matcher agrees with the meaning, for every pattern and path. */
  lemma MatchGlobExact(pat: Path, segs: Path)
    ensures MatchGlob(pat, segs) <==> Matches(pat, segs)
  {
    if MatchGlob(pat, segs) {
      var runs := MatchGlobSound(pat, segs);
    }
    if Matches(pat, segs) {
      var runs: seq<Path> :| Assigns(pat, segs, runs);
      MatchGlobComplete(pat, segs, runs);
    }
  }

  /** Drops trailing any-depth segments, as many as there are. */
  function TrimDeep(s: string): string {
    if |s| >= 3 && s[|s| - 3..] == "/**" then TrimDeep(s[..|s| - 3]) else s
  }

  predicate GlobsMayOverlap(a: string, b: string) {
    || a == b || GlobMatches(a, b) || GlobMatches(b, a)
    || PathCovers(TrimDeep(a), TrimDeep(b)) || PathCovers(TrimDeep(b), TrimDeep(a))
  }

  //
  // Scopes.
  //

  datatype DeclaredWriteSet = DeclaredWriteSet(paths: seq<string>, globs: seq<string>)

  predicate IsUnknown(w: DeclaredWriteSet) {
    w.paths == [] && w.globs == []
  }

  predicate Covers(w: DeclaredWriteSet, candidate: string) {
    || (exists p | p in w.paths :: PathCovers(p, candidate) || PathCovers(candidate, p))
    || (exists g | g in w.globs :: GlobMatches(g, candidate))
  }

  predicate Overlaps(a: DeclaredWriteSet, b: DeclaredWriteSet) {
    || IsUnknown(a) || IsUnknown(b)
    || (exists p | p in a.paths :: Covers(b, p))
    || (exists p | p in b.paths :: Covers(a, p))
    || (exists g | g in a.globs ::
          || (exists h | h in b.globs :: GlobsMayOverlap(g, h))
          || (exists p | p in b.paths :: GlobMatches(g, p)))
    || (exists h | h in b.globs :: exists p | p in a.paths :: GlobMatches(h, p))
  }

  /** The test does not depend on the order of its arguments. */
  lemma OverlapsSymmetric(a: DeclaredWriteSet, b: DeclaredWriteSet)
    ensures Overlaps(a, b) == Overlaps(b, a)
  {
    OverlapsFlips(a, b);
    OverlapsFlips(b, a);
  }

  lemma OverlapsFlips(a: DeclaredWriteSet, b: DeclaredWriteSet)
    ensures Overlaps(a, b) ==> Overlaps(b, a)
  {
    if g, h :| g in a.globs && h in b.globs && GlobsMayOverlap(g, h) {
      assert GlobsMayOverlap(h, g);
    }
  }

  /** `q` is a declared path or lies below one. */
  ghost predicate Under(w: DeclaredWriteSet, q: Path) {
    exists p :: p in w.paths && Segments(p) <= q
  }

  /** For scopes of paths alone the test is exact: it reports an overlap exactly when some workspace
      path lies at or below a declared path of each. */
  lemma PathOverlapExact(a: DeclaredWriteSet, b: DeclaredWriteSet)
    requires a.globs == [] && b.globs == [] && !IsUnknown(a) && !IsUnknown(b)
    ensures Overlaps(a, b) <==> exists q :: Under(a, q) && Under(b, q)
  {
    if Overlaps(a, b) {
      var p, r :| p in a.paths && r in b.paths && (PathCovers(p, r) || PathCovers(r, p));
      CoverIsSegmentPrefix(p, r);
      CoverIsSegmentPrefix(r, p);
      var q := if PathCovers(p, r) then Segments(r) else Segments(p);
      assert Under(a, q) && Under(b, q);
    }
    if exists q :: Under(a, q) && Under(b, q) {
      var q :| Under(a, q) && Under(b, q);
      var p :| p in a.paths && Segments(p) <= q;
      var r :| r in b.paths && Segments(r) <= q;
      CoverIsSegmentPrefix(p, r);
      CoverIsSegmentPrefix(r, p);
      assert Segments(p) <= Segments(r) || Segments(r) <= Segments(p);
      assert Covers(b, p);
    }
  }

  /** Some path at or below `segs` is matched: the pattern can be followed through `segs`. */
  predicate ReachesBelow(pat: Path, segs: Path)
    decreases |pat| + |segs|
  {
    || segs == []
    || (pat != [] &&
        if pat[0] == "**" then ReachesBelow(pat[1..], segs) || ReachesBelow(pat, segs[1..])
        else (pat[0] == "*" || pat[0] == segs[0]) && ReachesBelow(pat[1..], segs[1..]))
  }

  /** Some path a pattern matches. */
  function SomeMatch(pat: Path): Path {
    if pat == [] then []
    else if pat[0] == "**" then SomeMatch(pat[1..])
    else [pat[0]] + SomeMatch(pat[1..])
  }

  lemma {:induction false} SomeMatchMatches(pat: Path)
    ensures MatchGlob(pat, SomeMatch(pat))
    decreases |pat|
  {
    if pat != [] {
      SomeMatchMatches(pat[1..]);
      if pat[0] != "**" {
        assert SomeMatch(pat)[1..] == SomeMatch(pat[1..]);
      }
    }
  }

  lemma {:induction false} ReachesBelowSound(pat: Path, segs: Path) returns (ext: Path)
    requires ReachesBelow(pat, segs)
    ensures MatchGlob(pat, segs + ext)
    decreases |pat| + |segs|
  {
    if segs == [] {
      ext := SomeMatch(pat);
      SomeMatchMatches(pat);
      assert segs + ext == ext;
    } else if pat[0] == "**" && ReachesBelow(pat[1..], segs) {
      ext := ReachesBelowSound(pat[1..], segs);
    } else {
      ext := ReachesBelowSound(if pat[0] == "**" then pat else pat[1..], segs[1..]);
      assert (segs + ext)[1..] == segs[1..] + ext;
    }
  }

  lemma {:induction false} ReachesBelowComplete(pat: Path, segs: Path, ext: Path)
    requires MatchGlob(pat, segs + ext)
    ensures ReachesBelow(pat, segs)
    decreases |pat| + |segs|
  {
    if segs != [] {
      assert (segs + ext)[1..] == segs[1..] + ext;
      if pat[0] == "**" {
        if MatchGlob(pat[1..], segs + ext) {
          ReachesBelowComplete(pat[1..], segs, ext);
        } else {
          assert MatchGlob(pat, segs[1..] + ext);
          ReachesBelowComplete(pat, segs[1..], ext);
        }
      } else {
        ReachesBelowComplete(pat[1..], segs[1..], ext);
      }
    }
  }

  ghost predicate MatchedBy(w: DeclaredWriteSet, q: Path) {
    exists g :: g in w.globs && MatchGlob(Segments(g), q)
  }

  /** Paths against globs: a common path exists exactly when some glob can be followed through some
      declared path; the test reports exactly when a glob matches a declared path itself, and is then right. */
  lemma PathGlobOverlap(a: DeclaredWriteSet, b: DeclaredWriteSet)
    requires a.globs == [] && b.paths == [] && !IsUnknown(a) && !IsUnknown(b)
    ensures (exists q :: Under(a, q) && MatchedBy(b, q))
            <==> exists p, g :: p in a.paths && g in b.globs && ReachesBelow(Segments(g), Segments(p))
    ensures Overlaps(a, b) <==> exists p, g :: p in a.paths && g in b.globs && GlobMatches(g, p)
    ensures Overlaps(a, b) ==> exists q :: Under(a, q) && MatchedBy(b, q)
  {
    if q :| Under(a, q) && MatchedBy(b, q) {
      CommonPathReached(a, b, q);
    }
    if p, g :| p in a.paths && g in b.globs && ReachesBelow(Segments(g), Segments(p)) {
      var ext := ReachesBelowSound(Segments(g), Segments(p));
      var q := Segments(p) + ext;
      assert Under(a, q) && MatchedBy(b, q);
    }
    PathGlobReported(a, b);
    if p, g :| p in a.paths && g in b.globs && GlobMatches(g, p) {
      MatchIsReach(Segments(g), Segments(p));
    }
  }

  lemma CommonPathReached(a: DeclaredWriteSet, b: DeclaredWriteSet, q: Path)
    requires Under(a, q) && MatchedBy(b, q)
    ensures exists p, g :: p in a.paths && g in b.globs && ReachesBelow(Segments(g), Segments(p))
  {
    var p :| p in a.paths && Segments(p) <= q;
    var g :| g in b.globs && MatchGlob(Segments(g), q);
    assert q == Segments(p) + q[|Segments(p)|..];
    ReachesBelowComplete(Segments(g), Segments(p), q[|Segments(p)|..]);
  }

  lemma PathGlobReported(a: DeclaredWriteSet, b: DeclaredWriteSet)
    requires a.globs == [] && b.paths == [] && !IsUnknown(a) && !IsUnknown(b)
    ensures Overlaps(a, b) <==> exists p, g :: p in a.paths && g in b.globs && GlobMatches(g, p)
  {
    if p, g :| p in a.paths && g in b.globs && GlobMatches(g, p) {
      assert Covers(b, p);
    }
  }

  /** A pattern that matches a path can be followed through it. */
  lemma MatchIsReach(pat: Path, segs: Path)
    requires MatchGlob(pat, segs)
    ensures ReachesBelow(pat, segs)
  {
    assert segs + [] == segs;
    ReachesBelowComplete(pat, segs, []);
  }

  /** A path a scope lets its holder write. */
  ghost predicate Touches(w: DeclaredWriteSet, q: Path) {
    Under(w, q) || MatchedBy(w, q)
  }

  /** A pattern read as a path matches itself. */
  lemma {:induction false} PatternMatchesItself(pat: Path)
    ensures MatchGlob(pat, pat)
    decreases |pat|
  {
    if pat != [] {
      PatternMatchesItself(pat[1..]);
      assert pat[0] == "**" ==> MatchGlob(pat, pat[1..]);
    }
  }

  /** Two globs are reported for more than one covering the other as text. */
  predicate GlobsMeet(g: string, h: string) {
    g == h || GlobMatches(g, h) || GlobMatches(h, g)
  }

  lemma MeetingGlobsShare(g: string, h: string) returns (q: Path)
    requires GlobsMeet(g, h)
    ensures MatchGlob(Segments(g), q) && MatchGlob(Segments(h), q)
  {
    PatternMatchesItself(Segments(g));
    PatternMatchesItself(Segments(h));
    q := if GlobMatches(h, g) then Segments(g) else Segments(h);
  }

  /** A report about a declared path is right, whatever mixture of paths and globs the scopes are. */
  lemma CoverIsReal(a: DeclaredWriteSet, b: DeclaredWriteSet, p: string)
    requires p in a.paths && Covers(b, p)
    ensures exists q :: Touches(a, q) && Touches(b, q)
  {
    if r :| r in b.paths && (PathCovers(r, p) || PathCovers(p, r)) {
      CoverIsSegmentPrefix(p, r);
      CoverIsSegmentPrefix(r, p);
      var q := if PathCovers(p, r) then Segments(r) else Segments(p);
      assert Touches(a, q) && Touches(b, q);
    } else {
      var g :| g in b.globs && GlobMatches(g, p);
      assert Under(a, Segments(p)) && MatchedBy(b, Segments(p));
      assert Touches(a, Segments(p)) && Touches(b, Segments(p));
    }
  }

  /** Two known scopes that are reported do share a path, unless the only ground is one glob covering another as
      text. */
  lemma ReportIsReal(a: DeclaredWriteSet, b: DeclaredWriteSet)
    requires !IsUnknown(a) && !IsUnknown(b) && Overlaps(a, b)
    requires forall g, h | g in a.globs && h in b.globs && GlobsMayOverlap(g, h) :: GlobsMeet(g, h)
    ensures exists q :: Touches(a, q) && Touches(b, q)
  {
    if p :| p in a.paths && Covers(b, p) {
      CoverIsReal(a, b, p);
    } else if p :| p in b.paths && Covers(a, p) {
      CoverIsReal(b, a, p);
      var q :| Touches(b, q) && Touches(a, q);
    } else {
      var g, h :| g in a.globs && h in b.globs && GlobsMayOverlap(g, h);
      var q := MeetingGlobsShare(g, h);
      assert MatchedBy(a, q) && MatchedBy(b, q);
      assert Touches(a, q) && Touches(b, q);
    }
  }

  /** One glob covering another as text, with no path in common: reported all the same. */
  lemma CoveringGlobsSpurious(c: string, d: string)
    requires '/' !in c && '/' !in d && c != "**" && d != "**" && c != "" && d != ""
    ensures var a, b := DeclaredWriteSet([], [c]), DeclaredWriteSet([], [c + ['/'] + d]);
            Overlaps(a, b) && forall q :: !(MatchedBy(a, q) && MatchedBy(b, q))
  {
    var g := c + ['/'] + d;
    var a, b := DeclaredWriteSet([], [c]), DeclaredWriteSet([], [g]);
    assert TrimDeep(c) == c by {
      assert |c| >= 3 ==> c[|c| - 3..][0] in c;
    }
    TrimKept(c, d);
    StartsAndCovers(c, d);
    assert c in a.globs && g in b.globs && GlobsMayOverlap(c, g);
    forall q
      ensures !(MatchedBy(a, q) && MatchedBy(b, q))
    {
      NoCommonPath(c, d, q);
    }
  }

  lemma NoCommonPath(c: string, d: string, q: Path)
    requires '/' !in c && '/' !in d && c != "**" && d != "**"
    ensures !(MatchGlob(Segments(c), q) && MatchGlob(Segments(c + ['/'] + d), q))
  {
    FindInPrefix(c, '/', "");
    FindInPrefix(d, '/', "");
    SplitAppend(c, d);
    assert Segments(c) == [c] && Segments(c + ['/'] + d) == [c, d];
    assert [c, d][1..] == [d];
    OneSegment(c, q);
    if q != [] {
      OneSegment(d, q[1..]);
    }
  }

  lemma TrimKept(c: string, d: string)
    requires '/' !in d && d != "**" && d != ""
    ensures var g := c + ['/'] + d; TrimDeep(g) == g
  {
    var g := c + ['/'] + d;
    var n := |g|;
    assert n >= 3 ==> g[n - 3..] == [g[n - 3], g[n - 2], g[n - 1]];
    assert |d| >= 3 ==> g[n - 3] == d[|d| - 3] && d[|d| - 3] in d;
    assert |d| == 2 ==> d == [g[n - 2], g[n - 1]];
    assert |d| == 1 ==> g[n - 2] == '/';
  }

  /** A single segment pattern matches single segments only. */
  lemma OneSegment(c: string, q: Path)
    requires c != "**"
    ensures MatchGlob([c], q) ==> |q| == 1
  {
    assert [c][1..] == [];
    if q != [] {
      assert MatchGlob([], q[1..]) <==> q[1..] == [];
    }
  }

  /** A directory against a glob that reaches deeper: a common path, and no report. */
  lemma DeeperGlobMissed(d: string, x: string)
    requires '/' !in d && '/' !in x && d != "**" && d != "*" && x != "**"
    ensures var a, b := DeclaredWriteSet([d], []), DeclaredWriteSet([], [d + ['/'] + x]);
            && !Overlaps(a, b)
            && exists q :: Under(a, q) && MatchedBy(b, q)
  {
    var g := d + ['/'] + x;
    var a, b := DeclaredWriteSet([d], []), DeclaredWriteSet([], [g]);
    FindInPrefix(d, '/', "");
    FindInPrefix(x, '/', "");
    SplitAppend(d, x);
    assert Segments(d) == [d] && Segments(x) == [x] && Segments(g) == [d, x];
    assert [d, x][1..] == [x] && [d][1..] == [];
    assert !MatchGlob([x], []);
    assert !GlobMatches(g, d);
    assert ReachesBelow([x], []);
    assert ReachesBelow(Segments(g), Segments(d));
    assert d in a.paths && g in b.globs;
    PathGlobOverlap(a, b);
  }

  /** Two globs that cross share a path, and are not reported. */
  lemma CrossingGlobsMissed(c: string, d: string)
    requires '/' !in c && '/' !in d && c != "**" && c != "*" && d != "**" && d != "*" && c != "" && d != ""
    ensures var a, b := DeclaredWriteSet([], [c + ['/'] + "*"]), DeclaredWriteSet([], ["*" + ['/'] + d]);
            && !Overlaps(a, b)
            && MatchedBy(a, [c, d]) && MatchedBy(b, [c, d])
  {
    var g, h := c + ['/'] + "*", "*" + ['/'] + d;
    FindInPrefix(c, '/', "");
    FindInPrefix(d, '/', "");
    FindInPrefix("*", '/', "");
    SplitAppend(c, "*");
    SplitAppend("*", d);
    assert Segments(g) == [c, "*"] && Segments(h) == ["*", d];
    CrossMatches(c, d);
    LastStarKept(c);
    StarKept(d);
    CoverIsSegmentPrefix(g, h);
    CoverIsSegmentPrefix(h, g);
    assert !GlobsMayOverlap(g, h);
    var a, b := DeclaredWriteSet([], [g]), DeclaredWriteSet([], [h]);
    assert g in a.globs && h in b.globs;
  }

  lemma StarKept(d: string)
    requires '/' !in d && d != "**"
    ensures TrimDeep("*" + ['/'] + d) == "*" + ['/'] + d
  {
    var h := "*" + ['/'] + d;
    assert forall i | 2 <= i < |h| :: h[i] == d[i - 2] && d[i - 2] in d;
    assert |h| == 4 && d[0] == '*' && d[1] == '*' ==> d == "**";
    assert |h| >= 3 ==> h[|h| - 3] == h[|h| - 3..][0] && h[|h| - 2] == h[|h| - 3..][1] && h[|h| - 1] == h[|h| - 3..][2];
  }

  lemma LastStarKept(c: string)
    ensures TrimDeep(c + ['/'] + "*") == c + ['/'] + "*"
  {
    var g := c + ['/'] + "*";
    assert g[|g| - 2] == '/';
    assert |g| >= 3 ==> g[|g| - 2] == g[|g| - 3..][1];
  }

  lemma CrossMatches(c: string, d: string)
    requires c != "**" && c != "*" && d != "**" && d != "*"
    ensures MatchGlob([c, "*"], [c, d]) && MatchGlob(["*", d], [c, d])
    ensures !MatchGlob([c, "*"], ["*", d]) && !MatchGlob(["*", d], [c, "*"])
  {
    assert [c, "*"][1..] == ["*"] && ["*", d][1..] == [d] && [c, d][1..] == [d];
    assert ["*"][1..] == [] && [d][1..] == [];
    assert MatchGlob([], []);
    assert MatchGlob(["*"], [d]) && MatchGlob([d], [d]);
    assert !MatchGlob([d], ["*"]);
  }
}
