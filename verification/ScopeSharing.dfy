/** Exactly when two declared write scopes share a path, and so exactly when the overlap test is right
    (crates/impetus-core/src/declared_write_set.rs). */
module ScopeSharing {
  import opened Text
  import opened WriteOverlap

  //
  // Two globs.
  //

  /** Two patterns can be followed side by side to their ends. */
  predicate Cross(p: Path, r: Path)
    decreases |p| + |r|
  {
    if p == [] && r == [] then true
    else if p != [] && p[0] == "**" then Cross(p[1..], r) || (r != [] && Cross(p, r[1..]))
    else if r != [] && r[0] == "**" then Cross(p, r[1..]) || (p != [] && Cross(p[1..], r))
    else p != [] && r != [] && (p[0] == r[0] || p[0] == "*" || r[0] == "*") && Cross(p[1..], r[1..])
  }

  lemma {:induction false} CrossSound(p: Path, r: Path) returns (q: Path)
    requires Cross(p, r)
    ensures MatchGlob(p, q) && MatchGlob(r, q)
    decreases |p| + |r|
  {
    if p == [] && r == [] {
      q := [];
    } else if p != [] && p[0] == "**" {
      if Cross(p[1..], r) {
        q := CrossSound(p[1..], r);
      } else {
        var rest := CrossSound(p, r[1..]);
        q := OneMore(p, r, rest);
      }
    } else if r != [] && r[0] == "**" {
      if Cross(p, r[1..]) {
        q := CrossSound(p, r[1..]);
      } else {
        var rest := CrossSound(p[1..], r);
        q := OneMore(r, p, rest);
      }
    } else {
      var rest := CrossSound(p[1..], r[1..]);
      q := [if p[0] == "*" then r[0] else p[0]] + rest;
      assert q[1..] == rest;
    }
  }

  /** A path shared with the rest of a pattern is one shared with the pattern, if the other one goes on to any depth. */
  lemma OneMore(deep: Path, r: Path, rest: Path) returns (q: Path)
    requires deep != [] && deep[0] == "**" && r != [] && MatchGlob(deep, rest) && MatchGlob(r[1..], rest)
    ensures MatchGlob(deep, q) && MatchGlob(r, q)
  {
    if r[0] == "**" {
      q := rest;
    } else {
      q := [r[0]] + rest;
      assert q[1..] == rest;
    }
  }

  lemma {:induction false} DeepCrosses(p: Path)
    ensures Cross(["**"], p) && Cross(p, ["**"])
    decreases |p|
  {
    assert ["**"][1..] == [];
    if p != [] {
      DeepCrosses(p[1..]);
    }
  }

  lemma {:induction false} CrossComplete(p: Path, r: Path, q: Path)
    requires MatchGlob(p, q) && MatchGlob(r, q)
    ensures Cross(p, r)
    decreases |p| + |r| + |q|
  {
    if p != [] && p[0] == "**" {
      if p[1..] == [] {
        assert p == ["**"];
        DeepCrosses(r);
      } else if MatchGlob(p[1..], q) {
        CrossComplete(p[1..], r, q);
      } else {
        CrossDeep(p, r, q);
      }
    } else if r != [] && r[0] == "**" {
      if r[1..] == [] {
        assert r == ["**"];
        DeepCrosses(p);
      } else if MatchGlob(r[1..], q) {
        CrossComplete(p, r[1..], q);
      } else {
        CrossComplete(p[1..], r, q[1..]);
      }
    } else if p != [] {
      CrossComplete(p[1..], r[1..], q[1..]);
    }
  }

  /** The first pattern goes on to any depth and takes up a segment of the path. */
  lemma {:induction false} CrossDeep(p: Path, r: Path, q: Path)
    requires p != [] && p[0] == "**" && q != [] && MatchGlob(p, q[1..]) && MatchGlob(r, q)
    ensures Cross(p, r)
    decreases |p| + |r| + |q|, 0
  {
    if r[0] != "**" {
      CrossComplete(p, r[1..], q[1..]);
    } else if r[1..] == [] {
      assert r == ["**"];
      DeepCrosses(p);
    } else if MatchGlob(r[1..], q) {
      CrossDeep(p, r[1..], q);
    } else {
      CrossComplete(p, r, q[1..]);
    }
  }

  ghost predicate BothMatch(g: string, h: string, q: Path) {
    MatchGlob(Segments(g), q) && MatchGlob(Segments(h), q)
  }

  /** Two globs match a common path if and only if their patterns cross. */
  lemma CrossExact(g: string, h: string)
    ensures Cross(Segments(g), Segments(h)) <==> exists q :: BothMatch(g, h, q)
  {
    if Cross(Segments(g), Segments(h)) {
      var q := CrossSound(Segments(g), Segments(h));
      assert BothMatch(g, h, q);
    }
    if q :| BothMatch(g, h, q) {
      CrossComplete(Segments(g), Segments(h), q);
    }
  }

  /** One glob covers the other as text, any-depth endings apart. */
  predicate TextCovers(g: string, h: string) {
    PathCovers(TrimDeep(g), TrimDeep(h)) || PathCovers(TrimDeep(h), TrimDeep(g))
  }

  lemma MeetingGlobsCross(g: string, h: string)
    requires GlobsMeet(g, h)
    ensures Cross(Segments(g), Segments(h))
  {
    var q := MeetingGlobsShare(g, h);
    CrossComplete(Segments(g), Segments(h), q);
  }

  /** The glob-to-glob test reports a pair with no common path exactly when one covers the other as text and they do
      not cross, and misses one exactly when they cross and it has no ground. */
  lemma GlobPairExact(g: string, h: string)
    ensures var common := exists q :: BothMatch(g, h, q);
            && (GlobsMayOverlap(g, h) && !common <==> TextCovers(g, h) && !Cross(Segments(g), Segments(h)))
            && (!GlobsMayOverlap(g, h) && common
                <==> !GlobsMeet(g, h) && !TextCovers(g, h) && Cross(Segments(g), Segments(h)))
  {
    CrossExact(g, h);
    if GlobsMeet(g, h) {
      MeetingGlobsCross(g, h);
    }
  }

  //
  // Globs that end at any depth.
  //

  function Deep(n: nat): Path {
    if n == 0 then [] else ["**"] + Deep(n - 1)
  }

  lemma {:induction false} DeepSnoc(n: nat)
    ensures Deep(n) + ["**"] == Deep(n + 1)
  {
    if n != 0 {
      DeepSnoc(n - 1);
    }
  }

  /** What trimming drops is a row of any-depth segments. */
  lemma {:induction false} TrimDropsDeep(s: string) returns (n: nat)
    ensures Segments(s) == Segments(TrimDeep(s)) + Deep(n) && (n == 0 <==> TrimDeep(s) == s)
    decreases |s|
  {
    if |s| >= 3 && s[|s| - 3..] == "/**" {
      var t := s[..|s| - 3];
      var m := TrimDropsDeep(t);
      assert s == t + ['/'] + "**";
      SplitAppend(t, "**");
      FindInPrefix("**", '/', "");
      DeepSnoc(m);
      Assoc(Segments(TrimDeep(t)), Deep(m), ["**"]);
      n := m + 1;
      TrimShortens(t);
    } else {
      n := 0;
    }
  }

  lemma {:induction false} TrimShortens(s: string)
    ensures |TrimDeep(s)| <= |s|
    decreases |s|
  {
    if |s| >= 3 && s[|s| - 3..] == "/**" {
      TrimShortens(s[..|s| - 3]);
    }
  }

  lemma {:induction false} DeepMatches(n: nat, q: Path)
    requires n > 0
    ensures MatchGlob(Deep(n), q)
  {
    assert Deep(n)[1..] == Deep(n - 1);
    if n > 1 {
      DeepMatches(n - 1, q);
    }
  }

  lemma {:induction false} SomeMatchConcat(p: Path, r: Path)
    ensures SomeMatch(p + r) == SomeMatch(p) + SomeMatch(r)
    decreases |p|
  {
    if p == [] {
      assert p + r == r;
    } else {
      TailOfAppend(p, r);
      SomeMatchConcat(p[1..], r);
    }
  }

  lemma {:induction false} MatchGoesOn(p: Path, r: Path, q: Path)
    requires MatchGlob(r, q)
    ensures MatchGlob(p + r, SomeMatch(p) + q)
    decreases |p|
  {
    if p == [] {
      assert p + r == r && SomeMatch(p) + q == q;
    } else {
      TailOfAppend(p, r);
      MatchGoesOn(p[1..], r, q);
      if p[0] != "**" {
        assert (SomeMatch(p) + q)[1..] == SomeMatch(p[1..]) + q;
      }
    }
  }

  /** A glob that ends at any depth and covers another as text does share a path with it: a spurious report comes from
      a covering glob that does not. */
  lemma DeepCoverIsReal(g: string, h: string)
    requires PathCovers(TrimDeep(g), TrimDeep(h)) && TrimDeep(g) != g
    ensures Cross(Segments(g), Segments(h))
  {
    var k := TrimDropsDeep(g);
    var m := TrimDropsDeep(h);
    CoverIsSegmentPrefix(TrimDeep(g), TrimDeep(h));
    var p := Segments(TrimDeep(g));
    var rest := Segments(h)[|p|..];
    assert Segments(h) == p + rest;
    SomeMatchConcat(p, rest);
    SomeMatchMatches(p + rest);
    DeepMatches(k, SomeMatch(rest));
    MatchGoesOn(p, Deep(k), SomeMatch(rest));
    CrossComplete(Segments(g), Segments(h), SomeMatch(p) + SomeMatch(rest));
  }

  //
  // Two scopes.
  //

  ghost predicate PathsCover(a: DeclaredWriteSet, b: DeclaredWriteSet) {
    exists p, r :: p in a.paths && r in b.paths && (PathCovers(p, r) || PathCovers(r, p))
  }

  /** A glob of the first can be followed through a path of the second. */
  ghost predicate GlobsReach(a: DeclaredWriteSet, b: DeclaredWriteSet) {
    exists g, p :: g in a.globs && p in b.paths && ReachesBelow(Segments(g), Segments(p))
  }

  ghost predicate GlobsCross(a: DeclaredWriteSet, b: DeclaredWriteSet) {
    exists g, h :: g in a.globs && h in b.globs && Cross(Segments(g), Segments(h))
  }

  /** What can be read off two scopes, of any mixture of paths and globs, about the paths they share. */
  ghost predicate Shares(a: DeclaredWriteSet, b: DeclaredWriteSet) {
    PathsCover(a, b) || GlobsReach(a, b) || GlobsReach(b, a) || GlobsCross(a, b)
  }

  ghost predicate CommonPath(a: DeclaredWriteSet, b: DeclaredWriteSet) {
    exists q :: Touches(a, q) && Touches(b, q)
  }

  lemma CommonWitness(a: DeclaredWriteSet, b: DeclaredWriteSet, q: Path)
    requires Touches(a, q) && Touches(b, q)
    ensures CommonPath(a, b) && CommonPath(b, a)
  {
  }

  lemma CoverShared(a: DeclaredWriteSet, b: DeclaredWriteSet, p: string, r: string)
    requires p in a.paths && r in b.paths
    ensures PathCovers(p, r) || PathCovers(r, p) <==> Segments(p) <= Segments(r) || Segments(r) <= Segments(p)
    ensures PathCovers(p, r) || PathCovers(r, p) ==> CommonPath(a, b)
  {
    CoverIsSegmentPrefix(p, r);
    CoverIsSegmentPrefix(r, p);
    if PathCovers(p, r) || PathCovers(r, p) {
      var q := if PathCovers(p, r) then Segments(r) else Segments(p);
      assert Under(a, q) && Under(b, q);
      CommonWitness(a, b, q);
    }
  }

  lemma ReachShared(a: DeclaredWriteSet, b: DeclaredWriteSet)
    requires GlobsReach(a, b)
    ensures CommonPath(a, b) && CommonPath(b, a)
  {
    var g, p :| g in a.globs && p in b.paths && ReachesBelow(Segments(g), Segments(p));
    var ext := ReachesBelowSound(Segments(g), Segments(p));
    var q := Segments(p) + ext;
    assert MatchedBy(a, q) && Under(b, q);
    CommonWitness(a, b, q);
  }

  lemma CrossShared(a: DeclaredWriteSet, b: DeclaredWriteSet)
    requires GlobsCross(a, b)
    ensures CommonPath(a, b)
  {
    var g, h :| g in a.globs && h in b.globs && Cross(Segments(g), Segments(h));
    var q := CrossSound(Segments(g), Segments(h));
    assert MatchedBy(a, q) && MatchedBy(b, q);
    CommonWitness(a, b, q);
  }

  lemma SharedPathsCover(a: DeclaredWriteSet, b: DeclaredWriteSet, q: Path)
    requires Under(a, q) && Under(b, q)
    ensures PathsCover(a, b)
  {
    var p :| p in a.paths && Segments(p) <= q;
    var r :| r in b.paths && Segments(r) <= q;
    CoverShared(a, b, p, r);
  }

  lemma SharedGlobsCross(a: DeclaredWriteSet, b: DeclaredWriteSet, q: Path)
    requires MatchedBy(a, q) && MatchedBy(b, q)
    ensures GlobsCross(a, b)
  {
    var g :| g in a.globs && MatchGlob(Segments(g), q);
    var h :| h in b.globs && MatchGlob(Segments(h), q);
    CrossComplete(Segments(g), Segments(h), q);
  }

  lemma SharedIsRead(a: DeclaredWriteSet, b: DeclaredWriteSet, q: Path)
    requires Touches(a, q) && Touches(b, q)
    ensures Shares(a, b)
  {
    if Under(a, q) {
      if Under(b, q) {
        SharedPathsCover(a, b, q);
      } else {
        CommonPathReached(a, b, q);
      }
    } else if Under(b, q) {
      CommonPathReached(b, a, q);
    } else {
      SharedGlobsCross(a, b, q);
    }
  }

  /** Two scopes share a path if and only if a path of one covers one of the other, a glob of one can be followed
      through a path of the other, or two globs cross. */
  lemma SharesExact(a: DeclaredWriteSet, b: DeclaredWriteSet)
    ensures Shares(a, b) <==> CommonPath(a, b)
  {
    if PathsCover(a, b) {
      var p, r :| p in a.paths && r in b.paths && (PathCovers(p, r) || PathCovers(r, p));
      CoverShared(a, b, p, r);
    } else if GlobsReach(a, b) {
      ReachShared(a, b);
    } else if GlobsReach(b, a) {
      ReachShared(b, a);
    } else if GlobsCross(a, b) {
      CrossShared(a, b);
    }
    if q :| Touches(a, q) && Touches(b, q) {
      SharedIsRead(a, b, q);
    }
  }

  //
  // When the test is right.
  //

  /** Some glob of the one covers a glob of the other as text. */
  ghost predicate GlobTextsCover(a: DeclaredWriteSet, b: DeclaredWriteSet) {
    exists g, h :: g in a.globs && h in b.globs && TextCovers(g, h)
  }

  /** A path of one covering one of the other is always reported. */
  lemma CoverIsReported(a: DeclaredWriteSet, b: DeclaredWriteSet)
    requires PathsCover(a, b)
    ensures Overlaps(a, b)
  {
    var p, r :| p in a.paths && r in b.paths && (PathCovers(p, r) || PathCovers(r, p));
    assert Covers(b, p);
  }

  lemma TextCoverIsReported(a: DeclaredWriteSet, b: DeclaredWriteSet)
    requires GlobTextsCover(a, b)
    ensures Overlaps(a, b)
  {
    var g, h :| g in a.globs && h in b.globs && TextCovers(g, h);
    assert GlobsMayOverlap(g, h);
  }

  /** A report with no text cover behind it is right. */
  lemma OtherReportIsReal(a: DeclaredWriteSet, b: DeclaredWriteSet)
    requires !IsUnknown(a) && !IsUnknown(b) && Overlaps(a, b) && !GlobTextsCover(a, b)
    ensures CommonPath(a, b)
  {
    forall g, h | g in a.globs && h in b.globs && GlobsMayOverlap(g, h)
      ensures GlobsMeet(g, h)
    {
      assert !TextCovers(g, h);
    }
    ReportIsReal(a, b);
  }

  /** Of two known scopes, a report is spurious exactly when one glob covers another as text and nothing is shared; a
      shared path is missed exactly when nothing is reported and a glob reaches through a path or two globs cross.
      Otherwise the test is right. */
  lemma TestExact(a: DeclaredWriteSet, b: DeclaredWriteSet)
    requires !IsUnknown(a) && !IsUnknown(b)
    ensures Overlaps(a, b) && !CommonPath(a, b) <==> GlobTextsCover(a, b) && !Shares(a, b)
    ensures !Overlaps(a, b) && CommonPath(a, b)
            <==> !Overlaps(a, b) && (GlobsReach(a, b) || GlobsReach(b, a) || GlobsCross(a, b))
  {
    SharesExact(a, b);
    if PathsCover(a, b) {
      CoverIsReported(a, b);
    }
    if GlobTextsCover(a, b) {
      TextCoverIsReported(a, b);
    } else if Overlaps(a, b) {
      OtherReportIsReal(a, b);
    }
  }
}
