/** What normalising a path means for the text given: where it leads, and when it is turned away
    (crates/impetus-core/src/declared_write_set.rs). */
module PathMeaning {
  import opened Text
  import opened WriteSet

  /** One piece of a path, from a directory: nothing and a dot stay, two dots go up and stay at the root, anything
      else goes down. */
  function Stride(at: seq<string>, piece: string): seq<string> {
    if piece == "" || piece == "." then at
    else if piece == ".." then if at == [] then [] else at[..|at|-1]
    else at + [piece]
  }

  function Follow(at: seq<string>, pieces: seq<string>): seq<string>
    decreases |pieces|
  {
    if pieces == [] then at else Follow(Stride(at, pieces[0]), pieces[1..])
  }

  function Ups(pieces: seq<string>): nat {
    if pieces == [] then 0 else (if pieces[0] == ".." then 1 else 0) + Ups(pieces[1..])
  }

  function Downs(pieces: seq<string>): nat {
    if pieces == [] then 0 else (if pieces[0] in ["", ".", ".."] then 0 else 1) + Downs(pieces[1..])
  }

  /** Some way into the path has gone up more often than down. */
  ghost predicate Leaves(pieces: seq<string>) {
    exists k :: 0 <= k <= |pieces| && Ups(pieces[..k]) > Downs(pieces[..k])
  }

  //
  // Trimming.
  //

  predicate Blank(s: string) {
    forall c | c in s :: IsWhitespace(c)
  }

  /** `t` is `s` without the white space at its ends. */
  ghost predicate Trims(s: string, t: string) {
    && (exists a, b :: Blank(a) && Blank(b) && s == a + t + b)
    && (t == [] || (!IsWhitespace(t[0]) && !IsWhitespace(t[|t|-1])))
  }

  lemma {:induction false} TrimStartDrops(s: string) returns (a: string)
    ensures Blank(a) && s == a + TrimStart(s)
    decreases |s|
  {
    if s != [] && IsWhitespace(s[0]) {
      var rest := TrimStartDrops(s[1..]);
      a := [s[0]] + rest;
      assert s == [s[0]] + s[1..];
      Assoc([s[0]], rest, TrimStart(s[1..]));
    } else {
      a := [];
      assert s == [] + s;
    }
  }

  lemma {:induction false} TrimEndDrops(s: string) returns (b: string)
    ensures Blank(b) && s == TrimEnd(s) + b
    decreases |s|
  {
    if s != [] && IsWhitespace(s[|s|-1]) {
      var init, last := s[..|s|-1], [s[|s|-1]];
      var rest := TrimEndDrops(init);
      b := rest + last;
      assert s == init + last;
      Assoc(TrimEnd(init), rest, last);
    } else {
      b := [];
      assert s == s + [];
    }
  }

  /** Trimming drops the white space at both ends and nothing else. */
  lemma TrimExact(s: string)
    ensures Trims(s, Trim(s))
  {
    var a := TrimStartDrops(s);
    var b := TrimEndDrops(TrimStart(s));
    Assoc(a, Trim(s), b);
    assert Blank(a) && Blank(b) && s == a + Trim(s) + b;
  }

  //
  // Pieces and components.
  //

  lemma {:induction false} ComponentsAppend(a: seq<string>, b: seq<string>)
    ensures Components(a + b) == Components(a) + Components(b)
    decreases |a|
  {
    if a == [] {
      assert a + b == b;
    } else {
      TailOfAppend(a, b);
      ComponentsAppend(a[1..], b);
    }
  }

  lemma CountsAppend(comps: seq<Component>, c: Component)
    ensures Parents(comps + [c]) == Parents(comps) + if c.ParentDir? then 1 else 0
    ensures Normals(comps + [c]) == Normals(comps) + if c.Normal? then 1 else 0
  {
    assert (comps + [c])[..|comps|] == comps;
  }

  lemma {:induction false} CountsConcat(a: seq<Component>, b: seq<Component>)
    ensures Parents(a + b) == Parents(a) + Parents(b) && Normals(a + b) == Normals(a) + Normals(b)
    decreases |b|
  {
    if b == [] {
      assert a + b == a;
    } else {
      var init, last := b[..|b|-1], b[|b|-1];
      assert b == init + [last];
      CountsConcat(a, init);
      CountsAppend(a + init, last);
      Assoc(a, init, [last]);
    }
  }

  lemma CountsOne(c: Component)
    ensures Parents([c]) == (if c.ParentDir? then 1 else 0) && Normals([c]) == if c.Normal? then 1 else 0
  {
    assert [c][..0] == [];
  }

  /** Parent and normal components are the pieces that go up and down. */
  lemma {:induction false} CountsExact(pieces: seq<string>)
    ensures Parents(Components(pieces)) == Ups(pieces) && Normals(Components(pieces)) == Downs(pieces)
    decreases |pieces|
  {
    if pieces != [] {
      var p, rest := pieces[0], Components(pieces[1..]);
      CountsExact(pieces[1..]);
      if p != "" {
        var c := if p == "." then CurDir else if p == ".." then ParentDir else Normal(p);
        CountsOne(c);
        CountsConcat([c], rest);
      }
    }
  }

  lemma {:induction false} WalkConcat(at: seq<string>, a: seq<Component>, b: seq<Component>)
    ensures Walk(at, a + b) == Walk(Walk(at, a), b)
    decreases |b|
  {
    if b == [] {
      assert a + b == a;
    } else {
      var init, last := b[..|b|-1], b[|b|-1];
      assert (a + b)[..|a + b| - 1] == a + init && (a + b)[|a + b| - 1] == last;
      WalkConcat(at, a, init);
    }
  }

  lemma WalkOne(at: seq<string>, p: string)
    ensures Walk(at, Components([p])) == Stride(at, p)
  {
    assert [p][1..] == [];
    var c := if p == "." then CurDir else if p == ".." then ParentDir else Normal(p);
    assert [c][..0] == [];
    assert Walk(at, []) == at;
  }

  /** Following the pieces is walking the components. */
  lemma {:induction false} FollowIsWalk(at: seq<string>, pieces: seq<string>)
    ensures Follow(at, pieces) == Walk(at, Components(pieces))
    decreases |pieces|
  {
    if pieces != [] {
      var p, rest := pieces[0], pieces[1..];
      assert pieces == [p] + rest;
      ComponentsAppend([p], rest);
      WalkConcat(at, Components([p]), Components(rest));
      WalkOne(at, p);
      FollowIsWalk(Stride(at, p), rest);
    }
  }

  /** A prefix of the components is those of a prefix of the pieces. */
  lemma {:induction false} PrefixFound(pieces: seq<string>, k: nat) returns (j: nat)
    requires k <= |Components(pieces)|
    ensures j <= |pieces| && Components(pieces[..j]) == Components(pieces)[..k]
    decreases |pieces|
  {
    if k == |Components(pieces)| {
      j := |pieces|;
      assert pieces[..j] == pieces && Components(pieces)[..k] == Components(pieces);
    } else {
      var init, last := pieces[..|pieces|-1], pieces[|pieces|-1];
      assert pieces == init + [last] && [last][1..] == [];
      ComponentsAppend(init, [last]);
      assert |Components([last])| <= 1;
      j := PrefixFound(init, k);
      assert init[..j] == pieces[..j];
      assert Components(pieces)[..k] == Components(init)[..k];
    }
  }

  lemma PrefixTaken(pieces: seq<string>, j: nat)
    requires j <= |pieces|
    ensures Components(pieces[..j]) <= Components(pieces)
  {
    assert pieces == pieces[..j] + pieces[j..];
    ComponentsAppend(pieces[..j], pieces[j..]);
  }

  lemma LeavesExact(pieces: seq<string>)
    ensures Reduce(Components(pieces)).None? <==> Leaves(pieces)
  {
    var comps := Components(pieces);
    EscapesExactlyWhen(comps);
    if k :| 0 <= k <= |comps| && Parents(comps[..k]) > Normals(comps[..k]) {
      var j := PrefixFound(pieces, k);
      CountsExact(pieces[..j]);
    }
    if j :| 0 <= j <= |pieces| && Ups(pieces[..j]) > Downs(pieces[..j]) {
      PrefixTaken(pieces, j);
      CountsExact(pieces[..j]);
      var front := Components(pieces[..j]);
      assert comps[..|front|] == front;
    }
  }

  //
  // What normalisation does.
  //

  /** What is to come of a trimmed path: empty and absolute ones are errors, and so is one that leaves the directory
      it starts from or comes back to it; any other leads, from every directory, where the result leads. */
  ghost predicate Meant(t: string, r: Result<string, WriteSetError>) {
    var pieces := Split(t, '/');
    if t != "" && pieces[0] == "" then r == Err(AbsolutePath(t))
    else if Leaves(pieces) then r == Err(PathEscape(t))
    else if Ups(pieces) == Downs(pieces) then r == Err(EmptyPath)
    else r.Ok? && PlainSegments(Split(r.value, '/')) && forall at :: Follow(at, pieces) == at + Split(r.value, '/')
  }

  /** The first piece is empty exactly when the path begins with a slash. */
  lemma FirstPiece(t: string)
    requires t != []
    ensures Split(t, '/')[0] == "" <==> t[0] == '/'
  {
    JoinOfSplit(t, '/');
    var pieces := Split(t, '/');
    assert pieces[0] <= t;
    assert pieces[0] == t[..Find(t, '/')];
  }

  lemma ReducedMeant(t: string, parts: seq<string>)
    requires var pieces := Split(t, '/'); Reduce(Components(pieces)) == Some(parts)
    ensures |parts| == Downs(Split(t, '/')) - Ups(Split(t, '/'))
    ensures forall at :: Follow(at, Split(t, '/')) == at + parts
  {
    var pieces := Split(t, '/');
    ReduceLength(Components(pieces));
    CountsExact(pieces);
    forall at
      ensures Follow(at, pieces) == at + parts
    {
      FollowIsWalk(at, pieces);
      ReducedLeadsToSamePlace(at, Components(pieces));
    }
  }

  /** What the reduced segments of a relative path come to. */
  lemma RelativeMeant(t: string, parts: seq<string>)
    requires t != "" && t[0] != '/' && Reduce(Components(Split(t, '/'))) == Some(parts)
    ensures Meant(t, if parts == [] then Err(EmptyPath) else Ok(Join(parts, '/')))
  {
    var pieces := Split(t, '/');
    FirstPiece(t);
    LeavesExact(pieces);
    ReducedMeant(t, parts);
    if parts != [] {
      JoinOfSplit(t, '/');
      PlainParts(pieces, parts);
      SplitOfJoin(parts, '/');
    }
  }

  lemma EscapeMeant(t: string)
    requires t != "" && t[0] != '/' && Reduce(Components(Split(t, '/'))).None?
    ensures Meant(t, Err(PathEscape(t)))
  {
    FirstPiece(t);
    LeavesExact(Split(t, '/'));
  }

  /** Normalisation, over the raw text: its outcome is the one meant for the text without the white space at its
      ends. */
  lemma NormalizedMeans(raw: string)
    ensures Trims(raw, Trim(raw)) && Meant(Trim(raw), Normalized(raw))
  {
    var t := Trim(raw);
    TrimExact(raw);
    if t == "" {
      NothingToFollow();
    } else if t[0] == '/' {
      FirstPiece(t);
    } else if Reduce(Components(Split(t, '/'))).None? {
      EscapeMeant(t);
    } else {
      RelativeMeant(t, Reduce(Components(Split(t, '/'))).value);
    }
  }

  lemma PlainParts(pieces: seq<string>, parts: seq<string>)
    requires Reduce(Components(pieces)) == Some(parts) && forall p | p in pieces :: '/' !in p
    ensures PlainSegments(parts)
  {
    ComponentsPlain(pieces);
    ReducePlain(Components(pieces));
  }

  lemma NothingToFollow()
    ensures Split("", '/') == [""] && Ups([""]) == Downs([""]) == 0 && !Leaves([""])
  {
    assert [""][1..] == [];
    forall k | 0 <= k <= 1
      ensures Ups([""][..k]) == 0
    {
      assert k == 0 ==> [""][..k] == [];
      assert k == 1 ==> [""][..k] == [""];
    }
  }
}
