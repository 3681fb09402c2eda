/** Declared write scopes: path normalisation and its errors
    (crates/impetus-core/src/declared_write_set.rs). */
module WriteSet {
  import opened Text

  datatype WriteSetError =
    | EmptyChildId
    | EmptyPath
    | PathEscape(path: string)
    | AbsolutePath(path: string)
    | Conflict(holder: string)
    | Stale(childId: string, offered: nat, live: nat)
    | UnknownChild(id: string)
    | AlreadyAdmitted(id: string)

  //
  // Normalisation.
  //

  datatype Component = CurDir | ParentDir | Normal(name: string)

  /** `Path::components` on a relative Unix path; empty pieces vanish. */
  function Components(pieces: seq<string>): seq<Component> {
    if pieces == [] then []
    else
      var p, rest := pieces[0], Components(pieces[1..]);
      if p == "" then rest
      else if p == "." then [CurDir] + rest
      else if p == ".." then [ParentDir] + rest
      else [Normal(p)] + rest
  }

  /** The segment stack after some components; `None` once a parent step finds it empty. */
  function Reduce(comps: seq<Component>): Option<seq<string>> {
    if comps == [] then Some([])
    else
      match Reduce(comps[..|comps|-1])
      case None => None
      case Some(parts) =>
        match comps[|comps|-1]
        case CurDir => Some(parts)
        case Normal(s) => Some(parts + [s])
        case ParentDir => if parts == [] then None else Some(parts[..|parts|-1])
  }

  function Normalized(raw: string): Result<string, WriteSetError> {
    var t := Trim(raw);
    if t == [] then Err(EmptyPath)
    else if t[0] == '/' then Err(AbsolutePath(t))
    else
      match Reduce(Components(Split(t, '/')))
      case None => Err(PathEscape(t))
      case Some(parts) => if parts == [] then Err(EmptyPath) else Ok(Join(parts, '/'))
  }

  /** Pushes and pops a list of segments, component by component. */
  method NormalizeRel(raw: string) returns (r: Result<string, WriteSetError>)
    ensures r == Normalized(raw)
  {
    var t := Trim(raw);
    if t == [] {
      return Err(EmptyPath);
    }
    if t[0] == '/' {
      return Err(AbsolutePath(t));
    }
    var comps := Components(Split(t, '/'));
    var parts: seq<string> := [];
    for k := 0 to |comps|
      invariant Reduce(comps[..k]) == Some(parts)
    {
      assert comps[..k + 1][..k] == comps[..k];
      match comps[k]
      case CurDir =>
      case Normal(s) => parts := parts + [s];
      case ParentDir =>
        if parts == [] {
          assert Reduce(comps[..k + 1]).None?;
          EscapeStays(comps, k + 1);
          return Err(PathEscape(t));
        }
        parts := parts[..|parts|-1];
    }
    assert comps[..|comps|] == comps;
    if parts == [] {
      return Err(EmptyPath);
    }
    return Ok(Join(parts, '/'));
  }

  lemma {:induction false} EscapeStays(comps: seq<Component>, k: nat)
    requires k <= |comps| && Reduce(comps[..k]).None?
    ensures Reduce(comps).None?
    decreases |comps| - k
  {
    if k == |comps| {
      assert comps[..k] == comps;
    } else {
      assert comps[..k + 1][..k] == comps[..k];
      EscapeStays(comps, k + 1);
    }
  }

  function Parents(comps: seq<Component>): nat {
    if comps == [] then 0 else Parents(comps[..|comps|-1]) + if comps[|comps|-1].ParentDir? then 1 else 0
  }

  function Normals(comps: seq<Component>): nat {
    if comps == [] then 0 else Normals(comps[..|comps|-1]) + if comps[|comps|-1].Normal? then 1 else 0
  }

  lemma {:induction false} ReduceLength(comps: seq<Component>)
    ensures Reduce(comps).Some? ==> |Reduce(comps).value| == Normals(comps) - Parents(comps)
    decreases |comps|
  {
    if comps != [] {
      ReduceLength(comps[..|comps|-1]);
    }
  }

  /** Escape is reported exactly when some prefix has more parent steps than normal ones. */
  lemma {:induction false} EscapesExactlyWhen(comps: seq<Component>)
    ensures Reduce(comps).None? <==> exists k :: 0 <= k <= |comps| && Parents(comps[..k]) > Normals(comps[..k])
    decreases |comps|
  {
    if comps == [] {
      assert comps[..0] == [];
    } else {
      var n := |comps| - 1;
      var init := comps[..n];
      EscapesExactlyWhen(init);
      ReduceLength(init);
      assert comps[..n + 1] == comps;
      assert forall k | 0 <= k <= n :: comps[..k] == init[..k];
      if Reduce(comps).None? && Reduce(init).Some? {
        assert Parents(comps[..n + 1]) > Normals(comps[..n + 1]);
      }
      if Parents(comps) > Normals(comps) && Reduce(comps).Some? {
        ReduceLength(comps);
      }
    }
  }

  /** Walking from a directory: down by name, up by a parent step, staying put at the root. */
  function Walk(at: seq<string>, comps: seq<Component>): seq<string> {
    if comps == [] then at
    else
      var p := Walk(at, comps[..|comps|-1]);
      match comps[|comps|-1]
      case CurDir => p
      case Normal(s) => p + [s]
      case ParentDir => if p == [] then [] else p[..|p|-1]
  }

  /** A reduced path leads, from every directory, to where the raw one leads. */
  lemma {:induction false} ReducedLeadsToSamePlace(at: seq<string>, comps: seq<Component>)
    requires Reduce(comps).Some?
    ensures Walk(at, comps) == at + Reduce(comps).value
    decreases |comps|
  {
    if comps != [] {
      ReducedLeadsToSamePlace(at, comps[..|comps|-1]);
    }
  }

  /** A segment a reduced path can hold. */
  predicate PlainSegment(s: string) {
    s != "" && s != "." && s != ".." && '/' !in s
  }

  predicate PlainSegments(ss: seq<string>) {
    forall s | s in ss :: PlainSegment(s)
  }

  lemma {:induction false} ComponentsPlain(pieces: seq<string>)
    requires forall p | p in pieces :: '/' !in p
    ensures forall c | c in Components(pieces) && c.Normal? :: PlainSegment(c.name)
    decreases |pieces|
  {
    if pieces != [] {
      assert pieces[0] in pieces && forall p | p in pieces[1..] :: p in pieces;
      ComponentsPlain(pieces[1..]);
    }
  }

  lemma {:induction false} ReducePlain(comps: seq<Component>)
    requires forall c | c in comps && c.Normal? :: PlainSegment(c.name)
    ensures Reduce(comps).Some? ==> PlainSegments(Reduce(comps).value)
    decreases |comps|
  {
    if comps != [] {
      assert comps[|comps|-1] in comps && forall c | c in comps[..|comps|-1] :: c in comps;
      ReducePlain(comps[..|comps|-1]);
    }
  }

  /** A list of plain segments is its own reduction. */
  lemma {:induction false} PlainIsReduced(parts: seq<string>)
    requires PlainSegments(parts)
    ensures |Components(parts)| == |parts| && forall k | 0 <= k < |parts| :: Components(parts)[k] == Normal(parts[k])
    decreases |parts|
  {
    if parts != [] {
      assert parts[0] in parts && forall s | s in parts[1..] :: s in parts;
      PlainIsReduced(parts[1..]);
    }
  }

  lemma {:induction false} NormalsReduce(comps: seq<Component>, parts: seq<string>)
    requires |comps| == |parts| && forall k | 0 <= k < |parts| :: comps[k] == Normal(parts[k])
    ensures Reduce(comps) == Some(parts)
    decreases |comps|
  {
    if comps != [] {
      var n := |comps| - 1;
      NormalsReduce(comps[..n], parts[..n]);
      assert parts == parts[..n] + [parts[n]];
    }
  }

  function Weight(parts: seq<string>): nat {
    if parts == [] then 0 else Weight(parts[..|parts|-1]) + |parts[|parts|-1]| + 1
  }

  function CompWeight(comps: seq<Component>): nat {
    if comps == [] then 0
    else CompWeight(comps[..|comps|-1]) + if comps[|comps|-1].Normal? then |comps[|comps|-1].name| + 1 else 0
  }

  lemma {:induction false} ReduceShrinks(comps: seq<Component>)
    ensures Reduce(comps).Some? ==> Weight(Reduce(comps).value) <= CompWeight(comps)
    decreases |comps|
  {
    if comps != [] {
      ReduceShrinks(comps[..|comps|-1]);
    }
  }

  lemma {:induction false} CompWeightCons(c: Component, comps: seq<Component>)
    ensures CompWeight([c] + comps) == CompWeight(comps) + if c.Normal? then |c.name| + 1 else 0
    decreases |comps|
  {
    var all := [c] + comps;
    if comps == [] {
      assert all[..0] == [];
    } else {
      assert all[..|all|-1] == [c] + comps[..|comps|-1];
      CompWeightCons(c, comps[..|comps|-1]);
    }
  }

  lemma {:induction false} ComponentsWeight(pieces: seq<string>)
    requires pieces != []
    ensures CompWeight(Components(pieces)) <= |Join(pieces, '/')| + 1
    decreases |pieces|
  {
    var p, rest := pieces[0], pieces[1..];
    if rest != [] {
      ComponentsWeight(rest);
    } else {
      assert Components(rest) == [];
    }
    CompWeightCons(Normal(p), Components(rest));
    CompWeightCons(CurDir, Components(rest));
    CompWeightCons(ParentDir, Components(rest));
  }

  lemma {:induction false} JoinLength(parts: seq<string>)
    requires parts != []
    ensures |Join(parts, '/')| + 1 == Weight(parts)
    decreases |parts|
  {
    var n := |parts| - 1;
    if n == 0 {
      assert parts[..0] == [];
    } else {
      JoinLength(parts[..n]);
      JoinAppend(parts[..n], parts[n], '/');
      assert parts == parts[..n] + [parts[n]];
    }
  }

  /** Normalisation yields a path of plain segments, no longer than what was given. */
  lemma NormalizedIsPlain(raw: string)
    requires Normalized(raw).Ok?
    ensures PlainSegments(Split(Normalized(raw).value, '/'))
    ensures |Normalized(raw).value| <= |Trim(raw)|
  {
    var t := Trim(raw);
    var pieces := Split(t, '/');
    JoinOfSplit(t, '/');
    ComponentsPlain(pieces);
    ReducePlain(Components(pieces));
    var parts := Reduce(Components(pieces)).value;
    SplitOfJoin(parts, '/');
    ReduceShrinks(Components(pieces));
    ComponentsWeight(pieces);
    JoinLength(parts);
  }

  /** A normalised path is a fixed point of normalisation exactly when it has no white space at its
      ends: a parent step can bring such a segment to the front after the input was trimmed. */
  lemma FixedPointExactlyWhen(raw: string)
    requires Normalized(raw).Ok?
    ensures var n := Normalized(raw).value; Normalized(n) == Ok(n) <==> Trim(n) == n
  {
    var n := Normalized(raw).value;
    NormalizedIsPlain(raw);
    var parts := Split(n, '/');
    JoinOfSplit(n, '/');
    PlainIsReduced(parts);
    NormalsReduce(Components(parts), parts);
    assert parts[0] in parts;
    if Trim(n) == n {
      assert n != [] && n[0] != '/' by {
        assert n[0] == parts[0][0];
      }
    } else if Normalized(n).Ok? {
      NormalizedIsPlain(n);
      TrimShorter(n);
    }
  }

  lemma TrimShorter(s: string)
    ensures Trim(s) == s || |Trim(s)| < |s|
  {
    var t := TrimStart(s);
    TrimStartShorter(s);
    assert TrimEnd(t) <= t;
  }

  lemma TrimStartShorter(s: string)
    ensures TrimStart(s) == s || |TrimStart(s)| < |s|
  {
  }

  lemma ParentUncovers(first: string, last: string)
    requires PlainSegment(first) && PlainSegment(last)
    ensures Reduce(Components([first, "..", last])) == Some([last])
  {
    var pieces := [first, "..", last];
    assert pieces[1..][1..] == [last] && pieces[1..][1..][1..] == [];
    assert Components([last]) == [Normal(last)];
    assert Components(pieces[1..]) == [ParentDir, Normal(last)];
    var c := [Normal(first), ParentDir, Normal(last)];
    assert Components(pieces) == c;
    assert c[..2][..1] == [Normal(first)] && [Normal(first)][..0] == [];
    NormalsReduce([Normal(first)], [first]);
    assert [first][..0] == [];
    assert Reduce(c[..2]) == Some([]);
    assert [] + [last] == [last];
  }

  /** A parent step that uncovers a segment with a leading blank gives such a path. */
  lemma BlankUncovered(b: string)
    requires PlainSegment(b) && PlainSegment([' '] + b) && !IsWhitespace(b[|b|-1])
    ensures var raw := "a/../ " + b; Normalized(raw) == Ok([' '] + b) && Normalized([' '] + b) != Ok([' '] + b)
  {
    var last := [' '] + b;
    var pieces := ["a", "..", last];
    var raw := "a/../ " + b;
    assert pieces[1..] == ["..", last] && pieces[1..][1..] == [last];
    assert Join([last], '/') == last;
    assert Join(["..", last], '/') == ['.', '.'] + ['/'] + last;
    assert Join(pieces, '/') == ['a'] + ['/'] + (['.', '.'] + ['/'] + last);
    assert Join(pieces, '/') == raw;
    assert raw[0] == 'a' && raw[|raw|-1] == b[|b|-1];
    assert Trim(raw) == raw;
    SplitOfJoin(pieces, '/');
    ParentUncovers("a", last);
    assert Join([last], '/') == last;
    assert Trim(last) != last by {
      assert IsWhitespace(last[0]);
    }
    FixedPointExactlyWhen(raw);
  }
}
