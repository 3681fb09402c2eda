/** The string operations of Rust's `str` that the diff printer and parser, the path
    normaliser and the schedulers lean on. */
module Text {

  datatype Option<+T> = None | Some(value: T)

  datatype Result<+T, +E> = Ok(value: T) | Err(error: E)

  function Min(x: nat, y: nat): nat {
    if x <= y then x else y
  }

  function Concat<T>(parts: seq<seq<T>>): seq<T> {
    if parts == [] then [] else parts[0] + Concat(parts[1..])
  }

  lemma {:induction false} ConcatAppend<T>(parts: seq<seq<T>>, p: seq<T>)
    ensures Concat(parts + [p]) == Concat(parts) + p
    decreases |parts|
  {
    if parts == [] {
      assert Concat([p]) == p + Concat([p][1..]);
    } else {
      assert (parts + [p])[0] == parts[0] && (parts + [p])[1..] == parts[1..] + [p];
      ConcatAppend(parts[1..], p);
      Assoc(parts[0], Concat(parts[1..]), p);
    }
  }

  lemma TailOfAppend<T>(a: seq<T>, b: seq<T>)
    requires a != []
    ensures (a + b)[0] == a[0] && (a + b)[1..] == a[1..] + b
  {
  }

  lemma Assoc<T>(a: seq<T>, b: seq<T>, c: seq<T>)
    ensures a + b + c == a + (b + c)
  {
  }

  lemma SliceSplit<T>(s: seq<T>, i: nat, j: nat)
    requires i <= j <= |s|
    ensures s[..j] == s[..i] + s[i..][..j - i]
    ensures s[i..][j - i..] == s[j..]
  {
  }

  //
  // White space.
  //

  /** The Unicode `White_Space` property, as `char::is_whitespace` tests it. */
  predicate IsWhitespace(c: char) {
    || '\t' <= c <= '\r' || c == ' ' || c == '\U{85}' || c == '\U{A0}' || c == '\U{1680}'
    || '\U{2000}' <= c <= '\U{200A}' || c == '\U{2028}' || c == '\U{2029}'
    || c == '\U{202F}' || c == '\U{205F}' || c == '\U{3000}'
  }

  function TrimStart(s: string): (r: string)
    ensures |r| <= |s|
    ensures r == [] || !IsWhitespace(r[0])
    ensures s == [] || !IsWhitespace(s[0]) ==> r == s
  {
    if s != [] && IsWhitespace(s[0]) then TrimStart(s[1..]) else s
  }

  function TrimEnd(s: string): (r: string)
    ensures |r| <= |s|
    ensures r <= s
    ensures r == [] || !IsWhitespace(r[|r|-1])
    ensures s == [] || !IsWhitespace(s[|s|-1]) ==> r == s
  {
    if s != [] && IsWhitespace(s[|s|-1]) then TrimEnd(s[..|s|-1]) else s
  }

  function Trim(s: string): (r: string)
    ensures r == [] || (!IsWhitespace(r[0]) && !IsWhitespace(r[|r|-1]))
    ensures s == [] || (!IsWhitespace(s[0]) && !IsWhitespace(s[|s|-1])) ==> r == s
  {
    TrimEnd(TrimStart(s))
  }

  /** Index of the first white-space character, or the length. */
  function WordEnd(s: string): (k: nat)
    ensures k <= |s|
    ensures forall i | 0 <= i < k :: !IsWhitespace(s[i])
    ensures k < |s| ==> IsWhitespace(s[k])
  {
    if s == [] || IsWhitespace(s[0]) then 0 else 1 + WordEnd(s[1..])
  }

  function SplitWhitespace(s: string): seq<string>
    decreases |s|
  {
    var t := TrimStart(s);
    if t == [] then [] else [t[..WordEnd(t)]] + SplitWhitespace(t[WordEnd(t)..])
  }

  /** A word, one space, more text: `split_whitespace` peels the word off. */
  lemma SplitWord(w: string, rest: string)
    requires w != [] && forall c | c in w :: !IsWhitespace(c)
    requires rest == [] || IsWhitespace(rest[0])
    ensures SplitWhitespace(w + rest) == [w] + SplitWhitespace(rest)
  {
    var s := w + rest;
    var k := WordEnd(s);
    assert TrimStart(s) == s;
    assert forall i | 0 <= i < |w| :: s[i] == w[i] && w[i] in w;
    assert rest != [] ==> s[|w|] == rest[0];
    assert k == |w|;
    assert s[..k] == w && s[k..] == rest;
  }

  lemma SplitSkipsSpace(s: string)
    ensures SplitWhitespace([' '] + s) == SplitWhitespace(s)
  {
    assert ([' '] + s)[1..] == s;
    assert TrimStart([' '] + s) == TrimStart(s);
  }

  //
  // Splitting and joining.
  //

  /** Index of the first `c`, or the length. */
  function Find(s: string, c: char): (k: nat)
    ensures k <= |s|
    ensures c !in s[..k]
    ensures k < |s| ==> s[k] == c
  {
    if s == [] || s[0] == c then 0 else
      var k := Find(s[1..], c);
      assert s[..k + 1] == [s[0]] + s[1..][..k];
      k + 1
  }

  lemma FindInPrefix(a: string, c: char, rest: string)
    requires c !in a
    ensures Find(a + [c] + rest, c) == |a|
    ensures Find(a, c) == |a|
  {
    var s := a + [c] + rest;
    var k := Find(s, c);
    assert forall i | 0 <= i < |a| :: s[i] == a[i] && a[i] in a;
    assert forall i | 0 <= i < k :: s[i] in s[..k];
    assert s[|a|] == c;
  }

  /** `str::split(char)`: always at least one piece. */
  function Split(s: string, c: char): (r: seq<string>)
    ensures r != []
    decreases |s|
  {
    var k := Find(s, c);
    if k == |s| then [s] else [s[..k]] + Split(s[k + 1..], c)
  }

  /** `[String]::join`. */
  function Join(ls: seq<string>, c: char): string {
    if ls == [] then "" else if |ls| == 1 then ls[0] else ls[0] + [c] + Join(ls[1..], c)
  }

  /** Joining pieces free of the separator and splitting again gives the pieces back. */
  lemma {:induction false} SplitOfJoin(ls: seq<string>, c: char)
    requires ls != [] && forall l | l in ls :: c !in l
    ensures Split(Join(ls, c), c) == ls
    decreases |ls|
  {
    assert ls[0] in ls;
    if |ls| == 1 {
      FindInPrefix(ls[0], c, "");
    } else {
      var rest := Join(ls[1..], c);
      var s := Join(ls, c);
      FindInPrefix(ls[0], c, rest);
      assert s[..|ls[0]|] == ls[0] && s[|ls[0]| + 1..] == rest;
      SplitOfJoin(ls[1..], c);
    }
  }

  /** Splitting yields pieces free of the separator whose join is the input. */
  lemma {:induction false} JoinOfSplit(s: string, c: char)
    ensures Join(Split(s, c), c) == s
    ensures forall l | l in Split(s, c) :: c !in l
    decreases |s|
  {
    var k := Find(s, c);
    if k == |s| {
      assert s[..k] == s;
    } else {
      JoinOfSplit(s[k + 1..], c);
      JoinCons(s[..k], Split(s[k + 1..], c), c);
      SplitAround(s, k);
    }
  }

  lemma JoinCons(l: string, ls: seq<string>, c: char)
    requires ls != []
    ensures Join([l] + ls, c) == l + [c] + Join(ls, c)
  {
    assert ([l] + ls)[1..] == ls;
  }

  lemma SplitAround(s: string, k: nat)
    requires k < |s|
    ensures s == s[..k] + [s[k]] + s[k + 1..]
  {
  }

  lemma {:induction false} JoinAppend(ls: seq<string>, l: string, c: char)
    requires ls != []
    ensures Join(ls + [l], c) == Join(ls, c) + [c] + l
    decreases |ls|
  {
    assert (ls + [l])[0] == ls[0];
    assert (ls + [l])[1..] == ls[1..] + [l];
    if |ls| == 1 {
      assert (ls + [l])[1..] == [l];
    } else {
      JoinAppend(ls[1..], l, c);
      assert ls[0] + [c] + (Join(ls[1..], c) + [c] + l) == ls[0] + [c] + Join(ls[1..], c) + [c] + l;
    }
  }

  predicate EndsCr(l: string) {
    l != [] && l[|l|-1] == '\r'
  }

  function StripCr(s: string): string {
    if s != [] && s[|s|-1] == '\r' then s[..|s|-1] else s
  }

  /** `str::lines`: pieces ended by a line feed, a carriage return before it dropped; a last
      piece without a line feed is kept as it is, and an empty one is not a line. */
  function Lines(s: string): seq<string>
    decreases |s|
  {
    if s == [] then []
    else
      var k := Find(s, '\n');
      if k == |s| then [s] else [StripCr(s[..k])] + Lines(s[k + 1..])
  }

  /** A line that survives being joined and split: not empty, no line feed, no carriage return at the end. */
  predicate PlainLine(l: string) {
    l != [] && '\n' !in l && l[|l|-1] != '\r'
  }

  predicate PlainLines(ls: seq<string>) {
    forall l | l in ls :: PlainLine(l)
  }

  /** A line that joining and splitting keeps apart: not empty and without a line feed. */
  predicate Fed(l: string) {
    l != [] && '\n' !in l
  }

  predicate FedLines(ls: seq<string>) {
    forall l | l in ls :: Fed(l)
  }

  function StripAll(ls: seq<string>): (r: seq<string>)
    ensures |r| == |ls| && forall k | 0 <= k < |ls| :: r[k] == StripCr(ls[k])
  {
    if ls == [] then [] else [StripCr(ls[0])] + StripAll(ls[1..])
  }

  /** What `lines` makes of lines joined by line feeds: all but the last lose a carriage return at their end. */
  function AsRead(ls: seq<string>): (r: seq<string>)
    ensures |r| == |ls|
  {
    if ls == [] then [] else StripAll(ls[..|ls|-1]) + [ls[|ls|-1]]
  }

  lemma AsReadCons(l: string, ls: seq<string>)
    requires ls != []
    ensures AsRead([l] + ls) == [StripCr(l)] + AsRead(ls)
  {
    var all := [l] + ls;
    assert all[..|all|-1] == [l] + ls[..|ls|-1];
  }

  lemma FirstLine(l: string, rest: string)
    requires Fed(l)
    ensures Lines(l + ['\n'] + rest) == [StripCr(l)] + Lines(rest)
  {
    var s := l + ['\n'] + rest;
    FindInPrefix(l, '\n', rest);
    assert s[..|l|] == l && s[|l| + 1..] == rest;
  }

  lemma OnlyLine(l: string)
    requires Fed(l)
    ensures Lines(Join([l], '\n')) == [l]
  {
    FindInPrefix(l, '\n', "");
  }

  lemma {:induction false} LinesOfJoinAny(ls: seq<string>)
    requires FedLines(ls)
    ensures Lines(Join(ls, '\n')) == AsRead(ls)
    decreases |ls|
  {
    if ls == [] {
      assert Join(ls, '\n') == [];
    } else {
      assert ls[0] in ls && ls == [ls[0]] + ls[1..];
      if |ls| == 1 {
        OnlyLine(ls[0]);
      } else {
        FirstLine(ls[0], Join(ls[1..], '\n'));
        LinesOfJoinAny(ls[1..]);
        AsReadCons(ls[0], ls[1..]);
      }
    }
  }

  lemma PlainReadAsIs(ls: seq<string>)
    requires PlainLines(ls)
    ensures AsRead(ls) == ls
  {
    if ls != [] {
      var init := ls[..|ls|-1];
      assert forall k | 0 <= k < |init| :: init[k] == ls[k] && ls[k] in ls;
      assert StripAll(init) == init && ls == init + [ls[|ls|-1]];
    }
  }

  /** Plain lines joined by line feeds come back from `lines`. */
  lemma LinesOfJoin(ls: seq<string>)
    requires PlainLines(ls)
    ensures Lines(Join(ls, '\n')) == ls
  {
    PlainReadAsIs(ls);
    LinesOfJoinAny(ls);
  }

  //
  // Decimal numbers.
  //

  const USIZE_MAX: nat := 0xFFFF_FFFF_FFFF_FFFF

  function DigitChar(d: nat): (c: char)
    requires d < 10
    ensures '0' <= c <= '9'
  {
    '0' + d as char
  }

  /** What `{}` prints for an unsigned integer. */
  function Decimal(n: nat): (s: string)
    ensures s != [] && forall c | c in s :: '0' <= c <= '9'
  {
    if n < 10 then [DigitChar(n)] else Decimal(n / 10) + [DigitChar(n % 10)]
  }

  /** The digit loop of `usize::from_str`, failing on a non-digit and on overflow. */
  function ParseDigits(s: string): Option<nat> {
    if s == [] then Some(0)
    else
      var c := s[|s|-1];
      match ParseDigits(s[..|s|-1])
      case None => None
      case Some(v) =>
        if !('0' <= c <= '9') then None
        else
          var w := v * 10 + (c as int - '0' as int);
          if w > USIZE_MAX then None else Some(w)
  }

  /** `str::parse::<usize>`: a leading plus sign is allowed, an empty string or a bare sign is not. */
  function ParseUsize(s: string): Option<nat> {
    if s == [] || s == "+" then None
    else if s[0] == '+' then ParseDigits(s[1..])
    else ParseDigits(s)
  }

  lemma {:induction false} ParseDigitsOfDecimal(n: nat)
    requires n <= USIZE_MAX
    ensures ParseDigits(Decimal(n)) == Some(n)
    decreases n
  {
    var s := Decimal(n);
    if n < 10 {
      assert s[..|s|-1] == [];
      assert s[|s|-1] as int - '0' as int == n;
    } else {
      ParseDigitsOfDecimal(n / 10);
      assert s[..|s|-1] == Decimal(n / 10);
      assert s[|s|-1] as int - '0' as int == n % 10;
    }
  }

  /** Reading back a printed number. */
  lemma ParseOfDecimal(n: nat)
    requires n <= USIZE_MAX
    ensures ParseUsize(Decimal(n)) == Some(n)
  {
    ParseDigitsOfDecimal(n);
    var s := Decimal(n);
    assert s[0] in s && s[0] != '+';
  }

  /** Different numbers print differently. */
  lemma {:induction false} DecimalInjective(m: nat, n: nat)
    requires Decimal(m) == Decimal(n)
    ensures m == n
    decreases m
  {
    var s, t := Decimal(m), Decimal(n);
    assert (|s| == 1 <==> m < 10) && (|t| == 1 <==> n < 10);
    assert s[|s|-1] as int - '0' as int == m % 10;
    assert t[|t|-1] as int - '0' as int == n % 10;
    if m >= 10 && n >= 10 {
      assert s[..|s|-1] == Decimal(m / 10) && t[..|t|-1] == Decimal(n / 10);
      DecimalInjective(m / 10, n / 10);
    }
  }
}
