/** UTF-8 as section 4 of RFC 3629 defines it, Rust's validating scan, and lossy decoding with one
    U+FFFD per maximal subpart (section 3.9 of the Unicode Standard). Text is kept as its bytes. */
module Utf8 {
  import opened Text

  type Byte = b: nat | b < 256
  type Bytes = seq<Byte>

  const NEWLINE: Byte := 0x0A

  /** U+FFFD. */
  const REPLACEMENT: Bytes := [0xEF, 0xBF, 0xBD]

  //
  // The standard.
  //

  predicate Tail(b: Byte) {
    0x80 <= b <= 0xBF
  }

  /** The octet sequences of one character: the UTF8-char rule of RFC 3629. */
  predicate WellFormed(s: Bytes) {
    || (|s| == 1 && s[0] <= 0x7F)
    || (|s| == 2 && 0xC2 <= s[0] <= 0xDF && Tail(s[1]))
    || (|s| == 3 && s[0] == 0xE0 && 0xA0 <= s[1] <= 0xBF && Tail(s[2]))
    || (|s| == 3 && 0xE1 <= s[0] <= 0xEC && Tail(s[1]) && Tail(s[2]))
    || (|s| == 3 && s[0] == 0xED && 0x80 <= s[1] <= 0x9F && Tail(s[2]))
    || (|s| == 3 && 0xEE <= s[0] <= 0xEF && Tail(s[1]) && Tail(s[2]))
    || (|s| == 4 && s[0] == 0xF0 && 0x90 <= s[1] <= 0xBF && Tail(s[2]) && Tail(s[3]))
    || (|s| == 4 && 0xF1 <= s[0] <= 0xF3 && Tail(s[1]) && Tail(s[2]) && Tail(s[3]))
    || (|s| == 4 && s[0] == 0xF4 && 0x80 <= s[1] <= 0x8F && Tail(s[2]) && Tail(s[3]))
  }

  /** `s` begins some character. */
  ghost predicate Begins(s: Bytes) {
    exists t: Bytes :: WellFormed(s + t)
  }

  /** Length of the maximal subpart at the front of `s`: the longest prefix that begins a character,
      or one byte if there is none. */
  ghost predicate MaximalSubpart(s: Bytes, n: nat) {
    && 0 < n <= |s|
    && (n == 1 || Begins(s[..n]))
    && forall k: nat | n < k <= |s| :: !Begins(s[..k])
  }

  /** Lossy decoding as the standard recommends: characters are kept, and each maximal subpart of
      anything else becomes one U+FFFD. */
  ghost predicate Decodes(s: Bytes, out: Bytes)
    decreases |s|
  {
    if s == [] then out == []
    else if exists k: nat :: 0 < k <= |s| && WellFormed(s[..k]) then
      exists k: nat ::
        && 0 < k <= |s| && WellFormed(s[..k]) && k <= |out| && out[..k] == s[..k]
        && Decodes(s[k..], out[k..])
    else
      exists n: nat :: MaximalSubpart(s, n) && 3 <= |out| && out[..3] == REPLACEMENT && Decodes(s[n..], out[3..])
  }

  /** A byte string is UTF-8 when it is a row of characters. */
  ghost predicate IsUtf8(s: Bytes) {
    exists parts: seq<Bytes> :: Concat(parts) == s && forall p | p in parts :: WellFormed(p)
  }

  //
  // Rust's scan.
  //

  /** What the scan finds at the front of a non-empty byte string: a character, a malformed stretch
      (`error_len` is `Some`), or a character cut off by the end of input (`error_len` is `None`). */
  datatype Scan = Character(len: nat) | Malformed(len: nat) | CutOff

  function Width(b: Byte): nat {
    if b <= 0x7F then 1
    else if 0xC2 <= b <= 0xDF then 2
    else if 0xE0 <= b <= 0xEF then 3
    else if 0xF0 <= b <= 0xF4 then 4
    else 0
  }

  predicate SecondOk(b0: Byte, b1: Byte) {
    match b0
    case 0xE0 => 0xA0 <= b1 <= 0xBF
    case 0xED => 0x80 <= b1 <= 0x9F
    case 0xF0 => 0x90 <= b1 <= 0xBF
    case 0xF4 => 0x80 <= b1 <= 0x8F
    case _ => Tail(b1)
  }

  function ScanFront(s: Bytes): Scan
    requires s != []
  {
    var w := Width(s[0]);
    if w == 0 then Malformed(1)
    else if w == 1 then Character(1)
    else if |s| < 2 then CutOff
    else if !SecondOk(s[0], s[1]) then Malformed(1)
    else if w == 2 then Character(2)
    else if |s| < 3 then CutOff
    else if !Tail(s[2]) then Malformed(2)
    else if w == 3 then Character(3)
    else if |s| < 4 then CutOff
    else if !Tail(s[3]) then Malformed(3)
    else Character(4)
  }

  lemma ScanBounds(s: Bytes)
    requires s != []
    ensures var f := ScanFront(s); !f.CutOff? ==> 0 < f.len <= |s|
    ensures ScanFront(s).CutOff? ==> |s| <= 3
  {
  }

  /** More input does not change what has been recognised. */
  lemma ScanStable(s: Bytes, t: Bytes)
    requires s != [] && !ScanFront(s).CutOff?
    ensures ScanFront(s + t) == ScanFront(s)
  {
  }

  /** `String::from_utf8_lossy`. */
  function Lossy(s: Bytes): Bytes
    decreases |s|
  {
    if s == [] then []
    else
      ScanBounds(s);
      match ScanFront(s)
      case Character(k) => s[..k] + Lossy(s[k..])
      case Malformed(n) => REPLACEMENT + Lossy(s[n..])
      case CutOff => REPLACEMENT
  }

  /** Result of `str::from_utf8`: how far the input is valid, and what stopped the scan. */
  datatype Validity = Valid | Invalid(validUpTo: nat, errorLen: nat) | Incomplete(validUpTo: nat)

  function Shift(v: Validity, k: nat): Validity {
    match v
    case Valid => Valid
    case Invalid(u, n) => Invalid(u + k, n)
    case Incomplete(u) => Incomplete(u + k)
  }

  function Validate(s: Bytes): Validity
    decreases |s|
  {
    if s == [] then Valid
    else
      ScanBounds(s);
      match ScanFront(s)
      case Character(k) => Shift(Validate(s[k..]), k)
      case Malformed(n) => Invalid(0, n)
      case CutOff => Incomplete(0)
  }

  //
  // The scan meets the standard.
  //

  lemma FirstByteFixesLength(s: Bytes)
    requires WellFormed(s)
    ensures Width(s[0]) == |s| && (|s| > 1 ==> SecondOk(s[0], s[1])) && (forall k | 2 <= k < |s| :: Tail(s[k]))
  {
  }

  lemma BeginsMeans(s: Bytes)
    requires s != [] && Begins(s)
    ensures |s| <= Width(s[0]) && (|s| > 1 ==> SecondOk(s[0], s[1])) && (forall k | 2 <= k < |s| :: Tail(s[k]))
  {
    var t: Bytes :| WellFormed(s + t);
    FirstByteFixesLength(s + t);
    assert forall k | 0 <= k < |s| :: (s + t)[k] == s[k];
  }

  /** A second byte that is always allowed after `b0`. */
  function SomeSecond(b0: Byte): Byte {
    if b0 == 0xE0 then 0xA0 else if b0 == 0xF0 then 0x90 else 0x80
  }

  lemma CompletesToCharacter(s: Bytes) returns (t: Bytes)
    requires s != [] && 2 <= Width(s[0])
    requires |s| < Width(s[0]) && (|s| > 1 ==> SecondOk(s[0], s[1])) && (forall k | 2 <= k < |s| :: Tail(s[k]))
    ensures WellFormed(s + t)
  {
    var w := Width(s[0]);
    if |s| == 1 {
      t := [SomeSecond(s[0])] + seq(w - 2, _ => 0x80);
    } else {
      t := seq(w - |s|, _ => 0x80);
    }
  }

  lemma ScanCharacter(s: Bytes)
    requires s != []
    ensures ScanFront(s).Character? ==> ScanFront(s).len <= |s| && WellFormed(s[..ScanFront(s).len])
    ensures !ScanFront(s).Character? ==> forall k: nat | 0 < k <= |s| :: !WellFormed(s[..k])
  {
    forall k: nat | 0 < k <= |s| && WellFormed(s[..k])
      ensures ScanFront(s) == Character(k)
    {
      FirstByteFixesLength(s[..k]);
    }
  }

  lemma CharacterUnique(s: Bytes, k: nat)
    requires 0 < k <= |s| && WellFormed(s[..k])
    ensures ScanFront(s) == Character(k)
  {
    FirstByteFixesLength(s[..k]);
  }

  /** A malformed stretch, and a character cut off by the end, are maximal subparts. */
  lemma ScanSubpart(s: Bytes)
    requires s != [] && !ScanFront(s).Character?
    ensures MaximalSubpart(s, if ScanFront(s).Malformed? then ScanFront(s).len else |s|)
  {
    var n := if ScanFront(s).Malformed? then ScanFront(s).len else |s|;
    if n > 1 {
      var t := CompletesToCharacter(s[..n]);
      assert Begins(s[..n]);
    }
    forall k: nat | n < k <= |s|
      ensures !Begins(s[..k])
    {
      if Begins(s[..k]) {
        BeginsMeans(s[..k]);
      }
    }
  }

  /** Rust's lossy decoding is the one the standard describes. */
  lemma {:induction false} LossyMeetsStandard(s: Bytes)
    ensures Decodes(s, Lossy(s))
    decreases |s|
  {
    if s != [] {
      ScanBounds(s);
      ScanCharacter(s);
      var out := Lossy(s);
      match ScanFront(s) {
        case Character(k) =>
          LossyMeetsStandard(s[k..]);
          assert out[..k] == s[..k] && out[k..] == Lossy(s[k..]);
        case Malformed(n) =>
          LossyMeetsStandard(s[n..]);
          ScanSubpart(s);
          assert out[..3] == REPLACEMENT && out[3..] == Lossy(s[n..]);
        case CutOff =>
          ScanSubpart(s);
          assert s[|s|..] == [] && out[3..] == [];
          assert Decodes(s[|s|..], out[3..]);
          assert out[..3] == REPLACEMENT;
      }
    }
  }

  lemma SubpartUnique(s: Bytes, m: nat, n: nat)
    requires MaximalSubpart(s, m) && MaximalSubpart(s, n)
    ensures m == n
  {
    assert !(m < n) && !(n < m);
  }

  /** Length of what the scan takes off the front, as a character or as one replacement. */
  function Front(s: Bytes): (n: nat)
    requires s != []
    ensures 0 < n <= |s|
  {
    ScanBounds(s);
    if ScanFront(s).CutOff? then |s| else ScanFront(s).len
  }

  lemma DecodesCharacter(s: Bytes, out: Bytes)
    requires s != [] && Decodes(s, out) && ScanFront(s).Character?
    ensures Front(s) <= |out| && out[..Front(s)] == s[..Front(s)] && Decodes(s[Front(s)..], out[Front(s)..])
  {
    ScanCharacter(s);
    var k: nat :| 0 < k <= |s| && WellFormed(s[..k]) && k <= |out| && out[..k] == s[..k] && Decodes(s[k..], out[k..]);
    CharacterUnique(s, k);
  }

  lemma DecodesSubpart(s: Bytes, out: Bytes)
    requires s != [] && Decodes(s, out) && !ScanFront(s).Character?
    ensures 3 <= |out| && out[..3] == REPLACEMENT && Decodes(s[Front(s)..], out[3..])
  {
    ScanCharacter(s);
    ScanSubpart(s);
    var n: nat :| MaximalSubpart(s, n) && 3 <= |out| && out[..3] == REPLACEMENT && Decodes(s[n..], out[3..]);
    SubpartUnique(s, n, Front(s));
  }

  lemma LossyFront(s: Bytes)
    requires s != []
    ensures Lossy(s) == (if ScanFront(s).Character? then s[..Front(s)] else REPLACEMENT) + Lossy(s[Front(s)..])
  {
    if ScanFront(s).CutOff? {
      assert s[|s|..] == [];
    }
  }

  lemma Rejoined(s: Bytes, k: nat)
    requires k <= |s|
    ensures s == s[..k] + s[k..]
  {
  }

  /** The standard allows no other decoding. */
  lemma {:induction false} StandardMeansLossy(s: Bytes, out: Bytes)
    requires Decodes(s, out)
    ensures out == Lossy(s)
    decreases |s|
  {
    if s != [] {
      LossyFront(s);
      var k, n := Front(s), if ScanFront(s).Character? then Front(s) else 3;
      if ScanFront(s).Character? {
        DecodesCharacter(s, out);
      } else {
        DecodesSubpart(s, out);
      }
      StandardMeansLossy(s[k..], out[n..]);
      Rejoined(out, n);
    }
  }

  /** The scan accepts exactly UTF-8. */
  lemma {:induction false} ValidIsUtf8(s: Bytes)
    requires Validate(s).Valid?
    ensures IsUtf8(s)
    decreases |s|
  {
    if s == [] {
      var none: seq<Bytes> := [];
      assert Concat(none) == s;
    } else {
      ScanBounds(s);
      ScanCharacter(s);
      var k := ScanFront(s).len;
      ValidIsUtf8(s[k..]);
      var parts: seq<Bytes> :| Concat(parts) == s[k..] && forall p | p in parts :: WellFormed(p);
      PartsPrepend(s[..k], parts);
      Rejoined(s, k);
    }
  }

  lemma PartsPrepend(p: Bytes, parts: seq<Bytes>)
    requires WellFormed(p) && forall q | q in parts :: WellFormed(q)
    ensures IsUtf8(p + Concat(parts))
  {
    var all := [p] + parts;
    assert all[0] == p && all[1..] == parts;
    assert Concat(all) == p + Concat(parts);
  }

  lemma {:induction false} Utf8IsValid(parts: seq<Bytes>)
    requires forall p | p in parts :: WellFormed(p)
    ensures Validate(Concat(parts)).Valid?
    decreases |parts|
  {
    if parts != [] {
      var p, rest := parts[0], Concat(parts[1..]);
      var s := Concat(parts);
      assert p in parts && forall q | q in parts[1..] :: q in parts;
      Utf8IsValid(parts[1..]);
      assert s[..|p|] == p && s[|p|..] == rest;
      CharacterUnique(s, |p|);
    }
  }
}
