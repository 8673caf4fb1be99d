/**
 * Character classes and the string operations of Python's `str` that the
 * extractor relies on: `strip()`, `splitlines()`, `upper()` on ASCII letters
 * and the `in` substring test.
 */
module Text {

  /** `str.isspace()`, which is also what `\s` and `strip()` mean on a str. */
  predicate IsSpace(c: char) {
    c == ' ' || '\t' <= c <= '\r' || '\U{1C}' <= c <= '\U{1F}' || c == '\U{85}' || c == '\U{A0}'
    || c == '\U{1680}' || '\U{2000}' <= c <= '\U{200A}' || c == '\U{2028}' || c == '\U{2029}'
    || c == '\U{202F}' || c == '\U{205F}' || c == '\U{3000}'
  }

  /** The characters `str.splitlines()` breaks at (`\r\n` counts as one break). */
  predicate IsLineBreak(c: char) {
    '\n' <= c <= '\r' || '\U{1C}' <= c <= '\U{1E}' || c == '\U{85}' || c == '\U{2028}' || c == '\U{2029}'
  }

  predicate IsDigit(c: char) { '0' <= c <= '9' }

  predicate IsAsciiUpper(c: char) { 'A' <= c <= 'Z' }

  predicate IsAsciiLower(c: char) { 'a' <= c <= 'z' }

  predicate IsAsciiLetter(c: char) { IsAsciiUpper(c) || IsAsciiLower(c) }

  /** `\w` on a str, as far as Latin-1: letters, digits, `_` and the Latin-1 letters and numerals. */
  predicate IsWordChar(c: char) {
    IsAsciiLetter(c) || IsDigit(c) || c == '_'
    || c == '\U{AA}' || c == '\U{B2}' || c == '\U{B3}' || c == '\U{B5}' || c == '\U{B9}' || c == '\U{BA}'
    || '\U{BC}' <= c <= '\U{BE}'
    || ('\U{C0}' <= c <= '\U{FF}' && c != '\U{D7}' && c != '\U{F7}')
  }

  /** Simple case folding used by `re.IGNORECASE`, as far as Latin-1. */
  function Fold(c: char): (f: char)
    ensures IsAsciiUpper(c) ==> IsAsciiLower(f)
    ensures !IsAsciiUpper(c) && !('\U{C0}' <= c <= '\U{DE}') ==> f == c
  {
    if IsAsciiUpper(c) || ('\U{C0}' <= c <= '\U{DE}' && c != '\U{D7}') then (c as int + 32) as char else c
  }

  predicate AllDigits(s: string) {
    forall k :: 0 <= k < |s| ==> IsDigit(s[k])
  }

  /** `str.upper()` on a string of ASCII letters. */
  function AsciiUpper(s: string): (r: string)
    ensures |r| == |s|
    ensures forall k :: 0 <= k < |s| ==> r[k] == (if IsAsciiLower(s[k]) then (s[k] as int - 32) as char else s[k])
  {
    seq(|s|, k requires 0 <= k < |s| => if IsAsciiLower(s[k]) then (s[k] as int - 32) as char else s[k])
  }

  /** Python's `w in s`. */
  predicate Contains(s: string, w: string)
    decreases |s|
  {
    w <= s || (s != [] && Contains(s[1..], w))
  }

  /** `w` stands in `s` from position `b` on. */
  predicate StandsAt(s: string, b: nat, w: string) {
    b + |w| <= |s| && s[b..b + |w|] == w
  }

  /** A piece that stands at some position of `s` is contained in `s`. */
  lemma {:induction false} ContainsAt(s: string, w: string, b: nat)
    requires StandsAt(s, b, w)
    ensures Contains(s, w)
    decreases b
  {
    if b == 0 {
      assert s[..|w|] == w;
    } else {
      assert s[1..][b - 1..b - 1 + |w|] == s[b..b + |w|];
      ContainsAt(s[1..], w, b - 1);
    }
  }

  // ---------------------------------------------------------------- strip()

  /** Number of whitespace characters `strip()` removes at the front. */
  function LeadingSpaces(s: string): (a: nat)
    ensures a <= |s|
    ensures forall k :: 0 <= k < a ==> IsSpace(s[k])
    ensures a < |s| ==> !IsSpace(s[a])
    decreases |s|
  {
    if s == [] || !IsSpace(s[0]) then 0 else 1 + LeadingSpaces(s[1..])
  }

  /** Index just after the last non-whitespace character (0 when there is none). */
  function ContentEnd(s: string): (b: nat)
    ensures b <= |s|
    ensures forall k :: b <= k < |s| ==> IsSpace(s[k])
    ensures b > 0 ==> !IsSpace(s[b - 1])
    decreases |s|
  {
    if s == [] || !IsSpace(s[|s| - 1]) then |s| else ContentEnd(s[..|s| - 1])
  }

  predicate IsStripped(s: string) {
    s == [] || (!IsSpace(s[0]) && !IsSpace(s[|s| - 1]))
  }

  /** A line that `strip()` empties: nothing but whitespace. */
  predicate IsBlank(s: string) {
    forall k :: 0 <= k < |s| ==> IsSpace(s[k])
  }

  /**
   * Python's `s.strip()`: `""` exactly for a blank string; otherwise the part
   * of `s` that is left once the whitespace at both ends is taken away.
   */
  function Strip(s: string): (r: string)
    ensures IsStripped(r)
    ensures r == [] <==> IsBlank(s)
    ensures r != [] ==>
      var a := LeadingSpaces(s);
      a + |r| <= |s| && r == s[a..a + |r|] && IsBlank(s[..a]) && IsBlank(s[a + |r|..])
  {
    var a, b := LeadingSpaces(s), ContentEnd(s);
    if a == |s| then []
    else
      assert IsBlank(s[..a]) && IsBlank(s[b..]) by {
        assert forall k :: 0 <= k < a ==> s[..a][k] == s[k];
        assert forall k :: 0 <= k < |s| - b ==> s[b..][k] == s[b + k];
      }
      s[a..b]
  }

  /** Stripping a string that already has no outer whitespace changes nothing. */
  lemma StripStripped(s: string)
    requires IsStripped(s)
    ensures Strip(s) == s
  {
    if s != [] {
      assert LeadingSpaces(s) == 0;
      assert ContentEnd(s) == |s|;
    }
  }

  /** Every character of `Strip(s)` comes from `s`. */
  lemma StripChars(s: string)
    ensures forall c :: c in Strip(s) ==> c in s
  {
    var r := Strip(s);
    if r != [] {
      forall c | c in r ensures c in s {
        var k :| 0 <= k < |r| && r[k] == c;
        assert s[LeadingSpaces(s) + k] == c;
      }
    }
  }

  // ----------------------------------------------------------- splitlines()

  /** Index of the first line break at or after `i`, or `|s|`. */
  function BreakAt(s: string, i: nat): (k: nat)
    requires i <= |s|
    ensures i <= k <= |s|
    ensures k < |s| ==> IsLineBreak(s[k])
    ensures forall m :: i <= m < k ==> !IsLineBreak(s[m])
    decreases |s| - i
  {
    if i == |s| || IsLineBreak(s[i]) then i else BreakAt(s, i + 1)
  }

  predicate NoLineBreak(s: string) {
    forall k :: 0 <= k < |s| ==> !IsLineBreak(s[k])
  }

  /** Python's `s.splitlines()`: no trailing empty line, `\r\n` is a single break. */
  function SplitLines(s: string): (lines: seq<string>)
    ensures forall k :: 0 <= k < |lines| ==> NoLineBreak(lines[k])
    ensures s == [] <==> lines == []
    decreases |s|
  {
    if s == [] then []
    else
      var k := BreakAt(s, 0);
      if k == |s| then [s]
      else
        var next := if s[k] == '\r' && k + 1 < |s| && s[k + 1] == '\n' then k + 2 else k + 1;
        [s[..k]] + SplitLines(s[next..])
  }
  /** A terminator `splitlines()` cuts at: a single break character, or `\r\n` taken as one. */
  predicate IsLineEnd(e: string) {
    (|e| == 1 && IsLineBreak(e[0])) || e == "\r\n"
  }

  /** The text that `lines`, each followed by its terminator in `ends`, spell out. */
  function Unsplit(lines: seq<string>, ends: seq<string>): string
    requires |lines| == |ends|
  {
    if lines == [] then [] else lines[0] + ends[0] + Unsplit(lines[1..], ends[1..])
  }

  /**
   * `lines` is how `splitlines()` cuts `s`, with `ends` the terminators it
   * drops: the first line holds no break and is followed by its terminator,
   * which may be missing only for a non-empty last line at the very end of
   * `s`; a lone `\r` is never followed straight away by the `\n` that a
   * `\r\n` terminator would have taken; and the rest of `s` is cut the same
   * way.
   */
  predicate SplitOf(s: string, lines: seq<string>, ends: seq<string>)
    decreases |lines|
  {
    && |lines| == |ends|
    && Unsplit(lines, ends) == s
    && (lines != [] ==>
          var rest := Unsplit(lines[1..], ends[1..]);
          && NoLineBreak(lines[0])
          && (IsLineEnd(ends[0]) || (ends[0] == [] && rest == [] && lines[0] != []))
          && (ends[0] == "\r" && rest != [] ==> rest[0] != '\n')
          && SplitOf(rest, lines[1..], ends[1..]))
  }

  /** A cut of the text after one terminated line extends to a cut of the whole text. */
  lemma SplitOfCons(s: string, a: string, e: string, lines: seq<string>, ends: seq<string>)
    requires |a| + |e| <= |s| && s[..|a| + |e|] == a + e
    requires SplitOf(s[|a| + |e|..], lines, ends)
    requires NoLineBreak(a) && IsLineEnd(e)
    requires e == "\r" && |a| + 1 < |s| ==> s[|a| + 1] != '\n'
    ensures SplitOf(s, [a] + lines, [e] + ends)
  {
    var rest := s[|a| + |e|..];
    assert s == a + e + rest;
    assert ([a] + lines)[1..] == lines && ([e] + ends)[1..] == ends;
    if e == "\r" && rest != [] {
      assert rest[0] == s[|a| + 1];
    }
  }

  /** One step of `SplitLines`: the text up to the first break, then the lines after its terminator. */
  lemma SplitLinesStep(s: string, k: nat, next: nat)
    requires k == BreakAt(s, 0) < |s|
    requires next == if s[k] == '\r' && k + 1 < |s| && s[k + 1] == '\n' then k + 2 else k + 1
    ensures SplitLines(s) == [s[..k]] + SplitLines(s[next..])
  {
  }

  /** A cut of the text after the first terminator gives a cut of the whole text. */
  lemma SplitLinesCutsStep(s: string, k: nat, next: nat, ends: seq<string>)
    requires k == BreakAt(s, 0) < |s|
    requires next == if s[k] == '\r' && k + 1 < |s| && s[k + 1] == '\n' then k + 2 else k + 1
    requires SplitOf(s[next..], SplitLines(s[next..]), ends)
    ensures SplitOf(s, SplitLines(s), [s[k..next]] + ends)
  {
    var e := s[k..next];
    assert IsLineEnd(e) by {
      assert IsLineBreak(s[k]);
    }
    assert k + |e| == next && s[..next] == s[..k] + e;
    assert NoLineBreak(s[..k]) by {
      assert forall m :: 0 <= m < k ==> s[..k][m] == s[m];
    }
    SplitOfCons(s, s[..k], e, SplitLines(s[next..]), ends);
    SplitLinesStep(s, k, next);
  }

  /** `SplitLines(s)` cuts `s` at its line terminators, `ends` being the ones it drops. */
  lemma {:induction false} SplitLinesCuts(s: string) returns (ends: seq<string>)
    ensures SplitOf(s, SplitLines(s), ends)
    decreases |s|
  {
    if s == [] {
      assert SplitLines(s) == [];
      ends := [];
    } else {
      var k := BreakAt(s, 0);
      if k == |s| {
        assert NoLineBreak(s) && s == s + "" + [];
        assert SplitLines(s) == [s];
        ends := [""];
      } else {
        var next := if s[k] == '\r' && k + 1 < |s| && s[k + 1] == '\n' then k + 2 else k + 1;
        var rest := SplitLinesCuts(s[next..]);
        SplitLinesCutsStep(s, k, next, rest);
        ends := [s[k..next]] + rest;
      }
    }
  }

  /** The first line of a cut is what `SplitLines` takes first, and the rest is cut alike. */
  lemma SplitOfFirst(s: string, lines: seq<string>, ends: seq<string>)
    requires SplitOf(s, lines, ends) && lines != []
    ensures SplitLines(s) == [lines[0]] + SplitLines(Unsplit(lines[1..], ends[1..]))
  {
    var a, e := lines[0], ends[0];
    var rest := Unsplit(lines[1..], ends[1..]);
    assert s == a + e + rest;
    var k := BreakAt(s, 0);
    if e == [] {
      assert rest == [] && s == a;
      assert k == |s| by {
        assert NoLineBreak(s);
      }
      assert SplitLines(s) == [s] && SplitLines(rest) == [];
    } else {
      assert k == |a| by {
        assert forall m :: 0 <= m < |a| ==> s[m] == a[m];
        assert s[|a|] == e[0] && IsLineBreak(e[0]);
      }
      var next := if s[k] == '\r' && k + 1 < |s| && s[k + 1] == '\n' then k + 2 else k + 1;
      assert next == |a| + |e| by {
        if e == "\r" && k + 1 < |s| {
          assert s[k + 1] == rest[0];
        }
      }
      assert s[next..] == rest && s[..k] == a;
      SplitLinesStep(s, k, next);
    }
  }

  /** ... and it is the only such cut: any `SplitOf` decomposition of `s` yields `SplitLines(s)`. */
  lemma {:induction false} SplitOfUnique(s: string, lines: seq<string>, ends: seq<string>)
    requires SplitOf(s, lines, ends)
    ensures lines == SplitLines(s)
    decreases |lines|
  {
    if lines == [] {
      assert SplitLines(s) == [];
    } else {
      SplitOfUnique(Unsplit(lines[1..], ends[1..]), lines[1..], ends[1..]);
      SplitOfFirst(s, lines, ends);
    }
  }
}
