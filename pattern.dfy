/**
 * The fragment of Python's `re` that the masker and the header extractor use:
 * a pattern is a sequence of greedy repetitions of a character class
 * (`x`, `x?`, `x*`, `x+`, `x{n}`, `x{m,n}`) and word-boundary assertions (`\b`).
 * Matching follows `re`'s backtracking order: a repetition first takes as many
 * characters as it can and gives them back one at a time.  A successful match
 * returns its trace: the position before each element and after the last one,
 * from which capture groups are read off.
 */
module Pattern {
  import opened Text
  import opened Wrappers

  datatype CharClass =
    | Range(lo: char, hi: char)       // `[lo-hi]`
    | OneOf(chars: string)            // a literal character or `[...]` of literals
    | Space                           // `\s`
    | NoCase(x: char)                 // literal `x` under `re.IGNORECASE`
    | NotNewline                      // `.` without `re.DOTALL`
    | Union(a: CharClass, b: CharClass)

  predicate In(c: char, k: CharClass) {
    match k
    case Range(lo, hi) => lo <= c <= hi
    case OneOf(cs) => c in cs
    case Space => IsSpace(c)
    case NoCase(x) => Fold(c) == Fold(x)
    case NotNewline => c != '\n'
    case Union(a, b) => In(c, a) || In(c, b)
  }

  /** `\d`: the decimal digits (the only ones Latin-1 has). */
  const Digit := Range('0', '9')
  const Upper := Range('A', 'Z')
  const Lower := Range('a', 'z')

  datatype Bound = AtMost(n: nat) | Unbounded

  datatype Elem = Rep(cls: CharClass, lo: nat, hi: Bound) | WordBoundary

  type Pattern = seq<Elem>

  function Once(k: CharClass): Elem { Rep(k, 1, AtMost(1)) }
  function Optional(k: CharClass): Elem { Rep(k, 0, AtMost(1)) }
  function Star(k: CharClass): Elem { Rep(k, 0, Unbounded) }
  function Plus(k: CharClass): Elem { Rep(k, 1, Unbounded) }
  function Times(k: CharClass, n: nat): Elem { Rep(k, n, AtMost(n)) }

  /** A literal word matched case-sensitively. */
  function Literal(w: string): (p: Pattern)
    ensures |p| == |w| && forall k :: 0 <= k < |w| ==> p[k] == Once(OneOf([w[k]]))
  {
    seq(|w|, k requires 0 <= k < |w| => Once(OneOf([w[k]])))
  }

  /** A literal word matched under `re.IGNORECASE`. */
  function NoCaseLiteral(w: string): (p: Pattern)
    ensures |p| == |w| && forall k :: 0 <= k < |w| ==> p[k] == Once(NoCase(w[k]))
  {
    seq(|w|, k requires 0 <= k < |w| => Once(NoCase(w[k])))
  }

  predicate Within(n: nat, hi: Bound) {
    match hi
    case AtMost(m) => n <= m
    case Unbounded => true
  }

  /** Length of the longest run of characters of class `k` starting at `i`. */
  function MaxRun(k: CharClass, s: string, i: nat): (n: nat)
    requires i <= |s|
    ensures i + n <= |s|
    ensures forall m :: i <= m < i + n ==> In(s[m], k)
    ensures i + n < |s| ==> !In(s[i + n], k)
    decreases |s| - i
  {
    if i < |s| && In(s[i], k) then 1 + MaxRun(k, s, i + 1) else 0
  }

  /** The greedy first try of a repetition: the longest run, cut at the upper bound. */
  function Greedy(k: CharClass, hi: Bound, s: string, i: nat): (n: nat)
    requires i <= |s|
    ensures n <= MaxRun(k, s, i) && Within(n, hi)
    ensures forall m :: 0 <= m <= MaxRun(k, s, i) && Within(m, hi) ==> m <= n
  {
    var run := MaxRun(k, s, i);
    match hi
    case AtMost(cap) => if run <= cap then run else cap
    case Unbounded => run
  }

  /** `\b`: a word character on exactly one side of position `i`. */
  predicate AtWordBoundary(s: string, i: nat)
    requires i <= |s|
  {
    (i > 0 && IsWordChar(s[i - 1])) != (i < |s| && IsWordChar(s[i]))
  }

  /** Element `e` matches exactly `s[a..b]`. */
  predicate Spans(e: Elem, s: string, a: nat, b: nat) {
    a <= b <= |s| &&
    match e
    case WordBoundary => a == b && AtWordBoundary(s, a)
    case Rep(k, lo, hi) => lo <= b - a && Within(b - a, hi) && forall m :: a <= m < b ==> In(s[m], k)
  }

  /** `t` records a way for the whole pattern to match `s[t[0]..t[|p|]]`, element by element. */
  predicate Trace(p: Pattern, s: string, t: seq<nat>) {
    |t| == |p| + 1
    && (forall j :: 0 <= j <= |p| ==> t[0] <= t[j] <= |s|)
    && (forall j :: 0 <= j < |p| ==> Spans(p[j], s, t[j], t[j + 1]))
  }

  lemma TraceCons(p: Pattern, s: string, i: nat, t: seq<nat>)
    requires p != [] && Trace(p[1..], s, t) && Spans(p[0], s, i, t[0])
    ensures Trace(p, s, [i] + t)
  {
    var t' := [i] + t;
    forall j | 0 <= j < |p| ensures Spans(p[j], s, t'[j], t'[j + 1]) {
      if j > 0 { assert p[j] == p[1..][j - 1]; }
    }
  }

  lemma TraceTail(p: Pattern, s: string, t: seq<nat>)
    requires p != [] && Trace(p, s, t)
    ensures Trace(p[1..], s, t[1..]) && Spans(p[0], s, t[0], t[1])
  {
    forall j | 0 <= j < |p| - 1 ensures Spans(p[1..][j], s, t[1..][j], t[1..][j + 1]) {
      assert p[1..][j] == p[j + 1];
    }
    forall j | 0 <= j <= |p| - 1 ensures t[1..][0] <= t[1..][j] <= |s| {
      if j > 0 { TraceMonotone(p, s, t, 1, j + 1); }
    }
  }

  lemma {:induction false} TraceMonotone(p: Pattern, s: string, t: seq<nat>, a: nat, b: nat)
    requires Trace(p, s, t) && a <= b <= |p|
    ensures t[a] <= t[b]
    decreases b - a
  {
    if a < b {
      assert Spans(p[a], s, t[a], t[a + 1]);
      TraceMonotone(p, s, t, a + 1, b);
    }
  }

  /** The first match of `p` that starts exactly at `i`, in `re`'s backtracking order. */
  function MatchAt(p: Pattern, s: string, i: nat): (r: Option<seq<nat>>)
    requires i <= |s|
    ensures r.Some? ==> Trace(p, s, r.value) && r.value[0] == i
    decreases |p|, 1, 0
  {
    if p == [] then Some([i])
    else
      match p[0]
      case WordBoundary =>
        if !AtWordBoundary(s, i) then None
        else
          (match MatchAt(p[1..], s, i)
           case None => None
           case Some(t) => TraceCons(p, s, i, t); Some([i] + t))
      case Rep(k, lo, hi) => TryCounts(p, s, i, Greedy(k, hi, s, i))
  }

  /** Tries the first repetition of `p` with `n`, `n - 1`, ... characters, down to its minimum. */
  function TryCounts(p: Pattern, s: string, i: nat, n: nat): (r: Option<seq<nat>>)
    requires p != [] && p[0].Rep? && i + n <= |s|
    requires Within(n, p[0].hi) && forall m :: i <= m < i + n ==> In(s[m], p[0].cls)
    ensures r.Some? ==> Trace(p, s, r.value) && r.value[0] == i
    decreases |p|, 0, n
  {
    if n < p[0].lo then None
    else
      match MatchAt(p[1..], s, i + n)
      case Some(t) => TraceCons(p, s, i, t); Some([i] + t)
      case None =>
        if n == 0 then None
        else
          assert Within(n - 1, p[0].hi) by { if p[0].hi.AtMost? {} }
          TryCounts(p, s, i, n - 1)
  }

  /** Backtracking reaches every repetition count between the greedy one and the minimum. */
  lemma {:induction false} TryCountsReaches(p: Pattern, s: string, i: nat, n: nat, m: nat)
    requires p != [] && p[0].Rep? && i + n <= |s|
    requires Within(n, p[0].hi) && forall x :: i <= x < i + n ==> In(s[x], p[0].cls)
    requires p[0].lo <= m <= n && MatchAt(p[1..], s, i + m).Some?
    ensures TryCounts(p, s, i, n).Some?
    decreases n - m
  {
    if m < n && MatchAt(p[1..], s, i + n).None? {
      assert Within(n - 1, p[0].hi) by { if p[0].hi.AtMost? {} }
      TryCountsReaches(p, s, i, n - 1, m);
    }
  }

  /** The longest run is at least as long as any run. */
  lemma {:induction false} RunCovers(k: CharClass, s: string, i: nat, m: nat)
    requires i + m <= |s| && forall x :: i <= x < i + m ==> In(s[x], k)
    ensures m <= MaxRun(k, s, i)
    decreases m
  {
    if m > 0 {
      RunCovers(k, s, i + 1, m - 1);
    }
  }

  /** Completeness: whenever some trace exists, `MatchAt` finds a match at its start. */
  lemma {:induction false} MatchComplete(p: Pattern, s: string, t: seq<nat>)
    requires Trace(p, s, t)
    ensures MatchAt(p, s, t[0]).Some?
    decreases |p|
  {
    if p != [] {
      TraceTail(p, s, t);
      MatchComplete(p[1..], s, t[1..]);
      match p[0]
      case WordBoundary =>
      case Rep(k, lo, hi) =>
        var m := t[1] - t[0];
        RunCovers(k, s, t[0], m);
        TryCountsReaches(p, s, t[0], Greedy(k, hi, s, t[0]), m);
    }
  }

  /** The rest of a match is the first match of the rest of the pattern from where it starts. */
  lemma {:induction false} TryCountsGreedy(p: Pattern, s: string, i: nat, n: nat)
    requires p != [] && p[0].Rep? && i + n <= |s|
    requires Within(n, p[0].hi) && forall m :: i <= m < i + n ==> In(s[m], p[0].cls)
    requires TryCounts(p, s, i, n).Some?
    ensures var t := TryCounts(p, s, i, n).value;
      i <= t[1] <= i + n && MatchAt(p[1..], s, t[1]) == Some(t[1..])
      && forall j :: t[1] < j <= i + n ==> MatchAt(p[1..], s, j).None?
    decreases n
  {
    match MatchAt(p[1..], s, i + n)
    case Some(t) =>
      assert ([i] + t)[1..] == t;
    case None =>
      assert Within(n - 1, p[0].hi) by { if p[0].hi.AtMost? {} }
      TryCountsGreedy(p, s, i, n - 1);
      var t := TryCounts(p, s, i, n - 1).value;
      forall j | t[1] < j <= i + n ensures MatchAt(p[1..], s, j).None? {
        if j == i + n {}
      }
  }

  /**
   * How `re` settles a leading repetition: it takes the largest count, at most
   * the greedy one, for which the rest of the pattern matches, and the rest of
   * the match is the first match of the rest of the pattern from there.
   */
  lemma MatchGreedy(p: Pattern, s: string, i: nat)
    requires i <= |s| && p != [] && MatchAt(p, s, i).Some?
    ensures var t := MatchAt(p, s, i).value;
      i <= t[1] <= |s| && MatchAt(p[1..], s, t[1]) == Some(t[1..])
      && (p[0].Rep? ==>
            t[1] - i <= Greedy(p[0].cls, p[0].hi, s, i)
            && forall j :: t[1] < j <= i + Greedy(p[0].cls, p[0].hi, s, i) ==> MatchAt(p[1..], s, j).None?)
  {
    match p[0]
    case WordBoundary =>
      var t := MatchAt(p[1..], s, i).value;
      assert ([i] + t)[1..] == t;
    case Rep(k, lo, hi) =>
      assert MatchAt(p, s, i) == TryCounts(p, s, i, Greedy(k, hi, s, i));
      TryCountsGreedy(p, s, i, Greedy(k, hi, s, i));
  }

  /** Every suffix of a match is the first match of the matching suffix of the pattern. */
  lemma {:induction false} MatchSuffix(p: Pattern, s: string, i: nat, e: nat)
    requires i <= |s| && MatchAt(p, s, i).Some? && e <= |p|
    ensures var t := MatchAt(p, s, i).value; t[e] <= |s| && MatchAt(p[e..], s, t[e]) == Some(t[e..])
    decreases e
  {
    var t := MatchAt(p, s, i).value;
    if e == 0 {
      assert p[0..] == p && t[0..] == t;
    } else {
      MatchSuffix(p, s, i, e - 1);
      MatchGreedy(p[e - 1..], s, t[e - 1]);
      assert p[e - 1..][1..] == p[e..] && t[e - 1..][1..] == t[e..];
    }
  }

  /** The last element of a match, when it is a repetition, takes the greedy count. */
  lemma MatchLastGreedy(p: Pattern, s: string, i: nat)
    requires i <= |s| && p != [] && p[|p| - 1].Rep? && MatchAt(p, s, i).Some?
    ensures var t := MatchAt(p, s, i).value; var e := |p| - 1;
      t[e] <= |s| && t[|p|] == t[e] + Greedy(p[e].cls, p[e].hi, s, t[e])
  {
    var t := MatchAt(p, s, i).value;
    var e := |p| - 1;
    MatchSuffix(p, s, i, e);
    MatchGreedy(p[e..], s, t[e]);
    assert p[e..][0] == p[e] && p[e..][1..] == [] && t[e..][1] == t[|p|];
    var g := Greedy(p[e].cls, p[e].hi, s, t[e]);
    if t[|p|] < t[e] + g {
      assert MatchAt(p[e..][1..], s, t[e] + g).Some?;
    }
  }

  /** End of the maximal run of class `k` from `i`. */
  function RunEnd(k: CharClass, s: string, i: nat): (j: nat)
    requires i <= |s|
    ensures i <= j <= |s|
  {
    i + MaxRun(k, s, i)
  }

  /** Every character of a maximal run is in the class, and the character after it is not. */
  lemma RunContents(k: CharClass, s: string, i: nat)
    requires i <= |s|
    ensures forall m :: i <= m < RunEnd(k, s, i) ==> In(s[m], k)
    ensures RunEnd(k, s, i) < |s| ==> !In(s[RunEnd(k, s, i)], k)
  {
  }

  /** A maximal run stops at the first character outside the class. */
  lemma RunStops(k: CharClass, s: string, i: nat, j: nat)
    requires i <= j <= |s|
    requires forall m :: i <= m < j ==> In(s[m], k)
    requires j < |s| ==> !In(s[j], k)
    ensures RunEnd(k, s, i) == j
  {
    RunCovers(k, s, i, j - i);
  }

  /**
   * In any trace, a repetition followed by a required element whose class it
   * does not share ends where its maximal run ends: the next element must
   * start on a character outside its class.
   */
  lemma TraceRunEnds(p: Pattern, s: string, t: seq<nat>, e: nat)
    requires Trace(p, s, t) && e + 1 < |p| && p[e].Rep? && p[e].hi == Unbounded
    requires p[e + 1].Rep? && p[e + 1].lo >= 1
    requires forall c :: In(c, p[e + 1].cls) ==> !In(c, p[e].cls)
    ensures t[e + 1] == RunEnd(p[e].cls, s, t[e])
  {
    assert Spans(p[e], s, t[e], t[e + 1]);
    assert Spans(p[e + 1], s, t[e + 1], t[e + 2]);
    RunStops(p[e].cls, s, t[e], t[e + 1]);
  }

  /** `re.search`: the match with the leftmost start at or after `i`. */
  function SearchFrom(p: Pattern, s: string, i: nat): (r: Option<seq<nat>>)
    requires i <= |s|
    ensures r.Some? ==> Trace(p, s, r.value) && i <= r.value[0] && MatchAt(p, s, r.value[0]) == r
    ensures r.Some? ==> forall j :: i <= j < r.value[0] ==> MatchAt(p, s, j).None?
    ensures r.None? ==> forall j :: i <= j <= |s| ==> MatchAt(p, s, j).None?
    decreases |s| - i
  {
    match MatchAt(p, s, i)
    case Some(t) => Some(t)
    case None => if i == |s| then None else SearchFrom(p, s, i + 1)
  }

  function Search(p: Pattern, s: string): (r: Option<seq<nat>>)
    ensures r.Some? ==> Trace(p, s, r.value) && MatchAt(p, s, r.value[0]) == r
    ensures r.Some? ==> forall j :: 0 <= j < r.value[0] ==> MatchAt(p, s, j).None?
    ensures r.None? ==> forall j :: 0 <= j <= |s| ==> MatchAt(p, s, j).None?
  {
    SearchFrom(p, s, 0)
  }

  /** `re.search` fails only when no trace of the pattern exists anywhere. */
  lemma SearchFinds(p: Pattern, s: string, t: seq<nat>)
    requires Trace(p, s, t)
    ensures Search(p, s).Some? && Search(p, s).value[0] <= t[0]
  {
    MatchComplete(p, s, t);
  }

  /** The text captured by the elements `a` up to (not including) `b` of a trace. */
  function Capture(s: string, t: seq<nat>, a: nat, b: nat): string
    requires a <= b < |t| && t[a] <= t[b] <= |s|
  {
    s[t[a]..t[b]]
  }

  // ------------------------------------------------------------------ re.sub

  /**
   * `re.sub(p, repl, s[i..])` for a replacement without group references:
   * scan left to right, replace each match and continue after it.
   * An empty match is left alone here; none of the patterns this model
   * substitutes can match the empty text (see `MatchNonEmpty`).
   */
  function SubFrom(p: Pattern, repl: string, s: string, i: nat): (r: string)
    requires i <= |s|
    ensures forall c :: c in r ==> c in s || c in repl
    decreases |s| - i
  {
    if i == |s| then []
    else
      match MatchAt(p, s, i)
      case Some(t) =>
        if t[|p|] > i then repl + SubFrom(p, repl, s, t[|p|]) else [s[i]] + SubFrom(p, repl, s, i + 1)
      case None => [s[i]] + SubFrom(p, repl, s, i + 1)
  }

  /** `re.sub(p, repl, s)`: brings in no character that is in neither the text nor the replacement. */
  function Sub(p: Pattern, repl: string, s: string): (r: string)
    ensures forall c :: c in r ==> c in s || c in repl
  {
    SubFrom(p, repl, s, 0)
  }

  /** A match of a pattern with a required repetition is never empty. */
  lemma MatchNonEmpty(p: Pattern, s: string, t: seq<nat>, e: nat)
    requires Trace(p, s, t) && e < |p| && p[e].Rep? && p[e].lo >= 1
    ensures t[0] < t[|p|]
  {
    assert Spans(p[e], s, t[e], t[e + 1]);
    TraceMonotone(p, s, t, e + 1, |p|);
  }

  /** A required repetition in a match covers a character of its class. */
  lemma MatchUsesClass(p: Pattern, s: string, t: seq<nat>, e: nat)
    requires Trace(p, s, t) && e < |p| && p[e].Rep? && p[e].lo >= 1
    ensures t[e] < |s| && In(s[t[e]], p[e].cls)
  {
    assert Spans(p[e], s, t[e], t[e + 1]);
  }

  /** A pattern with a required element whose class no character of `s` belongs to never matches. */
  lemma NeverMatches(p: Pattern, s: string, e: nat)
    requires e < |p| && p[e].Rep? && p[e].lo >= 1
    requires forall m :: 0 <= m < |s| ==> !In(s[m], p[e].cls)
    ensures forall i :: 0 <= i <= |s| ==> MatchAt(p, s, i).None?
  {
    forall i | 0 <= i <= |s| ensures MatchAt(p, s, i).None? {
      var r := MatchAt(p, s, i);
      if r.Some? {
        MatchUsesClass(p, s, r.value, e);
      }
    }
  }

  /** Substitution with no match anywhere returns the text unchanged. */
  lemma {:induction false} SubUnchanged(p: Pattern, repl: string, s: string, i: nat)
    requires i <= |s|
    requires forall j :: i <= j <= |s| ==> MatchAt(p, s, j).None?
    ensures SubFrom(p, repl, s, i) == s[i..]
    decreases |s| - i
  {
    if i < |s| {
      SubUnchanged(p, repl, s, i + 1);
      assert s[i..] == [s[i]] + s[i + 1..];
    }
  }

  /** A pattern with a required element whose class no character of `s` belongs to leaves `s` as it is. */
  lemma SubWithoutClass(p: Pattern, repl: string, s: string, e: nat)
    requires e < |p| && p[e].Rep? && p[e].lo >= 1
    requires forall m :: 0 <= m < |s| ==> !In(s[m], p[e].cls)
    ensures Sub(p, repl, s) == s
  {
    NeverMatches(p, s, e);
    SubUnchanged(p, repl, s, 0);
  }

  /** One step of the scan: a non-empty match at `i` is replaced, otherwise the character at `i` is copied. */
  lemma SubFromStep(p: Pattern, repl: string, s: string, i: nat)
    requires i < |s|
    ensures MatchAt(p, s, i).Some? && MatchAt(p, s, i).value[|p|] > i ==>
      SubFrom(p, repl, s, i) == repl + SubFrom(p, repl, s, MatchAt(p, s, i).value[|p|])
    ensures MatchAt(p, s, i).None? || MatchAt(p, s, i).value[|p|] <= i ==>
      SubFrom(p, repl, s, i) == [s[i]] + SubFrom(p, repl, s, i + 1)
  {
  }

  /** Positions where no match starts, or only an empty one, are copied one character at a time. */
  lemma {:induction false} SubSkip(p: Pattern, repl: string, s: string, i: nat, j: nat)
    requires i <= j <= |s|
    requires forall m :: i <= m < j && MatchAt(p, s, m).Some? ==> MatchAt(p, s, m).value[|p|] <= m
    ensures SubFrom(p, repl, s, i) == s[i..j] + SubFrom(p, repl, s, j)
    decreases j - i
  {
    if i < j {
      var rest := SubFrom(p, repl, s, j);
      calc {
        SubFrom(p, repl, s, i);
        { SubFromStep(p, repl, s, i);
          assert MatchAt(p, s, i).None? || MatchAt(p, s, i).value[|p|] <= i; }
        [s[i]] + SubFrom(p, repl, s, i + 1);
        { SubSkip(p, repl, s, i + 1, j); }
        [s[i]] + (s[i + 1..j] + rest);
        { assert [s[i]] + (s[i + 1..j] + rest) == ([s[i]] + s[i + 1..j]) + rest; }
        ([s[i]] + s[i + 1..j]) + rest;
        { assert [s[i]] + s[i + 1..j] == s[i..j]; }
        s[i..j] + rest;
      }
    }
  }

  /** `re.sub` copies the text before the first match, puts the replacement in its place and goes on after it. */
  lemma SubFirstMatch(p: Pattern, repl: string, s: string)
    requires Search(p, s).Some? && Search(p, s).value[0] < Search(p, s).value[|p|]
    ensures var t := Search(p, s).value;
      t[|p|] <= |s| && Sub(p, repl, s) == s[..t[0]] + repl + SubFrom(p, repl, s, t[|p|])
  {
    var t := Search(p, s).value;
    SubSkip(p, repl, s, 0, t[0]);
  }

  /** No repetition of `p` admits `c`. */
  predicate Outside(p: Pattern, c: char) {
    forall e :: 0 <= e < |p| && p[e].Rep? ==> !In(c, p[e].cls)
  }

  /** Every character a match covers, from element `j` on, is admitted by one of its repetitions. */
  lemma {:induction false} TraceCovers(p: Pattern, s: string, t: seq<nat>, j: nat, m: nat)
    requires Trace(p, s, t) && j <= |p| && t[j] <= m < t[|p|]
    ensures m < |s| && !Outside(p, s[m])
    decreases |p| - j
  {
    assert Spans(p[j], s, t[j], t[j + 1]);
    if m < t[j + 1] {
      assert p[j].Rep? && In(s[m], p[j].cls);
    } else {
      TraceCovers(p, s, t, j + 1, m);
    }
  }

  /**
   * Inside a piece `w` whose last character no match can cover and whose
   * characters all lie outside the class of a required element, only empty
   * matches start.
   */
  lemma InsideNoMatch(p: Pattern, s: string, a: nat, w: string, e: nat, m: nat)
    requires a <= m < a + |w| <= |s| && s[a..a + |w|] == w
    requires e < |p| && p[e].Rep? && p[e].lo >= 1
    requires forall k :: 0 <= k < |w| ==> !In(w[k], p[e].cls)
    requires Outside(p, w[|w| - 1])
    requires MatchAt(p, s, m).Some?
    ensures MatchAt(p, s, m).value[|p|] <= m
  {
    var t := MatchAt(p, s, m).value;
    var last := a + |w| - 1;
    assert s[last] == w[|w| - 1];
    assert forall k :: a <= k < a + |w| ==> !In(s[k], p[e].cls) by {
      forall k | a <= k < a + |w| ensures !In(s[k], p[e].cls) {
        assert s[k] == w[k - a];
      }
    }
    if t[|p|] > m {
      if t[|p|] > last {
        TraceCovers(p, s, t, 0, last);
        assert false;
      } else {
        MatchUsesClass(p, s, t, e);
        assert Spans(p[e], s, t[e], t[e + 1]);
        TraceMonotone(p, s, t, 0, e);
        TraceMonotone(p, s, t, e + 1, |p|);
        assert false;
      }
    }
  }

  /** A piece at `b` of `y` stands at `|x| + b` of `x + y`. */
  lemma PieceAfter(x: string, y: string, b: nat, w: string)
    requires StandsAt(y, b, w)
    ensures StandsAt(x + y, |x| + b, w)
  {
    assert (x + y)[|x| + b..|x| + b + |w|] == y[b..b + |w|];
  }

  /** A match that starts before a character no class of `p` admits ends at or before it. */
  lemma MatchStopsBefore(p: Pattern, s: string, i: nat, a: nat)
    requires i < a < |s| && Outside(p, s[a]) && MatchAt(p, s, i).Some?
    ensures MatchAt(p, s, i).value[|p|] <= a
  {
    var t := MatchAt(p, s, i).value;
    if t[|p|] > a {
      TraceCovers(p, s, t, 0, a);
      assert false;
    }
  }

  /** The scan copies a piece that no non-empty match starts in. */
  lemma SubFromPiece(p: Pattern, repl: string, s: string, a: nat, w: string, e: nat)
    requires StandsAt(s, a, w) && w != []
    requires e < |p| && p[e].Rep? && p[e].lo >= 1
    requires forall k :: 0 <= k < |w| ==> !In(w[k], p[e].cls)
    requires Outside(p, w[|w| - 1])
    ensures SubFrom(p, repl, s, a) == w + SubFrom(p, repl, s, a + |w|)
  {
    forall m | a <= m < a + |w| && MatchAt(p, s, m).Some?
      ensures MatchAt(p, s, m).value[|p|] <= m
    {
      InsideNoMatch(p, s, a, w, e, m);
    }
    SubSkip(p, repl, s, a, a + |w|);
  }

  /**
   * The scan from `i` passes through position `a` when no non-empty match
   * that starts before `a` reaches beyond it: the output from `i` is some
   * text `x` followed by the output from `a`.
   */
  lemma ScanReaches(p: Pattern, repl: string, s: string, i: nat, a: nat) returns (x: string)
    requires i <= a <= |s|
    requires forall m :: i <= m < a && MatchAt(p, s, m).Some? ==> MatchAt(p, s, m).value[|p|] <= a
    ensures SubFrom(p, repl, s, i) == x + SubFrom(p, repl, s, a)
  {
    var j := i;
    x := [];
    while j < a
      invariant i <= j <= a
      invariant SubFrom(p, repl, s, i) == x + SubFrom(p, repl, s, j)
    {
      SubFromStep(p, repl, s, j);
      var r := MatchAt(p, s, j);
      var step: string, next: nat;
      if r.Some? && r.value[|p|] > j {
        step, next := repl, r.value[|p|];
      } else {
        step, next := [s[j]], j + 1;
      }
      ConcatAssoc(x, step, SubFrom(p, repl, s, next));
      x, j := x + step, next;
    }
  }

  /** Concatenation is associative (kept apart so the scan's proof stays small). */
  lemma ConcatAssoc(x: string, y: string, z: string)
    ensures x + (y + z) == (x + y) + z
  {
  }

  /**
   * Substitution leaves alone a piece `w` at `a` that no match can reach
   * into: its first and last characters are outside every class of `p`, and
   * all its characters are outside the class of a required element.
   */
  lemma SubKeeps(p: Pattern, repl: string, s: string, a: nat, w: string, e: nat) returns (b: nat)
    requires StandsAt(s, a, w) && w != []
    requires e < |p| && p[e].Rep? && p[e].lo >= 1
    requires forall k :: 0 <= k < |w| ==> !In(w[k], p[e].cls)
    requires Outside(p, w[0]) && Outside(p, w[|w| - 1])
    ensures StandsAt(Sub(p, repl, s), b, w)
  {
    assert s[a] == w[0];
    forall m | 0 <= m < a && MatchAt(p, s, m).Some?
      ensures MatchAt(p, s, m).value[|p|] <= a
    {
      MatchStopsBefore(p, s, m, a);
    }
    var x := ScanReaches(p, repl, s, 0, a);
    SubFromPiece(p, repl, s, a, w, e);
    var rest := SubFrom(p, repl, s, a + |w|);
    assert Sub(p, repl, s) == x + (w + rest);
    PieceAfter(x, w + rest, 0, w);
    b := |x|;
  }

  // ------------------------------------------------------- reading a trace

  /** The text captured by element `e` of a match: its length is allowed by the bounds and each of its characters is in the class. */
  lemma CaptureShape(p: Pattern, s: string, t: seq<nat>, e: nat)
    requires Trace(p, s, t) && e < |p| && p[e].Rep?
    ensures t[e] <= t[e + 1] <= |s|
    ensures p[e].lo <= |Capture(s, t, e, e + 1)| && Within(|Capture(s, t, e, e + 1)|, p[e].hi)
    ensures forall m :: t[e] <= m < t[e + 1] ==> In(s[m], p[e].cls)
  {
    assert Spans(p[e], s, t[e], t[e + 1]);
  }

  /** `s[i..]` starts with `w`, letters compared as `re.IGNORECASE` compares them. */
  predicate NoCaseAt(s: string, i: nat, w: string) {
    i + |w| <= |s| && forall k :: 0 <= k < |w| ==> Fold(s[i + k]) == Fold(w[k])
  }

  // ------------------------------------------------------- building traces

  /** Traces of two patterns that meet make a trace of their concatenation. */
  lemma TraceJoin(p: Pattern, q: Pattern, s: string, t: seq<nat>, u: seq<nat>)
    requires Trace(p, s, t) && Trace(q, s, u) && t[|p|] == u[0]
    ensures Trace(p + q, s, t + u[1..])
  {
    var v := t + u[1..];
    forall j | 0 <= j < |p + q| ensures Spans((p + q)[j], s, v[j], v[j + 1]) {
      if j >= |p| {
        assert (p + q)[j] == q[j - |p|] && v[j] == u[j - |p|] && v[j + 1] == u[j - |p| + 1];
      }
    }
    forall j | 0 <= j <= |p + q| ensures v[0] <= v[j] <= |s| {
      if j > |p| {
        assert v[j] == u[j - |p|];
      }
    }
  }

  /** A trace of a concatenation splits into traces of its two parts. */
  lemma TraceSplit(p: Pattern, q: Pattern, s: string, t: seq<nat>)
    requires Trace(p + q, s, t)
    ensures Trace(p, s, t[..|p| + 1]) && Trace(q, s, t[|p|..])
  {
    forall j | 0 <= j < |p| ensures Spans(p[j], s, t[j], t[j + 1]) {
      assert (p + q)[j] == p[j];
    }
    forall j | 0 <= j < |q| ensures Spans(q[j], s, t[|p| + j], t[|p| + j + 1]) {
      assert (p + q)[|p| + j] == q[j];
    }
    forall j | |p| <= j <= |p + q| ensures t[|p|] <= t[j] {
      TraceMonotone(p + q, s, t, |p|, j);
    }
  }

  /**
   * A star before a pattern whose first element needs a character outside the
   * star's class: the star takes the whole run, and the rest matches from the
   * end of that run exactly as it would on its own.
   */
  lemma StarThen(k: CharClass, q: Pattern, s: string, a: nat)
    requires a <= |s| && q != [] && q[0].Rep? && q[0].lo >= 1
    requires forall c :: In(c, q[0].cls) ==> !In(c, k)
    ensures var d := RunEnd(k, s, a);
      (MatchAt([Star(k)] + q, s, a).Some? <==> MatchAt(q, s, d).Some?)
      && (MatchAt(q, s, d).Some? ==> MatchAt([Star(k)] + q, s, a) == Some([a] + MatchAt(q, s, d).value))
  {
    if MatchAt([Star(k)] + q, s, a).Some? {
      StarThenRead(k, q, s, a);
    }
    if MatchAt(q, s, RunEnd(k, s, a)).Some? {
      StarThenBuild(k, q, s, a);
    }
  }

  lemma StarThenRead(k: CharClass, q: Pattern, s: string, a: nat)
    requires a <= |s| && q != [] && q[0].Rep? && q[0].lo >= 1
    requires forall c :: In(c, q[0].cls) ==> !In(c, k)
    requires MatchAt([Star(k)] + q, s, a).Some?
    ensures var t := MatchAt([Star(k)] + q, s, a).value;
      t == [a] + t[1..] && MatchAt(q, s, RunEnd(k, s, a)) == Some(t[1..])
  {
    var p := [Star(k)] + q;
    TraceRunEnds(p, s, MatchAt(p, s, a).value, 0);
    MatchSuffix(p, s, a, 1);
    assert p[1..] == q;
  }

  lemma StarThenBuild(k: CharClass, q: Pattern, s: string, a: nat)
    requires a <= |s| && MatchAt(q, s, RunEnd(k, s, a)).Some?
    ensures MatchAt([Star(k)] + q, s, a).Some?
  {
    var d := RunEnd(k, s, a);
    RunContents(k, s, a);
    var u := MatchAt(q, s, d).value;
    assert Trace([Star(k)], s, [a, d]) by {
      assert Spans([Star(k)][0], s, a, d);
    }
    TraceJoin([Star(k)], q, s, [a, d], u);
    MatchComplete([Star(k)] + q, s, [a, d] + u[1..]);
  }

  /**
   * A fixed count `n` of class `k` before a pattern: the `n` characters at `d`
   * must be in the class, and the rest matches from `d + n` exactly as it would
   * on its own.
   */
  lemma FixedThen(k: CharClass, n: nat, r: Pattern, s: string, d: nat)
    requires d <= |s|
    ensures var ok := d + n <= |s| && forall m :: d <= m < d + n ==> In(s[m], k);
      (MatchAt([Times(k, n)] + r, s, d).Some? <==> ok && MatchAt(r, s, d + n).Some?)
      && (ok && MatchAt(r, s, d + n).Some? ==> MatchAt([Times(k, n)] + r, s, d) == Some([d] + MatchAt(r, s, d + n).value))
  {
    if MatchAt([Times(k, n)] + r, s, d).Some? {
      FixedThenRead(k, n, r, s, d);
    }
    if d + n <= |s| && (forall m :: d <= m < d + n ==> In(s[m], k)) && MatchAt(r, s, d + n).Some? {
      FixedThenBuild(k, n, r, s, d);
    }
  }

  lemma FixedThenRead(k: CharClass, n: nat, r: Pattern, s: string, d: nat)
    requires d <= |s| && MatchAt([Times(k, n)] + r, s, d).Some?
    ensures var t := MatchAt([Times(k, n)] + r, s, d).value;
      d + n <= |s| && (forall m :: d <= m < d + n ==> In(s[m], k))
      && t == [d] + t[1..] && MatchAt(r, s, d + n) == Some(t[1..])
  {
    var p := [Times(k, n)] + r;
    var t := MatchAt(p, s, d).value;
    assert Spans(p[0], s, t[0], t[1]);
    MatchSuffix(p, s, d, 1);
    assert p[1..] == r;
  }

  lemma FixedThenBuild(k: CharClass, n: nat, r: Pattern, s: string, d: nat)
    requires d + n <= |s| && (forall m :: d <= m < d + n ==> In(s[m], k)) && MatchAt(r, s, d + n).Some?
    ensures MatchAt([Times(k, n)] + r, s, d).Some?
  {
    var u := MatchAt(r, s, d + n).value;
    assert Trace([Times(k, n)], s, [d, d + n]) by {
      assert Spans([Times(k, n)][0], s, d, d + n);
    }
    TraceJoin([Times(k, n)], r, s, [d, d + n], u);
    MatchComplete([Times(k, n)] + r, s, [d, d + n] + u[1..]);
  }

  /** A single unbounded repetition takes the whole run from `d`, and fails when the run is shorter than its minimum. */
  lemma LastRun(k: CharClass, lo: nat, s: string, d: nat)
    requires d <= |s|
    ensures MatchAt([Rep(k, lo, Unbounded)], s, d) == if MaxRun(k, s, d) >= lo then Some([d, RunEnd(k, s, d)]) else None
  {
    var p := [Rep(k, lo, Unbounded)];
    var n := MaxRun(k, s, d);
    assert p[1..] == [] && MatchAt(p[1..], s, d + n) == Some([d + n]);
    assert MatchAt(p, s, d) == TryCounts(p, s, d, n);
    if n >= lo {
      assert TryCounts(p, s, d, n) == Some([d] + [d + n]);
      assert [d] + [d + n] == [d, RunEnd(k, s, d)];
    }
  }

  /** A label: a word, one character of class `k`, and a second word, the words matched under `re.IGNORECASE`. */
  function LabelPattern(w1: string, k: CharClass, w2: string): (p: Pattern)
    ensures |p| == |w1| + 1 + |w2|
    ensures forall m :: 0 <= m < |p| ==> p[m].Rep? && p[m].lo == 1 && p[m].hi == AtMost(1)
  {
    NoCaseLiteral(w1) + [Once(k)] + NoCaseLiteral(w2)
  }

  /** The text at `i` reads as the label. */
  predicate LabelAt(s: string, i: nat, w1: string, k: CharClass, w2: string) {
    NoCaseAt(s, i, w1) && i + |w1| < |s| && In(s[i + |w1|], k) && NoCaseAt(s, i + |w1| + 1, w2)
  }

  /** Text that reads as the label at `i` is traced by it, one character per element. */
  lemma LabelTrace(s: string, i: nat, w1: string, k: CharClass, w2: string)
    requires LabelAt(s, i, w1, k, w2)
    ensures Trace(LabelPattern(w1, k, w2), s, seq(|w1| + |w2| + 2, m => i + m))
  {
    var p := LabelPattern(w1, k, w2);
    var t := seq(|w1| + |w2| + 2, m => i + m);
    forall m | 0 <= m < |p| ensures Spans(p[m], s, t[m], t[m + 1]) {
      if m < |w1| {
        assert p[m] == Once(NoCase(w1[m]));
      } else if m > |w1| {
        assert p[m] == Once(NoCase(w2[m - |w1| - 1]));
        assert Fold(s[i + |w1| + 1 + (m - |w1| - 1)]) == Fold(w2[m - |w1| - 1]);
      }
    }
  }

  /** Every trace of a label reads it, one character per element. */
  lemma LabelRead(s: string, t: seq<nat>, w1: string, k: CharClass, w2: string)
    requires Trace(LabelPattern(w1, k, w2), s, t)
    ensures LabelAt(s, t[0], w1, k, w2) && t[|w1| + |w2| + 1] == t[0] + |w1| + |w2| + 1
  {
    var p := LabelPattern(w1, k, w2);
    OnceSteps(p, s, t, 0, |p|);
    forall m | 0 <= m < |w1| ensures Fold(s[t[0] + m]) == Fold(w1[m]) {
      assert p[m] == Once(NoCase(w1[m]));
      assert In(s[t[m]], p[m].cls);
    }
    assert p[|w1|] == Once(k);
    forall m | 0 <= m < |w2| ensures Fold(s[t[0] + |w1| + 1 + m]) == Fold(w2[m]) {
      assert p[|w1| + 1 + m] == Once(NoCase(w2[m]));
      assert In(s[t[|w1| + 1 + m]], p[|w1| + 1 + m].cls);
    }
  }
  /**
   * A label before a pattern: the text at `i` must read as the label, and the
   * rest matches right after it exactly as it would on its own.
   */
  lemma LabelThen(w1: string, k: CharClass, w2: string, q: Pattern, s: string, i: nat)
    requires i <= |s|
    ensures var n := |w1| + |w2| + 1; var p := LabelPattern(w1, k, w2) + q;
      (LabelAt(s, i, w1, k, w2) && MatchAt(q, s, i + n).Some? ==> MatchAt(p, s, i).Some?)
      && (MatchAt(p, s, i).Some? ==> LabelAt(s, i, w1, k, w2) && MatchAt(q, s, i + n) == Some(MatchAt(p, s, i).value[n..]))
  {
    if MatchAt(LabelPattern(w1, k, w2) + q, s, i).Some? {
      LabelThenRead(w1, k, w2, q, s, i);
    }
    if LabelAt(s, i, w1, k, w2) && MatchAt(q, s, i + |w1| + |w2| + 1).Some? {
      LabelThenBuild(w1, k, w2, q, s, i);
    }
  }

  lemma LabelThenRead(w1: string, k: CharClass, w2: string, q: Pattern, s: string, i: nat)
    requires i <= |s| && MatchAt(LabelPattern(w1, k, w2) + q, s, i).Some?
    ensures var n := |w1| + |w2| + 1; var t := MatchAt(LabelPattern(w1, k, w2) + q, s, i).value;
      LabelAt(s, i, w1, k, w2) && MatchAt(q, s, i + n) == Some(t[n..])
  {
    var n := |w1| + |w2| + 1;
    var l := LabelPattern(w1, k, w2);
    var t := MatchAt(l + q, s, i).value;
    TraceSplit(l, q, s, t);
    LabelRead(s, t[..n + 1], w1, k, w2);
    MatchSuffix(l + q, s, i, n);
    assert (l + q)[n..] == q;
  }

  lemma LabelThenBuild(w1: string, k: CharClass, w2: string, q: Pattern, s: string, i: nat)
    requires LabelAt(s, i, w1, k, w2) && MatchAt(q, s, i + |w1| + |w2| + 1).Some?
    ensures MatchAt(LabelPattern(w1, k, w2) + q, s, i).Some?
  {
    var ht := seq(|w1| + |w2| + 2, m => i + m);
    var u := MatchAt(q, s, i + |w1| + |w2| + 1).value;
    LabelTrace(s, i, w1, k, w2);
    TraceJoin(LabelPattern(w1, k, w2), q, s, ht, u);
    MatchComplete(LabelPattern(w1, k, w2) + q, s, ht + u[1..]);
  }



  /** `s[i..]` starts with `w`. */
  predicate LiteralAt(s: string, i: nat, w: string) {
    i + |w| <= |s| && s[i..i + |w|] == w
  }

  /** Elements `off .. off + n` of a match each take exactly one character. */
  lemma {:induction false} OnceSteps(p: Pattern, s: string, t: seq<nat>, off: nat, n: nat)
    requires Trace(p, s, t) && off + n <= |p|
    requires forall k :: off <= k < off + n ==> p[k].Rep? && p[k].lo == 1 && p[k].hi == AtMost(1)
    ensures t[off + n] == t[off] + n <= |s|
    ensures forall k :: off <= k < off + n ==> t[k] == t[off] + (k - off) && In(s[t[k]], p[k].cls)
    decreases n
  {
    if n > 0 {
      OnceSteps(p, s, t, off, n - 1);
      assert Spans(p[off + n - 1], s, t[off + n - 1], t[off + n]);
    }
  }

  /** A match of a pattern holding a case-insensitive literal starts that literal at the literal's position. */
  lemma TraceNoCaseLiteral(p: Pattern, s: string, t: seq<nat>, off: nat, w: string)
    requires Trace(p, s, t) && off + |w| <= |p|
    requires forall k :: 0 <= k < |w| ==> p[off + k] == Once(NoCase(w[k]))
    ensures NoCaseAt(s, t[off], w)
  {
    forall k | off <= k < off + |w| ensures p[k] == Once(NoCase(w[k - off])) {
      assert p[off + (k - off)] == Once(NoCase(w[k - off]));
    }
    OnceSteps(p, s, t, off, |w|);
    forall k | 0 <= k < |w| ensures Fold(s[t[off] + k]) == Fold(w[k]) {
      assert t[off + k] == t[off] + k;
      assert In(s[t[off + k]], p[off + k].cls);
    }
  }

  /** A match of a pattern holding a literal contains that literal at the literal's position. */
  lemma TraceLiteral(p: Pattern, s: string, t: seq<nat>, off: nat, w: string)
    requires Trace(p, s, t) && off + |w| <= |p|
    requires forall k :: 0 <= k < |w| ==> p[off + k] == Once(OneOf([w[k]]))
    ensures LiteralAt(s, t[off], w)
  {
    forall k | off <= k < off + |w| ensures p[k] == Once(OneOf([w[k - off]])) {
      assert p[off + (k - off)] == Once(OneOf([w[k - off]]));
    }
    OnceSteps(p, s, t, off, |w|);
    forall k | 0 <= k < |w| ensures s[t[off] + k] == w[k] {
      assert t[off + k] == t[off] + k;
      assert In(s[t[off + k]], p[off + k].cls);
    }
  }
}
