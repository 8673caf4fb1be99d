/**
 * The item quantity: parsed from a Brazilian-format token by
 * `float(qtd_raw.replace(".", "").replace(",", "."))` (app_expedicao.py:63)
 * and printed on the picking sheet by
 * `f"{q:,.2f}".replace(",", "X").replace(".", ",").replace("X", ".")`
 * (app_expedicao.py:126).  The value is kept as an exact decimal instead of a float.
 */
module Quantity {
  import opened Text
  import opened Wrappers

  /** The number `mant / 10^exp`. */
  datatype Decimal = Decimal(mant: nat, exp: nat)

  /** The `ValueError` that `float()` raises, with the string it was given. */
  datatype QtyError = NotANumber(text: string)

  function Pow10(n: nat): (r: nat)
    ensures r >= 1
  {
    if n == 0 then 1 else 10 * Pow10(n - 1)
  }

  lemma {:induction false} Pow10Add(a: nat, b: nat)
    ensures Pow10(a + b) == Pow10(a) * Pow10(b)
    decreases a
  {
    if a > 0 {
      Pow10Add(a - 1, b);
    }
  }

  /** `a` and `b` denote the same number. */
  predicate SameValue(a: Decimal, b: Decimal) {
    a.mant * Pow10(b.exp) == b.mant * Pow10(a.exp)
  }

  /** The characters `[\d\.\,]` of a quantity token. */
  predicate IsQtyChar(c: char) {
    IsDigit(c) || c == '.' || c == ','
  }

  predicate QtyToken(s: string) {
    forall k :: 0 <= k < |s| ==> IsQtyChar(s[k])
  }

  function DigitValue(c: char): nat
    requires IsDigit(c)
  {
    c as int - '0' as int
  }

  function DigitChar(d: nat): (c: char)
    requires d < 10
    ensures IsDigit(c) && DigitValue(c) == d
  {
    ('0' as int + d) as char
  }

  /** The number a string of decimal digits spells. */
  function ValueOf(s: string): nat
    requires AllDigits(s)
    decreases |s|
  {
    if s == [] then 0 else ValueOf(s[..|s| - 1]) * 10 + DigitValue(s[|s| - 1])
  }

  lemma {:induction false} ValueOfConcat(x: string, y: string)
    requires AllDigits(x) && AllDigits(y)
    ensures AllDigits(x + y) && ValueOf(x + y) == ValueOf(x) * Pow10(|y|) + ValueOf(y)
    decreases |y|
  {
    if y != [] {
      var y' := y[..|y| - 1];
      assert (x + y)[..|x + y| - 1] == x + y';
      assert (x + y)[|x + y| - 1] == y[|y| - 1];
      ValueOfConcat(x, y');
      var v := DigitValue(y[|y| - 1]);
      assert ValueOf(x + y) == ValueOf(x + y') * 10 + v;
      assert ValueOf(y) == ValueOf(y') * 10 + v;
      assert Pow10(|y|) == Pow10(|y'|) * 10;
      ShiftDigit(ValueOf(x), Pow10(|y'|), ValueOf(y'), v);
    } else {
      assert x + y == x;
    }
  }

  lemma ShiftDigit(a: int, p: int, b: int, v: int)
    ensures (a * p + b) * 10 + v == a * (p * 10) + (b * 10 + v)
  {
  }

  /** The digits of `s`, in order. */
  function Digits(s: string): (r: string)
    ensures AllDigits(r)
    decreases |s|
  {
    if s == [] then [] else (if IsDigit(s[0]) then [s[0]] else []) + Digits(s[1..])
  }

  lemma {:induction false} DigitsConcat(x: string, y: string)
    ensures Digits(x + y) == Digits(x) + Digits(y)
    decreases |x|
  {
    if x != [] {
      assert (x + y)[0] == x[0];
      assert (x + y)[1..] == x[1..] + y;
      DigitsConcat(x[1..], y);
    } else {
      assert x + y == y;
    }
  }

  lemma {:induction false} DigitsOfDigits(s: string)
    requires AllDigits(s)
    ensures Digits(s) == s
    decreases |s|
  {
    if s != [] {
      DigitsOfDigits(s[1..]);
    }
  }

  /** Number of occurrences of `c` in `s`. */
  function Count(c: char, s: string): nat
    decreases |s|
  {
    if s == [] then 0 else (if s[0] == c then 1 else 0) + Count(c, s[1..])
  }

  lemma {:induction false} CountConcat(c: char, x: string, y: string)
    ensures Count(c, x + y) == Count(c, x) + Count(c, y)
    decreases |x|
  {
    if x != [] {
      assert (x + y)[0] == x[0];
      assert (x + y)[1..] == x[1..] + y;
      CountConcat(c, x[1..], y);
    } else {
      assert x + y == y;
    }
  }

  lemma {:induction false} CountAbsent(c: char, s: string)
    ensures Count(c, s) == 0 <==> c !in s
    decreases |s|
  {
    if s != [] {
      CountAbsent(c, s[1..]);
      assert c in s <==> s[0] == c || c in s[1..];
    }
  }

  /** Index of the first `c` in `s`, or `|s|`. */
  function IndexOf(s: string, c: char): (k: nat)
    ensures k <= |s|
    ensures k < |s| ==> s[k] == c
    ensures forall m :: 0 <= m < k ==> s[m] != c
    decreases |s|
  {
    if s == [] then 0 else if s[0] == c then 0 else 1 + IndexOf(s[1..], c)
  }

  lemma IndexAfterPrefix(x: string, c: char, y: string)
    requires c !in x
    ensures IndexOf(x + [c] + y, c) == |x|
  {
    var s := x + [c] + y;
    var k := IndexOf(s, c);
    assert s[|x|] == c;
    assert forall m :: 0 <= m < |x| ==> s[m] == x[m];
  }

  /** The part after the first `c`, empty when there is none. */
  function AfterFirst(s: string, c: char): string {
    var k := IndexOf(s, c);
    if k < |s| then s[k + 1..] else []
  }

  /** Python's `s.replace(a, b)` for a one-character `a`. */
  function Replace(s: string, a: char, b: string): string
    decreases |s|
  {
    if s == [] then [] else (if s[0] == a then b else [s[0]]) + Replace(s[1..], a, b)
  }

  /** `replace` keeps every other character, drops `a`, and brings in `b` where `a` was. */
  lemma {:induction false} ReplaceChars(s: string, a: char, b: string)
    ensures forall c :: c in Replace(s, a, b) ==> (c in s && c != a) || c in b
    ensures forall c :: c in s && c != a ==> c in Replace(s, a, b)
    ensures a in s ==> forall c :: c in b ==> c in Replace(s, a, b)
    decreases |s|
  {
    if s != [] {
      ReplaceChars(s[1..], a, b);
      assert forall c :: c in s ==> c == s[0] || c in s[1..];
    }
  }

  lemma {:induction false} ReplaceConcat(x: string, y: string, a: char, b: string)
    ensures Replace(x + y, a, b) == Replace(x, a, b) + Replace(y, a, b)
    decreases |x|
  {
    if x != [] {
      assert (x + y)[0] == x[0];
      assert (x + y)[1..] == x[1..] + y;
      ReplaceConcat(x[1..], y, a, b);
      var h := if x[0] == a then b else [x[0]];
      assert Replace(x + y, a, b) == h + (Replace(x[1..], a, b) + Replace(y, a, b));
    } else {
      assert x + y == y;
    }
  }

  lemma {:induction false} ReplaceAbsent(s: string, a: char, b: string)
    requires a !in s
    ensures Replace(s, a, b) == s
    decreases |s|
  {
    if s != [] {
      ReplaceAbsent(s[1..], a, b);
    }
  }

  // ------------------------------------------------------------------ parsing

  /**
   * `qtd_raw.replace(".", "").replace(",", ".")`: every point is dropped and
   * every comma becomes a point, the other characters kept.
   */
  function Rewrite(raw: string): (r: string)
    ensures ',' !in r
    ensures '.' in r <==> ',' in raw
    ensures forall c :: c != '.' ==> (c in r <==> c in raw && c != ',')
  {
    var t := Replace(raw, '.', "");
    ReplaceChars(raw, '.', "");
    ReplaceChars(t, ',', ".");
    assert ',' !in t ==> Replace(t, ',', ".") == t by {
      if ',' !in t {
        ReplaceAbsent(t, ',', ".");
      }
    }
    Replace(t, ',', ".")
  }

  lemma {:induction false} RewriteConcat(x: string, y: string)
    ensures Rewrite(x + y) == Rewrite(x) + Rewrite(y)
  {
    ReplaceConcat(x, y, '.', "");
    ReplaceConcat(Replace(x, '.', ""), Replace(y, '.', ""), ',', ".");
  }

  /** Without a comma, the rewrite keeps exactly the digits. */
  lemma {:induction false} RewriteNoComma(s: string)
    requires QtyToken(s) && ',' !in s
    ensures Rewrite(s) == Digits(s)
    decreases |s|
  {
    if s != [] {
      assert s == [s[0]] + s[1..];
      RewriteConcat([s[0]], s[1..]);
      RewriteNoComma(s[1..]);
    }
  }

  /** The rewrite contains only digits and dots, and a dot exactly where the token had a comma. */
  lemma {:induction false} RewriteChars(s: string)
    requires QtyToken(s)
    ensures forall k :: 0 <= k < |Rewrite(s)| ==> IsDigit(Rewrite(s)[k]) || Rewrite(s)[k] == '.'
    ensures '.' in Rewrite(s) <==> ',' in s
    decreases |s|
  {
    if s != [] {
      assert s == [s[0]] + s[1..];
      RewriteConcat([s[0]], s[1..]);
      RewriteChars(s[1..]);
      assert ',' in s <==> s[0] == ',' || ',' in s[1..];
    }
  }

  /**
   * Python's `float(s)` on a string made of digits and points: a number
   * exactly when there is at most one point and at least one digit, namely
   * the digits read as an integer, scaled by the count of digits after the
   * point.
   */
  function ParseFloat(s: string): (r: Result<Decimal, QtyError>)
    requires forall k :: 0 <= k < |s| ==> IsDigit(s[k]) || s[k] == '.'
    ensures r.Success? <==> Count('.', s) <= 1 && Digits(s) != []
    ensures r.Success? ==> r.value == Decimal(ValueOf(Digits(s)), |AfterFirst(s, '.')|)
    ensures r.Failure? ==> r.error == NotANumber(s)
  {
    var k := IndexOf(s, '.');
    var intPart := s[..k];
    var fracPart := if k < |s| then s[k + 1..] else [];
    FloatParts(s);
    if '.' in fracPart || intPart + fracPart == [] then Failure(NotANumber(s))
    else
      Success(Decimal(ValueOf(intPart + fracPart), |fracPart|))
  }

  /**
   * What `float` checks, read on the digits and points: the part after the
   * first point has no further point and the two parts hold a digit exactly
   * when there is at most one point and some digit; the parts then spell the
   * digits of the string.
   */
  lemma FloatParts(s: string)
    requires forall k :: 0 <= k < |s| ==> IsDigit(s[k]) || s[k] == '.'
    ensures var k := IndexOf(s, '.');
      var x, y := s[..k], if k < |s| then s[k + 1..] else [];
      && y == AfterFirst(s, '.')
      && (('.' !in y && x + y != []) <==> Count('.', s) <= 1 && Digits(s) != [])
      && ('.' !in y ==> AllDigits(x + y) && x + y == Digits(s))
  {
    var k := IndexOf(s, '.');
    if k == |s| {
      FloatWhole(s);
    } else {
      FloatAt(s, k, s[..k], s[k + 1..]);
    }
  }

  lemma FloatAt(s: string, k: nat, x: string, y: string)
    requires forall k :: 0 <= k < |s| ==> IsDigit(s[k]) || s[k] == '.'
    requires k < |s| && s[k] == '.' && '.' !in x
    requires x == s[..k] && y == s[k + 1..]
    ensures (('.' !in y && x + y != []) <==> Count('.', s) <= 1 && Digits(s) != [])
    ensures '.' !in y ==> AllDigits(x + y) && x + y == Digits(s)
  {
    PointSplit(s, k);
    assert AllDigits(x);
    FloatPoint(x, y);
  }

  lemma PointSplit(s: string, k: nat)
    requires k < |s| && s[k] == '.'
    ensures s == s[..k] + ['.'] + s[k + 1..]
  {
    assert s == s[..k] + s[k..];
  }

  lemma FloatWhole(s: string)
    requires forall k :: 0 <= k < |s| ==> IsDigit(s[k]) || s[k] == '.'
    requires IndexOf(s, '.') == |s|
    ensures AfterFirst(s, '.') == [] && s[..|s|] + [] == s
    ensures Count('.', s) == 0 && AllDigits(s) && Digits(s) == s
  {
    assert s[..|s|] + [] == s;
    assert AllDigits(s);
    CountAbsent('.', s);
    DigitsOfDigits(s);
  }

  lemma FloatPoint(x: string, y: string)
    requires AllDigits(x)
    requires forall k :: 0 <= k < |y| ==> IsDigit(y[k]) || y[k] == '.'
    ensures (('.' !in y && x + y != []) <==> Count('.', x + ['.'] + y) <= 1 && Digits(x + ['.'] + y) != [])
    ensures '.' !in y ==> AllDigits(x + y) && x + y == Digits(x + ['.'] + y)
  {
    assert '.' !in x;
    assert Count('.', x + ['.'] + y) == 1 + Count('.', y) by {
      CountAround(x, '.', y);
    }
    assert Digits(x + ['.'] + y) == x + Digits(y) by {
      DigitsAround(x, '.', y);
      DigitsOfDigits(x);
    }
    assert Count('.', y) == 0 <==> '.' !in y by {
      CountAbsent('.', y);
    }
    if '.' !in y {
      assert Digits(y) == y by {
        assert AllDigits(y);
        DigitsOfDigits(y);
      }
    }
  }

  /**
   * The quantity of an item line: every `.` is dropped and the comma becomes the
   * decimal point.  It is a number exactly when the token has at most one comma
   * and at least one digit; the number is then the token's digits read as an
   * integer, scaled by the count of digits after the comma.
   */
  function ParseQty(raw: string): (r: Result<Decimal, QtyError>)
    requires QtyToken(raw)
    ensures r.Success? <==> Count(',', raw) <= 1 && Digits(raw) != []
    ensures r.Success? ==> r.value == Decimal(ValueOf(Digits(raw)), |Digits(AfterFirst(raw, ','))|)
  {
    RewriteChars(raw);
    ParseQtyShape(raw);
    ParseFloat(Rewrite(raw))
  }

  lemma ParseQtyShape(raw: string)
    requires QtyToken(raw)
    ensures forall k :: 0 <= k < |Rewrite(raw)| ==> IsDigit(Rewrite(raw)[k]) || Rewrite(raw)[k] == '.'
    ensures ParseFloat(Rewrite(raw)).Success? <==> Count(',', raw) <= 1 && Digits(raw) != []
    ensures ParseFloat(Rewrite(raw)).Success? ==>
              ParseFloat(Rewrite(raw)).value == Decimal(ValueOf(Digits(raw)), |Digits(AfterFirst(raw, ','))|)
  {
    RewriteChars(raw);
    var c := IndexOf(raw, ',');
    if c == |raw| {
      RewriteNoComma(raw);
      CountAbsent(',', raw);
      ParseFloatInteger(Digits(raw));
      assert AfterFirst(raw, ',') == [] && Digits([]) == [];
    } else {
      var a, b := raw[..c], raw[c + 1..];
      CommaSplit(raw, a, b);
      RewriteChars(b);
      ParseFloatFraction(Digits(a), Rewrite(b));
      CountAbsent(',', b);
      if ',' !in b {
        RewriteNoComma(b);
      }
    }
  }

  /** Splitting a token at its first comma. */
  lemma CommaSplit(raw: string, a: string, b: string)
    requires QtyToken(raw) && IndexOf(raw, ',') < |raw|
    requires a == raw[..IndexOf(raw, ',')] && b == raw[IndexOf(raw, ',') + 1..]
    ensures QtyToken(a) && QtyToken(b) && ',' !in a
    ensures Rewrite(raw) == Digits(a) + ['.'] + Rewrite(b)
    ensures Count(',', raw) == 1 + Count(',', b)
    ensures Digits(raw) == Digits(a) + Digits(b)
    ensures AfterFirst(raw, ',') == b
  {
    assert raw == a + [','] + b;
    assert QtyToken(a) && ',' !in a;
    SplitRewrite(a, b);
    SplitCount(a, b);
    SplitDigits(a, b);
  }

  lemma SplitRewrite(a: string, b: string)
    requires QtyToken(a) && ',' !in a
    ensures Rewrite(a + [','] + b) == Digits(a) + ['.'] + Rewrite(b)
  {
    RewriteConcat(a + [','], b);
    RewriteConcat(a, [',']);
    RewriteNoComma(a);
    assert Rewrite([',']) == ".";
  }

  lemma SplitCount(a: string, b: string)
    requires ',' !in a
    ensures Count(',', a + [','] + b) == 1 + Count(',', b)
  {
    CountAround(a, ',', b);
  }

  /** The first `c` of a string, counted once, before the rest. */
  lemma CountAround(a: string, c: char, b: string)
    requires c !in a
    ensures Count(c, a + [c] + b) == 1 + Count(c, b)
  {
    CountConcat(c, a + [c], b);
    CountConcat(c, a, [c]);
    CountAbsent(c, a);
    assert Count(c, [c]) == 1 + Count(c, []);
  }

  lemma SplitDigits(a: string, b: string)
    ensures Digits(a + [','] + b) == Digits(a) + Digits(b)
  {
    DigitsAround(a, ',', b);
  }

  /** A non-digit between two strings adds nothing to their digits. */
  lemma DigitsAround(a: string, c: char, b: string)
    requires !IsDigit(c)
    ensures Digits(a + [c] + b) == Digits(a) + Digits(b)
  {
    var u := a + [c];
    DigitsConcat(u, b);
    DigitsConcat(a, [c]);
    DigitsOfMark(c);
  }

  lemma DigitsOfMark(c: char)
    requires !IsDigit(c)
    ensures Digits([c]) == []
  {
    assert [c][1..] == [];
  }

  /** Replacing a character by itself-free text in the one-character string. */
  lemma ReplaceMark(c: char, b: string)
    ensures Replace([c], c, b) == b
  {
    assert [c][1..] == [];
  }

  /** `float` of a string of digits. */
  lemma ParseFloatInteger(x: string)
    requires AllDigits(x)
    ensures ParseFloat(x).Success? <==> x != []
    ensures ParseFloat(x).Success? ==> ParseFloat(x).value == Decimal(ValueOf(x), 0)
  {
    assert '.' !in x;
    assert IndexOf(x, '.') == |x|;
    assert x[..|x|] + [] == x;
  }

  /** `float` of digits, a point, then digits and points. */
  lemma ParseFloatFraction(x: string, y: string)
    requires AllDigits(x)
    requires forall k :: 0 <= k < |y| ==> IsDigit(y[k]) || y[k] == '.'
    ensures forall k :: 0 <= k < |x + ['.'] + y| ==> IsDigit((x + ['.'] + y)[k]) || (x + ['.'] + y)[k] == '.'
    ensures ParseFloat(x + ['.'] + y).Success? <==> '.' !in y && x + y != []
    ensures ParseFloat(x + ['.'] + y).Success? ==> ParseFloat(x + ['.'] + y).value == Decimal(ValueOf(x + y), |y|)
  {
    var r := x + ['.'] + y;
    assert '.' !in x;
    IndexAfterPrefix(x, '.', y);
    assert r[..|x|] == x;
    assert r[|x| + 1..] == y;
  }

  // --------------------------------------------------------------- formatting

  /** Python's `str(n)` for a natural number. */
  function DecimalDigits(n: nat): (s: string)
    ensures AllDigits(s) && |s| >= 1 && ValueOf(s) == n
    decreases n
  {
    if n < 10 then [DigitChar(n)]
    else
      var s := DecimalDigits(n / 10) + [DigitChar(n % 10)];
      assert s[..|s| - 1] == DecimalDigits(n / 10);
      s
  }

  /** Digits with `sep` between groups of three, counted from the right. */
  function Grouped(d: string, sep: char): string
    decreases |d|
  {
    if |d| <= 3 then d else Grouped(d[..|d| - 3], sep) + [sep] + d[|d| - 3..]
  }

  /** One to three digits, then groups of `sep` followed by exactly three digits. */
  predicate WellGrouped(g: string, sep: char)
    decreases |g|
  {
    (1 <= |g| <= 3 && AllDigits(g))
    || (|g| >= 5 && g[|g| - 4] == sep && AllDigits(g[|g| - 3..]) && WellGrouped(g[..|g| - 4], sep))
  }

  /** Grouping is well formed: one to three leading digits, then separated groups of three. */
  lemma {:induction false} GroupedWell(d: string, sep: char)
    requires AllDigits(d) && |d| >= 1
    ensures WellGrouped(Grouped(d, sep), sep)
    decreases |d|
  {
    if |d| > 3 {
      var hd, tl := d[..|d| - 3], d[|d| - 3..];
      GroupedWell(hd, sep);
      var g := Grouped(d, sep);
      var gh := Grouped(hd, sep);
      assert g == gh + [sep] + tl;
      assert g[..|g| - 4] == gh;
      assert g[|g| - 3..] == tl;
      assert g[|g| - 4] == sep;
    }
  }

  /** Dropping the separators of a grouping gives the digits back. */
  lemma {:induction false} GroupedUngroups(d: string, sep: char)
    requires AllDigits(d) && !IsDigit(sep)
    ensures Replace(Grouped(d, sep), sep, "") == d
    decreases |d|
  {
    if |d| <= 3 {
      ReplaceAbsent(d, sep, "");
    } else {
      var hd, tl := d[..|d| - 3], d[|d| - 3..];
      GroupedUngroups(hd, sep);
      UngroupStep(Grouped(hd, sep), tl, sep);
      assert d == hd + tl;
    }
  }

  lemma UngroupStep(gh: string, tl: string, sep: char)
    requires AllDigits(tl) && !IsDigit(sep)
    ensures Replace(gh + [sep] + tl, sep, "") == Replace(gh, sep, "") + tl
  {
    ReplaceAround(gh, sep, tl, "");
    DigitsLackMark(tl, sep);
    ReplaceAbsent(tl, sep, "");
    assert Replace(gh, sep, "") + "" == Replace(gh, sep, "");
  }

  /** Replacing at one occurrence of the character between two strings. */
  lemma ReplaceAround(x: string, a: char, y: string, b: string)
    ensures Replace(x + [a] + y, a, b) == Replace(x, a, b) + b + Replace(y, a, b)
  {
    var u := x + [a];
    ReplaceConcat(u, y, a, b);
    ReplaceConcat(x, [a], a, b);
    ReplaceMark(a, b);
  }

  lemma DigitsLackMark(s: string, c: char)
    requires AllDigits(s) && !IsDigit(c)
    ensures c !in s
  {
    assert forall k :: 0 <= k < |s| ==> s[k] != c;
  }

  /** Replacing the separator of a grouping by another character regroups with that one. */
  lemma {:induction false} RegroupSeparator(d: string, a: char, b: char)
    requires AllDigits(d) && !IsDigit(a)
    ensures Replace(Grouped(d, a), a, [b]) == Grouped(d, b)
    decreases |d|
  {
    if |d| <= 3 {
      ReplaceAbsent(d, a, [b]);
    } else {
      var hd, tl := d[..|d| - 3], d[|d| - 3..];
      RegroupSeparator(hd, a, b);
      ReplaceAround(Grouped(hd, a), a, tl, [b]);
      DigitsLackMark(tl, a);
      ReplaceAbsent(tl, a, [b]);
    }
  }

  /** A grouping by `a` contains no other non-digit character. */
  lemma {:induction false} GroupedOnlySeparator(d: string, a: char, c: char)
    requires AllDigits(d) && !IsDigit(c) && c != a
    ensures c !in Grouped(d, a)
    decreases |d|
  {
    if |d| > 3 {
      GroupedOnlySeparator(d[..|d| - 3], a, c);
    }
  }

  /**
   * The quantity rounded to the nearest hundredth, ties to the even neighbour;
   * the distance to the exact value is at most half a hundredth.
   */
  function Hundredths(q: Decimal): (h: nat)
    ensures -(Pow10(q.exp) as int) <= 2 * (h * Pow10(q.exp) - q.mant * 100) <= Pow10(q.exp)
  {
    if q.exp <= 2 then
      var h := q.mant * Pow10(2 - q.exp);
      ScaleExact(q.mant, q.exp);
      h
    else
      var d := Pow10(q.exp - 2);
      var h := RoundHalfEven(q.mant, d);
      ScaleRounded(h, q.mant, q.exp);
      h
  }

  lemma ScaleExact(m: nat, e: nat)
    requires e <= 2
    ensures (m * Pow10(2 - e)) * Pow10(e) == m * 100
  {
    Pow10Add(2 - e, e);
    assert Pow10(2) == 100;
    assert (m * Pow10(2 - e)) * Pow10(e) == m * (Pow10(2 - e) * Pow10(e));
  }

  lemma ScaleRounded(h: nat, m: nat, e: nat)
    requires e > 2
    requires -(Pow10(e - 2) as int) <= 2 * (h * Pow10(e - 2) - m) <= Pow10(e - 2)
    ensures -(Pow10(e) as int) <= 2 * (h * Pow10(e) - m * 100) <= Pow10(e)
  {
    var d := Pow10(e - 2);
    Pow10Add(e - 2, 2);
    assert Pow10(2) == 100;
    assert Pow10(e) == d * 100;
    assert h * Pow10(e) == (h * d) * 100;
  }

  /** `m / d` rounded to the nearest integer, ties to the even one. */
  function RoundHalfEven(m: nat, d: nat): (h: nat)
    requires d >= 1
    ensures -(d as int) <= 2 * (h * d - m) <= d
    ensures (2 * (h * d - m) == d || 2 * (h * d - m) == -(d as int)) ==> h % 2 == 0
  {
    var q, r := m / d, m % d;
    DivModParts(m, d);
    RoundCandidates(m, d, q, r);
    if 2 * r < d || (2 * r == d && q % 2 == 0) then q else q + 1
  }

  lemma DivModParts(m: nat, d: nat)
    requires d >= 1
    ensures m == (m / d) * d + m % d && 0 <= m % d < d
  {
  }

  /** With `m == q * d + r`, the distances of the two neighbours `q` and `q + 1` to `m / d`. */
  lemma RoundCandidates(m: nat, d: nat, q: nat, r: nat)
    requires d >= 1 && r < d && m == q * d + r
    ensures 2 * (q * d - m) == -2 * r
    ensures 2 * ((q + 1) * d - m) == 2 * d - 2 * r
  {
    assert (q + 1) * d == q * d + d;
  }

  /** The two decimals of a number of hundredths. */
  function Cents(h: nat): string {
    [DigitChar(h % 100 / 10), DigitChar(h % 10)]
  }

  /**
   * Python's `f"{q:,.2f}"`: the integer part with `,` between groups of three
   * digits, a point, two decimals; with the commas dropped, the digits spell
   * the quantity rounded to hundredths.
   */
  function PythonFixed2(q: Decimal): (r: string)
    ensures |r| >= 4 && r[|r| - 3] == '.' && WellGrouped(r[..|r| - 3], ',') && AllDigits(r[|r| - 2..])
    ensures AllDigits(Replace(r[..|r| - 3], ',', "") + r[|r| - 2..])
    ensures ValueOf(Replace(r[..|r| - 3], ',', "") + r[|r| - 2..]) == Hundredths(q)
  {
    var h := Hundredths(q);
    var d := DecimalDigits(h / 100);
    Fixed2Parts(h, d, Cents(h));
    Grouped(d, ',') + "." + Cents(h)
  }

  lemma Fixed2Parts(h: nat, d: string, cents: string)
    requires d == DecimalDigits(h / 100) && cents == Cents(h)
    ensures var r := Grouped(d, ',') + "." + cents;
      && |r| >= 4 && r[|r| - 3] == '.' && WellGrouped(r[..|r| - 3], ',') && AllDigits(r[|r| - 2..])
      && AllDigits(Replace(r[..|r| - 3], ',', "") + r[|r| - 2..])
      && ValueOf(Replace(r[..|r| - 3], ',', "") + r[|r| - 2..]) == h
  {
    var g := Grouped(d, ',');
    var r := g + "." + cents;
    assert r[..|r| - 3] == g && r[|r| - 2..] == cents by {
      CentsValue(h);
    }
    assert WellGrouped(g, ',') && |g| >= 1 by {
      GroupedWell(d, ',');
    }
    assert Replace(g, ',', "") == d by {
      GroupedUngroups(d, ',');
    }
    HundredthsSplit(h, d, cents);
  }

  /**
   * The quantity cell of the picking sheet: the rounded value with two decimals,
   * `,` as the decimal separator and `.` between groups of three integer digits.
   */
  function FormatQty(q: Decimal): (r: string)
    ensures r == Grouped(DecimalDigits(Hundredths(q) / 100), '.') + "," + Cents(Hundredths(q))
  {
    var h := Hundredths(q);
    var d := DecimalDigits(h / 100);
    var x := Replace(PythonFixed2(q), ',', "X");
    var y := Replace(x, '.', ",");
    var z := Replace(y, 'X', ".");
    FormatQtySwap(d, Cents(h));
    z
  }

  lemma FormatQtySwap(d: string, cents: string)
    requires AllDigits(d) && AllDigits(cents)
    ensures Replace(Replace(Replace(Grouped(d, ',') + "." + cents, ',', "X"), '.', ","), 'X', ".")
            == Grouped(d, '.') + "," + cents
  {
    SwapSeparator(d, cents, ',', 'X', '.');
    SwapPoint(d, cents);
    SwapSeparator(d, cents, 'X', '.', ',');
  }

  /**
   * Replacing the grouping separator `a` by `b` regroups with `b` and leaves
   * the decimal mark `m` and the decimals alone: the first and third swaps.
   */
  lemma SwapSeparator(d: string, cents: string, a: char, b: char, m: char)
    requires AllDigits(d) && AllDigits(cents) && !IsDigit(a) && m != a
    ensures Replace(Grouped(d, a) + [m] + cents, a, [b]) == Grouped(d, b) + [m] + cents
  {
    var g := Grouped(d, a);
    assert Replace(g + [m] + cents, a, [b]) == Replace(g, a, [b]) + Replace([m], a, [b]) + Replace(cents, a, [b]) by {
      SwapStep(g, [m], cents, a, [b]);
    }
    assert Replace(g, a, [b]) == Grouped(d, b) by {
      RegroupSeparator(d, a, b);
    }
    assert Replace([m], a, [b]) == [m] by {
      assert [m][1..] == [];
    }
    assert Replace(cents, a, [b]) == cents by {
      DigitsLackMark(cents, a);
      ReplaceAbsent(cents, a, [b]);
    }
  }

  /** Second swap: the decimal point becomes a comma. */
  lemma SwapPoint(d: string, cents: string)
    requires AllDigits(d) && AllDigits(cents)
    ensures Replace(Grouped(d, 'X') + "." + cents, '.', ",") == Grouped(d, 'X') + "," + cents
  {
    SwapStep(Grouped(d, 'X'), ".", cents, '.', ",");
    GroupedOnlySeparator(d, 'X', '.');
    ReplaceAbsent(Grouped(d, 'X'), '.', ",");
    ReplaceAbsent(cents, '.', ",");
    assert Replace(".", '.', ",") == ",";
  }

  lemma SwapStep(x: string, m: string, y: string, a: char, b: string)
    ensures Replace(x + m + y, a, b) == Replace(x, a, b) + Replace(m, a, b) + Replace(y, a, b)
  {
    ReplaceConcat(x + m, y, a, b);
    ReplaceConcat(x, m, a, b);
  }

  /** The quantity cell of the sheet is a quantity token that parses back to the rounded value. */
  lemma FormatQtyRoundTrip(q: Decimal)
    ensures QtyToken(FormatQty(q))
    ensures ParseQty(FormatQty(q)) == Success(Decimal(Hundredths(q), 2))
  {
    var h := Hundredths(q);
    var d := DecimalDigits(h / 100);
    var cents := Cents(h);
    CentsValue(h);
    ParseCell(d, cents);
    HundredthsSplit(h, d, cents);
  }

  /**
   * The shape of the quantity cell: a well-grouped integer part with `.`
   * between groups of three digits, a `,`, and exactly two decimals.
   */
  lemma FormatQtyShape(q: Decimal)
    ensures var r := FormatQty(q);
      |r| >= 4 && r[|r| - 3] == ',' && AllDigits(r[|r| - 2..]) && WellGrouped(r[..|r| - 3], '.')
  {
    var h := Hundredths(q);
    var g := Grouped(DecimalDigits(h / 100), '.');
    var r := FormatQty(q);
    GroupedWell(DecimalDigits(h / 100), '.');
    assert r == g + "," + Cents(h);
    assert |g| >= 1;
    assert r[..|r| - 3] == g;
    assert r[|r| - 2..] == Cents(h);
  }

  /** A thousands point and a decimal comma: `"1.234,50"` is 1234.50. */
  lemma ParseQtyThousands(raw: string)
    requires raw == "1.234,50"
    ensures ParseQty(raw) == Success(Decimal(123450, 2))
  {
    ThousandsParts(raw);
    ThousandsValue();
    ParseQtyOf(raw, "1234" + "50", "50");
  }

  lemma ThousandsValue()
    ensures AllDigits("1234" + "50") && ValueOf("1234" + "50") == 123450
  {
    assert "1234" + "50" == "123450";
    assert "1"[..0] == [] && ValueOf("1") == 1;
    assert "12"[..1] == "1" && ValueOf("12") == 12;
    assert "123"[..2] == "12" && ValueOf("123") == 123;
    assert "1234"[..3] == "123" && ValueOf("1234") == 1234;
    assert "12345"[..4] == "1234" && ValueOf("12345") == 12345;
    assert "123450"[..5] == "12345" && ValueOf("123450") == 123450;
  }

  /** `ParseQty` on a token whose digits and decimals are known. */
  lemma ParseQtyOf(raw: string, ds: string, after: string)
    requires QtyToken(raw) && Count(',', raw) <= 1
    requires Digits(raw) == ds && ds != [] && Digits(AfterFirst(raw, ',')) == after
    ensures ParseQty(raw) == Success(Decimal(ValueOf(ds), |after|))
  {
  }

  lemma ThousandsParts(raw: string)
    requires raw == "1.234,50"
    ensures Digits(raw) == "1234" + "50" && AfterFirst(raw, ',') == "50" && Count(',', raw) == 1
  {
    var x, y := "1.234", "50";
    assert raw == x + [','] + y;
    ThousandsDigits(x, y);
    IndexAfterPrefix(x, ',', y);
    ThousandsCount(x, y);
  }

  lemma ThousandsDigits(x: string, y: string)
    requires x == "1.234" && y == "50"
    ensures Digits(x + [','] + y) == "1234" + "50"
  {
    DigitsAround(x, ',', y);
    assert x == "1" + ['.'] + "234";
    DigitsAround("1", '.', "234");
    DigitsOfDigits("1");
    DigitsOfDigits("234");
    DigitsOfDigits(y);
  }

  lemma ThousandsCount(x: string, y: string)
    requires x == "1.234" && y == "50"
    ensures Count(',', x + [','] + y) == 1
  {
    CountConcat(',', x + [','], y);
    CountConcat(',', x, [',']);
    assert Count(',', "1.234") == 0 && Count(',', [',']) == 1 && Count(',', "50") == 0;
  }

  /** `"200,00"` is 200. */
  lemma ParseQtyWhole(raw: string)
    requires raw == "200,00"
    ensures ParseQty(raw) == Success(Decimal(20000, 2)) && SameValue(Decimal(20000, 2), Decimal(200, 0))
  {
    WholeParts(raw);
    WholeValue();
    ParseQtyOf(raw, "200" + "00", "00");
  }

  lemma WholeValue()
    ensures AllDigits("200" + "00") && ValueOf("200" + "00") == 20000
  {
    assert "200" + "00" == "20000";
    assert "2"[..0] == [] && ValueOf("2") == 2;
    assert "20"[..1] == "2" && ValueOf("20") == 20;
    assert "200"[..2] == "20" && ValueOf("200") == 200;
    assert "2000"[..3] == "200" && ValueOf("2000") == 2000;
    assert "20000"[..4] == "2000" && ValueOf("20000") == 20000;
  }

  lemma WholeParts(raw: string)
    requires raw == "200,00"
    ensures Digits(raw) == "200" + "00" && AfterFirst(raw, ',') == "00" && Count(',', raw) == 1
  {
    var x, y := "200", "00";
    assert raw == x + [','] + y;
    WholeDigits(x, y);
    IndexAfterPrefix(x, ',', y);
    WholeCount(x, y);
  }

  lemma WholeDigits(x: string, y: string)
    requires x == "200" && y == "00"
    ensures Digits(x + [','] + y) == "200" + "00"
  {
    DigitsAround(x, ',', y);
    DigitsOfDigits(x);
    DigitsOfDigits(y);
  }

  lemma WholeCount(x: string, y: string)
    requires x == "200" && y == "00"
    ensures Count(',', x + [','] + y) == 1
  {
    CountConcat(',', x + [','], y);
    CountConcat(',', x, [',']);
    assert Count(',', x) == 0 && Count(',', [',']) == 1 && Count(',', y) == 0;
  }

  /** Two commas, or no digit at all, make `float` raise. */
  lemma ParseQtyRejects(a: string, b: string)
    requires a == "1,2,3" && b == "..."
    ensures ParseQty(a).Failure? && ParseQty(b).Failure?
  {
    assert a == "1," + "2,3";
    CountConcat(',', "1,", "2,3");
    assert b == "." + ".." && ".." == "." + ".";
    DigitsConcat(".", "..");
    DigitsConcat(".", ".");
  }

  lemma HundredthsSplit(h: nat, d: string, cents: string)
    requires d == DecimalDigits(h / 100) && cents == Cents(h)
    ensures AllDigits(d + cents) && ValueOf(d + cents) == h
  {
    CentsValue(h);
    ValueOfConcat(d, cents);
    assert Pow10(2) == 100;
  }

  /** A cell `g,cc` parses to the digits of `g` followed by `cc`, with `|cc|` decimals. */
  lemma ParseCell(d: string, cents: string)
    requires AllDigits(d) && |d| >= 1 && AllDigits(cents)
    ensures QtyToken(Grouped(d, '.') + "," + cents)
    ensures AllDigits(d + cents)
    ensures ParseQty(Grouped(d, '.') + "," + cents) == Success(Decimal(ValueOf(d + cents), |cents|))
  {
    var r := Grouped(d, '.') + "," + cents;
    CellParts(d, cents);
    DigitsOfDigits(cents);
    assert Digits(AfterFirst(r, ',')) == cents;
    assert Digits(r) == d + cents;
  }

  lemma CentsValue(h: nat)
    ensures AllDigits(Cents(h)) && |Cents(h)| == 2 && ValueOf(Cents(h)) == h % 100
  {
    var c := Cents(h);
    assert c[..1][..0] == [];
    assert c[..1] == [DigitChar(h % 100 / 10)];
    assert ValueOf(c[..1]) == h % 100 / 10;
    assert DigitValue(c[1]) == h % 10;
    assert ValueOf(c) == (h % 100 / 10) * 10 + h % 10;
  }

  /** Reading back a cell `g,cc`: one comma, the digits of the grouping then the cents, two decimals. */
  lemma CellParts(d: string, cents: string)
    requires AllDigits(d) && |d| >= 1 && AllDigits(cents)
    ensures QtyToken(Grouped(d, '.') + "," + cents)
    ensures Count(',', Grouped(d, '.') + "," + cents) == 1
    ensures Digits(Grouped(d, '.') + "," + cents) == d + cents
    ensures AfterFirst(Grouped(d, '.') + "," + cents, ',') == cents
  {
    var g := Grouped(d, '.');
    GroupedOnlySeparator(d, '.', ',');
    SplitCount(g, cents);
    CountAbsent(',', cents);
    SplitDigits(g, cents);
    GroupedDigits(d);
    DigitsOfDigits(cents);
    CellShape(d, cents);
  }

  lemma CellShape(d: string, cents: string)
    requires AllDigits(d) && AllDigits(cents)
    ensures QtyToken(Grouped(d, '.') + "," + cents)
    ensures AfterFirst(Grouped(d, '.') + "," + cents, ',') == cents
  {
    CellToken(Grouped(d, '.'), cents, d);
    CellAfterComma(Grouped(d, '.'), cents, d);
  }

  lemma CellToken(g: string, cents: string, d: string)
    requires AllDigits(d) && AllDigits(cents) && g == Grouped(d, '.')
    ensures QtyToken(g + "," + cents)
  {
    var r := g + "," + cents;
    GroupedChars(d, '.');
    assert QtyToken(g);
    forall k | 0 <= k < |r| ensures IsQtyChar(r[k]) {
      if k < |g| {
        assert r[k] == g[k];
      } else if k > |g| {
        assert r[k] == cents[k - |g| - 1];
      }
    }
  }

  lemma CellAfterComma(g: string, cents: string, d: string)
    requires AllDigits(d) && g == Grouped(d, '.')
    ensures AfterFirst(g + "," + cents, ',') == cents
  {
    var r := g + "," + cents;
    GroupedOnlySeparator(d, '.', ',');
    IndexAfterPrefix(g, ',', cents);
    assert r[|g| + 1..] == cents;
  }

  lemma {:induction false} GroupedChars(d: string, sep: char)
    requires AllDigits(d)
    ensures forall k :: 0 <= k < |Grouped(d, sep)| ==> IsDigit(Grouped(d, sep)[k]) || Grouped(d, sep)[k] == sep
    decreases |d|
  {
    if |d| > 3 {
      GroupedChars(d[..|d| - 3], sep);
    }
  }

  lemma {:induction false} GroupedDigits(d: string)
    requires AllDigits(d)
    ensures Digits(Grouped(d, '.')) == d
    decreases |d|
  {
    if |d| <= 3 {
      DigitsOfDigits(d);
    } else {
      var hd, tl := d[..|d| - 3], d[|d| - 3..];
      assert AllDigits(hd) && AllDigits(tl);
      var gh := Grouped(hd, '.');
      calc {
        Digits(Grouped(d, '.'));
        Digits(gh + ['.'] + tl);
        { DigitsAround(gh, '.', tl); }
        Digits(gh) + Digits(tl);
        { GroupedDigits(hd); DigitsOfDigits(tl); }
        hd + tl;
        { assert d == hd + tl; }
        d;
      }
    }
  }

  /** A quantity with at most two decimals is printed without loss. */
  lemma FormatQtyExact(q: Decimal)
    requires q.exp <= 2
    ensures SameValue(Decimal(Hundredths(q), 2), q)
  {
    Pow10Add(2 - q.exp, q.exp);
    assert Pow10(2) == 100;
  }
}
