/**
 * `extrair_header` (app_expedicao.py:23-47): the seven header fields of one
 * page of a sales order.  Six of them are the first capture of a regular
 * expression searched in the whole page text; the client is found by a
 * look-ahead over the lines that follow the "Informações do Cliente" label.
 * A field whose label is not found is the empty string.
 */
module Header {
  import opened Text
  import opened Wrappers
  import opened Pattern

  /** The page header; every field is always present, `""` when it was not found. */
  datatype Header = Header(
    pedido: string,
    cliente: string,
    cidade: string,
    uf: string,
    dataInclusao: string,
    previsaoFaturamento: string,
    obsExpedicao: string)

  const DateChar := Union(Digit, OneOf("/"))
  const ClockChar := Union(Digit, OneOf(":"))
  const CityChar := Union(Upper, Union(Lower, Union(Range('À', 'ú'), Space)))

  // ------------------------------------------------------------------- Pedido

  const PedidoLabel := "Pedido de Venda N"
  const NumberSign := OneOf("º°")

  /** `Pedido de Venda N[º°]` under `re.I`: eighteen elements. */
  const PedidoHead: Pattern := LabelPattern(PedidoLabel, NumberSign, "")
  const Digits: Pattern := [Plus(Digit)]
  const NumberTail: Pattern := [Star(Space)] + Digits

  /** `Pedido de Venda N[º°]\s*(\d+)` under `re.I`; the group is element 19. */
  const PedidoPattern: Pattern := PedidoHead + NumberTail

  /** From `a`: any blanks, then the whole run of digits that follows them. */
  function NumberAfter(text: string, a: nat): (r: Option<string>)
    requires a <= |text|
    ensures r.Some? ==>
      var j := RunEnd(Space, text, a);
      r.value != "" && AllDigits(r.value) && j + |r.value| <= |text| && r.value == text[j..j + |r.value|]
      && (j + |r.value| == |text| || !IsDigit(text[j + |r.value|]))
      && forall m :: a <= m < j ==> IsSpace(text[m])
  {
    var j := RunEnd(Space, text, a);
    RunContents(Space, text, a);
    RunContents(Digit, text, j);
    if j < |text| && IsDigit(text[j]) then Some(text[j..RunEnd(Digit, text, j)]) else None
  }

  /**
   * The order number read straight off the text at `i`: the label in any case,
   * `º` or `°`, then the number after it; `None` when the text at `i` does not
   * read that way.
   */
  function PedidoAt(text: string, i: nat): (r: Option<string>)
    requires i <= |text|
    ensures r.Some? ==> LabelAt(text, i, PedidoLabel, NumberSign, "") && r.value != "" && AllDigits(r.value)
  {
    if LabelAt(text, i, PedidoLabel, NumberSign, "") then NumberAfter(text, i + 18) else None
  }

  /** `\s*(\d+)` matches at `a` exactly when blanks and digits follow, and the group is the whole run of digits. */
  lemma NumberTailMatch(text: string, a: nat)
    requires a <= |text|
    ensures MatchAt(NumberTail, text, a).Some? <==> NumberAfter(text, a).Some?
    ensures MatchAt(NumberTail, text, a).Some? ==>
      var u := MatchAt(NumberTail, text, a).value; NumberAfter(text, a) == Some(text[u[1]..u[2]])
  {
    StarThen(Space, Digits, text, a);
    LastRun(Digit, 1, text, RunEnd(Space, text, a));
  }

  /** The pattern matches at `i` exactly when the text reads as an order number there, and group 1 is its digits. */
  lemma PedidoMatch(text: string, i: nat)
    requires i <= |text|
    ensures MatchAt(PedidoPattern, text, i).Some? <==> PedidoAt(text, i).Some?
    ensures MatchAt(PedidoPattern, text, i).Some? ==>
      PedidoAt(text, i) == Some(Capture(text, MatchAt(PedidoPattern, text, i).value, 19, 20))
  {
    LabelThen(PedidoLabel, NumberSign, "", NumberTail, text, i);
    if LabelAt(text, i, PedidoLabel, NumberSign, "") {
      NumberTailMatch(text, i + 18);
    }
  }

  /** `re.search` finds the first position that reads as an order number, and captures its digits. */
  lemma PedidoSearch(text: string)
    ensures Search(PedidoPattern, text).None? <==> forall i :: 0 <= i <= |text| ==> PedidoAt(text, i).None?
    ensures Search(PedidoPattern, text).Some? ==>
      var t := Search(PedidoPattern, text).value;
      PedidoAt(text, t[0]) == Some(Capture(text, t, 19, 20)) && forall m :: 0 <= m < t[0] ==> PedidoAt(text, m).None?
  {
    forall i | 0 <= i <= |text| ensures MatchAt(PedidoPattern, text, i).Some? <==> PedidoAt(text, i).Some? {
      PedidoMatch(text, i);
    }
    if Search(PedidoPattern, text).Some? {
      var t := Search(PedidoPattern, text).value;
      assert PedidoAt(text, t[0]) == Some(Capture(text, t, 19, 20)) by {
        PedidoMatch(text, t[0]);
      }
    }
  }

  /** The order number: the digits at the first position that reads as one, `""` when none does. */
  function PedidoOf(text: string): (r: string)
    ensures AllDigits(r)
    ensures (forall i :: !NoCaseAt(text, i, PedidoLabel)) ==> r == ""
  {
    PedidoSearch(text);
    match Search(PedidoPattern, text)
    case None => ""
    case Some(t) => Capture(text, t, 19, 20)
  }

  /**
   * The order number read is the one at the first position that reads as one, and
   * it is `""` exactly when no position does.
   */
  lemma PedidoFirst(text: string)
    ensures PedidoOf(text) == "" <==> forall i :: 0 <= i <= |text| ==> PedidoAt(text, i).None?
    ensures PedidoOf(text) != "" ==>
      exists i :: 0 <= i <= |text| && PedidoAt(text, i) == Some(PedidoOf(text)) && forall m :: 0 <= m < i ==> PedidoAt(text, m).None?
  {
    PedidoSearch(text);
    if PedidoOf(text) != "" {
      var t := Search(PedidoPattern, text).value;
      assert PedidoAt(text, t[0]) == Some(PedidoOf(text));
    }
  }

  // ------------------------------------------------------------------ Cliente

  const ClientLabel := "Informações do Cliente"

  /** Line `i` is the first line that contains the client label. */
  predicate FirstLabelAt(lines: seq<string>, i: nat) {
    i < |lines| && Contains(lines[i], ClientLabel)
    && forall k :: 0 <= k < i ==> !Contains(lines[k], ClientLabel)
  }

  /** Line `j` is among the (at most five) lines right after line `i`. */
  predicate InWindow(lines: seq<string>, i: nat, j: nat) {
    i < j < |lines| && j <= i + 5
  }

  function Min(a: nat, b: nat): nat {
    if a <= b then a else b
  }

  /** Index of the first line at or after `i` that contains the client label, or `|lines|`. */
  function LabelLineFrom(lines: seq<string>, i: nat): (k: nat)
    requires i <= |lines|
    ensures i <= k <= |lines|
    ensures k < |lines| ==> Contains(lines[k], ClientLabel)
    ensures forall m :: i <= m < k ==> !Contains(lines[m], ClientLabel)
    decreases |lines| - i
  {
    if i == |lines| || Contains(lines[i], ClientLabel) then i else LabelLineFrom(lines, i + 1)
  }

  /** Index of the first line of `lines[j..end]` that is not blank, or `end`. */
  function NonBlankFrom(lines: seq<string>, j: nat, end: nat): (m: nat)
    requires j <= end <= |lines|
    ensures j <= m <= end
    ensures m < end ==> !IsBlank(lines[m])
    ensures forall n :: j <= n < m ==> IsBlank(lines[n])
    decreases end - j
  {
    if j == end || !IsBlank(lines[j]) then j else NonBlankFrom(lines, j + 1, end)
  }

  /** The client: the stripped first non-blank line among the five lines after the first label line. */
  function ClientOf(lines: seq<string>): (r: string)
    ensures IsStripped(r)
  {
    var i := LabelLineFrom(lines, 0);
    if i == |lines| then ""
    else
      var j := NonBlankFrom(lines, i + 1, Min(i + 6, |lines|));
      if j == Min(i + 6, |lines|) then ""
      else
        Strip(lines[j])
  }

  /** A non-empty client is a non-blank line in the window of the first label line, with only blank lines before it. */
  lemma ClientFound(lines: seq<string>)
    ensures ClientOf(lines) != "" ==>
      exists i: nat, j: nat :: FirstLabelAt(lines, i) && InWindow(lines, i, j) && !IsBlank(lines[j])
                              && ClientOf(lines) == Strip(lines[j]) && forall m :: i < m < j ==> IsBlank(lines[m])
  {
    var i := LabelLineFrom(lines, 0);
    if i < |lines| {
      assert FirstLabelAt(lines, i);
      var j := NonBlankFrom(lines, i + 1, Min(i + 6, |lines|));
      if j < Min(i + 6, |lines|) {
        assert InWindow(lines, i, j);
      }
    }
  }

  /** There is at most one first label line. */
  lemma FirstLabelUnique(lines: seq<string>, i: nat)
    requires FirstLabelAt(lines, i)
    ensures forall k :: FirstLabelAt(lines, k) ==> k == i
  {
  }

  /**
   * The client is `""` exactly when no line holds the label, or when the lines
   * of the window after the first label line are all blank; later label lines
   * play no part.
   */
  lemma ClientMissing(lines: seq<string>)
    ensures ClientOf(lines) == "" <==>
      (forall i :: 0 <= i < |lines| ==> !Contains(lines[i], ClientLabel))
      || exists i: nat :: FirstLabelAt(lines, i) && forall j: nat :: InWindow(lines, i, j) ==> IsBlank(lines[j])
  {
    var i := LabelLineFrom(lines, 0);
    if i < |lines| {
      assert FirstLabelAt(lines, i);
      FirstLabelUnique(lines, i);
      var end := Min(i + 6, |lines|);
      var j := NonBlankFrom(lines, i + 1, end);
      assert forall j: nat :: InWindow(lines, i, j) <==> i + 1 <= j < end;
    }
  }

  /**
   * The look-ahead loop of app_expedicao.py:27-34: walk the lines until the
   * first one holding the label, then take the first non-blank one of the five
   * lines after it.
   */
  method FindClient(linhas: seq<string>) returns (cliente: string)
    ensures cliente == ClientOf(linhas)
  {
    cliente := "";
    var i := 0;
    while i < |linhas|
      invariant 0 <= i <= |linhas|
      invariant LabelLineFrom(linhas, 0) == LabelLineFrom(linhas, i)
      invariant cliente == ""
    {
      if Contains(linhas[i], ClientLabel) {
        assert LabelLineFrom(linhas, i) == i;
        cliente := LookAhead(linhas, i + 1, Min(i + 6, |linhas|));
        break;
      }
      assert LabelLineFrom(linhas, i) == LabelLineFrom(linhas, i + 1);
      i := i + 1;
    }
  }

  /** The inner loop of app_expedicao.py:29-33: the first line of `linhas[from..end]` that is not blank, stripped. */
  method LookAhead(linhas: seq<string>, from: nat, end: nat) returns (cliente: string)
    requires from <= end <= |linhas|
    ensures var j := NonBlankFrom(linhas, from, end); cliente == if j == end then "" else Strip(linhas[j])
  {
    cliente := "";
    var j := from;
    while j < end
      invariant from <= j <= end
      invariant NonBlankFrom(linhas, from, end) == NonBlankFrom(linhas, j, end)
    {
      if Strip(linhas[j]) != "" {
        cliente := Strip(linhas[j]);
        break;
      }
      j := j + 1;
    }
  }

  // ---------------------------------------------------------------- Cidade/UF

  /** `([A-Za-zÀ-ú\s]+)\s*-\s*([A-Z]{2})\s*-\s*CEP`; the groups are elements 0 and 4. */
  const CityStatePattern: Pattern :=
    [Plus(CityChar), Star(Space), Once(OneOf("-")), Star(Space), Times(Upper, 2), Star(Space),
     Once(OneOf("-")), Star(Space)] + Literal("CEP")

  /** A state code: `""` or two capital letters. */
  predicate IsState(s: string) {
    s == "" || (|s| == 2 && IsAsciiUpper(s[0]) && IsAsciiUpper(s[1]))
  }

  /** City and state: ASCII letters, blanks and the code points `À`..`ú` (which include `×` and `÷`) before `- UF - CEP`. */
  function CityStateOf(text: string): (r: (string, string))
    ensures IsStripped(r.0) && forall c :: c in r.0 ==> In(c, CityChar)
    ensures IsState(r.1)
  {
    match Search(CityStatePattern, text)
    case None => ("", "")
    case Some(t) => (CityField(text, t), StateField(text, t))
  }

  /** Group 1 of a match, stripped. */
  function CityField(text: string, t: seq<nat>): (r: string)
    requires Trace(CityStatePattern, text, t)
    ensures IsStripped(r) && forall c :: c in r ==> In(c, CityChar)
  {
    CaptureShape(CityStatePattern, text, t, 0);
    var city := Capture(text, t, 0, 1);
    assert forall c :: c in city ==> In(c, CityChar);
    StripChars(city);
    Strip(city)
  }

  /** Group 2 of a match, stripped: two capitals, which `strip()` leaves alone. */
  function StateField(text: string, t: seq<nat>): (r: string)
    requires Trace(CityStatePattern, text, t)
    ensures IsState(r) && r != ""
  {
    CaptureShape(CityStatePattern, text, t, 4);
    var uf := Capture(text, t, 4, 5);
    StripStripped(uf);
    Strip(uf)
  }

  /** Both fields are `""` exactly when the pattern does not occur, which it cannot without a `CEP` in the text. */
  lemma CityStateMissing(text: string)
    ensures CityStateOf(text).1 == "" <==> Search(CityStatePattern, text).None?
    ensures CityStateOf(text).1 == "" ==> CityStateOf(text).0 == ""
    ensures (forall i :: !LiteralAt(text, i, "CEP")) ==> CityStateOf(text) == ("", "")
  {
    match Search(CityStatePattern, text)
    case None =>
    case Some(t) =>
      TraceLiteral(CityStatePattern, text, t, 8, "CEP");
  }

  // ---------------------------------------------------------------- Inclusão

  const InclusionLabel := "inclu"
  const AccentedI := Union(NoCase('i'), NoCase('í'))

  /** `inclu[ií]do em:` under `re.I`: twelve elements. */
  const InclusionHead: Pattern := LabelPattern(InclusionLabel, AccentedI, "do em:")

  const ClockField: Pattern := [Times(ClockChar, 8)]
  const ClockTail: Pattern := [Star(Space)] + ClockField
  const LetterS: Pattern := [Once(NoCase('s'))] + ClockTail
  const AsWord: Pattern := [Once(NoCase('à'))] + LetterS
  const AfterDate: Pattern := [Star(Space)] + AsWord
  const DateThen: Pattern := [Times(DateChar, 10)] + AfterDate

  /** `\s*([0-9/]{10})\s*às\s*([0-9:]{8})` under `re.I`: seven elements, the groups are elements 1 and 6. */
  const StampPattern: Pattern := [Star(Space)] + DateThen

  /** `inclu[ií]do em:\s*([0-9/]{10})\s*às\s*([0-9:]{8})` under `re.I`; the groups are elements 13 and 18. */
  const InclusionPattern: Pattern := InclusionHead + StampPattern

  predicate IsDate(s: string) {
    |s| == 10 && forall k :: 0 <= k < 10 ==> In(s[k], DateChar)
  }

  predicate IsClock(s: string) {
    |s| == 8 && forall k :: 0 <= k < 8 ==> In(s[k], ClockChar)
  }

  /** A date, a space and a time, or `""`. */
  predicate IsDateTime(s: string) {
    s == "" || (|s| == 19 && IsDate(s[..10]) && s[10] == ' ' && IsClock(s[11..]))
  }

  /** From `a`: any blanks, then ten date characters. */
  function DateAfter(text: string, a: nat): (r: Option<string>)
    requires a <= |text|
    ensures r.Some? ==> var d := RunEnd(Space, text, a); d + 10 <= |text| && r.value == text[d..d + 10] && IsDate(r.value)
  {
    var d := RunEnd(Space, text, a);
    if d + 10 <= |text| && IsDate(text[d..d + 10]) then Some(text[d..d + 10]) else None
  }

  /** From `a`: any blanks, then eight clock characters. */
  function ClockAfter(text: string, a: nat): (r: Option<string>)
    requires a <= |text|
    ensures r.Some? ==> var c := RunEnd(Space, text, a); c + 8 <= |text| && r.value == text[c..c + 8] && IsClock(r.value)
  {
    var c := RunEnd(Space, text, a);
    if c + 8 <= |text| && IsClock(text[c..c + 8]) then Some(text[c..c + 8]) else None
  }

  /** From `b`, right after the date: blanks, "às" in any case, then the time. */
  function TimeAfter(text: string, b: nat): (r: Option<string>)
    requires b <= |text|
    ensures r.Some? ==> IsClock(r.value)
  {
    var e := RunEnd(Space, text, b);
    if NoCaseAt(text, e, "às") then ClockAfter(text, e + 2) else None
  }

  /** From `a`: the date, then the time; the two joined by a space. */
  function StampAt(text: string, a: nat): (r: Option<string>)
    requires a <= |text|
    ensures r.Some? ==> r.value != "" && IsDateTime(r.value)
  {
    match DateAfter(text, a)
    case None => None
    case Some(date) =>
      match TimeAfter(text, RunEnd(Space, text, a) + 10)
      case None => None
      case Some(clock) =>
        var r := date + " " + clock;
        assert r[..10] == date && r[11..] == clock;
        Some(r)
  }

  /** The inclusion stamp read straight off the text at `i`: the label, any case, with or without the accent, then the stamp. */
  function InclusionAt(text: string, i: nat): (r: Option<string>)
    requires i <= |text|
    ensures r.Some? ==> LabelAt(text, i, InclusionLabel, AccentedI, "do em:") && r.value != "" && IsDateTime(r.value)
  {
    if LabelAt(text, i, InclusionLabel, AccentedI, "do em:") then StampAt(text, i + 12) else None
  }

  /** Eight characters of a class are a clock exactly when each one is a clock character. */
  lemma ClockChars(text: string, c: nat)
    requires c + 8 <= |text|
    ensures IsClock(text[c..c + 8]) <==> forall m :: c <= m < c + 8 ==> In(text[m], ClockChar)
  {
    assert forall m :: c <= m < c + 8 ==> text[m] == text[c..c + 8][m - c];
  }

  /** Ten characters are a date exactly when each one is a date character. */
  lemma DateChars(text: string, d: nat)
    requires d + 10 <= |text|
    ensures IsDate(text[d..d + 10]) <==> forall m :: d <= m < d + 10 ==> In(text[m], DateChar)
  {
    assert forall m :: d <= m < d + 10 ==> text[m] == text[d..d + 10][m - d];
  }

  /** `\s*([0-9:]{8})` matches at `a` exactly when a time follows the blanks, and the group is that time. */
  lemma ClockTailMatch(text: string, a: nat)
    requires a <= |text|
    ensures MatchAt(ClockTail, text, a).Some? <==> ClockAfter(text, a).Some?
    ensures MatchAt(ClockTail, text, a).Some? ==>
      var u := MatchAt(ClockTail, text, a).value; ClockAfter(text, a) == Some(text[u[1]..u[2]])
  {
    var c := RunEnd(Space, text, a);
    StarThen(Space, ClockField, text, a);
    FixedThen(ClockChar, 8, [], text, c);
    assert ClockField == [Times(ClockChar, 8)] + [];
    if c + 8 <= |text| {
      ClockChars(text, c);
    }
  }

  /** "às" in any case is an `à` or `À` followed by an `s` or `S`. */
  lemma AsChars(text: string, e: nat)
    requires e <= |text|
    ensures NoCaseAt(text, e, "às") <==>
      e + 1 < |text| && In(text[e], NoCase('à')) && In(text[e + 1], NoCase('s'))
  {
    if e + 1 < |text| {
      assert "às"[0] == 'à' && "às"[1] == 's';
      assert NoCaseAt(text, e, "às") ==> Fold(text[e + 0]) == Fold("às"[0]) && Fold(text[e + 1]) == Fold("às"[1]);
    }
  }

  /** An `à` in any case is not a blank. */
  lemma GraveApart()
    ensures forall c :: In(c, NoCase('à')) ==> !In(c, Space)
  {
    forall c | In(c, NoCase('à')) ensures !IsSpace(c) {
      assert c == 'à' || c == 'À';
    }
  }

  /** `às\s*([0-9:]{8})` matches at `e` exactly when "às" and a time are there, and the group is that time. */
  lemma AsWordMatch(text: string, e: nat)
    requires e <= |text|
    ensures MatchAt(AsWord, text, e).Some? <==> NoCaseAt(text, e, "às") && ClockAfter(text, e + 2).Some?
    ensures MatchAt(AsWord, text, e).Some? ==>
      var v := MatchAt(AsWord, text, e).value; ClockAfter(text, e + 2) == Some(text[v[3]..v[4]])
  {
    AsChars(text, e);
    FixedThen(NoCase('à'), 1, LetterS, text, e);
    if e + 1 <= |text| {
      FixedThen(NoCase('s'), 1, ClockTail, text, e + 1);
      if e + 2 <= |text| {
        ClockTailMatch(text, e + 2);
      }
    }
  }

  /** `\s*às\s*([0-9:]{8})` matches at `b` exactly when the time reads there, and the group is that time. */
  lemma AfterDateMatch(text: string, b: nat)
    requires b <= |text|
    ensures MatchAt(AfterDate, text, b).Some? <==> TimeAfter(text, b).Some?
    ensures MatchAt(AfterDate, text, b).Some? ==>
      var w := MatchAt(AfterDate, text, b).value; TimeAfter(text, b) == Some(text[w[4]..w[5]])
  {
    var e := RunEnd(Space, text, b);
    assert MatchAt(AfterDate, text, b).Some? <==> MatchAt(AsWord, text, e).Some? by {
      GraveApart();
      StarThen(Space, AsWord, text, b);
    }
    assert MatchAt(AsWord, text, e).Some? <==> NoCaseAt(text, e, "às") && ClockAfter(text, e + 2).Some? by {
      AsWordMatch(text, e);
    }
    assert TimeAfter(text, b) == if NoCaseAt(text, e, "às") then ClockAfter(text, e + 2) else None;
    if MatchAt(AfterDate, text, b).Some? {
      var v := MatchAt(AsWord, text, e).value;
      assert MatchAt(AfterDate, text, b).value == [b] + v by {
        GraveApart();
        StarThen(Space, AsWord, text, b);
      }
      assert ClockAfter(text, e + 2) == Some(text[v[3]..v[4]]) by {
        AsWordMatch(text, e);
      }
    }
  }

  /** The stamp pattern matches at `a` exactly when a stamp reads there, and the groups are its date and time. */
  lemma StampMatch(text: string, a: nat)
    requires a <= |text|
    ensures MatchAt(StampPattern, text, a).Some? <==> StampAt(text, a).Some?
    ensures MatchAt(StampPattern, text, a).Some? ==>
      var t := MatchAt(StampPattern, text, a).value; StampAt(text, a) == Some(text[t[1]..t[2]] + " " + text[t[6]..t[7]])
  {
    StampFound(text, a);
    if MatchAt(StampPattern, text, a).Some? {
      StampGroups(text, a);
    }
  }

  lemma StampFound(text: string, a: nat)
    requires a <= |text|
    ensures MatchAt(StampPattern, text, a).Some? <==> StampAt(text, a).Some?
  {
    var d := RunEnd(Space, text, a);
    assert MatchAt(StampPattern, text, a).Some? <==> MatchAt(DateThen, text, d).Some? by {
      StarThen(Space, DateThen, text, a);
    }
    DateThenFound(text, a, d);
  }

  lemma DateThenFound(text: string, a: nat, d: nat)
    requires a <= |text| && d == RunEnd(Space, text, a)
    ensures MatchAt(DateThen, text, d).Some? <==> StampAt(text, a).Some?
  {
    if d + 10 <= |text| {
      DateThenParts(text, d);
      StampParts(text, a, d);
    } else {
      assert MatchAt(DateThen, text, d).None? by {
        FixedThen(DateChar, 10, AfterDate, text, d);
      }
      assert DateAfter(text, a).None?;
    }
  }

  lemma DateThenParts(text: string, d: nat)
    requires d + 10 <= |text|
    ensures MatchAt(DateThen, text, d).Some? <==> IsDate(text[d..d + 10]) && TimeAfter(text, d + 10).Some?
  {
    assert MatchAt(DateThen, text, d).Some? <==> IsDate(text[d..d + 10]) && MatchAt(AfterDate, text, d + 10).Some? by {
      FixedThen(DateChar, 10, AfterDate, text, d);
      DateChars(text, d);
    }
    assert MatchAt(AfterDate, text, d + 10).Some? <==> TimeAfter(text, d + 10).Some? by {
      AfterDateMatch(text, d + 10);
    }
  }

  lemma StampParts(text: string, a: nat, d: nat)
    requires a <= |text| && d == RunEnd(Space, text, a) && d + 10 <= |text|
    ensures StampAt(text, a).Some? <==> IsDate(text[d..d + 10]) && TimeAfter(text, d + 10).Some?
  {
    assert DateAfter(text, a) == if IsDate(text[d..d + 10]) then Some(text[d..d + 10]) else None;
  }

  lemma StampGroups(text: string, a: nat)
    requires a <= |text| && MatchAt(StampPattern, text, a).Some?
    ensures var t := MatchAt(StampPattern, text, a).value; StampAt(text, a) == Some(text[t[1]..t[2]] + " " + text[t[6]..t[7]])
  {
    var t := MatchAt(StampPattern, text, a).value;
    DateGroup(text, a);
    AfterDateMatch(text, t[2]);
  }

  /** A stamp match reads the date after the blanks, and the rest of it is the first match of `\s*às\s*([0-9:]{8})` after the date. */
  lemma DateGroup(text: string, a: nat)
    requires a <= |text| && MatchAt(StampPattern, text, a).Some?
    ensures var t := MatchAt(StampPattern, text, a).value;
      t[2] == RunEnd(Space, text, a) + 10 && DateAfter(text, a) == Some(text[t[1]..t[2]])
      && MatchAt(AfterDate, text, t[2]) == Some(t[2..])
  {
    var d := RunEnd(Space, text, a);
    var t := MatchAt(StampPattern, text, a).value;
    assert MatchAt(DateThen, text, d).Some? && t == [a] + MatchAt(DateThen, text, d).value by {
      StarThen(Space, DateThen, text, a);
    }
    assert d + 10 <= |text| && IsDate(text[d..d + 10]) && MatchAt(AfterDate, text, d + 10).Some?
      && MatchAt(DateThen, text, d).value == [d] + MatchAt(AfterDate, text, d + 10).value by {
      FixedThen(DateChar, 10, AfterDate, text, d);
      DateChars(text, d);
    }
    assert t == [a, d] + MatchAt(AfterDate, text, d + 10).value;
  }

  /** The pattern matches at `i` exactly when the text reads as an inclusion stamp there, and the groups are its date and time. */
  lemma InclusionMatch(text: string, i: nat)
    requires i <= |text|
    ensures MatchAt(InclusionPattern, text, i).Some? <==> InclusionAt(text, i).Some?
    ensures MatchAt(InclusionPattern, text, i).Some? ==>
      var t := MatchAt(InclusionPattern, text, i).value;
      InclusionAt(text, i) == Some(Capture(text, t, 13, 14) + " " + Capture(text, t, 18, 19))
  {
    LabelThen(InclusionLabel, AccentedI, "do em:", StampPattern, text, i);
    if LabelAt(text, i, InclusionLabel, AccentedI, "do em:") {
      StampMatch(text, i + 12);
    }
  }

  /** `re.search` finds the first position that reads as an inclusion stamp, and captures its date and time. */
  lemma InclusionSearch(text: string)
    ensures Search(InclusionPattern, text).None? <==> forall i :: 0 <= i <= |text| ==> InclusionAt(text, i).None?
    ensures Search(InclusionPattern, text).Some? ==>
      var t := Search(InclusionPattern, text).value;
      InclusionAt(text, t[0]) == Some(Capture(text, t, 13, 14) + " " + Capture(text, t, 18, 19))
      && forall m :: 0 <= m < t[0] ==> InclusionAt(text, m).None?
  {
    forall i | 0 <= i <= |text| ensures MatchAt(InclusionPattern, text, i).Some? <==> InclusionAt(text, i).Some? {
      InclusionMatch(text, i);
    }
    if Search(InclusionPattern, text).Some? {
      InclusionMatch(text, Search(InclusionPattern, text).value[0]);
    }
  }

  /** The inclusion date and time at the first position that reads as an inclusion stamp, `""` when none does. */
  function InclusionOf(text: string): (r: string)
    ensures IsDateTime(r)
    ensures (forall i :: !NoCaseAt(text, i, InclusionLabel)) ==> r == ""
  {
    InclusionSearch(text);
    match Search(InclusionPattern, text)
    case None => ""
    case Some(t) => Capture(text, t, 13, 14) + " " + Capture(text, t, 18, 19)
  }

  /**
   * The inclusion stamp read is the one at the first position that reads as one, and
   * it is `""` exactly when no position does.
   */
  lemma InclusionFirst(text: string)
    ensures InclusionOf(text) == "" <==> forall i :: 0 <= i <= |text| ==> InclusionAt(text, i).None?
    ensures InclusionOf(text) != "" ==>
      exists i :: 0 <= i <= |text| && InclusionAt(text, i) == Some(InclusionOf(text)) && forall m :: 0 <= m < i ==> InclusionAt(text, m).None?
  {
    InclusionSearch(text);
    if InclusionOf(text) != "" {
      var t := Search(InclusionPattern, text).value;
      assert InclusionAt(text, t[0]) == Some(InclusionOf(text));
    }
  }

  // ------------------------------------------------------ Previsão Faturamento

  const ForecastLabel := "Previs"
  const AccentedA := Union(NoCase('a'), NoCase('ã'))

  /** `Previs[aã]o de Faturamento:` under `re.I`: twenty-four elements. */
  const ForecastHead: Pattern := LabelPattern(ForecastLabel, AccentedA, "o de Faturamento:")
  const DateField: Pattern := [Times(DateChar, 10)]
  const DateTail: Pattern := [Star(Space)] + DateField

  /** `Previs[aã]o de Faturamento:\s*([0-9/]{10})` under `re.I`; the group is element 25. */
  const ForecastPattern: Pattern := ForecastHead + DateTail

  /** The forecast read straight off the text at `i`: the label, any case, with or without the tilde, then the date. */
  function ForecastAt(text: string, i: nat): (r: Option<string>)
    requires i <= |text|
    ensures r.Some? ==> LabelAt(text, i, ForecastLabel, AccentedA, "o de Faturamento:") && IsDate(r.value)
  {
    if LabelAt(text, i, ForecastLabel, AccentedA, "o de Faturamento:") then DateAfter(text, i + 24) else None
  }

  /** `\s*([0-9/]{10})` matches at `a` exactly when a date follows the blanks, and the group is that date. */
  lemma DateTailMatch(text: string, a: nat)
    requires a <= |text|
    ensures MatchAt(DateTail, text, a).Some? <==> DateAfter(text, a).Some?
    ensures MatchAt(DateTail, text, a).Some? ==>
      var u := MatchAt(DateTail, text, a).value; DateAfter(text, a) == Some(text[u[1]..u[2]])
  {
    var d := RunEnd(Space, text, a);
    StarThen(Space, DateField, text, a);
    FixedThen(DateChar, 10, [], text, d);
    assert DateField == [Times(DateChar, 10)] + [];
    if d + 10 <= |text| {
      DateChars(text, d);
    }
  }

  /** The pattern matches at `i` exactly when the text reads as a forecast there, and group 1 is its date. */
  lemma ForecastMatch(text: string, i: nat)
    requires i <= |text|
    ensures MatchAt(ForecastPattern, text, i).Some? <==> ForecastAt(text, i).Some?
    ensures MatchAt(ForecastPattern, text, i).Some? ==>
      ForecastAt(text, i) == Some(Capture(text, MatchAt(ForecastPattern, text, i).value, 25, 26))
  {
    LabelThen(ForecastLabel, AccentedA, "o de Faturamento:", DateTail, text, i);
    if LabelAt(text, i, ForecastLabel, AccentedA, "o de Faturamento:") {
      DateTailMatch(text, i + 24);
    }
  }

  /** `re.search` finds the first position that reads as a forecast, and captures its date. */
  lemma ForecastSearch(text: string)
    ensures Search(ForecastPattern, text).None? <==> forall i :: 0 <= i <= |text| ==> ForecastAt(text, i).None?
    ensures Search(ForecastPattern, text).Some? ==>
      var t := Search(ForecastPattern, text).value;
      ForecastAt(text, t[0]) == Some(Capture(text, t, 25, 26)) && forall m :: 0 <= m < t[0] ==> ForecastAt(text, m).None?
  {
    forall i | 0 <= i <= |text| ensures MatchAt(ForecastPattern, text, i).Some? <==> ForecastAt(text, i).Some? {
      ForecastMatch(text, i);
    }
    if Search(ForecastPattern, text).Some? {
      ForecastMatch(text, Search(ForecastPattern, text).value[0]);
    }
  }

  /** The billing forecast date at the first position that reads as a forecast, `""` when none does. */
  function ForecastOf(text: string): (r: string)
    ensures r == "" || IsDate(r)
    ensures (forall i :: !NoCaseAt(text, i, ForecastLabel)) ==> r == ""
  {
    ForecastSearch(text);
    match Search(ForecastPattern, text)
    case None => ""
    case Some(t) => Capture(text, t, 25, 26)
  }

  /**
   * The forecast read is the one at the first position that reads as one, and
   * it is `""` exactly when no position does.
   */
  lemma ForecastFirst(text: string)
    ensures ForecastOf(text) == "" <==> forall i :: 0 <= i <= |text| ==> ForecastAt(text, i).None?
    ensures ForecastOf(text) != "" ==>
      exists i :: 0 <= i <= |text| && ForecastAt(text, i) == Some(ForecastOf(text)) && forall m :: 0 <= m < i ==> ForecastAt(text, m).None?
  {
    ForecastSearch(text);
    if ForecastOf(text) != "" {
      var t := Search(ForecastPattern, text).value;
      assert ForecastAt(text, t[0]) == Some(ForecastOf(text));
    }
  }

  // --------------------------------------------------------------------- OBS

  const ObsLabel := "OBS"

  /** `OBS[:\s]+(.+)` under `re.I`; the group is element 4. */
  const ObsPattern: Pattern := NoCaseLiteral(ObsLabel) + [Plus(Union(OneOf(":"), Space)), Plus(NotNewline)]

  /**
   * The shipping note.  After the label, `[:\s]+` takes the longest run of
   * colons and whitespace that still leaves a character other than a newline
   * after it; the note starts there, possibly on a later line, and runs to
   * the end of that line, stripped.
   */
  function ObsOf(text: string): (r: string)
    ensures IsStripped(r) && '\n' !in r
    ensures (forall i :: !NoCaseAt(text, i, ObsLabel)) ==> r == ""
  {
    match Search(ObsPattern, text)
    case None => ""
    case Some(t) =>
      CaptureShape(ObsPattern, text, t, 4);
      TraceNoCaseLiteral(ObsPattern, text, t, 0, ObsLabel);
      var g := Capture(text, t, 4, 5);
      assert '\n' !in g by {
        forall m | 0 <= m < |g| ensures g[m] != '\n' {
          assert g[m] == text[t[4] + m];
        }
      }
      StripChars(g);
      Strip(g)
  }

  // ------------------------------------------------------------------ header

  /** The shapes the header fields can take. */
  predicate WellFormed(h: Header) {
    AllDigits(h.pedido)
    && IsStripped(h.cliente)
    && IsStripped(h.cidade) && (forall c :: c in h.cidade ==> In(c, CityChar))
    && IsState(h.uf)
    && IsDateTime(h.dataInclusao)
    && (h.previsaoFaturamento == "" || IsDate(h.previsaoFaturamento))
    && IsStripped(h.obsExpedicao) && '\n' !in h.obsExpedicao
  }

  /** The header of a page text. */
  function HeaderOf(text: string): (h: Header)
    ensures WellFormed(h)
  {
    var (cidade, uf) := CityStateOf(text);
    Header(PedidoOf(text), ClientOf(SplitLines(text)), cidade, uf,
           InclusionOf(text), ForecastOf(text), ObsOf(text))
  }

  /** `extrair_header`: the fields one after the other, the client by the look-ahead loop. */
  method ExtractHeader(texto: string) returns (h: Header)
    ensures h == HeaderOf(texto)
    ensures WellFormed(h)
  {
    var pedido := PedidoOf(texto);
    var linhas := SplitLines(texto);
    var cliente := FindClient(linhas);
    var (cidade, uf) := CityStateOf(texto);
    var inclusao := InclusionOf(texto);
    var previsao := ForecastOf(texto);
    var obs := ObsOf(texto);
    h := Header(pedido, cliente, cidade, uf, inclusao, previsao, obs);
  }
}
