/**
 * `extrair_itens` (app_expedicao.py:50-65): the line items of one page.
 * The items section runs from the first "Itens do Pedido de Venda" (any case)
 * to the next "Outras Informações" or the end of the text; each non-blank
 * line of it, stripped, that has the layout
 * `quantity  unit  code  description` gives one item.
 */
module Items {
  import opened Text
  import opened Wrappers
  import opened Pattern
  import opened Quantity

  // ------------------------------------------------------------------ section

  const ItemsLabel := "Itens do Pedido de Venda"

  /** Index of the first case-insensitive occurrence of `w` at or after `i`, or `|s|`. */
  function FindNoCase(s: string, w: string, i: nat): (k: nat)
    requires i <= |s|
    ensures i <= k <= |s|
    ensures k < |s| ==> NoCaseAt(s, k, w)
    ensures forall m :: i <= m < k ==> !NoCaseAt(s, m, w)
    decreases |s| - i
  {
    if i == |s| || NoCaseAt(s, i, w) then i else FindNoCase(s, w, i + 1)
  }

  /** `Outras Informa[cç][oõ]es` under `re.I` starts at `k`. */
  predicate OtherInfoAt(s: string, k: nat) {
    NoCaseAt(s, k, "Outras Informa") && k + 16 <= |s|
    && In(s[k + 14], Union(NoCase('c'), NoCase('ç')))
    && In(s[k + 15], Union(NoCase('o'), NoCase('õ')))
    && NoCaseAt(s, k + 16, "es")
  }

  /** `$` without `re.M`: the end of the text, or just before a final newline. */
  predicate EndAt(s: string, k: nat) {
    k == |s| || (k + 1 == |s| && s[k] == '\n')
  }

  /**
   * Where the lazy `(.*?)` of the section pattern stops: the first position at
   * or after `j` where "Outras Informações" starts or `$` holds.
   */
  function SectionEnd(s: string, j: nat): (k: nat)
    requires j <= |s|
    ensures j <= k <= |s|
    ensures OtherInfoAt(s, k) || EndAt(s, k)
    ensures forall m :: j <= m < k ==> !OtherInfoAt(s, m) && !EndAt(s, m)
    decreases |s| - j
  {
    if OtherInfoAt(s, j) || EndAt(s, j) then j else SectionEnd(s, j + 1)
  }

  /**
   * Group 1 of `Itens do Pedido de Venda(.*?)(Outras Informa[cç][oõ]es|$)` with
   * `re.S | re.I`: the text after the first label up to the first following
   * "Outras Informações", or to the end.  `None` when the label does not occur.
   */
  function SectionOf(text: string): (r: Option<string>)
    ensures r.None? <==> forall i :: !NoCaseAt(text, i, ItemsLabel)
    ensures r.Some? ==>
      exists i: nat :: NoCaseAt(text, i, ItemsLabel) && (forall m :: 0 <= m < i ==> !NoCaseAt(text, m, ItemsLabel))
                  && r.value == text[i + |ItemsLabel|..SectionEnd(text, i + |ItemsLabel|)]
  {
    var i := FindNoCase(text, ItemsLabel, 0);
    if i == |text| then None
    else
      var j := i + |ItemsLabel|;
      Some(text[j..SectionEnd(text, j)])
  }

  // -------------------------------------------------------------------- lines

  /** Indices of the lines that `strip()` does not empty, in increasing order. */
  function NonBlank(lines: seq<string>): (r: seq<nat>)
    ensures |r| <= |lines|
    ensures forall m :: 0 <= m < |r| ==> r[m] < |lines|
    ensures forall m, n :: 0 <= m < n < |r| ==> r[m] < r[n]
    ensures forall k :: 0 <= k < |lines| ==> (k in r <==> !IsBlank(lines[k]))
    decreases |lines|
  {
    if lines == [] then []
    else
      var last := |lines| - 1;
      NonBlank(lines[..last]) + (if IsBlank(lines[last]) then [] else [last])
  }

  /** `[ln.strip() for ln in lines if ln.strip()]` */
  function CleanLines(lines: seq<string>): (r: seq<string>)
    ensures |r| == |NonBlank(lines)|
    decreases |lines|
  {
    if lines == [] then []
    else
      var last := |lines| - 1;
      CleanLines(lines[..last]) + (if Strip(lines[last]) != "" then [Strip(lines[last])] else [])
  }

  /** The m-th cleaned line is the m-th line that is not blank, stripped. */
  lemma {:induction false} CleanLinesKept(lines: seq<string>)
    ensures forall m :: 0 <= m < |CleanLines(lines)| ==> CleanLines(lines)[m] == Strip(lines[NonBlank(lines)[m]])
    decreases |lines|
  {
    if lines != [] {
      var last := |lines| - 1;
      CleanLinesKept(lines[..last]);
      var init, idx := CleanLines(lines[..last]), NonBlank(lines[..last]);
      var r := CleanLines(lines);
      assert r == init + (if Strip(lines[last]) != "" then [Strip(lines[last])] else []);
      assert NonBlank(lines) == idx + (if IsBlank(lines[last]) then [] else [last]);
      forall m | 0 <= m < |r| ensures r[m] == Strip(lines[NonBlank(lines)[m]]) {
        if m < |init| {
          assert r[m] == init[m] == Strip(lines[..last][idx[m]]);
          assert lines[..last][idx[m]] == lines[idx[m]];
        }
      }
    }
  }

  /** The cleaned lines are stripped, non-empty, and have no line break when the lines had none. */
  lemma CleanLinesShape(lines: seq<string>)
    requires forall k :: 0 <= k < |lines| ==> NoLineBreak(lines[k])
    ensures forall m :: 0 <= m < |CleanLines(lines)| ==>
      CleanLines(lines)[m] != "" && IsStripped(CleanLines(lines)[m]) && NoLineBreak(CleanLines(lines)[m])
  {
    var r, idx := CleanLines(lines), NonBlank(lines);
    CleanLinesKept(lines);
    forall m | 0 <= m < |r| ensures r[m] != "" && IsStripped(r[m]) && NoLineBreak(r[m]) {
      var l := lines[idx[m]];
      assert idx[m] in idx;
      StripChars(l);
      forall k | 0 <= k < |r[m]| ensures !IsLineBreak(r[m][k]) {
        assert r[m][k] in Strip(l);
      }
    }
  }

  // ---------------------------------------------------------------- item line

  /** `[\d\.\,]` */
  const QtyClass := Union(Digit, OneOf(".,"))
  /** `[A-Za-z]` */
  const UnitClass := Union(Upper, Lower)
  /** `[A-Z0-9\-\/]` */
  const CodeClass := Union(Upper, Union(Digit, OneOf("-/")))

  /** The four groups of a matched item line. */
  datatype ItemFields = ItemFields(qty: string, unit: string, code: string, desc: string)

  /**
   * `ln` is laid out as `^([\d\.\,]+)\s+([A-Za-z]+)\s+([A-Z0-9\-\/]+)\s+(.+)$`
   * with the groups at `[0, a)`, `[b, c)`, `[d, e)` and `[f, |ln|)`: the first
   * three whitespace-separated tokens are a quantity, a unit and a code, and a
   * description follows.
   */
  predicate Layout(ln: string, a: nat, b: nat, c: nat, d: nat, e: nat, f: nat) {
    0 < a < b < c < d < e < f < |ln|
    && (forall m :: 0 <= m < a ==> In(ln[m], QtyClass))
    && (forall m :: a <= m < b ==> IsSpace(ln[m]))
    && (forall m :: b <= m < c ==> In(ln[m], UnitClass))
    && (forall m :: c <= m < d ==> IsSpace(ln[m]))
    && (forall m :: d <= m < e ==> In(ln[m], CodeClass))
    && (forall m :: e <= m < f ==> IsSpace(ln[m]))
    && !IsSpace(ln[f])
  }

  /** The groups a layout delimits. */
  function Groups(ln: string, a: nat, b: nat, c: nat, d: nat, e: nat, f: nat): ItemFields
    requires a <= b <= c <= d <= e <= f <= |ln|
  {
    ItemFields(ln[..a], ln[b..c], ln[d..e], ln[f..])
  }

  /** The ends of the six maximal runs the item pattern walks through. */
  datatype Cuts = Cuts(a: nat, b: nat, c: nat, d: nat, e: nat, f: nat)

  function CutsOf(ln: string): (k: Cuts)
    ensures k.a <= k.b <= k.c <= k.d <= k.e <= k.f <= |ln|
  {
    var a := RunEnd(QtyClass, ln, 0);
    var b := RunEnd(Space, ln, a);
    var c := RunEnd(UnitClass, ln, b);
    var d := RunEnd(Space, ln, c);
    var e := RunEnd(CodeClass, ln, d);
    var f := RunEnd(Space, ln, e);
    Cuts(a, b, c, d, e, f)
  }

  /**
   * `rx.match(ln)` on a stripped line without line breaks.  Each group and each
   * `\s+` takes a maximal run: the classes of neighbouring elements are
   * disjoint, so the backtracking of `re` can never give a character back.
   */
  function ScanItemLine(ln: string): (r: Option<ItemFields>)
    ensures r.Some? ==>
      var k := CutsOf(ln);
      Layout(ln, k.a, k.b, k.c, k.d, k.e, k.f) && r.value == Groups(ln, k.a, k.b, k.c, k.d, k.e, k.f)
  {
    var k := CutsOf(ln);
    if 0 < k.a < k.b < k.c < k.d < k.e < k.f < |ln| then
      RunsLayout(ln, k.a, k.b, k.c, k.d, k.e, k.f);
      Some(Groups(ln, k.a, k.b, k.c, k.d, k.e, k.f))
    else None
  }

  lemma RunsLayout(ln: string, a: nat, b: nat, c: nat, d: nat, e: nat, f: nat)
    requires 0 < a < b < c < d < e < f < |ln|
    requires a == RunEnd(QtyClass, ln, 0) && b == RunEnd(Space, ln, a) && c == RunEnd(UnitClass, ln, b)
    requires d == RunEnd(Space, ln, c) && e == RunEnd(CodeClass, ln, d) && f == RunEnd(Space, ln, e)
    ensures Layout(ln, a, b, c, d, e, f)
  {
    RunContents(QtyClass, ln, 0);
    RunContents(Space, ln, a);
    RunContents(UnitClass, ln, b);
    RunContents(Space, ln, c);
    RunContents(CodeClass, ln, d);
    RunContents(Space, ln, e);
  }

  /** No character is both whitespace and in one of the token classes; the unit and code classes share only capitals. */
  lemma ClassesApart(ch: char)
    ensures In(ch, QtyClass) || In(ch, UnitClass) || In(ch, CodeClass) ==> !IsSpace(ch)
  {
    ClassMembers(ch);
  }

  lemma ClassMembers(ch: char)
    ensures In(ch, QtyClass) <==> IsQtyChar(ch)
    ensures In(ch, UnitClass) <==> IsAsciiLetter(ch)
    ensures In(ch, CodeClass) <==> IsAsciiUpper(ch) || IsDigit(ch) || ch == '-' || ch == '/'
  {
    assert In(ch, OneOf(".,")) <==> ch == '.' || ch == ',';
    assert In(ch, OneOf("-/")) <==> ch == '-' || ch == '/';
  }

  /** A line with the item layout is matched, with exactly the groups of that layout. */
  lemma ScanComplete(ln: string, a: nat, b: nat, c: nat, d: nat, e: nat, f: nat)
    requires Layout(ln, a, b, c, d, e, f)
    ensures ScanItemLine(ln) == Some(Groups(ln, a, b, c, d, e, f))
  {
    ClassesApart(ln[b]);
    ClassesApart(ln[d]);
    ClassesApart(ln[e]);
    ClassesApart(ln[f]);
    RunStops(QtyClass, ln, 0, a);
    RunStops(Space, ln, a, b);
    RunStops(UnitClass, ln, b, c);
    RunStops(Space, ln, c, d);
    RunStops(CodeClass, ln, d, e);
    RunStops(Space, ln, e, f);
  }

  // -------------------------------------------------------------------- items

  /** One row of the items table. */
  datatype Item = Item(quantidade: Decimal, unid: string, codigo: string, descricao: string)

  /** The quantity group of a matched line is a quantity token. */
  lemma ScanQtyToken(ln: string)
    requires ScanItemLine(ln).Some?
    ensures QtyToken(ScanItemLine(ln).value.qty) && ScanItemLine(ln).value.qty != ""
  {
    var a := RunEnd(QtyClass, ln, 0);
    var q := ScanItemLine(ln).value.qty;
    assert q == ln[..a];
    forall m | 0 <= m < |q| ensures IsQtyChar(q[m]) {
      assert In(ln[m], QtyClass);
      ClassMembers(ln[m]);
    }
  }

  /** `dict(Quantidade=qtd, Unid=unid.upper(), Codigo=cod.strip(), Descricao=desc.strip())` */
  function MakeItem(g: ItemFields, q: Decimal): (it: Item)
    ensures it.quantidade == q
    ensures |it.unid| == |g.unit|
    ensures forall k :: 0 <= k < |g.unit| ==>
      if IsAsciiLower(g.unit[k]) then IsAsciiUpper(it.unid[k]) && Fold(it.unid[k]) == g.unit[k] else it.unid[k] == g.unit[k]
    ensures IsStripped(it.codigo) && (it.codigo == "" <==> IsBlank(g.code))
    ensures IsStripped(it.descricao) && (it.descricao == "" <==> IsBlank(g.desc))
  {
    Item(q, AsciiUpper(g.unit), Strip(g.code), Strip(g.desc))
  }

  /** The shapes of an item's text fields. */
  predicate WellFormedItem(it: Item) {
    it.unid != "" && (forall k :: 0 <= k < |it.unid| ==> IsAsciiUpper(it.unid[k]))
    && it.codigo != "" && (forall k :: 0 <= k < |it.codigo| ==> In(it.codigo[k], CodeClass))
    && it.descricao != "" && IsStripped(it.descricao) && NoLineBreak(it.descricao)
  }

  /**
   * The item of a matched line: the unit upper-cased, and code and description
   * exactly as they stand in the line (their `strip()` changes nothing).
   */
  lemma MatchedItem(ln: string, q: Decimal)
    requires IsStripped(ln) && NoLineBreak(ln) && ScanItemLine(ln).Some?
    ensures var g := ScanItemLine(ln).value;
      var it := MakeItem(g, q);
      it.codigo == g.code && it.descricao == g.desc && WellFormedItem(it)
  {
    var k := CutsOf(ln);
    var g := ScanItemLine(ln).value;
    UnitLetters(ln, k.b, k.c);
    CodeChars(ln, k.d, k.e);
    DescriptionStripped(ln, k.f);
  }

  lemma UnitLetters(ln: string, b: nat, c: nat)
    requires b < c <= |ln| && forall m :: b <= m < c ==> In(ln[m], UnitClass)
    ensures AsciiUpper(ln[b..c]) != "" && forall m :: 0 <= m < c - b ==> IsAsciiUpper(AsciiUpper(ln[b..c])[m])
  {
    forall m | 0 <= m < c - b ensures IsAsciiLetter(ln[b..c][m]) {
      assert ln[b..c][m] == ln[b + m];
      ClassMembers(ln[b + m]);
    }
  }

  lemma CodeChars(ln: string, d: nat, e: nat)
    requires d < e <= |ln| && forall m :: d <= m < e ==> In(ln[m], CodeClass)
    ensures Strip(ln[d..e]) == ln[d..e]
    ensures forall m :: 0 <= m < e - d ==> In(ln[d..e][m], CodeClass)
  {
    var code := ln[d..e];
    assert code[0] == ln[d] && code[|code| - 1] == ln[e - 1];
    ClassesApart(ln[d]);
    ClassesApart(ln[e - 1]);
    StripStripped(code);
    forall m | 0 <= m < e - d ensures In(code[m], CodeClass) {
      assert code[m] == ln[d + m];
    }
  }

  lemma DescriptionStripped(ln: string, f: nat)
    requires IsStripped(ln) && NoLineBreak(ln) && f < |ln| && !IsSpace(ln[f])
    ensures Strip(ln[f..]) == ln[f..] && IsStripped(ln[f..]) && NoLineBreak(ln[f..])
  {
    var desc := ln[f..];
    assert desc[0] == ln[f] && desc[|desc| - 1] == ln[|ln| - 1];
    StripStripped(desc);
    forall m | 0 <= m < |desc| ensures !IsLineBreak(desc[m]) {
      assert desc[m] == ln[f + m];
    }
  }

  /** The result of one section line: no item, an item, or the `ValueError` of `float`. */
  function LineResult(ln: string): (r: Result<Option<Item>, QtyError>)
    ensures r.Failure? || r.value.Some? <==> ScanItemLine(ln).Some?
  {
    match ScanItemLine(ln)
    case None => Success(None)
    case Some(g) =>
      ScanQtyToken(ln);
      match ParseQty(g.qty)
      case Failure(err) => Failure(err)
      case Success(q) => Success(Some(MakeItem(g, q)))
  }

  predicate CleanLine(ln: string) {
    IsStripped(ln) && NoLineBreak(ln)
  }

  type Outcome = Result<Option<Item>, QtyError>

  /** The result of each line, line by line. */
  function Outcomes(lines: seq<string>): (r: seq<Outcome>)
    ensures |r| == |lines| && forall k :: 0 <= k < |lines| ==> r[k] == LineResult(lines[k])
  {
    seq(|lines|, k requires 0 <= k < |lines| => LineResult(lines[k]))
  }

  /** Folding the line results in order: the items so far, stopping at the first error. */
  function Collect(rs: seq<Outcome>): (r: Result<seq<Item>, QtyError>)
    ensures r.Success? ==> |r.value| <= |rs| && forall k :: 0 <= k < |rs| ==> rs[k].Success?
    ensures r.Failure? ==> exists k :: 0 <= k < |rs| && rs[k] == Failure(r.error)
    decreases |rs|
  {
    if rs == [] then Success([])
    else
      match Collect(rs[..|rs| - 1])
      case Failure(err) => Failure(err)
      case Success(items) =>
        match rs[|rs| - 1]
        case Failure(err) => Failure(err)
        case Success(None) => Success(items)
        case Success(Some(it)) => Success(items + [it])
  }

  /** The loop of app_expedicao.py:59-64 over `lines`: the items in line order, or the first error. */
  function ItemsOfLines(lines: seq<string>): (r: Result<seq<Item>, QtyError>)
    ensures r.Success? ==> |r.value| <= |lines|
  {
    Collect(Outcomes(lines))
  }

  /**
   * The section's lines as `splitlines()` cuts them, keeping the non-blank ones
   * stripped and in order.
   */
  function SectionLines(section: string): (r: seq<string>)
    ensures forall k :: 0 <= k < |r| ==> r[k] != "" && CleanLine(r[k])
    ensures var lines := SplitLines(section);
      |r| == |NonBlank(lines)| && forall m :: 0 <= m < |r| ==> r[m] == Strip(lines[NonBlank(lines)[m]])
  {
    CleanLinesShape(SplitLines(section));
    CleanLinesKept(SplitLines(section));
    CleanLines(SplitLines(section))
  }

  /** `extrair_itens` as a function of the page text; a page without the items label has no items. */
  function ItemsOf(text: string): (r: Result<seq<Item>, QtyError>)
    ensures (forall i :: !NoCaseAt(text, i, ItemsLabel)) ==> r == Success([])
  {
    match SectionOf(text)
    case None => Success([])
    case Some(section) => ItemsOfLines(SectionLines(section))
  }

  /** A page gives at most one item per non-blank line of its items section. */
  lemma ItemsOfCount(text: string)
    ensures ItemsOf(text).Success? && SectionOf(text).Some? ==>
      |ItemsOf(text).value| <= |NonBlank(SplitLines(SectionOf(text).value))|
  {
  }

  /** One more line: the items so far, then the result of that line. */
  lemma ItemsOfLinesStep(lines: seq<string>, k: nat)
    requires k < |lines|
    ensures ItemsOfLines(lines[..k + 1]) ==
      match ItemsOfLines(lines[..k])
      case Failure(err) => Failure(err)
      case Success(items) =>
        match LineResult(lines[k])
        case Failure(err) => Failure(err)
        case Success(None) => Success(items)
        case Success(Some(it)) => Success(items + [it])
  {
    assert Outcomes(lines[..k + 1])[..k] == Outcomes(lines[..k]);
  }

  /** `extrair_itens`: the loop that appends one item per matching line. */
  method ExtractItems(texto: string) returns (res: Result<seq<Item>, QtyError>)
    ensures res == ItemsOf(texto)
  {
    var bloc := SectionOf(texto);
    if bloc.None? {
      return Success([]);
    }
    var linhas := SectionLines(bloc.value);
    var itens: seq<Item> := [];
    for k := 0 to |linhas|
      invariant ItemsOfLines(linhas[..k]) == Success(itens)
    {
      ItemsOfLinesStep(linhas, k);
      var m := ScanItemLine(linhas[k]);
      if m.None? {
        continue;
      }
      ScanQtyToken(linhas[k]);
      var qtd := ParseQty(m.value.qty);
      if qtd.Failure? {
        ItemsFailureStays(linhas, k + 1);
        return Failure(qtd.error);
      }
      itens := itens + [MakeItem(m.value, qtd.value)];
    }
    assert linhas[..|linhas|] == linhas;
    return Success(itens);
  }

  /** Once a prefix of the lines fails, every longer prefix fails with the same error. */
  lemma {:induction false} ItemsFailureStays(lines: seq<string>, k: nat)
    requires k <= |lines| && ItemsOfLines(lines[..k]).Failure?
    ensures ItemsOfLines(lines) == ItemsOfLines(lines[..k])
    decreases |lines| - k
  {
    if k < |lines| {
      assert ItemsOfLines(lines[..k + 1]) == ItemsOfLines(lines[..k]) by {
        ItemsOfLinesStep(lines, k);
      }
      ItemsFailureStays(lines, k + 1);
    } else {
      assert lines[..k] == lines;
    }
  }

  // ------------------------------------------------------------- properties

  predicate Gives(o: Outcome) {
    o.Success? && o.value.Some?
  }

  /** Indices of the results that give an item, in increasing order. */
  function Picked(rs: seq<Outcome>): (r: seq<nat>)
    ensures |r| <= |rs|
    ensures forall m :: 0 <= m < |r| ==> r[m] < |rs|
    ensures forall m, n :: 0 <= m < n < |r| ==> r[m] < r[n]
    ensures forall k :: 0 <= k < |rs| ==> (k in r <==> Gives(rs[k]))
    decreases |rs|
  {
    if rs == [] then []
    else
      var last := |rs| - 1;
      Picked(rs[..last]) + (if Gives(rs[last]) then [last] else [])
  }

  lemma {:induction false} CollectInOrder(rs: seq<Outcome>)
    ensures Collect(rs).Success? ==>
      |Collect(rs).value| == |Picked(rs)|
      && forall m :: 0 <= m < |Picked(rs)| ==> rs[Picked(rs)[m]] == Success(Some(Collect(rs).value[m]))
    decreases |rs|
  {
    if rs != [] {
      CollectInOrder(rs[..|rs| - 1]);
    }
  }

  /** Index of the first failed result, or `|rs|`. */
  function FirstFailure(rs: seq<Outcome>, from: nat): (n: nat)
    requires from <= |rs|
    ensures from <= n <= |rs| && (n < |rs| ==> rs[n].Failure?)
    ensures forall m :: from <= m < n ==> rs[m].Success?
    decreases |rs| - from
  {
    if from == |rs| || rs[from].Failure? then from else FirstFailure(rs, from + 1)
  }

  lemma {:induction false} CollectFailure(rs: seq<Outcome>)
    ensures Collect(rs).Failure? <==> FirstFailure(rs, 0) < |rs|
    ensures Collect(rs).Failure? ==> rs[FirstFailure(rs, 0)] == Failure(Collect(rs).error)
    decreases |rs|
  {
    if rs != [] {
      var prefix := rs[..|rs| - 1];
      CollectFailure(prefix);
      FirstFailurePrefix(rs, 0);
    }
  }

  lemma {:induction false} FirstFailurePrefix(rs: seq<Outcome>, from: nat)
    requires rs != [] && from < |rs|
    ensures var n := FirstFailure(rs[..|rs| - 1], from);
      FirstFailure(rs, from) == (if n < |rs| - 1 || rs[|rs| - 1].Failure? then n else |rs|)
    decreases |rs| - from
  {
    if from < |rs| - 1 {
      assert rs[..|rs| - 1][from] == rs[from];
      if rs[from].Success? {
        FirstFailurePrefix(rs, from + 1);
      }
    }
  }

  /**
   * On success the items are, in order, those of the lines that give one: the
   * m-th item is the item of the m-th matching line.
   */
  lemma ItemsInLineOrder(lines: seq<string>)
    ensures var picked := Picked(Outcomes(lines));
      ItemsOfLines(lines).Success? ==>
      |ItemsOfLines(lines).value| == |picked|
      && forall m :: 0 <= m < |picked| ==> LineResult(lines[picked[m]]) == Success(Some(ItemsOfLines(lines).value[m]))
  {
    CollectInOrder(Outcomes(lines));
  }

  /**
   * The extraction fails exactly when some matching line has a quantity that
   * `float` rejects, and the error is that of the first such line.
   */
  lemma ItemsFailure(lines: seq<string>)
    ensures ItemsOfLines(lines).Failure? <==> exists n :: 0 <= n < |lines| && LineResult(lines[n]).Failure?
    ensures ItemsOfLines(lines).Failure? ==>
      var n := FirstFailure(Outcomes(lines), 0);
      n < |lines| && LineResult(lines[n]) == Failure(ItemsOfLines(lines).error)
      && forall m :: 0 <= m < n ==> LineResult(lines[m]).Success?
  {
    var rs := Outcomes(lines);
    CollectFailure(rs);
    var n := FirstFailure(rs, 0);
    if n < |lines| {
      assert LineResult(lines[n]).Failure?;
    }
  }

  /** Every item extracted from clean lines has the field shapes of a matched line. */
  lemma ItemsWellFormed(lines: seq<string>)
    requires forall k :: 0 <= k < |lines| ==> CleanLine(lines[k])
    ensures ItemsOfLines(lines).Success? ==>
      forall m :: 0 <= m < |ItemsOfLines(lines).value| ==> WellFormedItem(ItemsOfLines(lines).value[m])
  {
    ItemsInLineOrder(lines);
    if ItemsOfLines(lines).Success? {
      var items := ItemsOfLines(lines).value;
      forall m | 0 <= m < |items| ensures WellFormedItem(items[m]) {
        var ln := lines[Picked(Outcomes(lines))[m]];
        assert CleanLine(ln);
        ScanQtyToken(ln);
        MatchedItem(ln, ParseQty(ScanItemLine(ln).value.qty).value);
      }
    }
  }
}
