/**
 * The page join of `extrair_do_pdf` (app_expedicao.py:68-77): every page's
 * text is masked, its header and items are extracted, and one result row per
 * item is appended, the page header merged with the item (`{**h, **it}`).
 * Reading the PDF is abstracted to the sequence of what `extract_text()`
 * returns for each page.
 */
module Pipeline {
  import opened Wrappers
  import opened Quantity
  import opened Masking
  import opened Header
  import opened Items

  /** A cell of a result row: a text field, or the float `Quantidade`. */
  datatype Cell = Str(s: string) | Num(q: Decimal)

  /**
   * The eleven keys of a result row.  The source keys its dictionaries by the
   * strings `ColumnName` gives; an enumeration keeps the same key set while
   * making key comparison structural.
   */
  datatype Column =
    | Pedido | Cliente | Cidade | UF | DataInclusao | PrevisaoFaturamento | ObsExpedicao
    | Quantidade | Unid | Codigo | Descricao

  /** The dictionary key (and CSV column name) of each column. */
  function ColumnName(c: Column): string {
    match c
    case Pedido => "Pedido"
    case Cliente => "Cliente"
    case Cidade => "Cidade"
    case UF => "UF"
    case DataInclusao => "Data_inclusao"
    case PrevisaoFaturamento => "Previsao_faturamento"
    case ObsExpedicao => "Obs_expedicao"
    case Quantidade => "Quantidade"
    case Unid => "Unid"
    case Codigo => "Codigo"
    case Descricao => "Descricao"
  }

  /** The column a dictionary key names, if any. */
  function ColumnOf(name: string): Option<Column> {
    if name == "Pedido" then Some(Pedido)
    else if name == "Cliente" then Some(Cliente)
    else if name == "Cidade" then Some(Cidade)
    else if name == "UF" then Some(UF)
    else if name == "Data_inclusao" then Some(DataInclusao)
    else if name == "Previsao_faturamento" then Some(PrevisaoFaturamento)
    else if name == "Obs_expedicao" then Some(ObsExpedicao)
    else if name == "Quantidade" then Some(Quantidade)
    else if name == "Unid" then Some(Unid)
    else if name == "Codigo" then Some(Codigo)
    else if name == "Descricao" then Some(Descricao)
    else None
  }

  /** Each key names its own column, so distinct columns have distinct keys. */
  lemma ColumnNameRoundTrip(c: Column)
    ensures ColumnOf(ColumnName(c)) == Some(c)
    ensures forall d :: ColumnName(d) == ColumnName(c) ==> d == c
  {
    forall d | ColumnName(d) == ColumnName(c) ensures d == c {
      assert ColumnOf(ColumnName(d)) == Some(d);
    }
  }

  /** A result row, as the dictionary the source builds. */
  type Row = map<Column, Cell>

  /** The text of a page, `None` when `extract_text()` finds none. */
  type Page = Option<string>

  const HeaderKeys: set<Column> :=
    {Pedido, Cliente, Cidade, UF, DataInclusao, PrevisaoFaturamento, ObsExpedicao}
  const ItemKeys: set<Column> := {Quantidade, Unid, Codigo, Descricao}

  /** The value of a header column; the item columns are not header fields. */
  function HeaderField(h: Header, c: Column): string {
    match c
    case Pedido => h.pedido
    case Cliente => h.cliente
    case Cidade => h.cidade
    case UF => h.uf
    case DataInclusao => h.dataInclusao
    case PrevisaoFaturamento => h.previsaoFaturamento
    case ObsExpedicao => h.obsExpedicao
    case _ => ""
  }

  /** The value of an item column; the header columns are not item fields. */
  function ItemField(it: Item, c: Column): Cell {
    match c
    case Quantidade => Num(it.quantidade)
    case Unid => Str(it.unid)
    case Codigo => Str(it.codigo)
    case Descricao => Str(it.descricao)
    case _ => Str("")
  }

  /** The dictionary `extrair_header` returns (app_expedicao.py:45-47). */
  function HeaderRow(h: Header): (r: Row)
    ensures r.Keys == HeaderKeys && forall k :: k in r ==> r[k] == Str(HeaderField(h, k))
  {
    map c | c in HeaderKeys :: Str(HeaderField(h, c))
  }

  /** The dictionary of one item (app_expedicao.py:64). */
  function ItemRow(it: Item): (r: Row)
    ensures r.Keys == ItemKeys && forall k :: k in r ==> r[k] == ItemField(it, k)
  {
    map c | c in ItemKeys :: ItemField(it, c)
  }

  /** `{**h, **it}`: every key of both, the item's value winning on a shared key. */
  function Merge(h: Row, it: Row): (r: Row)
    ensures r.Keys == h.Keys + it.Keys
    ensures forall k :: k in it ==> r[k] == it[k]
    ensures forall k :: k in h && k !in it ==> r[k] == h[k]
  {
    h + it
  }

  /** The row of one item of a page with header `h`. */
  function JoinedRow(h: Header, it: Item): Row {
    Merge(HeaderRow(h), ItemRow(it))
  }

  /**
   * Header and item keys are disjoint, so the merged row has all eleven keys
   * and keeps every header field and every item field.
   */
  lemma JoinedRowKeeps(h: Header, it: Item)
    ensures HeaderKeys !! ItemKeys
    ensures var r := JoinedRow(h, it);
      r.Keys == HeaderKeys + ItemKeys && |r.Keys| == 11
      && (forall k :: k in HeaderKeys ==> r[k] == HeaderRow(h)[k])
      && (forall k :: k in ItemKeys ==> r[k] == ItemRow(it)[k])
  {
    KeysDisjoint();
    JoinedRowKeys(h, it);
    JoinedFields(h, it);
  }

  lemma KeysDisjoint()
    ensures HeaderKeys !! ItemKeys && |HeaderKeys + ItemKeys| == 11
  {
    assert |HeaderKeys| == 7;
    assert |ItemKeys| == 4;
  }

  lemma JoinedRowKeys(h: Header, it: Item)
    ensures JoinedRow(h, it).Keys == HeaderKeys + ItemKeys
  {
  }

  lemma JoinedFields(h: Header, it: Item)
    ensures forall k :: k in HeaderKeys ==> JoinedRow(h, it)[k] == HeaderRow(h)[k]
    ensures forall k :: k in ItemKeys ==> JoinedRow(h, it)[k] == ItemRow(it)[k]
  {
    KeysDisjoint();
  }

  /** The eleven keys, `Quantidade` a number and every other field a string. */
  predicate WellFormedRow(r: Row) {
    r.Keys == HeaderKeys + ItemKeys
    && r[Quantidade].Num?
    && forall k :: k in r && k != Quantidade ==> r[k].Str?
  }

  function PageText(pg: Page): string {
    if pg.Some? then pg.value else ""
  }

  /** The header of a page, taken from its masked text. */
  function PageHeader(pg: Page): Header {
    HeaderOf(Mask(PageText(pg)))
  }

  /** The items of a page, taken from its masked text. */
  function PageItems(pg: Page): Result<seq<Item>, QtyError> {
    ItemsOf(Mask(PageText(pg)))
  }

  /** The item dictionaries `extrair_itens` returns, one per item. */
  function ItemRows(items: seq<Item>): (r: seq<Row>)
    ensures |r| == |items| && forall m :: 0 <= m < |items| ==> r[m] == ItemRow(items[m])
  {
    seq(|items|, m requires 0 <= m < |items| => ItemRow(items[m]))
  }

  /** Every item dictionary merged with the header dictionary, in order. */
  function JoinRows(hr: Row, its: seq<Row>): (r: seq<Row>)
    ensures |r| == |its| && forall m :: 0 <= m < |its| ==> r[m] == Merge(hr, its[m])
  {
    seq(|its|, m requires 0 <= m < |its| => Merge(hr, its[m]))
  }

  /** The rows of `items`, each merged with the header `h`. */
  function JoinPage(h: Header, items: seq<Item>): (r: seq<Row>)
    ensures |r| == |items| && forall m :: 0 <= m < |items| ==> r[m] == JoinedRow(h, items[m])
  {
    JoinRows(HeaderRow(h), ItemRows(items))
  }

  /**
   * The rows one page contributes: one per item, in item order, each the
   * page's header merged with that item; or the error of its items.
   */
  function PageRows(pg: Page): (r: Result<seq<Row>, QtyError>)
    ensures r.Success? <==> PageItems(pg).Success?
    ensures r.Failure? ==> r.error == PageItems(pg).error
  {
    match PageItems(pg)
    case Failure(err) => Failure(err)
    case Success(items) => Success(JoinPage(PageHeader(pg), items))
  }

  /** A page that parses gives one row per item, in item order, each merged with the page header. */
  lemma PageRowsJoin(pg: Page)
    ensures PageRows(pg).Success? ==> var items := PageItems(pg).value;
      |PageRows(pg).value| == |items|
      && forall m :: 0 <= m < |items| ==> PageRows(pg).value[m] == JoinedRow(PageHeader(pg), items[m])
  {
  }

  /** What one page yields: its rows, or the `ValueError` that ends the extraction. */
  type PageOutcome = Result<seq<Row>, QtyError>

  function PageResults(pages: seq<Page>): (r: seq<PageOutcome>)
    ensures |r| == |pages|
  {
    seq(|pages|, p requires 0 <= p < |pages| => PageRows(pages[p]))
  }

  lemma PageResultAt(pages: seq<Page>, p: nat)
    requires p < |pages|
    ensures PageResults(pages)[p] == PageRows(pages[p])
  {
  }

  /** Appending each page's rows in page order, stopping at the first error. */
  function JoinAll(rs: seq<PageOutcome>): (r: Result<seq<Row>, QtyError>)
    ensures r.Success? ==> forall p :: 0 <= p < |rs| ==> rs[p].Success?
    decreases |rs|
  {
    if rs == [] then Success([])
    else
      match JoinAll(rs[..|rs| - 1])
      case Failure(err) => Failure(err)
      case Success(rows) =>
        match rs[|rs| - 1]
        case Failure(err) => Failure(err)
        case Success(more) => Success(rows + more)
  }

  /** A failed join reports the error of one of the pages. */
  lemma {:induction false} JoinAllFailed(rs: seq<PageOutcome>) returns (p: nat)
    requires JoinAll(rs).Failure?
    ensures p < |rs| && rs[p] == Failure(JoinAll(rs).error)
    decreases |rs|
  {
    var prefix := rs[..|rs| - 1];
    if JoinAll(prefix).Failure? {
      p := JoinAllFailed(prefix);
      assert prefix[p] == rs[p];
    } else {
      p := |rs| - 1;
    }
  }

  /** `dados` after the loop over `pages`, or the `ValueError` that ends it. */
  function RowsOf(pages: seq<Page>): (r: Result<seq<Row>, QtyError>)
    ensures r.Success? ==> forall p :: 0 <= p < |pages| ==> PageItems(pages[p]).Success?
  {
    var rs := PageResults(pages);
    assert forall p :: 0 <= p < |pages| ==> rs[p] == PageRows(pages[p]);
    JoinAll(rs)
  }

  /** A failed extraction reports the error of one of the pages' items. */
  lemma RowsOfFailed(pages: seq<Page>) returns (p: nat)
    requires RowsOf(pages).Failure?
    ensures p < |pages| && PageItems(pages[p]) == Failure(RowsOf(pages).error)
  {
    var rs := PageResults(pages);
    p := JoinAllFailed(rs);
    PageResultAt(pages, p);
  }

  /** One more page: the rows so far, then that page's rows. */
  lemma JoinAllStep(rs: seq<PageOutcome>, p: nat)
    requires p < |rs|
    ensures JoinAll(rs[..p + 1]) ==
      match JoinAll(rs[..p])
      case Failure(err) => Failure(err)
      case Success(rows) =>
        match rs[p]
        case Failure(err) => Failure(err)
        case Success(more) => Success(rows + more)
  {
    assert rs[..p + 1][..p] == rs[..p];
  }

  /** Once a prefix of the pages fails, every longer prefix fails with the same error. */
  lemma {:induction false} JoinAllFailureStays(rs: seq<PageOutcome>, p: nat)
    requires p <= |rs| && JoinAll(rs[..p]).Failure?
    ensures JoinAll(rs) == JoinAll(rs[..p])
    decreases |rs| - p
  {
    if p < |rs| {
      JoinAllStep(rs, p);
      JoinAllFailureStays(rs, p + 1);
    } else {
      assert rs[..p] == rs;
    }
  }

  /** `extrair_do_pdf`: the loop over pages. */
  method ExtractFromPdf(pages: seq<Page>) returns (res: Result<seq<Row>, QtyError>)
    ensures res == RowsOf(pages)
  {
    ghost var results := PageResults(pages);
    var dados: seq<Row> := [];
    for p := 0 to |pages|
      invariant JoinAll(results[..p]) == Success(dados)
    {
      var linhas := ExtractPage(pages[p]);
      assert results[p] == linhas by {
        PageResultAt(pages, p);
      }
      JoinAllNext(results, p, dados, linhas);
      if linhas.Failure? {
        return Failure(linhas.error);
      }
      dados := dados + linhas.value;
    }
    assert results[..|pages|] == results;
    return Success(dados);
  }

  /** One more page outcome: its error ends the join, or its rows are appended. */
  lemma JoinAllNext(rs: seq<PageOutcome>, p: nat, rows: seq<Row>, o: PageOutcome)
    requires p < |rs| && rs[p] == o && JoinAll(rs[..p]) == Success(rows)
    ensures o.Failure? ==> JoinAll(rs) == Failure(o.error)
    ensures o.Success? ==> JoinAll(rs[..p + 1]) == Success(rows + o.value)
  {
    JoinAllStep(rs, p);
    if o.Failure? {
      JoinAllFailureStays(rs, p + 1);
    }
  }

  /**
   * The body of the page loop: mask the page text, extract its header and
   * items, and build one merged row per item, in item order.
   */
  method ExtractPage(pg: Page) returns (res: PageOutcome)
    ensures res == PageRows(pg)
  {
    var texto := PageText(pg);
    var txt := Mascarar(texto);
    var h := ExtractHeader(txt);
    var itens := ExtractItems(txt);
    if itens.Failure? {
      return Failure(itens.error);
    }
    var dados := JoinItems(HeaderRow(h), ItemRows(itens.value));
    return Success(dados);
  }

  /** `for it in itens: dados.append({**h, **it})` for the dictionaries of one page. */
  method JoinItems(h: Row, itens: seq<Row>) returns (dados: seq<Row>)
    ensures dados == JoinRows(h, itens)
  {
    dados := [];
    for m := 0 to |itens|
      invariant |dados| == m
      invariant forall j :: 0 <= j < m ==> dados[j] == Merge(h, itens[j])
    {
      dados := dados + [Merge(h, itens[m])];
    }
  }

  // ------------------------------------------------------------- properties

  /** Number of rows a page outcome contributes (zero for an error). */
  function Size(o: PageOutcome): nat {
    if o.Success? then |o.value| else 0
  }

  /** Where the rows of page `p` start: the rows of all earlier pages. */
  function Offset(rs: seq<PageOutcome>, p: nat): nat
    requires p <= |rs|
    decreases p
  {
    if p == 0 then 0 else Offset(rs, p - 1) + Size(rs[p - 1])
  }

  lemma {:induction false} OffsetPrefix(rs: seq<PageOutcome>, n: nat, p: nat)
    requires p <= n <= |rs|
    ensures Offset(rs[..n], p) == Offset(rs, p)
    decreases p
  {
    if p > 0 {
      OffsetPrefix(rs, n, p - 1);
      assert rs[..n][p - 1] == rs[p - 1];
    }
  }

  /**
   * The join succeeds exactly when every page does, and then it has
   * `Offset(rs, |rs|)` rows, the pages' row counts added up.
   */
  lemma {:induction false} JoinAllSuccess(rs: seq<PageOutcome>)
    ensures JoinAll(rs).Success? <==> forall p :: 0 <= p < |rs| ==> rs[p].Success?
    ensures JoinAll(rs).Success? ==> |JoinAll(rs).value| == Offset(rs, |rs|)
    decreases |rs|
  {
    if rs != [] {
      var n := |rs| - 1;
      var prefix := rs[..n];
      JoinAllSuccess(prefix);
      assert forall p :: 0 <= p < n ==> prefix[p] == rs[p];
      OffsetPrefix(rs, n, n);
    }
  }

  /**
   * The rows of a join are all pages' rows in page order: row
   * `Offset(rs, p) + m` is row `m` of page `p`.
   */
  lemma {:induction false} JoinAllAt(rs: seq<PageOutcome>, p: nat, m: nat)
    requires JoinAll(rs).Success? && p < |rs| && m < Size(rs[p])
    ensures Offset(rs, p) + m < |JoinAll(rs).value| && JoinAll(rs).value[Offset(rs, p) + m] == rs[p].value[m]
    decreases |rs|
  {
    var n := |rs| - 1;
    var prefix := rs[..n];
    var x, y := JoinAll(prefix).value, rs[n].value;
    assert JoinAll(rs).value == x + y;
    JoinAllSuccess(prefix);
    OffsetPrefix(rs, n, p);
    if p < n {
      assert prefix[p] == rs[p];
      JoinAllAt(prefix, p, m);
      OffsetMonotone(prefix, p + 1, n);
    } else {
      OffsetPrefix(rs, n, n);
    }
  }

  lemma {:induction false} OffsetMonotone(rs: seq<PageOutcome>, p: nat, q: nat)
    requires p <= q <= |rs|
    ensures Offset(rs, p) <= Offset(rs, q)
    decreases q - p
  {
    if p < q {
      OffsetMonotone(rs, p, q - 1);
    }
  }

  /** The first error of a join is the error of the first failing page. */
  lemma {:induction false} JoinAllFirstError(rs: seq<PageOutcome>, p: nat)
    requires p < |rs| && rs[p].Failure? && forall q :: 0 <= q < p ==> rs[q].Success?
    ensures JoinAll(rs) == Failure(rs[p].error)
    decreases |rs|
  {
    var n := |rs| - 1;
    var prefix := rs[..n];
    if p < n {
      assert prefix[p] == rs[p];
      JoinAllFirstError(prefix, p);
    } else {
      JoinAllSuccess(prefix);
    }
  }

  /**
   * The first row of a join is the first row of the first page that has
   * rows: with pages as `PageRows`, it carries that page's header, the one
   * the picking sheet's title shows.
   */
  lemma FirstRow(rs: seq<PageOutcome>, p: nat)
    requires JoinAll(rs).Success? && p < |rs| && Size(rs[p]) > 0
    requires forall q :: 0 <= q < p ==> Size(rs[q]) == 0
    ensures JoinAll(rs).value != [] && JoinAll(rs).value[0] == rs[p].value[0]
  {
    JoinAllAt(rs, p, 0);
    OffsetZero(rs, p);
  }

  lemma {:induction false} OffsetZero(rs: seq<PageOutcome>, p: nat)
    requires p <= |rs| && forall q :: 0 <= q < p ==> Size(rs[q]) == 0
    ensures Offset(rs, p) == 0
    decreases p
  {
    if p > 0 {
      OffsetZero(rs, p - 1);
    }
  }

  /** A successful extraction had every page's items succeed. */
  lemma PagesSucceed(pages: seq<Page>, p: nat)
    requires RowsOf(pages).Success? && p < |pages|
    ensures PageItems(pages[p]).Success?
  {
    JoinAllSuccess(PageResults(pages));
    PageResultAt(pages, p);
  }

  /**
   * Row `m` of page `p` sits at `Offset(PageResults(pages), p) + m` of the
   * result: it is that page's header merged with that page's item `m`.
   */
  lemma RowOfPage(pages: seq<Page>, p: nat, items: seq<Item>, m: nat)
    requires RowsOf(pages).Success? && p < |pages|
    requires PageItems(pages[p]) == Success(items) && m < |items|
    ensures Offset(PageResults(pages), p) + m < |RowsOf(pages).value|
    ensures RowsOf(pages).value[Offset(PageResults(pages), p) + m] == JoinedRow(PageHeader(pages[p]), items[m])
  {
    PageRowAt(pages, p, items, m);
    RowsOfRow(pages, p, m, JoinedRow(PageHeader(pages[p]), items[m]));
  }

  lemma RowsOfRow(pages: seq<Page>, p: nat, m: nat, row: Row)
    requires RowsOf(pages).Success? && p < |pages|
    requires m < Size(PageResults(pages)[p]) && PageResults(pages)[p].value[m] == row
    ensures Offset(PageResults(pages), p) + m < |RowsOf(pages).value|
    ensures RowsOf(pages).value[Offset(PageResults(pages), p) + m] == row
  {
    JoinAllAt(PageResults(pages), p, m);
  }

  lemma PageRowAt(pages: seq<Page>, p: nat, items: seq<Item>, m: nat)
    requires p < |pages| && PageItems(pages[p]) == Success(items) && m < |items|
    ensures var o := PageResults(pages)[p];
      m < Size(o) && o.value[m] == JoinedRow(PageHeader(pages[p]), items[m])
  {
    PageResultAt(pages, p);
    PageRowsJoin(pages[p]);
  }

  /** Every result row has the eleven keys, a numeric `Quantidade` and text elsewhere. */
  lemma RowsWellFormed(pages: seq<Page>)
    ensures RowsOf(pages).Success? ==>
      forall n :: 0 <= n < |RowsOf(pages).value| ==> WellFormedRow(RowsOf(pages).value[n])
  {
    var rs := PageResults(pages);
    forall p | 0 <= p < |rs| && rs[p].Success?
      ensures forall m :: 0 <= m < |rs[p].value| ==> WellFormedRow(rs[p].value[m])
    {
      PageResultAt(pages, p);
      JoinPageWellFormed(PageHeader(pages[p]), PageItems(pages[p]).value);
    }
    JoinAllWellFormed(rs);
  }

  lemma JoinPageWellFormed(h: Header, items: seq<Item>)
    ensures forall m :: 0 <= m < |items| ==> WellFormedRow(JoinPage(h, items)[m])
  {
    forall m | 0 <= m < |items| ensures WellFormedRow(JoinPage(h, items)[m]) {
      JoinedRowWellFormed(h, items[m]);
    }
  }

  lemma JoinedRowWellFormed(h: Header, it: Item)
    ensures WellFormedRow(JoinedRow(h, it))
  {
    var r := JoinedRow(h, it);
    JoinedRowKeys(h, it);
    JoinedFields(h, it);
    assert r[Quantidade] == ItemRow(it)[Quantidade];
    forall k | k in r && k != Quantidade
      ensures r[k].Str?
    {
      if k in ItemKeys {
        assert r[k] == ItemRow(it)[k];
      } else {
        assert r[k] == HeaderRow(h)[k];
      }
    }
  }

  lemma {:induction false} JoinAllWellFormed(rs: seq<PageOutcome>)
    requires forall p, m :: 0 <= p < |rs| && rs[p].Success? && 0 <= m < |rs[p].value| ==> WellFormedRow(rs[p].value[m])
    ensures JoinAll(rs).Success? ==> forall n :: 0 <= n < |JoinAll(rs).value| ==> WellFormedRow(JoinAll(rs).value[n])
    decreases |rs|
  {
    if rs != [] {
      var prefix := rs[..|rs| - 1];
      assert forall p :: 0 <= p < |prefix| ==> prefix[p] == rs[p];
      JoinAllWellFormed(prefix);
    }
  }
}
