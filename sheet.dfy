/**
 * The content of the picking sheet `guia_pdf` builds (app_expedicao.py:80-173):
 * a title block from the first result row, then a table with a fixed row of
 * six column labels and one six-cell row per result row.  Fonts, spacing,
 * column widths and the PDF rendering itself are not part of this model.
 */
module Sheet {
  import opened Wrappers
  import opened Text
  import opened Quantity
  import opened Header
  import opened Items
  import opened Pipeline

  /** What the sheet shows: the notice for an empty result, or title lines and table. */
  datatype Sheet = NoItems(notice: string) | Guide(title: seq<string>, table: seq<seq<string>>)

  const EmptyNotice := "Sem itens."
  const ColumnLabels: seq<string> := ["Qtd", "Unid", "QTD", "CHECK", "Código", "Descrição"]

  /** `r.get(k, "")` for a text field of a result row. */
  function Field(r: Row, k: Column): string {
    if k in r && r[k].Str? then r[k].s else ""
  }

  /** The row has the numeric `Quantidade` the table formats. */
  predicate HasQuantity(r: Row) {
    Quantidade in r && r[Quantidade].Num?
  }

  /** The labels of the five title paragraphs and the fields they show. */
  const TitleLabels: seq<string> :=
    ["Pedido ", "<b>Cliente:</b> ", "<b>Inclusão:</b> ", "<b>Previsão Faturamento:</b> ", "<b>Obs.:</b> "]
  const TitleFields: seq<Column> := [Pedido, Cliente, DataInclusao, PrevisaoFaturamento, ObsExpedicao]

  /**
   * The title paragraphs of app_expedicao.py:110-118, taken from one row: each
   * is its label followed by the row's text for its field, and shows the label
   * alone when the row has no text there.
   */
  function TitleLines(r: Row): (t: seq<string>)
    ensures |t| == |TitleLabels| == |TitleFields|
    ensures forall i :: 0 <= i < |t| ==> t[i] == TitleLabels[i] + Field(r, TitleFields[i])
    ensures forall i :: 0 <= i < |t| && !(TitleFields[i] in r && r[TitleFields[i]].Str?) ==> t[i] == TitleLabels[i]
  {
    ["Pedido " + Field(r, Pedido),
     "<b>Cliente:</b> " + Field(r, Cliente),
     "<b>Inclusão:</b> " + Field(r, DataInclusao),
     "<b>Previsão Faturamento:</b> " + Field(r, PrevisaoFaturamento),
     "<b>Obs.:</b> " + Field(r, ObsExpedicao)]
  }

  /**
   * The table row of one result row (app_expedicao.py:126-135): the formatted
   * quantity, the unit, the two columns left empty for manual checking, the
   * code and the description.
   */
  function BodyRow(r: Row): (b: seq<string>)
    requires HasQuantity(r)
    ensures |b| == |ColumnLabels|
    ensures b[2] == "" && b[3] == ""
    ensures b[1] == Field(r, Unid) && b[4] == Field(r, Codigo) && b[5] == Field(r, Descricao)
  {
    [FormatQty(r[Quantidade].q), Field(r, Unid), "", "", Field(r, Codigo), Field(r, Descricao)]
  }

  /**
   * The sheet of a list of result rows.  An empty result gives the notice
   * alone; otherwise the title comes from row 0 only, and the table is the
   * label row followed by the body row of each result row, in order.
   */
  function SheetOf(rows: seq<Row>): (s: Sheet)
    requires forall k :: 0 <= k < |rows| ==> HasQuantity(rows[k])
    ensures rows == [] <==> s == NoItems(EmptyNotice)
    ensures rows != [] ==>
      s.Guide? && s.title == TitleLines(rows[0])
      && |s.table| == |rows| + 1 && s.table[0] == ColumnLabels
      && forall k :: 0 <= k < |rows| ==> s.table[k + 1] == BodyRow(rows[k])
  {
    if rows == [] then NoItems(EmptyNotice)
    else Guide(TitleLines(rows[0]), [ColumnLabels] + seq(|rows|, k requires 0 <= k < |rows| => BodyRow(rows[k])))
  }

  /** `guia_pdf` without the rendering: the title block and the loop that fills `linhas`. */
  method BuildSheet(rows: seq<Row>) returns (sheet: Sheet)
    requires forall k :: 0 <= k < |rows| ==> HasQuantity(rows[k])
    ensures sheet == SheetOf(rows)
  {
    if |rows| == 0 {
      return NoItems(EmptyNotice);
    }
    var h := rows[0];
    var title := TitleLines(h);
    var linhas: seq<seq<string>> := [ColumnLabels];
    for k := 0 to |rows|
      invariant |linhas| == k + 1 && linhas[0] == ColumnLabels
      invariant forall j :: 0 <= j < k ==> linhas[j + 1] == BodyRow(rows[j])
    {
      var r := rows[k];
      var qtdBr := FormatQty(r[Quantidade].q);
      var linha := [qtdBr, Field(r, Unid), "", "", Field(r, Codigo), Field(r, Descricao)];
      assert linha == BodyRow(rows[k]);
      linhas := linhas + [linha];
    }
    sheet := Guide(title, linhas);
    SheetOfTable(rows, linhas);
  }

  lemma SheetOfTable(rows: seq<Row>, table: seq<seq<string>>)
    requires forall k :: 0 <= k < |rows| ==> HasQuantity(rows[k])
    requires rows != [] && |table| == |rows| + 1 && table[0] == ColumnLabels
    requires forall j :: 0 <= j < |rows| ==> table[j + 1] == BodyRow(rows[j])
    ensures SheetOf(rows) == Guide(TitleLines(rows[0]), table)
  {
    var t := SheetOf(rows).table;
    forall i | 0 <= i < |t|
      ensures t[i] == table[i]
    {
      if i > 0 {
        assert t[i] == BodyRow(rows[i - 1]) == table[i];
      }
    }
    assert t == table;
  }

  // ------------------------------------------------------------- properties

  /** The body row of an extracted item shows that item's own fields. */
  lemma BodyRowOfItem(h: Header, it: Item)
    ensures HasQuantity(JoinedRow(h, it))
    ensures BodyRow(JoinedRow(h, it)) == [FormatQty(it.quantidade), it.unid, "", "", it.codigo, it.descricao]
  {
    var r := JoinedRow(h, it);
    JoinedFields(h, it);
    assert r[Quantidade] == Num(it.quantidade);
    assert Field(r, Unid) == it.unid;
    assert Field(r, Codigo) == it.codigo;
    assert Field(r, Descricao) == it.descricao;
  }

  /**
   * The quantity cell of a table row is a quantity token that reads back as
   * the row's quantity rounded to hundredths, and as the quantity itself when
   * it has at most two decimals.
   */
  lemma BodyRowQuantity(r: Row)
    requires HasQuantity(r)
    ensures QtyToken(BodyRow(r)[0])
    ensures ParseQty(BodyRow(r)[0]) == Success(Decimal(Hundredths(r[Quantidade].q), 2))
    ensures r[Quantidade].q.exp <= 2 ==> SameValue(ParseQty(BodyRow(r)[0]).value, r[Quantidade].q)
  {
    FormatQtyRoundTrip(r[Quantidade].q);
    if r[Quantidade].q.exp <= 2 {
      FormatQtyExact(r[Quantidade].q);
    }
  }

  /** The title lines of an extracted row show the header of its page. */
  lemma TitleOfItem(h: Header, it: Item)
    ensures TitleLines(JoinedRow(h, it)) ==
      ["Pedido " + h.pedido, "<b>Cliente:</b> " + h.cliente, "<b>Inclusão:</b> " + h.dataInclusao,
       "<b>Previsão Faturamento:</b> " + h.previsaoFaturamento, "<b>Obs.:</b> " + h.obsExpedicao]
  {
    JoinedFields(h, it);
  }

  /** The rows of a successful extraction can all be put on the sheet. */
  lemma ExtractedRowsFit(pages: seq<Page>)
    requires RowsOf(pages).Success?
    ensures forall k :: 0 <= k < |RowsOf(pages).value| ==> HasQuantity(RowsOf(pages).value[k])
  {
    RowsWellFormed(pages);
  }

  /**
   * The first row of a successful extraction, the one the sheet's title is
   * taken from, shows the header of the first page that yields rows,
   * whatever the later pages hold.
   */
  lemma SheetTitle(pages: seq<Page>, p: nat, items: seq<Item>)
    requires RowsOf(pages).Success? && p < |pages|
    requires PageItems(pages[p]) == Success(items) && items != []
    requires forall q :: 0 <= q < p ==> PageResults(pages)[q] == Success([])
    ensures RowsOf(pages).value != []
    ensures var h := PageHeader(pages[p]);
      TitleLines(RowsOf(pages).value[0]) ==
        ["Pedido " + h.pedido, "<b>Cliente:</b> " + h.cliente, "<b>Inclusão:</b> " + h.dataInclusao,
         "<b>Previsão Faturamento:</b> " + h.previsaoFaturamento, "<b>Obs.:</b> " + h.obsExpedicao]
  {
    var rs := PageResults(pages);
    PageResultAt(pages, p);
    FirstRow(rs, p);
    TitleOfItem(PageHeader(pages[p]), items[0]);
  }
}
