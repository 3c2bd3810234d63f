/**
 The analysts page (`paginas/analistas.py`): integer formatting with `.` as the
 thousands separator and its inverse, the export file name, the cost analysis
 table with its total row first, the highlighting of total rows, the detail
 table's hours total, and the page's three multiselect filters.
 */
module Analistas {
  import opened Wrappers
  import opened Text
  import opened Sequences
  import opened Table

  // ---------------------------------------------------------------------------
  // formatar_inteiro
  // ---------------------------------------------------------------------------

  /** Deleting the separators and reading the integer gives back the number: the inverse the
      detail table relies on when it totals formatted hours. */
  lemma GroupRoundTrip(n: int)
    ensures ParseInt(RemoveAll(Group(n), ".")) == Some(n)
  {
    IntStrRoundTrip(n);
  }

  /** Python's `int(x)` on a finite float: truncation toward zero. */
  function Trunc(x: real): (r: int)
    ensures 0.0 <= x ==> r as real <= x < r as real + 1.0
    ensures x < 0.0 ==> r as real - 1.0 < x <= r as real
  {
    if x >= 0.0 then x.Floor else -((-x).Floor)
  }

  /** `isinstance(v, (int, float))` (a `bool` is an `int` in Python). */
  predicate IsNumber(v: Value) {
    v.Bool? || v.Int? || v.Float? || v.Missing?
  }

  /** `int(v)` for a number that is not NaN. */
  function IntegerPart(v: Value): int
    requires IsNumber(v) && !v.Missing?
  {
    match v
    case Bool(b) => if b then 1 else 0
    case Int(i) => i
    case Float(x) => Trunc(x)
  }

  /** `formatar_inteiro`: a number becomes its integer part grouped with `.`; a missing number
      is a float NaN, on which `int` raises `ValueError`; anything else comes back unchanged. */
  function FormatarInteiro(v: Value): (r: Outcome<Value>)
    ensures r.Raises? <==> v.Missing?
    ensures r.Raises? ==> r.error == ValueError
    ensures IsNumber(v) && !v.Missing? ==>
      r == Returns(Str(Group(IntegerPart(v)))) && ParseInt(RemoveAll(r.value.s, ".")) == Some(IntegerPart(v))
    ensures !IsNumber(v) ==> r == Returns(v)
  {
    match v
    case Missing => Raises(ValueError)
    case Bool(_) => GroupRoundTrip(IntegerPart(v)); Returns(Str(Group(IntegerPart(v))))
    case Int(_) => GroupRoundTrip(IntegerPart(v)); Returns(Str(Group(IntegerPart(v))))
    case Float(_) => GroupRoundTrip(IntegerPart(v)); Returns(Str(Group(IntegerPart(v))))
    case Str(_) => Returns(v)
    case Date(_, _, _) => Returns(v)
  }

  /** Numbers with the same integer part are formatted alike, and formatting tells apart any
      two numbers with different integer parts. */
  lemma FormatarInteiroInjective(v: Value, w: Value)
    requires IsNumber(v) && !v.Missing? && IsNumber(w) && !w.Missing?
    ensures FormatarInteiro(v) == FormatarInteiro(w) <==> IntegerPart(v) == IntegerPart(w)
  {
    if FormatarInteiro(v) == FormatarInteiro(w) {
      assert ParseInt(RemoveAll(FormatarInteiro(v).value.s, ".")) == Some(IntegerPart(w));
    }
  }

  // ---------------------------------------------------------------------------
  // Export file name
  // ---------------------------------------------------------------------------

  /** The file name `exportar_excel` offers: the given name when it already ends in `.xlsx`,
      otherwise the name with `.xlsx` appended. */
  function ExportFileName(nome: string): (r: string)
    ensures EndsWith(r, ".xlsx")
    ensures StartsWith(r, nome) && |r| == if EndsWith(nome, ".xlsx") then |nome| else |nome| + 5
    ensures EndsWith(nome, ".xlsx") <==> r == nome
  {
    if EndsWith(nome, ".xlsx") then nome
    else
      var r := nome + ".xlsx";
      assert r[..|nome|] == nome && r[|r| - 5..] == ".xlsx";
      r
  }

  /** Applying the rule to a name it produced changes nothing. */
  lemma ExportFileNameIdempotent(nome: string)
    ensures ExportFileName(ExportFileName(nome)) == ExportFileName(nome)
  {
  }

  /** The name `montar_tabela` asks for: the title with its spaces turned into `_`, plus `.xlsx`;
      the export rule keeps it as it is. */
  function TitleFileName(titulo: string): (r: string)
    ensures |r| == |titulo| + 5 && forall i :: 0 <= i < |r| ==> r[i] != ' '
    ensures forall i :: 0 <= i < |titulo| ==> r[i] == if titulo[i] == ' ' then '_' else titulo[i]
    ensures r[|titulo|..] == ".xlsx"
    ensures ExportFileName(r) == r
  {
    var r := ReplaceChar(titulo, ' ', '_') + ".xlsx";
    assert r[|r| - 5..] == ".xlsx";
    r
  }

  // ---------------------------------------------------------------------------
  // montar_tabela
  // ---------------------------------------------------------------------------

  /** The numeric columns of the analysis table and the computed `Saldo`. */
  datatype Measure = HorasBase | CustoMensal | ValorRecobrado | ValorCapitalizado | Saldo

  function ColumnName(m: Measure): string {
    match m
    case HorasBase => "Horas Base"
    case CustoMensal => "Custo Mensal GS"
    case ValorRecobrado => "Valor Recobrado"
    case ValorCapitalizado => "Valor Capitalizado"
    case Saldo => "Saldo"
  }

  /** The columns `montar_tabela` reads; without any of them it raises `KeyError`. */
  const RequiredColumns: seq<string> :=
    ["Analista", "Horas Base", "Custo Mensal GS", "Valor Recobrado", "Valor Capitalizado"]

  /** One line of the analysis table, before the currency columns are rendered as text. */
  datatype Line = Line(analista: Value, horas: real, custo: real, recobrado: real, capitalizado: real, saldo: real)

  function Amount(l: Line, m: Measure): real {
    match m
    case HorasBase => l.horas
    case CustoMensal => l.custo
    case ValorRecobrado => l.recobrado
    case ValorCapitalizado => l.capitalizado
    case Saldo => l.saldo
  }

  /** `Saldo = Custo Mensal GS - Valor Recobrado - Valor Capitalizado` holds on the line. */
  predicate Balanced(l: Line) {
    l.saldo == l.custo - l.recobrado - l.capitalizado
  }

  /** `pd.to_numeric(v, errors="coerce")` followed by `fillna(0)`: a cell that does not read as a
      number counts as zero. */
  function Number(v: Value, toNumber: Value -> Option<real>): real {
    match toNumber(v)
    case Some(x) => x
    case None => 0.0
  }

  /** A column value after the page's multiplier, if the page gave one for that column. A
      multiplier for `Saldo` has no effect, since `Saldo` is recomputed afterwards. */
  function Scaled(mults: map<Measure, real>, m: Measure, x: real): real {
    if m in mults && m != Saldo then x * mults[m] else x
  }

  /** The analysis line for one sheet row. */
  function DataLine(row: Row, mults: map<Measure, real>, toNumber: Value -> Option<real>): (l: Line)
    ensures Balanced(l)
    ensures l.analista == Cell(row, "Analista")
    ensures forall m :: m != Saldo ==> Amount(l, m) == Scaled(mults, m, Number(Cell(row, ColumnName(m)), toNumber))
  {
    var custo := Scaled(mults, CustoMensal, Number(Cell(row, "Custo Mensal GS"), toNumber));
    var recobrado := Scaled(mults, ValorRecobrado, Number(Cell(row, "Valor Recobrado"), toNumber));
    var capitalizado := Scaled(mults, ValorCapitalizado, Number(Cell(row, "Valor Capitalizado"), toNumber));
    Line(Cell(row, "Analista"), Scaled(mults, HorasBase, Number(Cell(row, "Horas Base"), toNumber)),
         custo, recobrado, capitalizado, custo - recobrado - capitalizado)
  }

  /** `analise[col].sum()`, over exact reals. */
  function SumOf(lines: seq<Line>, m: Measure): real {
    if |lines| == 0 then 0.0 else Amount(lines[0], m) + SumOf(lines[1..], m)
  }

  /** The label of the total row: `Total (n)` for `n` data rows. */
  function TotalLabel(n: nat): (r: string)
    ensures StartsWith(r, "Total") && EndsWith(r, ")") && |r| >= 9
    ensures r[..7] == "Total (" && ParseInt(r[7..|r| - 1]) == Some(n)
    ensures |r| == 8 + |NatStr(n)|
  {
    var r := "Total (" + IntStr(n) + ")";
    assert r[..7] == "Total (" && r[..5] == "Total" && r[7..|r| - 1] == IntStr(n);
    IntStrRoundTrip(n);
    r
  }

  /** The total row: the label and every column's sum. */
  function TotalLine(lines: seq<Line>): (t: Line)
    ensures forall m :: Amount(t, m) == SumOf(lines, m)
  {
    Line(Str(TotalLabel(|lines|)), SumOf(lines, HorasBase), SumOf(lines, CustoMensal),
         SumOf(lines, ValorRecobrado), SumOf(lines, ValorCapitalizado), SumOf(lines, Saldo))
  }

  /** Summing balanced lines gives a balanced total: the total `Saldo` is the total cost minus
      the total recovered and the total capitalised. */
  lemma {:induction false} TotalIsBalanced(lines: seq<Line>)
    requires forall k :: 0 <= k < |lines| ==> Balanced(lines[k])
    ensures Balanced(TotalLine(lines))
  {
    SumsBalance(lines);
  }

  lemma {:induction false} SumsBalance(lines: seq<Line>)
    requires forall k :: 0 <= k < |lines| ==> Balanced(lines[k])
    ensures SumOf(lines, Saldo) == SumOf(lines, CustoMensal) - SumOf(lines, ValorRecobrado) - SumOf(lines, ValorCapitalizado)
  {
    if |lines| > 0 {
      assert Balanced(lines[0]);
      SumsBalance(lines[1..]);
    }
  }

  /** The analysis lines of the sheet rows, in row order. */
  function DataLines(rows: seq<Row>, mults: map<Measure, real>, toNumber: Value -> Option<real>): (r: seq<Line>)
    ensures |r| == |rows|
    ensures forall k :: 0 <= k < |rows| ==> r[k] == DataLine(rows[k], mults, toNumber) && Balanced(r[k])
  {
    seq(|rows|, k requires 0 <= k < |rows| => DataLine(rows[k], mults, toNumber))
  }

  /** `pd.concat([total, analise])`: the total line ahead of the data lines; every line,
      the total included, stays balanced. */
  function WithTotal(data: seq<Line>): (r: seq<Line>)
    requires forall k :: 0 <= k < |data| ==> Balanced(data[k])
    ensures |r| == |data| + 1 && r[1..] == data
    ensures r[0].analista == Str(TotalLabel(|data|))
    ensures forall m :: Amount(r[0], m) == SumOf(data, m)
    ensures forall k :: 0 <= k < |r| ==> Balanced(r[k])
  {
    TotalIsBalanced(data);
    [TotalLine(data)] + data
  }

  /** `analise["Horas Base"].apply(formatar_inteiro)`: every line's hours rendered. */
  function RenderHoras(lines: seq<Line>): (h: seq<string>)
    ensures |h| == |lines|
    ensures forall k :: 0 <= k < |lines| ==> FormatarInteiro(Float(lines[k].horas)) == Returns(Str(h[k]))
  {
    seq(|lines|, k requires 0 <= k < |lines| => Group(Trunc(lines[k].horas)))
  }

  /** The table `montar_tabela` shows: the lines (total first), the rendered `Horas Base` of each
      line, and the name offered for the Excel export. */
  datatype Analysis = Analysis(lines: seq<Line>, horas: seq<string>, fileName: string)

  /** `montar_tabela`. Raises `KeyError` when the sheet lacks one of the columns it reads.
      Otherwise: one line per row in row order, each with its multiplied amounts and its
      `Saldo`; ahead of them the total line labelled `Total (n)` carrying each column's sum,
      balanced like the rest; `Horas Base` rendered by `formatar_inteiro`; and the export name
      built from the title. */
  function MontarTabela(header: seq<string>, rows: seq<Row>, titulo: string, mults: map<Measure, real>,
                        toNumber: Value -> Option<real>): (r: Outcome<Analysis>)
    ensures r.Raises? <==> exists c :: c in RequiredColumns && c !in header
    ensures r.Raises? ==> r.error == KeyError
    ensures r.Returns? ==>
      && |r.value.lines| == |rows| + 1
      && r.value.lines[0].analista == Str(TotalLabel(|rows|))
      && (forall m :: Amount(r.value.lines[0], m) == SumOf(r.value.lines[1..], m))
      && (forall k :: 0 <= k < |rows| ==> r.value.lines[k + 1] == DataLine(rows[k], mults, toNumber))
      && (forall k :: 0 <= k < |r.value.lines| ==> Balanced(r.value.lines[k]))
      && |r.value.horas| == |r.value.lines|
      && (forall k :: 0 <= k < |r.value.lines| ==>
            FormatarInteiro(Float(r.value.lines[k].horas)) == Returns(Str(r.value.horas[k])))
      && r.value.fileName == TitleFileName(titulo)
  {
    if exists c :: c in RequiredColumns && c !in header then Raises(KeyError)
    else
      var data := DataLines(rows, mults, toNumber);
      var lines := WithTotal(data);
      assert forall k :: 0 <= k < |rows| ==> lines[k + 1] == lines[1..][k];
      Returns(Analysis(lines, RenderHoras(lines), ExportFileName(TitleFileName(titulo))))
  }

  // ---------------------------------------------------------------------------
  // estilo_total
  // ---------------------------------------------------------------------------

  const Highlight: string := "background-color: #f0f0f0; font-weight: bold;"

  /** `estilo_total`: one style per cell; every cell highlighted when the row's first cell reads
      `Total...`, none otherwise. An empty row has no first cell (`IndexError`). */
  function EstiloTotal(row: seq<Value>, show: Value -> string): (r: Outcome<seq<string>>)
    ensures r.Raises? <==> |row| == 0
    ensures r.Raises? ==> r.error == IndexError
    ensures r.Returns? ==> (|r.value| == |row| &&
      forall k :: 0 <= k < |row| ==> (r.value[k] == Highlight <==> StartsWith(show(row[0]), "Total")))
    ensures r.Returns? ==> forall k :: 0 <= k < |row| ==> r.value[k] == Highlight || r.value[k] == ""
  {
    if |row| == 0 then Raises(IndexError)
    else
      var style := if StartsWith(show(row[0]), "Total") then Highlight else "";
      Returns(seq(|row|, k requires 0 <= k < |row| => style))
  }

  /** In the analysis table the total row is highlighted in full, and a data row is
      highlighted exactly when its analyst's name reads `Total...`. */
  lemma TotalRowHighlighted(a: Analysis, rest: seq<Value>, k: int, show: Value -> string)
    requires ShowsStringsAsThemselves(show)
    requires |a.lines| > 0 && a.lines[0].analista == Str(TotalLabel(|a.lines| - 1))
    requires 0 <= k < |a.lines|
    ensures EstiloTotal([a.lines[k].analista] + rest, show).Returns?
    ensures k == 0 ==> forall j :: 0 <= j <= |rest| ==> EstiloTotal([a.lines[0].analista] + rest, show).value[j] == Highlight
    ensures EstiloTotal([a.lines[k].analista] + rest, show).value[0] == Highlight <==>
      StartsWith(show(a.lines[k].analista), "Total")
  {
    assert ([a.lines[k].analista] + rest)[0] == a.lines[k].analista;
    assert show(Str(TotalLabel(|a.lines| - 1))) == TotalLabel(|a.lines| - 1);
  }

  // ---------------------------------------------------------------------------
  // The detail table's hours total
  // ---------------------------------------------------------------------------

  /** `.str.replace(".", "").astype(int)` on a column: every cell read back as an integer, or
      `None` when some cell does not read (where `astype` raises). */
  function ReadInts(cells: seq<string>): (r: Option<seq<int>>)
    ensures r.Some? ==> |r.value| == |cells|
    ensures r.Some? <==> forall k :: 0 <= k < |cells| ==> ParseInt(RemoveAll(cells[k], ".")).Some?
    ensures r.Some? ==> forall k :: 0 <= k < |cells| ==> ParseInt(RemoveAll(cells[k], ".")) == Some(r.value[k])
  {
    if |cells| == 0 then Some([])
    else
      var first := ParseInt(RemoveAll(cells[0], "."));
      var rest := ReadInts(cells[1..]);
      assert forall k :: 1 <= k < |cells| ==> cells[k] == cells[1..][k - 1];
      if first.Some? && rest.Some? then Some([first.value] + rest.value) else None
  }

  function SumInts(xs: seq<int>): int {
    if |xs| == 0 then 0 else xs[0] + SumInts(xs[1..])
  }

  /** The `Horas Base` cell of the detail table's total row: the formatted hours read back,
      summed and formatted again. */
  function DetailHorasTotal(cells: seq<string>): (r: Outcome<string>)
    ensures r.Raises? <==> exists k :: 0 <= k < |cells| && ParseInt(RemoveAll(cells[k], ".")).None?
    ensures r.Raises? ==> r.error == ValueError
    ensures r.Returns? ==> r.value == Group(SumInts(ReadInts(cells).value))
    ensures r.Returns? ==> ParseInt(RemoveAll(r.value, ".")) == Some(SumInts(ReadInts(cells).value))
  {
    match ReadInts(cells)
    case None => Raises(ValueError)
    case Some(xs) => GroupRoundTrip(SumInts(xs)); Returns(Group(SumInts(xs)))
  }

  /** `df["Horas Base"].apply(formatar_inteiro)` on integer hours. */
  function FormatHours(hs: seq<int>): (r: seq<string>)
    ensures |r| == |hs|
    ensures forall k :: 0 <= k < |hs| ==> FormatarInteiro(Int(hs[k])) == Returns(Str(r[k]))
  {
    if |hs| == 0 then [] else [Group(hs[0])] + FormatHours(hs[1..])
  }

  /** Reading back hours that `formatar_inteiro` wrote gives the hours themselves. */
  lemma {:induction false} ReadFormattedHours(hs: seq<int>)
    ensures ReadInts(FormatHours(hs)) == Some(hs)
  {
    if |hs| > 0 {
      var cells := FormatHours(hs);
      ReadFormattedHours(hs[1..]);
      assert cells == [Group(hs[0])] + FormatHours(hs[1..]);
      assert cells[1..] == FormatHours(hs[1..]);
      GroupRoundTrip(hs[0]);
      assert ParseInt(RemoveAll(cells[0], ".")) == Some(hs[0]);
      assert [hs[0]] + hs[1..] == hs;
    }
  }

  /** The detail table's total of formatted hours is the formatted sum of the hours. */
  lemma DetailTotalOfFormattedHours(hs: seq<int>)
    ensures DetailHorasTotal(FormatHours(hs)) == Returns(Group(SumInts(hs)))
  {
    ReadFormattedHours(hs);
  }

  // ---------------------------------------------------------------------------
  // Filters of the page
  // ---------------------------------------------------------------------------

  /** The columns the page filters, in the order of its three multiselects. */
  const FilterColumns: seq<string> := ["\U{C1}rea", "Analista", "Cargo"]

  /** The options of the page's three multiselects: for each filtered column, the distinct
      texts of its non-missing cells in increasing order. `df[coluna]` raises `KeyError` when the
      sheet lacks one of the three columns. */
  function FilterOptions(header: seq<string>, rows: seq<Row>, show: Value -> string): (r: Outcome<seq<seq<string>>>)
    ensures r.Raises? <==> exists c :: c in FilterColumns && c !in header
    ensures r.Raises? ==> r.error == KeyError
    ensures r.Returns? ==> |r.value| == |FilterColumns|
    ensures r.Returns? ==> forall k :: 0 <= k < |FilterColumns| ==> StrictlySorted(r.value[k], StrLt)
    ensures r.Returns? ==> forall k, t :: 0 <= k < |FilterColumns| ==> (t in r.value[k] <==>
      exists i :: 0 <= i < |rows| && Cell(rows[i], FilterColumns[k]) != Missing && show(Cell(rows[i], FilterColumns[k])) == t)
  {
    if exists c :: c in FilterColumns && c !in header then Raises(KeyError)
    else Returns(seq(|FilterColumns|, k requires 0 <= k < |FilterColumns| => ColumnOptions(rows, FilterColumns[k], show)))
  }

  /** The widget key of a column's multiselect, `f"filtro_{coluna}"`. */
  function FilterKey(c: string): string {
    "filtro_" + c
  }

  /** `chave.replace("filtro_", "")`: the column a widget key filters. */
  function ColumnOfKey(k: string): string {
    RemoveAll(k, "filtro_")
  }

  /** The key of a column that does not itself mention `filtro_` leads back to the column. */
  lemma ColumnOfKeyRoundTrip(c: string)
    requires !Contains(c, "filtro_")
    ensures ColumnOfKey(FilterKey(c)) == c
  {
    var k := FilterKey(c);
    assert StartsWith(k, "filtro_");
    assert k[7..] == c;
    RemoveAllAbsent(c, "filtro_");
  }

  /** The page's three selections: each multiselect's choice, keyed by its widget key. */
  function PageFilters(area: seq<string>, analista: seq<string>, cargo: seq<string>): (r: seq<Selection>)
    ensures |r| == 3
    ensures r[0] == Selection(FilterColumns[0], area)
    ensures r[1] == Selection(FilterColumns[1], analista)
    ensures r[2] == Selection(FilterColumns[2], cargo)
  {
    AbsentHead(FilterColumns[0], "filtro_");
    AbsentHead(FilterColumns[1], "filtro_");
    AbsentHead(FilterColumns[2], "filtro_");
    ColumnOfKeyRoundTrip(FilterColumns[0]);
    ColumnOfKeyRoundTrip(FilterColumns[1]);
    ColumnOfKeyRoundTrip(FilterColumns[2]);
    [Selection(ColumnOfKey(FilterKey(FilterColumns[0])), area),
     Selection(ColumnOfKey(FilterKey(FilterColumns[1])), analista),
     Selection(ColumnOfKey(FilterKey(FilterColumns[2])), cargo)]
  }

  /** The key the page compares with a selection: `astype(str)` of the cell. */
  function TextKey(show: Value -> string): KeyFn {
    (c: string, v: Value) => Some(show(v))
  }

  /** The page's filter loop: a row stays exactly when, for every multiselect with something
      chosen, the text of its cell in that column is among the chosen values. */
  function FiltrarAnalistas(rows: seq<Row>, area: seq<string>, analista: seq<string>, cargo: seq<string>,
                            show: Value -> string): (r: seq<Row>)
    ensures |r| <= |rows|
    ensures forall row :: row in r <==> (row in rows
      && (|area| == 0 || show(Cell(row, "\U{C1}rea")) in area)
      && (|analista| == 0 || show(Cell(row, "Analista")) in analista)
      && (|cargo| == 0 || show(Cell(row, "Cargo")) in cargo))
  {
    var filters := PageFilters(area, analista, cargo);
    var r := ApplyFilters(rows, filters, TextKey(show));
    forall row ensures SurvivesAll(row, filters, TextKey(show)) <==>
      (|area| == 0 || show(Cell(row, "\U{C1}rea")) in area)
      && (|analista| == 0 || show(Cell(row, "Analista")) in analista)
      && (|cargo| == 0 || show(Cell(row, "Cargo")) in cargo)
    {
      assert (PassesSelection(row, filters[0], TextKey(show)) && PassesSelection(row, filters[1], TextKey(show))
        && PassesSelection(row, filters[2], TextKey(show))) ==> SurvivesAll(row, filters, TextKey(show));
    }
    r
  }

  /** The survivors keep their order: the filter loop is a single mask over the rows. */
  lemma FiltrarAnalistasKeepsOrder(rows: seq<Row>, area: seq<string>, analista: seq<string>, cargo: seq<string>,
                                   show: Value -> string)
    ensures FiltrarAnalistas(rows, area, analista, cargo, show)
         == KeepIf(rows, row => SurvivesAll(row, PageFilters(area, analista, cargo), TextKey(show)))
  {
    ApplyFiltersIsOneMask(rows, PageFilters(area, analista, cargo), TextKey(show));
  }
}
