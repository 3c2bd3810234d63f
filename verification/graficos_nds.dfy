/**
 The debit-note chart page (`paginas/graficos_nds.py`): the cleaning of the
 `Valor` column, the rows kept for the chart, the options of its three
 multiselects (period, area, project) and the filter they apply.
 */
module GraficosNds {
  import opened Wrappers
  import opened Text
  import opened Sequences
  import opened Table

  // ---------------------------------------------------------------------------
  // limpa_valor
  // ---------------------------------------------------------------------------

  /** A character that no cleaning step removes or rewrites wherever it stands: not a letter
      of `R$`, not `.` or `,`, and not whitespace. */
  predicate Untouched(c: char) {
    c != 'R' && c != '$' && c != '.' && c != ',' && !IsSpace(c)
  }

  /** An untouched character or a decimal comma: what fixes an amount's digits before cleaning. */
  predicate UntouchedOrComma(c: char) {
    Untouched(c) || c == ','
  }

  /** An untouched character or a decimal point: what fixes an amount's digits after cleaning. */
  predicate UntouchedOrPoint(c: char) {
    Untouched(c) || c == '.'
  }

  /** `.replace("R$", "").replace(".", "")`: the currency symbol and the thousands separators
      removed; the commas and the digits are all still there, and no `.` is left. */
  function DropSymbols(s: string): (r: string)
    ensures forall i :: 0 <= i < |r| ==> r[i] != '.'
    ensures Count(r, ',') == Count(s, ',')
    ensures Digits(r) == Digits(s)
  {
    var a := RemoveAll(s, "R$");
    DigitsRemoveAll(s, "R$");
    DigitsRemoveAll(a, ".");
    CountRemoveAll(s, "R$", ',');
    CountRemoveAll(a, ".", ',');
    RemoveCharGone(a, '.');
    RemoveAll(a, ".")
  }

  /** `.replace(",", ".")` on a text without `.`: the points are exactly the former commas. */
  lemma DecimalPoints(b: string)
    requires forall i :: 0 <= i < |b| ==> b[i] != '.'
    ensures Count(ReplaceChar(b, ',', '.'), '.') == Count(b, ',')
  {
    CountAbsent(b, '.');
    CountReplaceChar(b, ',', '.');
  }

  /** The text `limpa_valor` hands to `float`: every `R$` removed, then every `.`, each `,` turned
      into `.`, and the result stripped. The digits are those of the input in the same order,
      the decimal points left are exactly the commas of the input, and no comma is left. */
  function CleanText(s: string): (r: string)
    ensures forall i :: 0 <= i < |r| ==> r[i] != ','
    ensures Count(r, '.') == Count(s, ',')
    ensures |r| == 0 || (!IsSpace(r[0]) && !IsSpace(r[|r| - 1]))
    ensures Digits(r) == Digits(s)
  {
    var b := DropSymbols(s);
    var c := ReplaceChar(b, ',', '.');
    DecimalPoints(b);
    CountStrip(c, '.');
    StripKeepsAbsent(c, ',');
    CleaningKeepsDigits(b, c);
    Strip(c)
  }

  lemma DigitsRemoveAll(s: string, p: string)
    requires |p| > 0 && forall i :: 0 <= i < |p| ==> !IsDigit(p[i])
    ensures Digits(RemoveAll(s, p)) == Digits(s)
  {
    KeepRemoveAll(s, p, IsDigit);
    DigitsKept(s);
    DigitsKept(RemoveAll(s, p));
  }

  lemma CleaningKeepsDigits(b: string, c: string)
    requires c == ReplaceChar(b, ',', '.')
    ensures Digits(Strip(c)) == Digits(b)
  {
    CleaningKeeps(b, c, IsDigit);
    DigitsKept(b);
    DigitsKept(Strip(c));
  }

  /** Removing `R$` and the points keeps every untouched character, such as a minus sign, in
      order. */
  lemma DropSymbolsKeepsUntouched(s: string)
    ensures KeepIf(DropSymbols(s), Untouched) == KeepIf(s, Untouched)
  {
    var a := RemoveAll(s, "R$");
    KeepRemoveAll(s, "R$", Untouched);
    KeepRemoveAll(a, ".", Untouched);
  }

  /** The whole cleaning keeps every untouched character, such as a minus sign, in order. */
  lemma CleanTextKeepsUntouched(s: string)
    ensures KeepIf(CleanText(s), Untouched) == KeepIf(s, Untouched)
  {
    var b := DropSymbols(s);
    DropSymbolsKeepsUntouched(s);
    CleaningKeeps(b, ReplaceChar(b, ',', '.'), Untouched);
  }

  /** Removing `R$` and the points leaves every comma where it was among the untouched
      characters: `1,5` never becomes `15,`. */
  lemma DropSymbolsKeepsCommas(s: string)
    ensures KeepIf(DropSymbols(s), UntouchedOrComma) == KeepIf(s, UntouchedOrComma)
  {
    var a := RemoveAll(s, "R$");
    KeepRemoveAll(s, "R$", UntouchedOrComma);
    KeepRemoveAll(a, ".", UntouchedOrComma);
  }

  /** The whole cleaning puts each decimal point where the input had its comma: read together
      with the untouched characters, the result is the input's untouched characters and commas
      with every comma turned into a point. `R$ 1,5` cleans to `1.5`, never to `15.`. */
  lemma CleanTextPlacesPoints(s: string)
    ensures KeepIf(CleanText(s), UntouchedOrPoint)
         == ReplaceChar(KeepIf(s, UntouchedOrComma), ',', '.')
  {
    var b := DropSymbols(s);
    var c := ReplaceChar(b, ',', '.');
    DropSymbolsKeepsCommas(s);
    KeepReplaceSwap(b, ',', '.', UntouchedOrComma, UntouchedOrPoint);
    KeepStrip(c, UntouchedOrPoint);
  }

  /** Turning commas into points and stripping keeps every character that is neither, nor
      whitespace, in order. */
  lemma CleaningKeeps(b: string, c: string, keep: char -> bool)
    requires c == ReplaceChar(b, ',', '.')
    requires !keep(',') && !keep('.') && forall x :: IsSpace(x) ==> !keep(x)
    ensures KeepIf(Strip(c), keep) == KeepIf(b, keep)
  {
    KeepReplaceChar(b, ',', '.', keep);
    KeepStrip(c, keep);
  }

  /** The sign of a negative amount survives the cleaning: `R$ -1,5` cleans to `-1.5`, never
      to `1.5`. */
  lemma CleaningKeepsMinus(s: string)
    requires '-' in s
    ensures '-' in CleanText(s)
  {
    assert Untouched('-');
    var r := CleanText(s);
    CleanTextKeepsUntouched(s);
    assert '-' in KeepIf(r, Untouched) by {
      assert '-' in KeepIf(s, Untouched);
    }
  }

  /** `float(text)`, with `None` where Python raises `ValueError`. */
  type FloatParser = string -> Option<real>

  /** `limpa_valor`: missing stays missing (`None`); a number becomes that number as a float; a
      text is cleaned and parsed, `None` when it does not parse; any other value is `None`. */
  function LimpaValor(v: Value, parseFloat: FloatParser): (r: Option<real>)
    ensures v.Missing? || v.Date? ==> r.None?
    ensures v.Bool? ==> r == Some(if v.b then 1.0 else 0.0)
    ensures v.Int? ==> r == Some(v.i as real)
    ensures v.Float? ==> r == Some(v.x)
    ensures v.Str? ==> r == parseFloat(CleanText(v.s))
  {
    match v
    case Missing => None
    case Bool(b) => Some(if b then 1.0 else 0.0)
    case Int(i) => Some(i as real)
    case Float(x) => Some(x)
    case Str(s) => parseFloat(CleanText(s))
    case Date(_, _, _) => None
  }

  /** An amount written the Brazilian way, `R$ 1.234.567,89` (digits grouped by `.`, then `,`
      and the cents), cleans to the plain decimal `1234567.89`. */
  lemma CleanBrazilianAmount(digits: string, cents: string)
    requires |digits| > 0 && AllDigits(digits) && AllDigits(cents)
    ensures CleanText("R$ " + GroupDigits(digits) + "," + cents) == digits + "." + cents
  {
    var s := "R$ " + GroupDigits(digits) + "," + cents;
    DropSymbolsOfAmount(digits, cents);
    DecimalCommaOfAmount(digits, cents);
    StripTrimmed(" ", digits + "." + cents);
  }

  lemma DecimalCommaOfAmount(digits: string, cents: string)
    requires AllDigits(digits) && AllDigits(cents)
    ensures ReplaceChar(" " + digits + "," + cents, ',', '.') == " " + (digits + "." + cents)
  {
    var b := " " + digits + "," + cents;
    var r := ReplaceChar(b, ',', '.');
    var c := " " + (digits + "." + cents);
    assert |r| == |c|;
    forall i | 0 <= i < |r| ensures r[i] == c[i] {
      if 1 <= i <= |digits| {
        assert b[i] == digits[i - 1] && c[i] == digits[i - 1];
      } else if i > |digits| + 1 {
        assert b[i] == cents[i - |digits| - 2] && c[i] == cents[i - |digits| - 2];
      }
    }
  }

  lemma DropSymbolsOfAmount(digits: string, cents: string)
    requires |digits| > 0 && AllDigits(digits) && AllDigits(cents)
    ensures DropSymbols("R$ " + GroupDigits(digits) + "," + cents) == " " + digits + "," + cents
  {
    var g := GroupDigits(digits);
    var s := "R$ " + g + "," + cents;
    CurrencySymbolDropped(g, cents);
    SeparatorsDropped(g, digits, cents);
    assert DropSymbols(s) == RemoveAll(RemoveAll(s, "R$"), ".");
  }

  lemma SeparatorsDropped(g: string, digits: string, cents: string)
    requires RemoveAll(g, ".") == digits && AllDigits(cents)
    ensures RemoveAll(" " + g + "," + cents, ".") == " " + digits + "," + cents
  {
    var tail := "," + cents;
    assert RemoveAll(tail, ".") == tail by {
      assert forall i :: 0 < i < |tail| ==> tail[i] == cents[i - 1];
      AbsentHead(tail, ".");
      RemoveAllAbsent(tail, ".");
    }
    assert RemoveAll(" " + g, ".") == " " + digits by {
      RemoveCharAppend(" ", g, '.');
      assert RemoveAll(" ", ".") == " ";
    }
    assert " " + g + "," + cents == (" " + g) + tail;
    RemoveCharAppend(" " + g, tail, '.');
    assert " " + digits + tail == " " + digits + "," + cents;
  }

  lemma CurrencySymbolDropped(g: string, cents: string)
    requires GroupedFromRight(g) && AllDigits(cents)
    ensures RemoveAll("R$ " + g + "," + cents, "R$") == " " + g + "," + cents
  {
    var x := " " + g + "," + cents;
    assert RemoveAll("R$ " + g + "," + cents, "R$") == RemoveAll(x, "R$") by {
      assert "R$ " + g + "," + cents == "R$" + x;
      RemoveAllLeading("R$", x);
    }
    assert RemoveAll(x, "R$") == x by {
      assert forall i :: 1 <= i <= |g| ==> x[i] == g[i - 1];
      assert forall i :: |g| + 1 < i < |x| ==> x[i] == cents[i - |g| - 2];
      AbsentHead(x, "R$");
      RemoveAllAbsent(x, "R$");
    }
  }

  // ---------------------------------------------------------------------------
  // The rows of the chart
  // ---------------------------------------------------------------------------

  /** One debit note as the chart uses it: the cleaned amount, the period as text, the area and
      the project. */
  datatype Nd = Nd(valor: Option<real>, periodo: string, area: string, projeto: string)

  /** `dropna(subset=["Valor", "Período ND", "Área", "Projeto"])` keeps the row. */
  predicate Complete(row: Row) {
    && Cell(row, "Valor") != Missing
    && Cell(row, "Per\U{ED}odo ND") != Missing
    && Cell(row, "\U{C1}rea") != Missing
    && Cell(row, "Projeto") != Missing
  }

  /** A kept row after `Valor` is cleaned and `Período ND` turned into text. */
  function ToNd(row: Row, parseFloat: FloatParser, show: Value -> string): Nd {
    Nd(LimpaValor(Cell(row, "Valor"), parseFloat), show(Cell(row, "Per\U{ED}odo ND")),
       show(Cell(row, "\U{C1}rea")), show(Cell(row, "Projeto")))
  }

  /** The row survives `dropna` and becomes `nd` once cleaned. */
  predicate Yields(row: Row, parseFloat: FloatParser, show: Value -> string, nd: Nd) {
    Complete(row) && ToNd(row, parseFloat, show) == nd
  }

  /** The page's loading steps: drop the incomplete rows, clean the rest, in row order. */
  function Prepare(rows: seq<Row>, parseFloat: FloatParser, show: Value -> string): (r: seq<Nd>)
    ensures |r| == |KeepIf(rows, Complete)| <= |rows|
    ensures forall k :: 0 <= k < |r| ==> r[k] == ToNd(KeepIf(rows, Complete)[k], parseFloat, show)
    ensures forall nd :: nd in r <==> exists i :: 0 <= i < |rows| && Yields(rows[i], parseFloat, show, nd)
  {
    var kept := KeepIf(rows, Complete);
    var r := seq(|kept|, k requires 0 <= k < |kept| => ToNd(kept[k], parseFloat, show));
    var clean := row => ToNd(row, parseFloat, show);
    KeepIfMapMembers(rows, Complete, clean, r);
    assert forall nd, i :: 0 <= i < |rows| ==>
      (Yields(rows[i], parseFloat, show, nd) <==> Complete(rows[i]) && clean(rows[i]) == nd);
    r
  }

  /** The columns the loading block names: `dropna(subset=...)` raises `KeyError` when the sheet
      lacks any of them. */
  const KeyColumns: seq<string> := ["Valor", "Per\U{ED}odo ND", "\U{C1}rea", "Projeto"]

  /** The page's loading block on a sheet with the given header: `KeyError` without one of the
      key columns, otherwise the notes of the complete rows, cleaned, in row order. */
  function LoadChart(header: seq<string>, rows: seq<Row>, parseFloat: FloatParser, show: Value -> string)
    : (r: Outcome<seq<Nd>>)
    ensures r.Raises? <==> exists c :: c in KeyColumns && c !in header
    ensures r.Raises? ==> r.error == KeyError
    ensures r.Returns? ==> |r.value| == |KeepIf(rows, Complete)|
    ensures r.Returns? ==> forall k :: 0 <= k < |r.value| ==>
      r.value[k] == ToNd(KeepIf(rows, Complete)[k], parseFloat, show)
    ensures r.Returns? ==> forall nd :: nd in r.value <==>
      exists i :: 0 <= i < |rows| && Yields(rows[i], parseFloat, show, nd)
  {
    if exists c :: c in KeyColumns && c !in header then Raises(KeyError)
    else Returns(Prepare(rows, parseFloat, show))
  }

  // ---------------------------------------------------------------------------
  // Options and filters
  // ---------------------------------------------------------------------------

  /** The three filtered columns. */
  datatype Field = Periodo | Area | Projeto

  function Get(nd: Nd, f: Field): string {
    match f
    case Periodo => nd.periodo
    case Area => nd.area
    case Projeto => nd.projeto
  }

  function Values(nds: seq<Nd>, f: Field): (r: seq<string>)
    ensures |r| == |nds| && forall k :: 0 <= k < |nds| ==> r[k] == Get(nds[k], f)
  {
    seq(|nds|, k requires 0 <= k < |nds| => Get(nds[k], f))
  }

  /** `sorted(df[col].unique())`: each value of the column once, in increasing order. */
  function Options(nds: seq<Nd>, f: Field): (r: seq<string>)
    ensures StrictlySorted(r, StrLt)
    ensures forall t :: t in r <==> exists k :: 0 <= k < |nds| && Get(nds[k], f) == t
  {
    StrLtStrictTotal();
    var col := Values(nds, f);
    assert forall k :: 0 <= k < |nds| ==> col[k] == Get(nds[k], f);
    SortDistinct(col, StrLt)
  }

  /** `if sel: df = df[df[col].isin(sel)]`. */
  function Step(nds: seq<Nd>, sel: seq<string>, f: Field): (r: seq<Nd>)
    ensures r == KeepIf(nds, nd => Passes(sel, Some(Get(nd, f))))
  {
    if |sel| == 0 then
      KeepIfAll(nds, nd => Passes(sel, Some(Get(nd, f))));
      nds
    else
      KeepIfCongruent(nds, nd => Get(nd, f) in sel, nd => Passes(sel, Some(Get(nd, f))));
      KeepIf(nds, nd => Get(nd, f) in sel)
  }

  /** The note passes all three selections (an empty one passes everything). */
  predicate Keeps(nd: Nd, periodo: seq<string>, area: seq<string>, projeto: seq<string>) {
    Passes(periodo, Some(nd.periodo)) && Passes(area, Some(nd.area)) && Passes(projeto, Some(nd.projeto))
  }

  /** The page's filter block: period, then area, then project. */
  function Filtrar(nds: seq<Nd>, periodo: seq<string>, area: seq<string>, projeto: seq<string>): (r: seq<Nd>)
    ensures |r| <= |nds|
    ensures forall nd :: nd in r <==> nd in nds && Keeps(nd, periodo, area, projeto)
  {
    Step(Step(Step(nds, periodo, Periodo), area, Area), projeto, Projeto)
  }

  /** The three steps are one mask: the survivors are the notes passing all three selections, in
      their original order. */
  lemma FiltrarIsOneMask(nds: seq<Nd>, periodo: seq<string>, area: seq<string>, projeto: seq<string>)
    ensures Filtrar(nds, periodo, area, projeto) == KeepIf(nds, nd => Keeps(nd, periodo, area, projeto))
  {
    var p := nd => Passes(periodo, Some(Get(nd, Periodo)));
    var a := nd => Passes(area, Some(Get(nd, Area)));
    var j := nd => Passes(projeto, Some(Get(nd, Projeto)));
    var pa := nd => p(nd) && a(nd);
    KeepIfKeepIf(nds, p, a, pa);
    KeepIfKeepIf(nds, pa, j, nd => Keeps(nd, periodo, area, projeto));
  }

  /** Applying the selections in the opposite order keeps the same notes in the same order. */
  lemma FiltrarOrderIrrelevant(nds: seq<Nd>, periodo: seq<string>, area: seq<string>, projeto: seq<string>)
    ensures Step(Step(Step(nds, projeto, Projeto), area, Area), periodo, Periodo) == Filtrar(nds, periodo, area, projeto)
  {
    FiltrarIsOneMask(nds, periodo, area, projeto);
    var p := nd => Passes(periodo, Some(Get(nd, Periodo)));
    var a := nd => Passes(area, Some(Get(nd, Area)));
    var j := nd => Passes(projeto, Some(Get(nd, Projeto)));
    var ja := nd => j(nd) && a(nd);
    KeepIfKeepIf(nds, j, a, ja);
    KeepIfKeepIf(nds, ja, p, nd => Keeps(nd, periodo, area, projeto));
  }

  /** With nothing selected the chart keeps every note. */
  lemma FiltrarNothingSelected(nds: seq<Nd>)
    ensures Filtrar(nds, [], [], []) == nds
  {
    FiltrarIsOneMask(nds, [], [], []);
    KeepIfAll(nds, nd => Keeps(nd, [], [], []));
  }
}
