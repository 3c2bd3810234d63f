/**
 The table the pages read from a spreadsheet sheet: a sequence of rows, each a
 map from column name to cell value. This module holds the parts the pages
 share: the filter options offered for a column, the saved-selection defaults,
 and the multiselect filter (an empty selection passes every row; otherwise a
 row stays only when its key for the column is selected).
 */
module Table {
  import opened Wrappers
  import opened Text
  import opened Sequences

  /** One cell as pandas hands it over after reading the sheet. */
  datatype Value =
    | Missing                                // NaN, NaT or None: what `pd.isna` recognises
    | Bool(b: bool)
    | Int(i: int)
    | Float(x: real)                         // a finite float, kept exact
    | Str(s: string)
    | Date(year: int, month: int, day: int)  // a date or timestamp cell

  type Row = map<string, Value>

  /** `row[col]`, reading a column the row does not carry as `Missing`. Where the source names
      a column outright and pandas raises `KeyError` for a sheet without it, the model checks
      the sheet's header first and returns that error; every other column the pages look up
      comes from the header itself. */
  function Cell(row: Row, col: string): Value {
    if col in row then row[col] else Missing
  }

  /** `df[col]`: the cells of one column, in row order. */
  function Cells(rows: seq<Row>, col: string): (r: seq<Value>)
    ensures |r| == |rows| && forall i :: 0 <= i < |rows| ==> r[i] == Cell(rows[i], col)
  {
    seq(|rows|, i requires 0 <= i < |rows| => Cell(rows[i], col))
  }

  /** `str` renders a text cell as the text itself. The pages receive the rendering of every
      other cell from outside the model. */
  ghost predicate ShowsStringsAsThemselves(show: Value -> string) {
    forall s :: show(Str(s)) == s
  }

  /** The rendered non-missing cells of `col`, in row order (`df[col].dropna().astype(str)`). */
  function Shown(rows: seq<Row>, col: string, show: Value -> string): (r: seq<string>)
    ensures forall t :: t in r <==>
      exists i :: 0 <= i < |rows| && Cell(rows[i], col) != Missing && show(Cell(rows[i], col)) == t
  {
    if |rows| == 0 then []
    else
      var rest := Shown(rows[1..], col, show);
      assert forall i :: 1 <= i < |rows| ==> rows[i] == rows[1..][i - 1];
      (if Cell(rows[0], col) != Missing then [show(Cell(rows[0], col))] else []) + rest
  }

  /** `sorted(df[col].dropna().astype(str).unique())`: each rendered non-missing value of the
      column once, in increasing string order. */
  function ColumnOptions(rows: seq<Row>, col: string, show: Value -> string): (r: seq<string>)
    ensures StrictlySorted(r, StrLt)
    ensures forall t :: t in r <==>
      exists i :: 0 <= i < |rows| && Cell(rows[i], col) != Missing && show(Cell(rows[i], col)) == t
  {
    StrLtStrictTotal();
    SortDistinct(Shown(rows, col, show), StrLt)
  }

  /** `[v for v in saved if v in options]`: the saved selection restricted to the current options. */
  function Defaults(saved: seq<string>, options: seq<string>): (r: seq<string>)
    ensures forall v :: v in r <==> v in saved && v in options
  {
    KeepIf(saved, v => v in options)
  }

  /** The defaults keep the saved order, and a saved selection that is still fully on offer
      comes back unchanged. */
  lemma DefaultsKeepOrder(a: seq<string>, b: seq<string>, options: seq<string>)
    ensures Defaults(a + b, options) == Defaults(a, options) + Defaults(b, options)
    ensures (forall v :: v in a ==> v in options) ==> Defaults(a, options) == a
  {
    KeepIfAppend(a, b, v => v in options);
    if forall v :: v in a ==> v in options {
      KeepIfAll(a, v => v in options);
    }
  }

  // ---------------------------------------------------------------------------
  // Multiselect filters
  // ---------------------------------------------------------------------------

  /** One multiselect: the column it filters and the values chosen in it. */
  datatype Selection = Selection(column: string, values: seq<string>)

  /** The key a page compares with a selection, from the column and the cell; `None` never matches. */
  type KeyFn = (string, Value) -> Option<string>

  /** An empty selection passes everything; otherwise the key must be one of the selected values. */
  predicate Passes(values: seq<string>, key: Option<string>) {
    |values| == 0 || (key.Some? && key.value in values)
  }

  predicate PassesSelection(row: Row, f: Selection, key: KeyFn) {
    Passes(f.values, key(f.column, Cell(row, f.column)))
  }

  /** The row passes every selection. */
  predicate SurvivesAll(row: Row, filters: seq<Selection>, key: KeyFn) {
    forall k :: 0 <= k < |filters| ==> PassesSelection(row, filters[k], key)
  }

  /** The pages' filter loop: for each selection in turn, skip it when it is empty, otherwise
      keep only the rows whose key is selected (`df = df[mask]`). */
  function ApplyFilters(rows: seq<Row>, filters: seq<Selection>, key: KeyFn): (r: seq<Row>)
    ensures |r| <= |rows|
    ensures forall row :: row in r <==> row in rows && SurvivesAll(row, filters, key)
    decreases |filters|
  {
    if |filters| == 0 then rows
    else
      var f := filters[0];
      var step := if |f.values| == 0 then rows else KeepIf(rows, row => PassesSelection(row, f, key));
      assert forall row :: row in step <==> row in rows && PassesSelection(row, f, key);
      var r := ApplyFilters(step, filters[1..], key);
      assert forall row :: SurvivesAll(row, filters, key) <==>
        PassesSelection(row, f, key) && SurvivesAll(row, filters[1..], key) by {
        forall row ensures SurvivesAll(row, filters, key) <==>
          PassesSelection(row, f, key) && SurvivesAll(row, filters[1..], key) {
          if PassesSelection(row, f, key) && SurvivesAll(row, filters[1..], key) {
            forall k | 0 <= k < |filters| ensures PassesSelection(row, filters[k], key) {
              if k > 0 {
                assert filters[k] == filters[1..][k - 1];
              }
            }
          }
          if SurvivesAll(row, filters, key) {
            forall k | 0 <= k < |filters| - 1 ensures PassesSelection(row, filters[1..][k], key) {
              assert filters[1..][k] == filters[k + 1];
            }
          }
        }
      }
      r
  }

  /** The filter loop is one mask: the survivors are exactly the rows passing every selection,
      in their original order, whatever order the selections come in. */
  lemma {:induction false} ApplyFiltersIsOneMask(rows: seq<Row>, filters: seq<Selection>, key: KeyFn)
    ensures ApplyFilters(rows, filters, key) == KeepIf(rows, row => SurvivesAll(row, filters, key))
    decreases |filters|
  {
    if |filters| == 0 {
      KeepIfAll(rows, row => SurvivesAll(row, filters, key));
    } else {
      var f := filters[0];
      var p := row => PassesSelection(row, f, key);
      var q := row => SurvivesAll(row, filters[1..], key);
      var all := row => SurvivesAll(row, filters, key);
      var step := if |f.values| == 0 then rows else KeepIf(rows, p);
      ApplyFiltersIsOneMask(step, filters[1..], key);
      forall row ensures all(row) == (p(row) && q(row)) {
        if p(row) && q(row) {
          forall k | 0 <= k < |filters| ensures PassesSelection(row, filters[k], key) {
            if k > 0 {
              assert filters[k] == filters[1..][k - 1];
            }
          }
        }
        if all(row) {
          forall k | 0 <= k < |filters| - 1 ensures PassesSelection(row, filters[1..][k], key) {
            assert filters[1..][k] == filters[k + 1];
          }
        }
      }
      if |f.values| == 0 {
        KeepIfCongruent(rows, q, all);
      } else {
        KeepIfKeepIf(rows, p, q, all);
      }
    }
  }

  /** Selections with nothing chosen leave the table as it is. */
  lemma EmptySelectionsKeepEverything(rows: seq<Row>, filters: seq<Selection>, key: KeyFn)
    requires forall k :: 0 <= k < |filters| ==> |filters[k].values| == 0
    ensures ApplyFilters(rows, filters, key) == rows
  {
    ApplyFiltersIsOneMask(rows, filters, key);
    KeepIfAll(rows, row => SurvivesAll(row, filters, key));
  }

  /** The order in which selections are applied does not matter: two lists holding the same
      selections keep the same rows. */
  lemma ApplyFiltersReorder(rows: seq<Row>, fs: seq<Selection>, gs: seq<Selection>, key: KeyFn)
    requires forall f :: f in fs <==> f in gs
    ensures ApplyFilters(rows, fs, key) == ApplyFilters(rows, gs, key)
  {
    ApplyFiltersIsOneMask(rows, fs, key);
    ApplyFiltersIsOneMask(rows, gs, key);
    forall row ensures SurvivesAll(row, fs, key) == SurvivesAll(row, gs, key) {
      if SurvivesAll(row, fs, key) {
        forall k | 0 <= k < |gs| ensures PassesSelection(row, gs[k], key) {
          assert gs[k] in fs;
        }
      }
      if SurvivesAll(row, gs, key) {
        forall k | 0 <= k < |fs| ensures PassesSelection(row, fs[k], key) {
          assert fs[k] in gs;
        }
      }
    }
    KeepIfCongruent(rows, row => SurvivesAll(row, fs, key), row => SurvivesAll(row, gs, key));
  }
}
