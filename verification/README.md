# Formal model of the dashboard's period labels, tables and filters

This Dafny project models the core of a small Streamlit reporting dashboard. The dashboard reads
sheets of a spreadsheet into pandas tables, offers multiselect filters over some of their columns,
and shows the filtered rows, totals and a chart. The model covers three pages:

- **NDs Realizadas** (`paginas/nds_realizadas.py`), the debit notes issued. The model covers:
  - the column-name normalisation;
  - the keyword search for the three period columns (ND, allocation, closing);
  - the mapping of the eight filter labels to real columns;
  - the `Mon/YY` period labels, and the chronologically ordered period options;
  - the filter block.
- **Analistas** (`paginas/analistas.py`). The model covers:
  - the integer formatting with `.` as thousands separator, and its inverse;
  - the export file name;
  - the cost analysis table, with its total row first and the `Saldo` identity;
  - the highlighting of total rows;
  - the detail table's hours total;
  - the page's three filters.
- **Gráficos NDs** (`paginas/graficos_nds.py`). The model covers:
  - the cleaning of amounts written as text;
  - the rows kept for the chart;
  - the options of its three filters, and the filter they apply.

A table is a sequence of rows. Each row is a map from column name to a cell `Value`, which is
missing, a boolean, an integer, a float (an exact real), a text or a date. Python's `None` and a
raised exception become `Option` and `Outcome`. The operations that pandas or Python perform on
opaque inputs are parameters of the model:

- `parse` stands for `pd.to_datetime(..., errors='coerce')`, reduced to the (year, month) it finds.
- `show` stands for `str()` of a cell.
- `toNumber` stands for `pd.to_numeric(..., errors='coerce')`.
- `parseFloat` stands for `float()` of a text.

Modules:

| file | module | contents |
|---|---|---|
| `wrappers.dfy` | `Wrappers` | `Option`, `Outcome`, the Python exceptions raised |
| `text.dfy` | `Text` | the `str` operations used: `in`, `startswith`/`endswith`, `strip`, `lower`, `replace`, `count`, `str(int)`/`int(str)`, `zfill`, thousands grouping, code-point order |
| `sequences.dfy` | `Sequences` | `sorted(set(...))` under a strict total order, `df[mask]` as an order-keeping selection, first match |
| `table.dfy` | `Table` | cells and rows, column options, saved-selection defaults, the multiselect filter loop |
| `nds_realizadas.dfy` | `NdsRealizadas` | the NDs page |
| `analistas.dfy` | `Analistas` | the analysts page |
| `graficos_nds.dfy` | `GraficosNds` | the chart page |

Facts of the code that shape the model:

- **Row labels carry the full year.** `_format_mes_ano` (`paginas/nds_realizadas.py:57`) labels rows with the full year zero-filled to two digits (`Set/2025`), while the options (`:72`) use the year modulo 100 (`Set/25`). See Findings.
- **Each period role is the first column whose normalised name contains both of its keywords** (`paginas/nds_realizadas.py:98-100`): `periodo` with `nd`, `aloc` or `fech`. A column can take the allocation or closing role even when its normalised name also contains `nd`.
- **A cell's label comes from `pd.to_datetime(..., errors='coerce')`** (`paginas/nds_realizadas.py:51-57`, `:64-66`). A cell that it turns into `NaT` gets no label, is absent from the period options, and is dropped by a non-empty period selection.
- **Column names are compared without case in four places.**
  - The same-name lookup lower-cases the stripped names (`paginas/nds_realizadas.py:121`).
  - `_normalize` lower-cases and drops accents (`:26-28`), so the keyword search (`:35-37`), the period-role detection (`:98-100`) and the `nd` and `fech` tests on a label (`:126-130`) ignore case and accents.
- **Selections are compared as exact strings** (`paginas/nds_realizadas.py:157`, `:159`, `paginas/analistas.py:141`): a cell's text or label must equal a selected option.

## Model

| member | source | states |
|---|---|---|
| NdsRealizadas.Normalize | paginas/nds_realizadas.py:22-29 | The normalised name holds only `a-z` and `0-9` |
| NdsRealizadas.NormalizeIdempotent | paginas/nds_realizadas.py:22-29 | Normalising a normalised name changes nothing |
| NdsRealizadas.NormalizeAscii | paginas/nds_realizadas.py:26-28 | On ASCII text the accent fold is the identity, so normalising is lower-casing and then deleting every non-alphanumeric character |
| NdsRealizadas.FoldAscii | paginas/nds_realizadas.py:26-27 | Decomposing and stripping combining marks leaves ASCII text unchanged |
| NdsRealizadas.FindColByKeywords | paginas/nds_realizadas.py:32-39 | The result is `None` exactly when no column's normalised name contains every keyword. Otherwise it is such a column, and no earlier column qualifies |
| NdsRealizadas.FindWithoutKeywords | paginas/nds_realizadas.py:35-38 | An empty keyword list selects the first column, or `None` for a table without columns |
| NdsRealizadas.DetectRoles | paginas/nds_realizadas.py:98-100 | Each detected period role is a column of the sheet |
| NdsRealizadas.FallbackIsDead | paginas/nds_realizadas.py:99-100 | An `or` fallback that searches for an extension of the first keyword can never change the result |
| NdsRealizadas.RolesIgnoreFallbacks | paginas/nds_realizadas.py:98-100 | The roles are the first columns matching `periodo` plus `nd`, `aloc` and `fech`. The `alocacao` and `fechamento` fallbacks are dead code |
| NdsRealizadas.SplitNonWord | paginas/nds_realizadas.py:133 | `re.split(r'\W+')` cuts the text into runs of word characters separated by non-empty runs of non-word characters. Putting the pieces and separators back together gives the text, and only the first and last piece can be empty |
| NdsRealizadas.SplitIsUnique | paginas/nds_realizadas.py:133 | Those conditions allow one split per text, so they determine the result of `re.split(r'\W+')` completely |
| NdsRealizadas.LabelWords | paginas/nds_realizadas.py:133 | The words kept are exactly the pieces of the split with more than one character, and each of them consists of word characters |
| NdsRealizadas.OneWordLabel | paginas/nds_realizadas.py:133 | A label that is one word of two or more word characters yields that word alone |
| NdsRealizadas.TwoWordLabel | paginas/nds_realizadas.py:133 | Two words of two or more word characters joined by non-word characters yield those two words, in order |
| NdsRealizadas.TwoWordReads | paginas/nds_realizadas.py:133-134 | For such a two-word label the keywords searched are the two words, each normalised |
| NdsRealizadas.PageLabelWords | paginas/nds_realizadas.py:106-109 | The words of each of the page's eight filter labels, e.g. `Período ND` gives `Período` and `ND`, and `ND` gives `ND` |
| NdsRealizadas.ResolveLabel | paginas/nds_realizadas.py:117-135 | The column a filter label resolves to, when there is one, is a column of the sheet |
| NdsRealizadas.ResolveLabelFallbacks | paginas/nds_realizadas.py:124-135 | When no column's stripped, lower-cased name equals the label's, a label whose normalised form contains `nd` takes the detected ND period column if there is one. Failing that, a label containing `fech` takes the detected closing column if there is one. Otherwise the label resolves to the first column whose normalised name contains every normalised word of the label |
| NdsRealizadas.ExactNameWins | paginas/nds_realizadas.py:119-123 | The first column whose stripped, lower-cased name equals the label's wins whatever the period detection found, provided its name is not empty |
| NdsRealizadas.NdLabelFallsBackToPeriodColumn | paginas/nds_realizadas.py:117-130 | Once an ND period column was detected, the label `ND` stands for a column named `ND` or for that period column, never for a keyword match. Without a column named `ND` it stands for the period column |
| NdsRealizadas.ColMapWith | paginas/nds_realizadas.py:116-137 | `col_map` has no more pairs than there are labels. Each pair holds one of the labels and the non-empty column that label resolves to |
| NdsRealizadas.ColMapOnePairPerLabel | paginas/nds_realizadas.py:116-137 | When the labels are distinct, no label appears in two pairs of `col_map` |
| NdsRealizadas.FilterLabelsDistinct | paginas/nds_realizadas.py:106-109 | The page's eight filter labels are distinct, so its `col_map` has at most one pair per label |
| NdsRealizadas.ColMap | paginas/nds_realizadas.py:116-137 | Every pair of the page's `col_map` names a column of the sheet that its label resolves to |
| NdsRealizadas.ColMapKeepsLabelOrder | paginas/nds_realizadas.py:117-137 | The labels in `col_map` are the labels that resolve to a column, in their original order |
| NdsRealizadas.Abbrev | paginas/nds_realizadas.py:46-49 | Every month abbreviation has three letters |
| NdsRealizadas.MonthOfAbbrev | paginas/nds_realizadas.py:46-49 | The month table is one-to-one: an abbreviation reads back as its month |
| NdsRealizadas.MonthLabel | paginas/nds_realizadas.py:57 | A month label reads back as its month and number. The number takes two digits below 10 and otherwise exactly its own digits, with no leading zero. So the label has seven or more characters exactly when the number is at least 100, and below 100 it is a two-digit option label |
| NdsRealizadas.RowLabel | paginas/nds_realizadas.py:57 | A row's label reads back as the cell's year and month. The year takes two digits below 10 and otherwise exactly its own digits (`Set/05`, `Set/2025`). Below year 100 the label is a two-digit option label, and it is longer than six characters exactly when the year is at least 100 |
| NdsRealizadas.OptionLabel | paginas/nds_realizadas.py:72 | An option label is `Abc/dd` and reads back as the month and the year modulo 100 |
| NdsRealizadas.OptionLabelInjective | paginas/nds_realizadas.py:72 | Two dates share an option label exactly when they share the month and the year modulo 100 |
| NdsRealizadas.OptionLabelRoundTrip | paginas/nds_realizadas.py:72 | Every option label is the label of the month it reads as |
| NdsRealizadas.RowAndOptionLabelsAgreeOnlyBelowYear100 | paginas/nds_realizadas.py:57 | A date's row label equals its option label exactly when its year is below 100 |
| NdsRealizadas.DocumentedExample | paginas/nds_realizadas.py:42-72 | 2025-09-01 becomes `Set/2025` on the rows and `Set/25` among the options |
| NdsRealizadas.FormatMesAno | paginas/nds_realizadas.py:42-59 | Each value gets its label in place. A value has no label exactly when the date parser rejects it. Every label is the row label of the parsed date, and it reads back as that date |
| NdsRealizadas.LabelOf | paginas/nds_realizadas.py:51-57 | A cell has a label exactly when it parses. The label is the row label of the parsed date, and it reads back as that date |
| NdsRealizadas.StampLtStrictTotal | paginas/nds_realizadas.py:67 | The (year, month) order is a strict total order |
| NdsRealizadas.ParsedStamps | paginas/nds_realizadas.py:66 | The months collected are exactly those of the values the parser accepts |
| NdsRealizadas.OrderedStamps | paginas/nds_realizadas.py:66-67 | The months offered are exactly the parsed months, each once, in strictly increasing order |
| NdsRealizadas.OptionLabels | paginas/nds_realizadas.py:72 | Each month gets its option label in place. The labels offered are exactly the option labels of the months |
| NdsRealizadas.PeriodOptionsOrdered | paginas/nds_realizadas.py:62-72 | There is one option per distinct parsed month, in chronological order. A label is offered exactly when some value parses to a month with that label |
| NdsRealizadas.OptionsDistinctWithinCentury | paginas/nds_realizadas.py:72 | When all parsed dates lie in one century, no option label repeats |
| NdsRealizadas.OptionsFor | paginas/nds_realizadas.py:143-146 | A period column offers one option label per distinct parsed month, in chronological order, and a label is offered exactly when some cell parses to a date with that label. Any other column offers strictly sorted texts, and a text is offered exactly when some non-missing cell renders as it |
| NdsRealizadas.FiltrarNds | paginas/nds_realizadas.py:150-159 | A row survives exactly when it passes every non-empty selection. A period cell is compared through its `_format_mes_ano` label, any other cell by its text |
| NdsRealizadas.FiltrarNdsKeepsOrder | paginas/nds_realizadas.py:150-159 | The survivors keep their original order |
| NdsRealizadas.FiltrarNdsEmptySelections | paginas/nds_realizadas.py:151-153 | Selections with nothing chosen leave the table unchanged |
| NdsRealizadas.PeriodSelectionDropsModernRows | paginas/nds_realizadas.py:155-157 | As written, a period selection made of offered options keeps only rows whose date parses to a year below 100 |
| NdsRealizadas.SeptemberRowDropped | paginas/nds_realizadas.py:150-159 | As written, a row dated September 2025 is dropped when its period column is filtered by the offered option `Set/25` |
| NdsRealizadas.SeptemberRowKeptWhenCorrected | paginas/nds_realizadas.py:150-159 | With corrected labels, the same row is kept by the same selection |
| NdsRealizadas.FiltrarNdsCorrigido | paginas/nds_realizadas.py:150-159 | With corrected labels, a row survives exactly when it passes every selection |
| NdsRealizadas.CorrectedPeriodSelectionKeepsItsRows | paginas/nds_realizadas.py:155-157 | With corrected labels, a dated row passes a period selection exactly when some selected option reads as its month and two-digit year |
| Table.Shown | paginas/nds_realizadas.py:146 | The rendered texts are exactly those of the column's non-missing cells |
| Table.ColumnOptions | paginas/analistas.py:127 | Options are strictly sorted. A text is offered exactly when some non-missing cell of the column renders as it |
| Table.Defaults | paginas/analistas.py:128 | A saved value is kept exactly when it is still an option |
| Table.DefaultsKeepOrder | paginas/analistas.py:128 | Defaults keep the saved order. A saved selection that is fully on offer comes back unchanged |
| Table.ApplyFilters | paginas/nds_realizadas.py:150-159 | A row survives the filter loop exactly when it passes every selection. An empty selection passes everything |
| Table.ApplyFiltersIsOneMask | paginas/analistas.py:137-141 | The filter loop equals one order-keeping mask over the rows |
| Table.EmptySelectionsKeepEverything | paginas/analistas.py:138-139 | Empty selections leave the rows as they are |
| Table.ApplyFiltersReorder | paginas/analistas.py:138-141 | The order in which the selections are applied does not matter |
| Sequences.SortDistinct | paginas/graficos_nds.py:44 | `sorted(unique(...))`: the output is strictly increasing and has the same elements as the input |
| Sequences.SortedUnique | paginas/nds_realizadas.py:66-67 | Two strictly sorted sequences with the same elements are equal |
| Sequences.KeepIf | paginas/nds_realizadas.py:157 | `df[mask]` keeps exactly the elements that pass and never adds any |
| Sequences.KeepIfAppend | paginas/nds_realizadas.py:157 | Selection distributes over concatenation, so it keeps order |
| Sequences.KeepIfMapMembers | paginas/graficos_nds.py:33-34 | Transforming the selected elements one by one gives exactly the transforms of the elements that pass |
| Sequences.KeepIfKeepIf | paginas/graficos_nds.py:63-66 | Two masks in a row are one mask by the conjunction |
| Sequences.FirstWhere | paginas/nds_realizadas.py:35-39 | The result is the first element satisfying the test, or `None` exactly when there is none |
| Text.ContainsIffOccurs | paginas/nds_realizadas.py:37 | `k in s` holds exactly when `k` occurs at some position of `s` |
| Text.Strip | paginas/nds_realizadas.py:121 | The result neither starts nor ends with whitespace. It is the part of the input that follows the leading whitespace, and everything after it in the input is whitespace |
| Text.ZFill | paginas/nds_realizadas.py:57 | A short digit string is padded with zeros to the width. A string already at the width is kept |
| Text.ZFillValue | paginas/nds_realizadas.py:57 | Zero-filling keeps the value of a digit string |
| Text.NatStrRoundTrip | paginas/nds_realizadas.py:57 | Reading back `str(n)` gives `n` |
| Text.IntStrRoundTrip | paginas/analistas.py:173 | `int(str(i)) == i` for every integer |
| Text.GroupDigits | paginas/analistas.py:21 | Removing the separators gives back the digits. A `.` stands exactly at every fourth position from the end, and the length grows by one separator per full group of three |
| Text.Group | paginas/analistas.py:21 | Removing the separators gives `str(n)`. Read from the end, the digits form groups of three separated by `.`. The sign stays in front, and the length grows by one separator per full group of three digits |
| Text.DigitsStrip | paginas/graficos_nds.py:21 | Stripping whitespace keeps every digit of the text, in order |
| Text.KeepStrip | paginas/graficos_nds.py:21 | For any character test that rejects all whitespace, stripping keeps the characters that pass it, in order |
| Text.KeepRemoveAll | paginas/graficos_nds.py:21 | For any character test that rejects every character of a pattern, deleting the pattern keeps the characters that pass it, in order |
| Text.StrLtStrictTotal | paginas/analistas.py:127 | Python's string `<` is a strict total order |
| Analistas.GroupRoundTrip | paginas/analistas.py:173 | Deleting the separators from a formatted integer and reading it back gives the integer |
| Analistas.Trunc | paginas/analistas.py:21 | `int(x)` truncates toward zero: it is within one of `x`, on the side of zero |
| Analistas.FormatarInteiro | paginas/analistas.py:19-21 | A number becomes the text of its integer part, grouped by threes with `.`, and it reads back as that integer part once the separators are removed. NaN raises `ValueError`. Anything else is returned unchanged |
| Analistas.FormatarInteiroInjective | paginas/analistas.py:19-21 | Two numbers are formatted alike exactly when their integer parts are equal |
| Analistas.ExportFileName | paginas/analistas.py:49 | The offered name ends in `.xlsx` and starts with the given name. It is the given name exactly when that name already ends in `.xlsx`, and otherwise five characters longer |
| Analistas.ExportFileNameIdempotent | paginas/analistas.py:49 | Applying the rule twice is applying it once |
| Analistas.TitleFileName | paginas/analistas.py:99 | The name is the title with every space turned into `_`, followed by `.xlsx`. It has no spaces and is kept unchanged by the export rule |
| Analistas.DataLine | paginas/analistas.py:58-71 | Each amount is the cell's number times the page's multiplier, or zero for an unreadable cell. `Saldo` is cost minus recovered minus capitalised |
| Analistas.TotalLabel | paginas/analistas.py:78 | The total label starts with `Total (` and ends with `)`, and the number between them reads back as `n` and is written with exactly the digits of `n`, so `Total (05)` is ruled out |
| Analistas.TotalLine | paginas/analistas.py:77-84 | Every amount of the total line is the sum of that column |
| Analistas.TotalIsBalanced | paginas/analistas.py:71-84 | Summing balanced lines gives a balanced total: total `Saldo` equals total cost minus the total recovered and capitalised |
| Analistas.SumsBalance | paginas/analistas.py:79-83 | The `Saldo` column sum is the cost sum minus the recovered and capitalised sums |
| Analistas.DataLines | paginas/analistas.py:59-74 | There is one balanced line per row, in row order |
| Analistas.WithTotal | paginas/analistas.py:86-87 | The total line comes first, followed by the data lines unchanged. Every line is balanced |
| Analistas.RenderHoras | paginas/analistas.py:90 | Every line's `Horas Base` is rendered by `formatar_inteiro` |
| Analistas.MontarTabela | paginas/analistas.py:54-99 | Raises `KeyError` exactly when a required column is missing. Otherwise the result has the total line first, labelled `Total (n)` and carrying the column sums, then one line per row in order. All lines are balanced, the hours are rendered, and the export name comes from the title |
| Analistas.EstiloTotal | paginas/analistas.py:35-39 | There is one style per cell. Every cell is highlighted exactly when the first cell reads `Total...`. An empty row raises `IndexError` |
| Analistas.TotalRowHighlighted | paginas/analistas.py:35-39 | The total row is highlighted in full. A data row is highlighted exactly when its analyst's name starts with `Total` |
| Analistas.ReadInts | paginas/analistas.py:173 | The column reads back exactly when every cell reads as an integer once its dots are removed. Then there is one value per cell, and it is what that cell reads as |
| Analistas.DetailHorasTotal | paginas/analistas.py:172-173 | Raises `ValueError` exactly when some cell does not read back. Otherwise the result is the sum of the cells, grouped by threes with `.`, and it reads back as that sum |
| Analistas.FormatHours | paginas/analistas.py:159-160 | Each integer hour is rendered by `formatar_inteiro` |
| Analistas.ReadFormattedHours | paginas/analistas.py:160-173 | Reading back the rendered hours gives the hours |
| Analistas.DetailTotalOfFormattedHours | paginas/analistas.py:158-173 | The detail total of rendered hours is the rendered sum of the hours |
| Analistas.ColumnOfKeyRoundTrip | paginas/analistas.py:126-140 | The widget key of a column leads back to that column, provided the column's name does not itself contain `filtro_` |
| Analistas.FilterOptions | paginas/analistas.py:121-127 | Raises `KeyError` exactly when the sheet lacks one of `Área`, `Analista` and `Cargo`. Otherwise there are three option lists, each strictly sorted, and a text is offered for a column exactly when some non-missing cell of it renders as that text |
| Analistas.PageFilters | paginas/analistas.py:121-140 | The three selections filter `Área`, `Analista` and `Cargo`, in that order |
| Analistas.FiltrarAnalistas | paginas/analistas.py:137-141 | A row survives exactly when, for every non-empty selection, the text of its cell is selected |
| Analistas.FiltrarAnalistasKeepsOrder | paginas/analistas.py:137-141 | The survivors keep their original order |
| GraficosNds.DropSymbols | paginas/graficos_nds.py:21 | No `.` is left, every comma is kept, and so is every digit, in order |
| GraficosNds.DecimalPoints | paginas/graficos_nds.py:21 | After `,` becomes `.`, the points are exactly the former commas |
| GraficosNds.CleanText | paginas/graficos_nds.py:21 | The cleaned text has no comma, and its number of `.` equals the input's number of `,`. It neither starts nor ends with whitespace, and it keeps every digit of the input, in order |
| GraficosNds.DropSymbolsKeepsUntouched | paginas/graficos_nds.py:21 | Removing `R$` and the points keeps, in order, every character other than `R`, `$`, `.`, `,` and whitespace |
| GraficosNds.CleanTextKeepsUntouched | paginas/graficos_nds.py:21 | The whole cleaning keeps, in order, every character other than `R`, `$`, `.`, `,` and whitespace, such as a minus sign or a letter |
| GraficosNds.DropSymbolsKeepsCommas | paginas/graficos_nds.py:21 | Removing `R$` and the points leaves every comma in its place among the other kept characters, so `1,5` never becomes `15,` |
| GraficosNds.CleanTextPlacesPoints | paginas/graficos_nds.py:21 | After cleaning, the kept characters and decimal points are the input's kept characters and commas, with each comma turned into a point in the same place, so `R$ 1,5` cleans to `1.5` and never to `15.` |
| Text.KeepReplaceSwap | paginas/graficos_nds.py:21 | Replacing `a` by `b` in a text without `b` and then selecting gives the selection taken before, with every `a` turned into `b` |
| GraficosNds.CleaningKeepsMinus | paginas/graficos_nds.py:21 | A text with a minus sign still has one after cleaning, so `R$ -1,5` cannot clean to `1.5` |
| GraficosNds.LimpaValor | paginas/graficos_nds.py:15-26 | Missing and non-numeric, non-text values give `None`. Numbers keep their value. A text gives what `float` makes of the cleaned text |
| GraficosNds.CleanBrazilianAmount | paginas/graficos_nds.py:21 | `R$ 1.234.567,89` cleans to `1234567.89`, for any digits grouped by `.` and any cents |
| GraficosNds.Prepare | paginas/graficos_nds.py:33-35 | There is one chart row per row with all four key cells present, in row order, and it is that row cleaned. A chart row appears exactly when some complete row cleans to it |
| GraficosNds.LoadChart | paginas/graficos_nds.py:32-35 | Raises `KeyError` exactly when the sheet lacks one of `Valor`, `Período ND`, `Área` and `Projeto`. Otherwise there is one chart row per complete row, in row order, and it is that row cleaned. A chart row appears exactly when some complete row cleans to it |
| GraficosNds.Values | paginas/graficos_nds.py:44-58 | A field's column has one entry per chart row, holding that row's field |
| GraficosNds.Options | paginas/graficos_nds.py:44-58 | Options are strictly sorted. A value is offered exactly when some row holds it |
| GraficosNds.Step | paginas/graficos_nds.py:63-64 | One `if sel: df = df[df[col].isin(sel)]` step is the order-keeping mask "empty or selected" |
| GraficosNds.Filtrar | paginas/graficos_nds.py:63-68 | A row survives exactly when it passes all three selections |
| GraficosNds.FiltrarIsOneMask | paginas/graficos_nds.py:63-68 | The three steps are one order-keeping mask |
| GraficosNds.FiltrarOrderIrrelevant | paginas/graficos_nds.py:63-68 | Applying the selections in the reverse order gives the same rows in the same order |
| GraficosNds.FiltrarNothingSelected | paginas/graficos_nds.py:63-68 | With nothing selected every row stays |

## Left out

- Reading the workbook (`carregar_aba`), the Streamlit widgets, session state, Plotly charts, Kaleido export and the Excel writer are I/O. The model takes the sheet as a header and a sequence of rows. It takes the multiselect choices and the saved selection as sequences of strings.
- `pd.to_datetime`, `pd.to_numeric`, `str()` of a non-text cell and `float()` of a text are parameters (`parse`, `toNumber`, `show`, `parseFloat`). Their internal rules are outside the model.
- The first-column drop heuristic (`paginas/nds_realizadas.py:93`, `paginas/analistas.py:116`) depends on pandas' monotonicity test over mixed types. The model receives the table after that step.
- The metrics, the totals per account and the tables below the filters of the NDs page. These cover lines 161 onward of `paginas/nds_realizadas.py`.
- `formatar_valor`, `cor_saldo` and the chart's `Texto` column format floats with two decimals. Floating-point formatting and rounding are not modelled. Amounts are exact reals, so float sums are exact here.
- The grouping of the chart by period and area (`paginas/graficos_nds.py:71`) is left out: it feeds only the plot.
- Streamlit refuses two widgets with the same key. The NDs page creates one when two labels resolve to the same column, and `filtros[real_col]` then keeps one entry. The model keeps one selection per `col_map` entry and does not model the widget error.
- `funcoes_compartilhadas/trata_tabelas.py` and `app.py` are not part of this model.
- NdsRealizadas.Normalize: the accent fold (NFKD, then dropping combining marks) is a table over Latin-1 and the combining block U+0300–U+036F. Other characters pass through unchanged, so the model is weaker than full Unicode NFKD for non-Latin-1 names.
- NdsRealizadas.LabelWords: `\w` is taken over ASCII and Latin-1 letters and digits. Other Unicode word characters count as separators.
- Text.Lower: lower-casing covers ASCII and Latin-1 capitals only.
- Analistas.FormatarInteiro: a missing cell is taken as float NaN, so `int` raises. A `None` or `NaT` cell would be returned unchanged by the source, and the model does not tell these apart from NaN.
- Analistas.MontarTabela: the multipliers are keyed by the table's measure columns. A multiplier on a text column (string repetition in pandas) is not modelled, and the page passes none. The currency columns are not rendered as text.
- Analistas.DetailHorasTotal: `astype(int)` is modelled as `ParseInt`, an optional `-` followed by digits. Python's `int` also accepts surrounding whitespace, `+` and `_`. The `.` removal is taken as literal, as in pandas 2.
- GraficosNds.Prepare: `Área` and `Projeto` are compared through their text (`show`). The sheet holds text in those columns, and sorting mixed types would raise in the source.
- The column-name lookup (`paginas/nds_realizadas.py:121`) calls `strip()` on every column name. A non-text header such as a number raises `AttributeError` in the source. The model's header holds texts only.
- Analistas.DetailHorasTotal: `astype(int)` and `sum()` work on 64-bit integers in pandas and can overflow. The model's integers are unbounded. Analistas.FormatHours takes integers too, so the `astype(int)` at `paginas/analistas.py:159` is not modelled with overflow either.
- NdsRealizadas.FormatMesAno: `pd.to_datetime` over a whole column may infer one format from the first cells and then reject cells it would read alone. The `parse` parameter reads each cell on its own.
- NdsRealizadas.PageLabelWords: only the words of the page's labels are computed. The normalised forms of those words are not evaluated, so the model does not state which concrete columns the page's labels find.
- GraficosNds.DropSymbolsKeepsCommas: places the commas among the untouched characters only, so a lone `R` or `$` and inner whitespace are not placed.
- GraficosNds.CleanTextPlacesPoints: places the decimal points among the untouched characters only, so a lone `R` or `$` and inner whitespace are not placed.
- GraficosNds.CleanTextKeepsUntouched: the kept characters leave out every `R`, `$` and whitespace character, not only the `R$` pairs removed and the whitespace stripped at the ends. So a lone `R` or `$`, and inner whitespace, are not claimed to survive.
- GraficosNds.LimpaValor: infinite floats and NaN inside a text are left to `parseFloat`.

## Findings

| source | as written | input that shows it | evidently intended | confidence | as-written member | corrected member |
|---|---|---|---|---|---|---|
| paginas/nds_realizadas.py:57 | `_format_mes_ano` writes the full year, zero-filled to two digits. The options at :72 write `y % 100`, and :157 keeps the rows whose label is among the selected options | a row dated 2025-09-01 with the offered option `Set/25` selected: the row's label is `Set/2025`, so the row is dropped (`NdsRealizadas.SeptemberRowDropped`), as is every row dated in year 100 or later | rows labelled like the options, with the year modulo 100 (`Set/25`), as the docstring at :43-44 says | not executed; high | NdsRealizadas.PeriodSelectionDropsModernRows | NdsRealizadas.CorrectedPeriodSelectionKeepsItsRows |
