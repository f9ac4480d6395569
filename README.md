# Credit-card organizer: categorisation and summary pipeline in Dafny

This project models the data pipeline of the credit-card organizer, a small
desktop tool that reads a statement of card transactions and shows where the
money went. It covers three steps:

- **The keyword categoriser** (`TransactionCategorizer`). It lower-cases each
  title and scans an ordered keyword table: categories in declaration order,
  then keywords in list order. The first category with a keyword inside the
  title wins. A title that matches nothing is put in `others`. Rows with a
  negative amount are dropped before categorising.
- **The negative-amount filter** of the utilities module.
- **The computations behind the window**, lifted out of the Tk code:
  - the category summary (group by category, sum, larger sums first, grand total);
  - each category's detail list (its rows, larger amounts first);
  - the per-day buckets behind each category's trend chart;
  - the category filter applied before a PDF export.

Modules:

- `Seqs` (seqs.dfy): the generic pieces the data-frame expressions are made of.
  These are a boolean-mask filter (`Keep`), a column sum (`SumOf`) and a stable
  insertion sort on an integer key (`SortBy`), with their lemmas.
- `Text` (text.dfy): ASCII lower-casing and the substring test `k in t`. The
  test is proved equal to its reference definition, "some position where `k`
  starts".
- `Ledger` (ledger.dfy): the row types of the two frames. `Transaction` has
  date, title and amount. `CategorizedTransaction` is a `Transaction` plus its
  category.
- `Utils` (utils.dfy): `FilterNegative`.
- `Categorizer` and `CategorizerExamples` (categorizer.dfy): the default table,
  `CategorizeTitle` and `CategorizeTransactions`, their properties, and the
  cases of the unit tests.
- `AppUi` (appui.dfy): grouping and summing (`GroupSum`), the category summary,
  the detail lists, the day buckets, the details notebook and the export
  selection.

Amounts are integers (cents). A date is the integer YYYYMMDD of its calendar
day, so integer order is chronological order. Every operation is a pure
function: each step of the source builds a new frame from the previous one.

## Model

| member | source | states |
|---|---|---|
| `Utils.FilterNegativeSpec` | src/utils.py:8-9 | Every kept row has amount >= 0. Every input row with amount >= 0 is kept. Each row occurs exactly as often as in the input, or not at all when negative. The output is an order-preserving subsequence of the input and no longer than it. |
| `Utils.FilterNegativeIdempotent` | src/utils.py:8-9 | Filtering an already filtered frame changes nothing. |
| `Utils.FilterNegativeExample` | tests/test_utils.py:4-11 | Rows with amounts 10 and -5 give exactly the first row. |
| `Text.ContainsIffOccurs` | src/categorizer.py:18 | The left-to-right substring scan is true exactly when the keyword occurs at some position of the title. |
| `Text.LowerIsLower` | src/categorizer.py:15 | A lower-cased title has no capital letter, and lower-casing it again changes nothing. |
| `Categorizer.AnyKeywordInSpec` | src/categorizer.py:17-18 | The keyword loop of one category reports a hit exactly when some keyword of the list occurs in the title. |
| `Categorizer.FirstMatchSpec` | src/categorizer.py:16-20 | The category loop returns the first category in table order that has a hit. It returns `others` when no category has one. Either no category has a hit or a first one exists. |
| `Categorizer.CategorizeTitleSpec` | src/categorizer.py:14-20 | A title gets the first category, in table order, with a keyword inside the lower-cased title. With no such keyword it gets `others`. |
| `Categorizer.CategorizeTitleInRange` | src/categorizer.py:16-20 | The category is always a name from the table or `others`. |
| `Categorizer.OthersIffNoMatch` | src/categorizer.py:16-20 | For a table with distinct names other than `others`, a title falls into `others` exactly when no keyword of any category occurs in it. |
| `Categorizer.EarlierRuleWins` | src/categorizer.py:16-19 | A title that matches two categories is never given the later-declared one. |
| `Categorizer.CaseInsensitive` | src/categorizer.py:15 | A title and its lower-cased form get the same category. |
| `Categorizer.CapitalKeywordNeverMatches` | src/categorizer.py:15-18 | Keywords are not lower-cased. A keyword with a capital letter therefore never occurs in a lower-cased title. |
| `Categorizer.DefaultTableWellFormed` | src/categorizer.py:5-12 | The built-in table's six category names are distinct and none is `others`. |
| `Categorizer.CategorizeTransactionsSpec` | src/categorizer.py:22-27 | The output, with the category column dropped, is exactly the negative-amount filter of the input. Rows are unchanged and in order. Every output row has amount >= 0 and the category of its own title. That category is a table name or `others`. |
| `Categorizer.CategorizeTransactionsIdempotent` | src/categorizer.py:22-27 | Categorising the output again, ignoring its old category column, gives the same rows and categories. |
| `CategorizerExamples.BurgerKingIsRestaurant` | tests/test_categorizer.py:6 | "Burger King" is categorised as `restaurants`. |
| `CategorizerExamples.BenedeteIsMarket` | tests/test_categorizer.py:7 | "Geraldo Benedete e Cia" is categorised as `market`. |
| `CategorizerExamples.UnknownStoreIsOthers` | tests/test_categorizer.py:8 | "Unknown Store" is categorised as `others`. |
| `CategorizerExamples.CategorizeTransactionsExample` | tests/test_categorizer.py:10-18 | A Burger King purchase of 50 and refund of -10 give exactly one row: the purchase, categorised as `restaurants`. |
| `Seqs.SortBy` | src/app_ui.py:115 | The sorted rows are in non-decreasing key order and are a permutation of the input. |
| `AppUi.GroupSumSpec` | src/app_ui.py:114 | Grouping gives one bucket per distinct key present in the rows. For every key, the buckets hold the sum of that key's amounts. The bucket totals add up to the sum of all amounts. |
| `AppUi.SumsDescending` | src/app_ui.py:114-115 | After grouping and sorting there is exactly one row per distinct key. Each row holds the sum of that key's amounts. Rows are in non-increasing order of total, and the totals add up to the sum of all amounts. |
| `AppUi.CategorySummarySpec` | src/app_ui.py:114-115 | The summary has one row per category present in the categorised rows. Each row's amount is the sum of that category's amounts. Rows are ordered non-increasing by amount. |
| `AppUi.GrandTotalSpec` | src/app_ui.py:116 | The grand total is the sum of the summary amounts, which equals the sum of all transaction amounts. It is >= 0 for the output of the categoriser. |
| `AppUi.CategoryDetails` | src/app_ui.py:158-159 | The detail list holds exactly the rows of that category, each as often as in the input. It is ordered non-increasing by amount. |
| `AppUi.CategoryDetailsTotal` | src/app_ui.py:158-159 | A category's detail list adds up to the sum of that category's amounts. |
| `AppUi.DateBuckets` | src/app_ui.py:163-165 | There is one bucket per distinct date, in strictly increasing date order. Each bucket holds the sum of that date's amounts, and the buckets add up to the sum of all amounts given. |
| `AppUi.DateBucketsAddUpToSummary` | src/app_ui.py:158-165 | The day buckets built from a category's detail list add up to that category's summary amount. |
| `AppUi.DetailTabs` | src/app_ui.py:154-165 | The details notebook has one tab per summary row. |
| `AppUi.DetailTabsSpec` | src/app_ui.py:154-165 | Each tab follows its summary row and has a non-empty table, so its chart is always drawn. The table holds exactly that category's rows, and the chart's bars add up to the summary amount. |
| `AppUi.ExportRows` | src/app_ui.py:208-226 | Nothing is exported when the dialog is cancelled or nothing is ticked. "All" exports every row. Otherwise the export holds exactly the rows whose category was ticked, in their original order. |

## Left out

- Reading and writing CSV files (src/utils.py:1-6) and the command-line entry
  point in src/main.py: file I/O and plumbing.
- All widget code: tabs, tree views, labels, `clean_data`, the checkbox logic
  of `CategoryExportDialog`, and the checks that nothing is loaded yet. This is
  interface state. The model starts from loaded, categorised rows.
- The pie and bar charts, the PDF building in `generate_single_category_pdf`,
  and the call to `generate_pdf` (src/app_ui.py:120-134, 176-189, 228-283).
  `generate_pdf` is imported at src/app_ui.py:4 but src/utils.py does not define
  it, so `generate_pdf` is not part of this model. The day
  grouping at src/app_ui.py:242-244 is the same as `AppUi.DateBuckets`.
- The file-save dialog of the export, whose cancel also ends the export.
  `AppUi.ExportRows` models only the dialog's category choice.
- Percentages rounded to two decimals (src/app_ui.py:117), the synthetic
  "Total" line of the summary table (src/app_ui.py:146), and the `polyfit`
  trend line (src/app_ui.py:166-174): floating point and display.
- Loading a keyword table from `categories.json`. `TransactionCategorizer`
  takes no argument (src/categorizer.py:4). When that file exists, the call at
  src/app_ui.py:74 raises, and the upload ends in the error dialog. No loading
  logic exists to model, so every table is a parameter or the default table.
- Installment merging, store ranking with an "Others" bucket, and month
  buckets: these are described for the system but do not exist in the code.
  The model follows the code.
- Unicode lower-casing: `Text.Lower` maps only 'A'..'Z'. Python's `lower()`
  also maps non-ASCII capitals such as 'Ç'.
- Amounts are integers. pandas may read them as floating-point numbers, whose
  rounding is not modelled.
- 64-bit overflow. pandas holds integer amounts as int64, and its sums wrap
  around silently on overflow (src/app_ui.py:114, 116, 163). The model's amounts
  and sums are unbounded integers, so `AppUi.GroupSum`, `AppUi.GrandTotal` and
  `AppUi.DateBuckets` state the exact sums and do not model wrap-around.
- Missing or non-text cells. Titles are always text and amounts always
  numbers in the model. In the source, a missing title (read as NaN) or a
  numeric one makes `title.lower()` raise (src/categorizer.py:15), and the
  upload then ends in the error dialog (src/app_ui.py:88-90). A missing amount
  (NaN) fails `amount >= 0` (src/categorizer.py:24), so that row is silently
  dropped. An amount cell that is not a number, such as the text "10,50",
  makes `amount >= 0` raise a TypeError (src/categorizer.py:24), and the upload
  ends in the error dialog (src/app_ui.py:88-90). None of these paths is
  modelled.
- Missing dates. Every row has a date in the model. In the source, an empty
  date cell is read as NaN, and `groupby('date')` leaves that row out of the
  day buckets without an error (src/app_ui.py:163). The row still appears in
  the tab's table (src/app_ui.py:199-200), so the bars add up to less than the
  summary row. `AppUi.DateBucketsAddUpToSummary` and `AppUi.DetailTabsSpec`
  therefore hold only when every row has a date.
- Dates are whole numbers YYYYMMDD. The source groups by the date text and
  parses it afterwards (src/app_ui.py:163-164). The model assumes each day is
  written one way in a statement.
- Unparseable date text. `AppUi.DateBuckets` takes dates that are already
  numbers. In the source, `pd.to_datetime` raises on a date text it cannot
  parse (src/app_ui.py:164). That happens inside `show_details`, which runs in
  the upload's `try` (src/app_ui.py:85), so the error dialog appears
  (src/app_ui.py:88-90). By then the summary and details tabs have been added
  and the details tabs are half built. This path is not modelled.
- `AppUi.GroupSum`: pandas' `groupby` returns its keys in sorted order. The model
  folds from the last row to the first and opens each new bucket at the end,
  so its buckets come in reverse order of last appearance (rows `health` 10
  then `market` 10 give `market` before `health`). The sort that follows
  replaces that order (src/app_ui.py:115, 165), except among rows with equal
  totals.
- `AppUi.SumsDescending`, `AppUi.CategoryDetails`: the model sorts stably. In
  the category summary, categories with equal totals therefore keep the
  grouping order above, which is not pandas' sorted key order, so the summary
  rows and the details tabs may list tied categories in a different order than
  the source. Among detail rows with equal amounts the model keeps input
  order; pandas' default `sort_values` is not stable and does not promise one.
