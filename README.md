# finance_categorizer core, modelled in Dafny

This project models the core of a personal-finance categoriser. The system reads bank
transaction CSV files, drops the transactions an ignore list names, and gives each
transaction a category by case-insensitive substring matching of merchant names. It
then aggregates the stored transactions per category and reads optional budgets. The
model covers these operations:

- `models.py`: the transaction and category records, `to_dict` and `Category.matches`.
- `categorizer.py`: first match wins over categories, then over merchants; a batch is
  categorized in place.
- `transaction_filter.py`: lower-cased ignore patterns and an order-preserving filter.
- `category_loader.py`: each CSV column becomes a category, the `ignore` column
  supplies the ignore patterns, and there are the two merchant-to-category maps.
- `budget_loader.py`: category/budget rows in, a budget map out; lookup,
  validation and the total.
- `csv_loader.py`: header classification and column mapping, file exclusion and
  skipping, `validate_data` and `to_transactions`.
- `analytics.py`: group-by-category summaries, their top slice and totals, the
  uncategorized count, the category count, the drill-down by category, and the
  list of all categories.
- `database.py` is reduced to what the analytics read from it. The store is a
  `seq<Transaction>` in id order (`ORDER BY id`). `get_by_category` is the
  order-preserving exact filter `Store.GetByCategory`.

Python string behaviour is written out in `strings.dfy`:

- `str.lower` covers ASCII and Latin-1.
- `str.strip` uses Python's whitespace set.
- `in` on strings is substring search.
- `<` on strings is lexicographic order.

For the budget and transaction files, pandas behaviour is modelled on a
`Tables.Table`: a header row plus rows of cells that are blank (NaN), text or a
number. A row shorter than the header reads as blank. The category file is modelled
as a sequence of `CategoryLoader.Column`s: a header and its cells, each either
missing (NaN) or already rendered to text by `str()`. Reading a file is not modelled:
it becomes the table or columns passed in. Two Python conversions are parameters of
the model:

- `float()` on text is `parse`, which returns `None` where `float()` raises.
- `str()` of a floating-point cell is `render`.

The two sorts are modelled as specifications: `Sorting.SortByKey` for Python's stable
`list.sort` and `sorted`, and `Analytics.SortByTotal` for pandas' `sort_values`. Next
to them is an in-place array insertion sort proved equal to the stable one.

Where the code and its documentation disagree, the model follows the code:

- `load_categories` keeps the non-blank cells after a blank one. The docstring says a
  blank cell ends a category's merchant list, but `dropna` only removes the blanks.
- The percentage of a summary is its share of the signed total of all amounts, not of
  spending. Without a non-zero total, every percentage is 0.
- `validate_data` also fails on a frame without rows, because `isna().all()` is true
  on an empty column. It changes the caller's frame by coercing `amount` to numbers,
  so the model returns the coerced frame.
- A missing budget category cell reads as the text `nan` (`str(NaN)`), so `nan` can be
  a budget key.
- Transactions carry no budget fields.
- `to_transactions` looks its columns up only when there is a row, so a frame without
  rows converts to an empty list whatever its headers.

## Model

| member | source | states |
|---|---|---|
| Models.NewTransaction | models.py:7-15 | a new transaction keeps date, signed amount and description, is `Uncategorized` and has no id |
| Models.ToDict | models.py:17-29 | the row has exactly the keys date, amount, description and category, never the id, each holding the transaction's field |
| Models.ToDictIgnoresId | models.py:17-29 | transactions that differ only in id give the same row |
| Models.MatchingMerchant | models.py:51-52 | the position of the first merchant whose lower-case form occurs in the lower-cased description; none exactly when no merchant occurs |
| Models.Matches | models.py:39-52 | `Category.matches`: some merchant is found in the description; its meaning is stated by `Models.MatchesIff` |
| Models.MatchesIff | models.py:39-52 | `matches` holds iff some merchant, lower-cased, is a substring of the lower-cased description |
| Models.NoMerchantsMatchNothing | models.py:52 | `any` over no merchants is false |
| Models.EmptyMerchantMatchesAll | models.py:52 | an empty merchant pattern matches every description |
| Categorizer.FindMatch | categorizer.py:42-50 | the nested loop stops at the first category, and within it the first merchant, that occurs in the description; none iff no category has a matching merchant |
| Categorizer.CategorizeTransaction | categorizer.py:25-53 | an empty description gives the default; the earliest matching category's name wins; with no match, the default; the result is always the default or a category name |
| Categorizer.GetMatchingCategory | categorizer.py:98-118 | the same category as `categorize_transaction`, together with the matched merchant as written, which is the first matching merchant of the earliest matching category; no merchant iff the description is empty or nothing matches |
| Categorizer.CategorizeIgnoresCase | categorizer.py:40-45 | descriptions with the same lower-case form get the same category |
| Categorizer.LaterCategoriesIgnored | categorizer.py:43-50 | once a category matches, appending more categories changes nothing |
| Categorizer.FindMatchPrefix | categorizer.py:43-50 | the scan's result does not depend on the categories after a matching one |
| Categorizer.CategorizeAll | categorizer.py:74-76 | one result per transaction, in order, each the input with only its category replaced by that of its description |
| Categorizer.CategorizeAllIdempotent | categorizer.py:55-96 | categorizing a categorized batch again changes nothing |
| Categorizer.CategorizeBatch | categorizer.py:55-96 | the array is updated in place to the categorized batch and the same array is returned |
| TransactionFilters.NewTransactionFilter | transaction_filter.py:13-20 | the stored patterns are the given ones lower-cased, in order |
| TransactionFilters.AnyPatternIn | transaction_filter.py:36-41 | the early-return loop answers whether some pattern occurs in the description |
| TransactionFilters.ShouldIgnore | transaction_filter.py:24-41 | ignore iff some stored pattern is a substring of the lower-cased description |
| TransactionFilters.FilterTransactions | transaction_filter.py:43-62 | every kept transaction comes from the input and is not ignored; never longer than the input |
| TransactionFilters.IgnoredCount | transaction_filter.py:55 | the number of ignored transactions; `FilterCount` equates it with the input count minus the kept count |
| TransactionFilters.FilterIsSubsequence | transaction_filter.py:54 | the kept transactions keep their relative order |
| TransactionFilters.FilterKeepsExactly | transaction_filter.py:54 | a non-ignored transaction is kept as often as it occurs, an ignored one never |
| TransactionFilters.FilterCount | transaction_filter.py:53-55 | kept count = original count minus the ignored count |
| TransactionFilters.FilterWithoutPatterns | transaction_filter.py:13-20 | with no patterns, nothing is dropped |
| TransactionFilters.FilterIdempotent | transaction_filter.py:43-62 | filtering twice equals filtering once |
| Store.GetByCategory | database.py:101-113 | the stored transactions of exactly that category, nothing else |
| Store.GetByCategoryAppend | database.py:113 | the query keeps id order: it distributes over concatenation |
| Store.GetByCategoryExact | database.py:113 | each matching transaction is returned as often as it is stored |
| Analytics.DistinctCategories | analytics.py:87 | each category of the store occurs once, no other value at all |
| Analytics.DistinctCategoriesCount | analytics.py:87 | as many groups as distinct categories |
| Analytics.GroupKeys | analytics.py:87-89 | the group keys are the distinct categories, each once, in alphabetical order |
| Analytics.Groups | analytics.py:87-91 | one group per key |
| Analytics.WithPercentages | analytics.py:93-98 | one percentage per group |
| Analytics.Percentage | analytics.py:94-98 | a group's share of the grand total in percent, 0 for every group when the grand total is 0; the shares add up to 100 by `Analytics.GroupByCategoryPercentages` |
| Analytics.SortByTotal | analytics.py:101 | `sort_values('total', ascending=False)` with one length per input; ordered and a permutation by the lemmas below |
| Analytics.GroupsPartition | analytics.py:87-91 | when every transaction's category is one key, the group counts add up to the number of transactions and the totals to the sum of the amounts |
| Analytics.WithPercentagesMeasures | analytics.py:93-98 | adding percentages keeps names, counts and totals; the percentages add up to the share of the grand total |
| Analytics.SortByTotalSorted | analytics.py:101 | sorting orders the summaries by descending total |
| Analytics.SortByTotalPermutes | analytics.py:101 | sorting keeps every summary (a permutation) |
| Analytics.SortByTotalNames | analytics.py:101 | sorting keeps the multiset of category names |
| Analytics.SortByTotalSums | analytics.py:101 | sorting keeps the sums of counts, totals and percentages |
| Analytics.GroupByCategory | analytics.py:70-74 | no transactions, no summaries |
| Analytics.GroupByCategoryNames | analytics.py:57-116 | the summaries name exactly the categories in the store, one summary per category |
| Analytics.GroupByCategoryOnce | analytics.py:57-116 | each stored category has exactly one summary; other names have none |
| Analytics.GroupByCategorySorted | analytics.py:100-101 | the summaries come in descending order of total |
| Analytics.GroupByCategoryPartition | analytics.py:87-91 | summary counts add up to the number of transactions and totals to the sum of all amounts |
| Analytics.GroupByCategorySummaries | analytics.py:87-112 | each summary holds the count (positive), sum and mean of its category's transactions and its share of the grand total |
| Analytics.GroupByCategoryPercentages | analytics.py:93-96 | with a non-zero grand total the percentages add up to 100 |
| Analytics.GetTotalStats | analytics.py:165-188 | the number of transactions, the sum of their amounts and their mean, with mean 0 for an empty store |
| Analytics.TotalStatsMatchSummaries | analytics.py:165-188 | the overall count and amount agree with the summaries' sums |
| Analytics.SliceEnd | analytics.py:153 | the end index of the Python slice `[:n]`, negative `n` counting from the end |
| Analytics.GetTopCategories | analytics.py:142-153 | a prefix of the summaries of `group_by_category` |
| Analytics.TopCategoriesAreTop | analytics.py:142-153 | the top categories are a prefix of the summaries; for `n >= 0` there are min(n, category count); no omitted category has a larger total than a kept one |
| Analytics.WithoutCategoryCount | analytics.py:198 | dropping one name removes exactly its occurrences |
| Analytics.GetUncategorizedCount | analytics.py:155-163 | at most the number of stored transactions, and 0 exactly when no stored transaction is `Uncategorized` |
| Analytics.UncategorizedCountMatchesSummary | analytics.py:155-163 | the `Uncategorized` summary's count equals the uncategorized count |
| Analytics.GetByCategoryEmpty | database.py:101-113 | the query is empty iff no stored transaction has that category |
| Analytics.UncategorizedCountZero | analytics.py:155-163 | the count is 0 iff no summary is named `Uncategorized` |
| Analytics.GetCategoryCount | analytics.py:190-198 | at most the number of summaries |
| Analytics.WithoutCategory | analytics.py:198 | the summaries whose category differs from the given one, and no others; `WithoutCategoryCount` gives its length |
| Analytics.CategoryCountIsDistinct | analytics.py:190-198 | the category count is the number of distinct stored categories other than `Uncategorized` |
| Analytics.GetAllCategories | analytics.py:236-245 | the summaries' names, sorted; sorted and complete by `Analytics.AllCategoriesSortedOnce` |
| Analytics.AllCategoriesSortedOnce | analytics.py:236-245 | all categories sorted alphabetically, each stored category exactly once |
| Analytics.Details | analytics.py:219-228 | one detail per transaction, in order, with its date, description and amount |
| Analytics.GetTransactionsByCategory | analytics.py:200-234 | the details of the category's transactions, stably sorted by date, or empty when there are none |
| Analytics.DrillDown | analytics.py:212-231 | the corrected result: the category's transactions projected and stably sorted by date; its properties are `Analytics.DrillDownSortedPermutation` and `Analytics.DrillDownStable` |
| Analytics.Detail | analytics.py:221-227 | the date, description and amount of one transaction; `Details` states the projection per transaction |
| Analytics.DrillDownSortedPermutation | analytics.py:231 | the drill-down is sorted by date and is a permutation of the category's details |
| Analytics.DrillDownStable | analytics.py:231 | details with the same date keep their id order |
| Analytics.GetTransactionsByCategoryAsWritten | analytics.py:212-228 | as written, the method returns `[]` exactly when the category is empty, else fails with the attribute error |
| Analytics.AsWrittenFailsOnStoredCategory | analytics.py:225-226 | a store with one "Coffee" transaction makes the written method fail, where the corrected one returns its detail |
| Sorting.SortByKey | analytics.py:231 | the stable sort by a key, also used by `sorted` at analytics.py:245; `SortByKeyPermutes`, `SortByKeySorted` and `SortByKeyStable` state that it is a permutation, ordered and stable |
| Sorting.SortByKeyPermutes | analytics.py:231 | the stable key sort is a permutation |
| Sorting.SortByKeySorted | analytics.py:231 | the stable key sort orders by key |
| Sorting.SortByKeyStable | analytics.py:231 | equal keys keep their input order |
| Sorting.SortInPlace | analytics.py:231 | the in-place insertion sort leaves the stable key sort of the input |
| CategoryLoader.BlankCellSkipped | category_loader.py:54 | a blank cell is dropped and the cells after it are still read |
| CategoryLoader.CleanCellsAppend | category_loader.py:54-57 | cleaning distributes over concatenation of cells |
| CategoryLoader.CleanCellsClean | category_loader.py:57 | every kept merchant is non-empty, stripped, not "nan" and the strip of a present cell |
| CategoryLoader.CleanCellsComplete | category_loader.py:57 | every present cell that survives cleaning is kept, stripped |
| CategoryLoader.CleanCells | category_loader.py:54-57 | `dropna` and the strip-and-filter comprehension, used for merchants and for the ignore patterns (category_loader.py:99-102); `CleanCellsClean`, `CleanCellsComplete`, `CleanCellsAppend` and `BlankCellSkipped` state that it keeps, in order, exactly the stripped non-blank cells other than "nan" |
| CategoryLoader.LoadCategories | category_loader.py:24-69 | the categories of the columns, or the error "No categories found in file" when none |
| CategoryLoader.CategoriesOf | category_loader.py:47-61 | the categories of the columns in order; stated by the three lemmas below |
| CategoryLoader.CategoriesOfAppend | category_loader.py:47-61 | categories keep the column order |
| CategoryLoader.CategoriesFromColumns | category_loader.py:47-61 | every category is a non-ignore column with its cleaned, non-empty merchants |
| CategoryLoader.ColumnsBecomeCategories | category_loader.py:47-61 | every non-ignore column with a merchant left becomes a category |
| CategoryLoader.IgnoreColumnIsNoCategory | category_loader.py:48-51 | no category is named `ignore` in any case |
| CategoryLoader.FirstIgnoreColumn | category_loader.py:91-95 | the first column whose header is `ignore` case-insensitively; none when no such column |
| CategoryLoader.LoadIgnorePatterns | category_loader.py:71-109 | the cleaned cells of the first ignore column, or none when there is no such column |
| CategoryLoader.MerchantPairs | category_loader.py:124-125 | each merchant lower-cased with its category name, in order |
| CategoryLoader.ValidateCategories | category_loader.py:111-135 | returns true; its map is the first-seen category per lower-cased merchant |
| CategoryLoader.GetMerchantToCategoryMap | category_loader.py:137-153 | the last-written category per lower-cased merchant |
| CategoryLoader.PairsMember | category_loader.py:123-125 | a pair is visited iff it is some category's merchant, lower-cased, with that category's name |
| CategoryLoader.MapKeys | category_loader.py:121-153 | both maps have exactly the lower-cased merchants as keys |
| CategoryLoader.FirstMapKeepsFirst | category_loader.py:126-132 | the first occurrence of a merchant decides the validation map |
| CategoryLoader.FirstMap | category_loader.py:126-132 | the map in which the first pair of a key wins; its keys by `MapKeys`, its values by `FirstMapKeepsFirst` |
| CategoryLoader.LastMap | category_loader.py:149-151 | the map in which every pair overwrites its key; its keys by `MapKeys`, its values by `LastMapKeepsLast` |
| CategoryLoader.LastMapKeepsLast | category_loader.py:149-151 | the last occurrence of a merchant decides the lookup map |
| CategoryLoader.MapsAgreeOnUniqueMerchants | category_loader.py:111-153 | a merchant listed under one category only maps to it in both maps |
| BudgetLoader.MissingColumns | budget_loader.py:49-51 | the missing required columns are exactly those of Category and Budget absent from the header |
| BudgetLoader.RowEntry | budget_loader.py:58-67 | an entry iff the stripped category is non-empty and the budget parses and is not negative; the entry's key is that stripped category and its value the parsed budget; a budget that does not parse skips the row |
| BudgetLoader.LoadBudgets | budget_loader.py:26-71 | no path gives no budgets; missing columns give the error listing them; otherwise the rows' budgets |
| BudgetLoader.BudgetsFrom | budget_loader.py:57-67 | the rows applied in order to a starting map; `BudgetsFromAppend` and `LoadedBudgetsValid` state that it splits over concatenation and adds only non-negative budgets |
| BudgetLoader.BudgetsOf | budget_loader.py:57-67 | the budgets of a file; `BudgetedIffNamed` gives a category a budget iff some row names it, `LastRowWins` says the last such row decides its value |
| BudgetLoader.NegativeBudgets | budget_loader.py:101 | exactly the budgets below zero, with their values |
| BudgetLoader.BudgetsFromAppend | budget_loader.py:57-67 | the rows are read in order: reading two blocks is reading the first then the second |
| BudgetLoader.SkippedRowHasNoEffect | budget_loader.py:60-64 | a row whose budget does not parse changes nothing, and later rows are still read |
| BudgetLoader.LoadedBudgetsValid | budget_loader.py:66-67 | every loaded category is non-empty and every budget non-negative |
| BudgetLoader.BudgetedIffNamed | budget_loader.py:57-67 | a category has a budget iff some valid row names it |
| BudgetLoader.LastRowWins | budget_loader.py:66-67 | the budget of a category is that of the last valid row naming it |
| BudgetLoader.GetBudgetForCategory | budget_loader.py:73-84 | the category's budget, or none when it has no entry |
| BudgetLoader.LoadedBudgetLookup | budget_loader.py:73-84 | a budget found is non-negative; a category no valid row names has none |
| BudgetLoader.ValidateBudgets | budget_loader.py:86-107 | valid iff no budget is negative (the empty map is valid) |
| BudgetLoader.LoadedBudgetsPassValidation | budget_loader.py:26-107 | loaded budgets always pass validation |
| BudgetLoader.GetTotalBudget | budget_loader.py:109-119 | `sum(budgets.values())`; stated by the three lemmas below |
| BudgetLoader.TotalBudgetRemove | budget_loader.py:109-119 | the total is any one budget plus the total of the rest |
| BudgetLoader.TotalBudgetBounds | budget_loader.py:109-119 | with non-negative budgets the total is non-negative and at least each budget |
| BudgetLoader.TotalBudgetUpdate | budget_loader.py:109-119 | after setting one budget, the total is that budget plus the total of the other categories |
| CsvLoader.Classify | csv_loader.py:44-51 | a header is classified into at most one of date, amount, description |
| CsvLoader.ClassifyPrecedence | csv_loader.py:45-51 | "date" wins over "amount", which wins over "description"/"desc", on the stripped lower-case header |
| CsvLoader.BuildColumnMapping | csv_loader.py:43-51 | the loop builds the column mapping of the headers |
| CsvLoader.ColumnMapping | csv_loader.py:43-51 | the key-to-column mapping of the headers; stated by the two lemmas below |
| CsvLoader.ColumnMappingLastWins | csv_loader.py:43-51 | a key is mapped iff some header is classified to it, and it maps to the last such header |
| CsvLoader.ColumnMappingInjective | csv_loader.py:43-51 | different keys map to different columns |
| CsvLoader.MissingKeys | csv_loader.py:54-55 | the missing keys are exactly the required ones not mapped |
| CsvLoader.Extract | csv_loader.py:60-63 | the extracted row is the date, amount and description cells |
| CsvLoader.ExtractRequired | csv_loader.py:25-67 | fails iff a required key is unmapped, listing the missing keys; otherwise a frame with exactly the three columns and every row extracted |
| CsvLoader.LoadFile | csv_loader.py:25-70 | `load_file` on a read table is the extraction above |
| CsvLoader.TransactionFiles | csv_loader.py:101-102 | exactly the files whose lower-case name contains neither "category" nor "budget" |
| CsvLoader.LoadDirectory | csv_loader.py:99-123 | no files left gives "No CSV files found"; no loadable file gives "No valid CSV files could be loaded"; otherwise the loaded frames' rows concatenated |
| CsvLoader.LoadedFramesFromFiles | csv_loader.py:109-116 | a frame is kept iff some remaining file loads to it |
| CsvLoader.IsTransactionFile | csv_loader.py:102 | the file-name test of the filter; `TransactionFiles` and `ExcludedFilesIgnored` state what it keeps and drops |
| CsvLoader.ConcatRows | csv_loader.py:120 | `ConcatRowsMember`: the combined rows are exactly the rows of the frames; `ConcatRowsAppend`: combining splits over concatenation of frame lists, so frame order is kept |
| CsvLoader.ConcatRowsMember | csv_loader.py:120 | a row is combined iff some loaded frame holds it |
| CsvLoader.ConcatRowsAppend | csv_loader.py:120 | combining splits over concatenation, keeping frame order |
| CsvLoader.ToNumeric | csv_loader.py:146 | coercion leaves no text: numbers and blanks are kept, text that parses becomes its number and other text becomes blank |
| CsvLoader.CoerceColumn | csv_loader.py:146 | only the amount column changes, each cell coerced |
| CsvLoader.DescriptionsAllBlank | csv_loader.py:153 | `isna().all()` on the description column, true on no rows; `ValidateData` fails exactly when it holds |
| CsvLoader.ValidateData | csv_loader.py:125-157 | succeeds iff the three columns exist and some description is present; the frame keeps its headers and rows, and its rows are the input's with only the amount column coerced, so every amount is a number or blank |
| CsvLoader.ExtractedFrameHasColumns | csv_loader.py:54-67 | a loaded frame has every required column |
| CsvLoader.FrameColumns | csv_loader.py:171-176 | the first position of each of "date", "amount" and "description" in the headers; none iff one is missing |
| CsvLoader.TransactionsOf | csv_loader.py:159-180 | one new `Uncategorized` transaction per row, in order, the i-th built from the i-th row's date, amount and description cells; fails iff there is a row and a column is missing or an amount does not convert |
| CsvLoader.RowTransaction | csv_loader.py:172-176 | the transaction of one row; `RowDefaults` states its defaults and carried-over cells |
| CsvLoader.ToTransactions | csv_loader.py:159-180 | the loop over the rows computes the conversion above |
| CsvLoader.RowDefaults | csv_loader.py:172-176 | a missing date or description becomes "", a missing amount 0; present cells carry over |
| CsvLoader.ValidatedFrameConverts | csv_loader.py:125-180 | a frame that passed `validate_data` always converts to transactions |

## Left out

- Reading files, paths and directories: `pd.read_csv`, the read-error paths, `Path.exists`/`is_dir`, `glob` with its pattern, and the `transactions/` subfolder fallback. The model takes the read tables and the list of files found as inputs.
- Logging throughout, `categorized_count` and the distribution in `categorize_batch` (they only feed log lines), `__repr__`, `get_summary_dataframe` and `get_category_summary` (formatting only).
- Floating point: amounts, totals, averages and percentages are exact reals. `float()` on text and `str()` of a float are the parameters `parse` and `render`. NaN and infinite budgets, and `float` results that are NaN, are not modelled.
- `str.lower` beyond Latin-1: other Unicode case mappings are not modelled.
- pandas renaming of duplicate headers; the model keeps the headers as given and reads the first column of a name.
- The store itself: SQLite, `insert_transactions`, `update_category`, ids and `get_transaction_count`. The store is the sequence `get_all_transactions` returns.
- Analytics.SortByTotal: `sort_values` uses an unstable sort, so the order of summaries with equal totals is unspecified; the model fixes one order (alphabetical among equal totals). Only the descending order and the permutation are claimed.
- Default arguments are not modelled as defaults: `get_top_categories`' `n=5` and the categorizer's `default_category="Uncategorized"` are ordinary parameters that every caller passes.
- Categorizer.CategorizeBatch: other references to the same transaction objects (aliasing outside the array) are not modelled.
- BudgetLoader.GetTotalBudget: a ghost function over reals; it is specified by the lemmas about removing and updating one entry, not by a loop.
- CsvLoader.ValidateData: the `except` branch around `to_numeric(errors='coerce')` is left out; with coercion it does not raise. The warning about coerced amounts is a log line.
- CsvLoader.LoadDirectory: a file that fails to load for any reason other than missing columns is not modelled; read errors are outside the model.

## Findings

| source | as written | input that shows it | evidently intended | confidence | as-written member | corrected member |
|---|---|---|---|---|---|---|
| analytics.py:221-227 | `TransactionDetail(..., nr_1=t.nr_1, nr_2=t.nr_2)` reads attributes that `Transaction` (models.py:7-15) does not have, so any category with stored transactions raises `AttributeError` | a store holding `Transaction("2024-01-15", -4.5, "STARBUCKS #123", "Coffee", id 1)`, asking for "Coffee" | the date, description and amount of each transaction of the category, sorted by date | not executed | Analytics.AsWrittenFailsOnStoredCategory | Analytics.GetTransactionsByCategory |
