# Patient dashboard table transformations, in Dafny

This project models the core of `PatientDashboard` (`patient_dashboard.py`): three table
transformations over patient discharge data.

- `add_total_expense_column` chooses expense columns. It takes either an explicit list or every
  column whose name starts with a prefix (default `expense_`). It then writes each patient's
  total into the derived column `added_amt`. Any cell that is not numeric counts as 0.
- `fetch_patient_phone` checks the required columns. It computes `added_amt` when that column
  is absent, reads the order flag case-insensitively, and keeps the ten highest (`top_10`) or
  lowest (`bottom_10`) spenders with their contact columns. Rows with a missing amount rank
  last in both directions, and an `added_amt` column holding text cannot be ranked.
- `fetch_patient_by_age` looks up each discharge row's `age` in a details table by
  `registrationno`. It projects the rows to eight report columns and sorts them oldest first.
  Rows without an age are kept and go last.

A table is an ordered list of column names plus a sequence of rows. Each row maps column names
to cells: `Num(int) | Text(string) | Missing`. Each raised `ValueError` becomes an error kind
in a `Result`, and so does the `TypeError` pandas raises when asked to rank text. Every operation is a pure function. Where the source changes the caller's table,
the model returns the changed table instead (see "Left out").

Modules:

- `Wrappers` (`wrappers.dfy`): `Option` and `Result`.
- `Strings` (`strings.dfy`): ASCII lower-casing, Python's string order, subsequences, and
  `join`/containment for message text.
- `Tables` (`tables.dfy`): cells, rows and tables, numeric coercion, projection, and column
  assignment.
- `Sorting` (`sorting.dfy`): sorting by a key with missing values last, plus the first-`n`
  selection behind `nlargest`/`nsmallest`.
- `Errors` (`errors.dfy`): error kinds and their message text.
- `Expense` (`expense.dfy`): `add_total_expense_column`.
- `Reports` (`reports.dfy`): `fetch_patient_phone` and `fetch_patient_by_age`.
- `Fixtures` (`fixtures.dfy`): the test suite's scenarios worked through the model.

Where the tests and the code disagree, the model follows the code:

- The test tables name their expense columns `expense0`…`expense8`. These do not match the
  default prefix `expense_`, so totalling them with the default selector fails with "no
  expense columns found" (`Fixtures.FixtureHasNoDefaultExpenseColumns`). Three tests stop
  there: the totalling test at tests/test_patient_dashboard.py:60, the top/bottom test at
  tests/test_patient_dashboard.py:72 and the age-report test at
  tests/test_patient_dashboard.py:97. The totalling fixture names the nine expense columns
  explicitly to get the totals the test means (45 and 54). The age-report fixture writes the
  totals that test means (45, 54 and 63) into `added_amt` itself and goes on from there.
- The invalid-order test expects a message the code never builds. Its table also lacks three
  required columns, so the missing-columns error is reported first
  (`Fixtures.InvalidOrderTableLacksRequiredColumns`).
- Discharge rows whose registration number is not in the details table are neither rejected
  nor dropped. They stay in the report with a missing age, after every row that has an age.
- `fetch_patient_by_age` does change the caller's discharge table: it adds the `age` column
  (`Reports.WithAge` is that changed table).

## Model

| member | source | states |
|---|---|---|
| Strings.StrLt | patient_dashboard.py:56 | Definition, no contract: Python's `<` on `str` (code points compared left to right, a proper prefix first), the order `sorted` uses. It is the reference in which `Reports.MissingRequired`'s sortedness is stated |
| Strings.Lower | patient_dashboard.py:64 | Lower-casing keeps the length, leaves no ASCII capital, leaves every other character as it was, and maps each capital to its lower-case letter |
| Errors.Message | patient_dashboard.py:32-71 | Definition, no contract: the message text of each error kind, as built at lines 33, 39, 44, 58 and 71, plus pandas' `TypeError` text for ranking a text column. It is the reference for `Errors.MessageNamesOffender` |
| Errors.MessageNamesOffender | patient_dashboard.py:32-71 | Every error message names the cause: each missing column, the prefix that matched nothing, the order value exactly as given, or the ranking method that refused a text `added_amt` |
| Tables.Coerce | patient_dashboard.py:47 | Definition, no contract: one cell through `pd.to_numeric(errors="coerce")` and `fillna(0)`. Numbers stay, text becomes what `parse` reads from it or 0, and a missing value becomes 0. It is the reference for `Expense.RowTotal` |
| Tables.ProjectRows | patient_dashboard.py:90 | Definition: `df[cols]` row by row (also at line 73), keeping each row's cells under the named columns. Its contract only keeps the row count; it is the reference in which `Reports.PhoneReport`, `Reports.FetchPatientByAge` and `Reports.RankThenProjectSameRows` are stated |
| Tables.SetColumn | patient_dashboard.py:48 | Assigning a column overwrites it in place if it exists, otherwise appends it as the last column; each row gets its value, every other cell is unchanged, and the table stays rectangular |
| Tables.ProjectRowsPermutation | patient_dashboard.py:90-91 | A standalone fact that no other member relies on: reordering rows commutes with selecting columns, so projections of two permutations of the same rows are permutations of each other |
| Sorting.Sort | patient_dashboard.py:91 | The result is a permutation of the input in which no element has a key that may not stand before a later one's: present keys in the chosen direction, missing keys last |
| Sorting.TakeFirst | patient_dashboard.py:66-68 | Keeps min(n, length) elements in key order, drawn from the input as a sub-multiset, and no left-out element ranks ahead of a kept one |
| Sorting.SortMap | patient_dashboard.py:66-73 | Sorting commutes with any mapping that keeps every element's key: mapping then sorting gives the same sequence as sorting then mapping |
| Sorting.TakeFirstMap | patient_dashboard.py:66-73 | Choosing the first `n` in key order commutes with any mapping that keeps every key: the same elements, mapped, in the same order |
| Expense.MissingFrom | patient_dashboard.py:30 | Lists the named columns absent from the table, in the order given, each as often as it was named, and nothing else |
| Expense.WithPrefix | patient_dashboard.py:41 | Lists exactly the table columns that start with the prefix, in table order |
| Expense.SelectExpenseFields | patient_dashboard.py:29-45 | A non-empty explicit list succeeds exactly when every name exists, and then is used as given; otherwise the error lists exactly the absent names. With no list, an empty or absent prefix is a configuration error. Otherwise it fails with "no expense columns" naming the prefix exactly when no column starts with it, and on success selects exactly the matching columns in table order |
| Expense.RowTotal | patient_dashboard.py:47-48 | Definition, no contract: `sum(axis=1)` over the selected fields of one row, each cell coerced by `Tables.Coerce`, a field listed twice counted twice. It is the reference for `Expense.AddTotalExpenseColumn` and the `RowTotal…` lemmas |
| Expense.AddTotalExpenseColumn | patient_dashboard.py:12-49 | Fails exactly when the selection fails, with the same error. On success the row count is unchanged, `added_amt` is appended or overwritten, every other cell is kept, and each row's `added_amt` is the coerced total over the selected columns |
| Expense.RowTotalAppend | patient_dashboard.py:47-48 | A total over two lists of columns joined together is the sum of the two totals |
| Expense.RowTotalReorder | patient_dashboard.py:47-48 | The order in which expense columns are listed does not change a total |
| Expense.RowTotalNonNegative | patient_dashboard.py:47-48 | If no selected cell coerces to a negative number, the total is non-negative |
| Expense.RowTotalReadsOnlyFields | patient_dashboard.py:47 | A total depends only on the selected cells |
| Expense.TotallingIgnoresContents | patient_dashboard.py:47 | Cell contents never cause totalling to fail: success and the error reported depend only on the column names and the selector |
| Expense.TotalsNonNegative | patient_dashboard.py:47-48 | If every selected expense cell coerces to a non-negative number (other cells may hold anything, including a negative old `added_amt`), every `added_amt` written is a non-negative number |
| Expense.TotallingIsIdempotent | patient_dashboard.py:27-49 | Totalling the result again with the same selector returns it unchanged, as long as the selector does not pick up `added_amt` itself |
| Reports.MissingRequired | patient_dashboard.py:53-56 | The missing required columns are reported each once, in strictly increasing string order, and are exactly the required columns the table lacks |
| Reports.WithTotals | patient_dashboard.py:61-62 | An existing `added_amt` is used as it is, whatever it holds. Otherwise the table is totalled with the default prefix, keeping its rows and columns and adding an `added_amt` that is a number in every row. It fails exactly when `added_amt` is absent and no column starts with `expense_`, and then with "no expense columns" for that prefix. With the required columns present, every report column is then present, and the amounts hold text exactly when the input's did |
| Reports.ParseOrder | patient_dashboard.py:64-69 | The flag selects largest-first exactly when it case-folds to `top_10`, smallest-first exactly when it folds to `bottom_10`, and nothing otherwise |
| Reports.AmountKey | patient_dashboard.py:66-68 | Definition, no contract: a row's `added_amt` as a sort key, with a missing amount (NaN) as `Absent`, which `Sorting.Before` ranks last both in `nlargest` and in `nsmallest`. It is the key `Reports.PhoneReport` ranks by |
| Reports.PhoneReport | patient_dashboard.py:65-73 | Returns the five report columns and min(10, rows) rows drawn from the projected input, none with a text amount. Rows with an amount come first, ordered non-increasing (top) or non-decreasing (bottom), and rows with a missing amount come last. No left-out row has a larger (top) or smaller (bottom) amount than a kept one, and none has an amount at all when a kept one has none |
| Reports.AmountKeyRanking | patient_dashboard.py:66-68 | Rows ranked by the amount key, missing amounts last, satisfy the ranking by amounts in `Reports.RankedByAmount` |
| Reports.RankThenProjectSameRows | patient_dashboard.py:66-73 | Ranking the whole rows and projecting the chosen ones afterwards, as the source does, gives exactly the rows, in the same order, of `Reports.PhoneReport`, which projects first |
| Reports.FetchPatientPhone | patient_dashboard.py:51-73 | Missing required columns are reported first, sorted. Next, with `added_amt` absent and no `expense_` column, comes "no expense columns" for `expense_`. Then an order flag that case-folds to neither value, quoted as given. Then an `added_amt` holding text, refused by `nlargest` (top) or `nsmallest` (bottom) with pandas' message. Otherwise the result is the ranking of the totalled table, descending exactly for `top_10` |
| Reports.OrderIsCaseInsensitive | patient_dashboard.py:64-72 | Order flags that fold to the same text give the same report; an invalid flag is quoted as each caller wrote it, and every other failure is the same for both |
| Reports.FoldedOrderSameReport | patient_dashboard.py:64 | Passing the flag already lower-cased gives the same report as the flag as written |
| Reports.SmallTablesKeepEveryRow | patient_dashboard.py:65-68 | With at most ten rows, the report is a reordering of all the projected rows |
| Reports.LookupAge | patient_dashboard.py:77-79 | The age is the one recorded for the registration number in the details table, or missing when no details row has that number |
| Reports.WithAge | patient_dashboard.py:77-79 | The discharge table gains (or has overwritten) an `age` column holding each row's looked-up age, and every other cell is unchanged |
| Reports.AgeKey | patient_dashboard.py:91 | Definition, no contract: a row's age as a sort key, with a missing age as `Absent`, which `sort_values` puts last (`na_position='last'`). It is the key `Reports.FetchPatientByAge` sorts by |
| Reports.AgesNotTextSuffices | patient_dashboard.py:77-79 | A details table holding no text age gives every discharge row a number or nothing as its looked-up age, whatever the discharge table is |
| Reports.FetchPatientByAge | patient_dashboard.py:75-91 | Returns the eight report columns and one row per discharge row, as a permutation of the projected joined rows. Each row's age is the one looked up for its own registration number, present ages never increase, and rows without an age come after all rows with one |
| Fixtures.FixtureHasNoDefaultExpenseColumns | tests/test_patient_dashboard.py:11-33 | Tables with the test suite's column layout fail default totalling with "no expense columns found with prefix `expense_`", whatever their rows hold |
| Fixtures.InvalidOrderTableLacksRequiredColumns | tests/test_patient_dashboard.py:82-87 | The invalid-order test's table fails on the missing columns `department, patientname, phone` before the order flag is read |
| Fixtures.TotalsOfTwoPatients | tests/test_patient_dashboard.py:53-62 | With the nine expense columns named explicitly, expenses 1..9 total 45 and expenses 2..10 total 54. The test itself uses the default selector and fails at line 60 with "no expense columns"; the fixture names the nine columns to get the totals the test means |
| Fixtures.AgeReportKeepsUnmatchedLast | tests/test_patient_dashboard.py:90-108 | Patient 2 (age 72) comes before patient 1 (age 65), and patient 3, who has no recorded age, is kept and comes last. The test itself stops earlier, at line 97, where default totalling of its `expense0`… columns fails; the fixture supplies the totals 45, 54 and 63 in `added_amt` directly |

## Left out

- `read_csv` and `to_csv` (patient_dashboard.py:8-10, 93-96) are file I/O through pandas and are not modelled.
- Numbers are exact integers, not pandas floats. `pd.to_numeric(errors="coerce")` on text is the function parameter `parse`. What `parse` accepts is not modelled. Whatever it accepts becomes that number, and anything else becomes 0.
- Expense.RowTotal: the total is an unbounded integer. With integer expense columns, `sum(axis=1)` at line 48 is an int64 sum that wraps around on overflow; that wrap-around is not modelled.
- Strings.Lower: folds ASCII letters only, not the full Unicode case mapping of `str.lower`.
- Sorting.Sort: which of two rows with equal keys comes first is this model's choice. pandas' default sort is not stable, and `nlargest`/`nsmallest` tie-breaking is a library detail, so no contract states an order among ties.
- Reports.FetchPatientByAge: requires the details table's registration numbers to be unique. pandas raises on a non-unique index there, and that error is not modelled.
- Reports.FetchPatientByAge: requires `registrationno` in the discharge table. Without it line 77 fails on the attribute access `.registrationno` with `AttributeError`, and that error is not modelled.
- Reports.FetchPatientByAge: requires the other report columns (apart from `age`) in the discharge table, and `registrationno` and `age` in the details table. pandas raises `KeyError` otherwise, and that error is not modelled.
- Reports.FetchPatientByAge: requires every age looked up for a discharge row to be a number or missing (`LookedUpAgesNotText`). Details rows that no discharge row refers to may hold anything. Looked-up text ages mixed with numbers make the sort at line 91 raise `TypeError`, and that error is not modelled. When every looked-up age is text, pandas sorts them as strings with unmatched rows last; the model does not cover that case.
- Reports.FetchPatientPhone: whether pandas can rank `added_amt` depends on the column's dtype. The model refuses exactly the columns holding some text. pandas also refuses other object columns, such as one holding only `None`; those are not modelled.
- Tables are rectangular with distinct column names (`Table.Valid`). Frames with duplicate column labels are not modelled.
- Mutation is not modelled. Each operation returns a new table. The source changes the caller's frame in three places. `add_total_expense_column` writes into it at line 48 (line 27 only makes `df` another name for the caller's frame), and the result is the changed frame. `fetch_patient_phone` changes it through the call at line 62 when `added_amt` is absent, and the frame becomes `Reports.WithTotals`. `fetch_patient_by_age` changes it at line 77, and the frame becomes `Reports.WithAge`.
- There is no "fail on unresolved registration numbers" option, because the code has none.
- The error messages are modelled as text (`Errors.Message`), but raising and catching exceptions is not.
