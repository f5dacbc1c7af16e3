/** `add_total_expense_column`: choosing the expense columns and summing them per patient into
    the derived `added_amt` column. */
module Expense {
  import opened Wrappers
  import opened Strings
  import opened Tables
  import opened Errors

  /** The derived column holding each patient's total expense. */
  const TotalColumn := "added_amt"

  /** The prefix used when the caller names no expense columns. */
  const DefaultPrefix := "expense_"

  /** `r` lists the `names` absent from `columns`: in the order given, each as often as it was
      given, and nothing else. */
  ghost predicate ListsAbsent(r: seq<string>, names: seq<string>, columns: seq<string>) {
    && IsSubsequence(r, names)
    && forall c :: multiset(r)[c] == (if c in columns then 0 else multiset(names)[c])
  }

  /** `r` lists the `columns` whose name starts with `prefix`, in table order, and nothing else. */
  ghost predicate ListsPrefixed(r: seq<string>, columns: seq<string>, prefix: string) {
    && IsSubsequence(r, columns)
    && forall c :: multiset(r)[c] == (if prefix <= c then multiset(columns)[c] else 0)
  }

  /** `[col for col in names if col not in columns]` */
  function MissingFrom(names: seq<string>, columns: seq<string>): (r: seq<string>)
    ensures ListsAbsent(r, names, columns)
    decreases |names|
  {
    if |names| == 0 then []
    else
      var rest := MissingFrom(names[1..], columns);
      assert names == [names[0]] + names[1..];
      if names[0] in columns then
        assert multiset(rest)[names[0]] == 0;
        rest
      else
        [names[0]] + rest
  }

  /** `[col for col in columns if col.startswith(prefix)]` */
  function WithPrefix(columns: seq<string>, prefix: string): (r: seq<string>)
    ensures ListsPrefixed(r, columns, prefix)
    decreases |columns|
  {
    if |columns| == 0 then []
    else
      var rest := WithPrefix(columns[1..], prefix);
      assert columns == [columns[0]] + columns[1..];
      if prefix <= columns[0] then
        [columns[0]] + rest
      else
        assert multiset(rest)[columns[0]] == 0;
        rest
  }

  /** The expense column list the caller gave, with `None` read as the empty list: Python
      treats both as false in `if expense_columns:`. */
  function Given(expenseColumns: Option<seq<string>>): seq<string> {
    expenseColumns.GetOr([])
  }

  /** Chooses the columns to total: the explicit list when it is non-empty, which must name only
      existing columns, and otherwise every column starting with a non-empty prefix. */
  function SelectExpenseFields(columns: seq<string>, expenseColumns: Option<seq<string>>,
                               expensePrefix: Option<string>): (r: Result<seq<string>, Error>)
    ensures var given := Given(expenseColumns);
      |given| > 0 ==>
        && (r.Success? <==> forall c :: c in given ==> c in columns)
        && (r.Success? ==> r.value == given)
        && (r.Failure? ==> r.error.MissingExpenseColumns? && ListsAbsent(r.error.names, given, columns))
    ensures |Given(expenseColumns)| == 0 && (expensePrefix.None? || expensePrefix.value == "") ==>
      r == Failure(NoExpenseSelector)
    ensures |Given(expenseColumns)| == 0 && expensePrefix.Some? && expensePrefix.value != "" ==>
      var prefix := expensePrefix.value;
      && (r.Failure? <==> forall c :: c in columns ==> !(prefix <= c))
      && (r.Failure? ==> r.error == NoExpenseColumns(prefix))
      && (r.Success? ==> ListsPrefixed(r.value, columns, prefix))
    ensures r.Success? ==> |r.value| > 0 && forall c :: c in r.value ==> c in columns
  {
    var given := Given(expenseColumns);
    if |given| > 0 then
      var missing := MissingFrom(given, columns);
      if |missing| > 0 then
        assert missing[0] in multiset(missing);
        Failure(MissingExpenseColumns(missing))
      else
        assert forall c :: c in given ==> c in columns by {
          forall c | c in given ensures c in columns {
            assert multiset(missing)[c] == 0;
          }
        }
        Success(given)
    else if expensePrefix.None? || expensePrefix.value == "" then
      Failure(NoExpenseSelector)
    else
      var fields := WithPrefix(columns, expensePrefix.value);
      if |fields| == 0 then
        assert forall c :: c in columns ==> !(expensePrefix.value <= c) by {
          forall c | c in columns ensures !(expensePrefix.value <= c) {
            assert multiset(fields)[c] == 0;
          }
        }
        Failure(NoExpenseColumns(expensePrefix.value))
      else
        assert fields[0] in multiset(fields);
        assert expensePrefix.value <= fields[0];
        assert forall c :: c in fields ==> c in columns by {
          forall c | c in fields ensures c in columns {
            assert multiset(fields)[c] > 0;
          }
        }
        assert fields[0] in columns && expensePrefix.value <= fields[0];
        Success(fields)
  }

  /** The cell of `row` under `c`, or `Missing` when the row has no such column. */
  function CellAt(row: Row, c: string): Cell {
    if c in row then row[c] else Missing
  }

  /** One row's total: the sum over `fields` of each cell coerced to a number. A field listed
      twice is counted twice, as `df[fields].sum(axis=1)` does. */
  function RowTotal(row: Row, fields: seq<string>, parse: string -> Option<int>): int
    decreases |fields|
  {
    if |fields| == 0 then 0
    else Coerce(CellAt(row, fields[0]), parse) + RowTotal(row, fields[1..], parse)
  }

  /** `add_total_expense_column`: on success the table gains (or has overwritten) the
      `added_amt` column holding each row's total, and nothing else changes. */
  function AddTotalExpenseColumn(t: Table, expenseColumns: Option<seq<string>>,
                                 expensePrefix: Option<string>,
                                 parse: string -> Option<int>): (r: Result<Table, Error>)
    requires t.Valid()
    ensures var s := SelectExpenseFields(t.columns, expenseColumns, expensePrefix);
      && (r.Failure? <==> s.Failure?)
      && (r.Failure? ==> r.error == s.error)
    ensures r.Success? ==>
      && r.value.Valid()
      && r.value.columns == (if TotalColumn in t.columns then t.columns else t.columns + [TotalColumn])
      && |r.value.rows| == |t.rows|
    ensures r.Success? ==> forall k, c :: 0 <= k < |t.rows| && c in t.rows[k] && c != TotalColumn ==>
      c in r.value.rows[k] && r.value.rows[k][c] == t.rows[k][c]
    ensures r.Success? ==>
      var fields := SelectExpenseFields(t.columns, expenseColumns, expensePrefix).value;
      forall k :: 0 <= k < |t.rows| ==> r.value.rows[k][TotalColumn] == Num(RowTotal(t.rows[k], fields, parse))
  {
    var fields :- SelectExpenseFields(t.columns, expenseColumns, expensePrefix);
    var totals := seq(|t.rows|, k requires 0 <= k < |t.rows| => Num(RowTotal(t.rows[k], fields, parse)));
    Success(SetColumn(t, TotalColumn, totals))
  }

  /** Totals add up over a split of the field list. */
  lemma {:induction false} RowTotalAppend(row: Row, a: seq<string>, b: seq<string>, parse: string -> Option<int>)
    ensures RowTotal(row, a + b, parse) == RowTotal(row, a, parse) + RowTotal(row, b, parse)
    decreases |a|
  {
    if |a| == 0 {
      assert a + b == b;
    } else {
      assert (a + b)[1..] == a[1..] + b;
      RowTotalAppend(row, a[1..], b, parse);
    }
  }

  /** The order in which the expense columns are listed does not change a total. */
  lemma {:induction false} RowTotalReorder(row: Row, a: seq<string>, b: seq<string>, parse: string -> Option<int>)
    requires multiset(a) == multiset(b)
    ensures RowTotal(row, a, parse) == RowTotal(row, b, parse)
    decreases |a|
  {
    if |a| == 0 {
      assert |b| == |multiset(b)| == 0;
    } else {
      var x := a[0];
      assert x in multiset(b);
      var k :| 0 <= k < |b| && b[k] == x;
      var before, after := b[..k], b[k + 1..];
      assert b == before + [x] + after;
      RemoveMatching(a, b, k);
      RowTotalReorder(row, a[1..], before + after, parse);
      RowTotalAppend(row, before, [x], parse);
      RowTotalAppend(row, before + [x], after, parse);
      RowTotalAppend(row, before, after, parse);
    }
  }

  /** A total is non-negative when every selected cell coerces to a non-negative number. */
  lemma {:induction false} RowTotalNonNegative(row: Row, fields: seq<string>, parse: string -> Option<int>)
    requires forall i :: 0 <= i < |fields| ==> Coerce(CellAt(row, fields[i]), parse) >= 0
    ensures RowTotal(row, fields, parse) >= 0
    decreases |fields|
  {
    if |fields| > 0 {
      RowTotalNonNegative(row, fields[1..], parse);
    }
  }

  /** A total reads only the selected cells: rows that agree on them have the same total. */
  lemma {:induction false} RowTotalReadsOnlyFields(row1: Row, row2: Row, fields: seq<string>, parse: string -> Option<int>)
    requires forall i :: 0 <= i < |fields| ==> CellAt(row1, fields[i]) == CellAt(row2, fields[i])
    ensures RowTotal(row1, fields, parse) == RowTotal(row2, fields, parse)
    decreases |fields|
  {
    if |fields| > 0 {
      RowTotalReadsOnlyFields(row1, row2, fields[1..], parse);
    }
  }

  /** Cell contents never make totalling fail: whether it succeeds, and which error it
      reports, depends only on the column names and the selector. */
  lemma TotallingIgnoresContents(t1: Table, t2: Table, expenseColumns: Option<seq<string>>,
                                 expensePrefix: Option<string>, parse: string -> Option<int>)
    requires t1.Valid() && t2.Valid()
    requires t1.columns == t2.columns
    ensures AddTotalExpenseColumn(t1, expenseColumns, expensePrefix, parse).Success? <==>
            AddTotalExpenseColumn(t2, expenseColumns, expensePrefix, parse).Success?
    ensures AddTotalExpenseColumn(t1, expenseColumns, expensePrefix, parse).Failure? ==>
            AddTotalExpenseColumn(t1, expenseColumns, expensePrefix, parse).error ==
            AddTotalExpenseColumn(t2, expenseColumns, expensePrefix, parse).error
  {
  }

  /** Every total is non-negative when no selected cell is negative. */
  lemma TotalsNonNegative(t: Table, expenseColumns: Option<seq<string>>,
                          expensePrefix: Option<string>, parse: string -> Option<int>)
    requires t.Valid()
    requires AddTotalExpenseColumn(t, expenseColumns, expensePrefix, parse).Success?
    requires var fields := SelectExpenseFields(t.columns, expenseColumns, expensePrefix).value;
      forall k, i :: 0 <= k < |t.rows| && 0 <= i < |fields| ==> Coerce(CellAt(t.rows[k], fields[i]), parse) >= 0
    ensures var u := AddTotalExpenseColumn(t, expenseColumns, expensePrefix, parse).value;
      forall k :: 0 <= k < |u.rows| ==> u.rows[k][TotalColumn].Num? && u.rows[k][TotalColumn].n >= 0
  {
    var fields := SelectExpenseFields(t.columns, expenseColumns, expensePrefix).value;
    forall k | 0 <= k < |t.rows| ensures RowTotal(t.rows[k], fields, parse) >= 0 {
      RowTotalNonNegative(t.rows[k], fields, parse);
    }
  }

  /** Filtering by prefix distributes over appending one more column. */
  lemma {:induction false} WithPrefixAppend(columns: seq<string>, x: string, prefix: string)
    ensures WithPrefix(columns + [x], prefix) ==
            WithPrefix(columns, prefix) + (if prefix <= x then [x] else [])
    decreases |columns|
  {
    if |columns| == 0 {
      assert columns + [x] == [x];
      assert WithPrefix([x], prefix) == (if prefix <= x then [x] else []) + WithPrefix([], prefix);
    } else {
      assert (columns + [x])[1..] == columns[1..] + [x];
      assert (columns + [x])[0] == columns[0];
      WithPrefixAppend(columns[1..], x, prefix);
    }
  }

  /** The totalled table offers the selector the same expense columns as the original did,
      and `added_amt` is not among them. */
  lemma SameFieldsAfterTotalling(t: Table, expenseColumns: Option<seq<string>>,
                                 expensePrefix: Option<string>, parse: string -> Option<int>)
    requires t.Valid()
    requires AddTotalExpenseColumn(t, expenseColumns, expensePrefix, parse).Success?
    requires TotalColumn !in Given(expenseColumns)
    requires |Given(expenseColumns)| == 0 && expensePrefix.Some? ==> !(expensePrefix.value <= TotalColumn)
    ensures var u := AddTotalExpenseColumn(t, expenseColumns, expensePrefix, parse).value;
      var s := SelectExpenseFields(t.columns, expenseColumns, expensePrefix);
      && SelectExpenseFields(u.columns, expenseColumns, expensePrefix) == s
      && TotalColumn !in s.value
  {
    var u := AddTotalExpenseColumn(t, expenseColumns, expensePrefix, parse).value;
    var s := SelectExpenseFields(t.columns, expenseColumns, expensePrefix);
    if |Given(expenseColumns)| == 0 {
      var prefix := expensePrefix.value;
      if TotalColumn !in t.columns {
        WithPrefixAppend(t.columns, TotalColumn, prefix);
      }
      assert WithPrefix(u.columns, prefix) == WithPrefix(t.columns, prefix);
      assert multiset(s.value)[TotalColumn] == 0;
    }
  }

  /** One row comes through a second totalling unchanged when `added_amt` is not among the
      fields: the fields hold the same cells as before the first totalling. */
  lemma RetotalRowUnchanged(before: Row, once: Row, twice: Row, fields: seq<string>,
                            parse: string -> Option<int>)
    requires TotalColumn !in fields
    requires once.Keys == twice.Keys && once.Keys <= before.Keys + {TotalColumn}
    requires forall c :: c in before && c != TotalColumn ==> c in once && once[c] == before[c]
    requires forall c :: c in once && c != TotalColumn ==> twice[c] == once[c]
    requires TotalColumn in once && once[TotalColumn] == Num(RowTotal(before, fields, parse))
    requires twice[TotalColumn] == Num(RowTotal(once, fields, parse))
    ensures twice == once
  {
    forall i | 0 <= i < |fields| ensures CellAt(once, fields[i]) == CellAt(before, fields[i]) {
      assert fields[i] != TotalColumn;
    }
    RowTotalReadsOnlyFields(once, before, fields, parse);
  }

  /** Totalling a second time with the same selector changes nothing, provided the selector
      does not pick up `added_amt` itself (an explicit list naming it, or a prefix it starts
      with, would add the old totals in). */
  lemma TotallingIsIdempotent(t: Table, expenseColumns: Option<seq<string>>,
                              expensePrefix: Option<string>, parse: string -> Option<int>)
    requires t.Valid()
    requires AddTotalExpenseColumn(t, expenseColumns, expensePrefix, parse).Success?
    requires TotalColumn !in Given(expenseColumns)
    requires |Given(expenseColumns)| == 0 && expensePrefix.Some? ==> !(expensePrefix.value <= TotalColumn)
    ensures var u := AddTotalExpenseColumn(t, expenseColumns, expensePrefix, parse).value;
      AddTotalExpenseColumn(u, expenseColumns, expensePrefix, parse) == Success(u)
  {
    var u := AddTotalExpenseColumn(t, expenseColumns, expensePrefix, parse).value;
    var fields := SelectExpenseFields(t.columns, expenseColumns, expensePrefix).value;
    SameFieldsAfterTotalling(t, expenseColumns, expensePrefix, parse);
    var v := AddTotalExpenseColumn(u, expenseColumns, expensePrefix, parse).value;
    RetotalRowsUnchanged(t, u, v, fields, parse);
  }

  /** The row-by-row part of `TotallingIsIdempotent`: `u` is `t` totalled over `fields`, and
      `v` is `u` totalled over the same fields. */
  lemma RetotalRowsUnchanged(t: Table, u: Table, v: Table, fields: seq<string>, parse: string -> Option<int>)
    requires t.Valid() && u.Valid() && v.Valid()
    requires u.columns == v.columns
    requires u.columns == (if TotalColumn in t.columns then t.columns else t.columns + [TotalColumn])
    requires |u.rows| == |t.rows| && |v.rows| == |u.rows|
    requires TotalColumn !in fields
    requires forall k, c :: 0 <= k < |t.rows| && c in t.rows[k] && c != TotalColumn ==>
      c in u.rows[k] && u.rows[k][c] == t.rows[k][c]
    requires forall k, c :: 0 <= k < |u.rows| && c in u.rows[k] && c != TotalColumn ==>
      c in v.rows[k] && v.rows[k][c] == u.rows[k][c]
    requires forall k :: 0 <= k < |t.rows| ==> u.rows[k][TotalColumn] == Num(RowTotal(t.rows[k], fields, parse))
    requires forall k :: 0 <= k < |u.rows| ==> v.rows[k][TotalColumn] == Num(RowTotal(u.rows[k], fields, parse))
    ensures v.rows == u.rows
  {
    assert u.ColumnSet() == v.ColumnSet() == t.ColumnSet() + {TotalColumn};
    forall k | 0 <= k < |u.rows| ensures v.rows[k] == u.rows[k] {
      RetotalRowUnchanged(t.rows[k], u.rows[k], v.rows[k], fields, parse);
    }
  }
}
