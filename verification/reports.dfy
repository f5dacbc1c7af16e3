/** The two reports: `fetch_patient_phone` (the ten highest or lowest spenders) and
    `fetch_patient_by_age` (discharge rows joined with patient ages, oldest first). */
module Reports {
  import opened Wrappers
  import opened Strings
  import opened Tables
  import opened Sorting
  import opened Errors
  import opened Expense

  const IdColumn := "registrationno"
  const AgeColumn := "age"

  /** The columns `fetch_patient_phone` needs, as a set. */
  const RequiredColumns: set<string> := {"registrationno", "patientname", "phone", "department"}

  /** The same columns in Python's string order, the order they are reported in. */
  const RequiredSorted: seq<string> := ["department", "patientname", "phone", "registrationno"]

  /** The columns of the spenders report, in order. */
  const PhoneColumns: seq<string> := ["registrationno", "patientname", "phone", "department", "added_amt"]

  /** The columns of the age report, in order. */
  const AgeColumns: seq<string> :=
    ["registrationno", "phone", "patientname", "age", "cityname", "districtname", "statename", "added_amt"]

  /** How many rows the spenders report keeps. */
  const ReportSize := 10

  lemma RequiredSortedInOrder()
    ensures StrictlySorted(RequiredSorted)
  {
    assert StrLt("department", "patientname");
    assert StrLt("patientname"[1..], "phone"[1..]);
    assert StrLt("patientname", "phone");
    assert StrLt("phone", "registrationno");
  }

  /** `sorted(required_columns.difference(columns))`: the required columns the table lacks,
      each once, in Python's string order. */
  function MissingRequired(columns: seq<string>): (r: seq<string>)
    ensures StrictlySorted(r)
    ensures forall c :: c in r <==> c in RequiredColumns && c !in columns
  {
    var r := MissingFrom(RequiredSorted, columns);
    RequiredSortedInOrder();
    SubsequenceKeepsSorted(r, RequiredSorted);
    assert forall c :: c in r <==> c in RequiredColumns && c !in columns by {
      forall c ensures c in r <==> c in RequiredColumns && c !in columns {
        assert c in RequiredColumns <==> c in RequiredSorted;
        assert multiset(r)[c] == (if c in columns then 0 else multiset(RequiredSorted)[c]);
      }
    }
    r
  }

  /** The row has a number as its `added_amt`. */
  predicate HasAmount(row: Row) {
    CellAt(row, TotalColumn).Num?
  }

  /** The table has every column `fetch_patient_phone` needs. */
  predicate HasRequiredColumns(columns: seq<string>) {
    forall c :: c in RequiredColumns ==> c in columns
  }

  /** No column name starts with the default expense prefix. */
  predicate NoDefaultExpenseColumns(columns: seq<string>) {
    forall c :: c in columns ==> !(DefaultPrefix <= c)
  }

  /** A row's `added_amt` as a number (0 when it is not one). */
  function Amount(row: Row): int {
    match CellAt(row, TotalColumn)
    case Num(n) => n
    case _ => 0
  }

  /** A row's amount as a sort key; a missing amount (NaN) ranks last both in `nlargest` and
      in `nsmallest`. */
  function AmountKey(row: Row): SortKey {
    match CellAt(row, TotalColumn)
    case Num(n) => Value(n)
    case _ => Absent
  }

  /** A row's age as a sort key; a missing age sorts last. */
  function AgeKey(row: Row): SortKey {
    match CellAt(row, AgeColumn)
    case Num(n) => Value(n)
    case _ => Absent
  }

  /** An existing `added_amt` column holds no text: only numbers and missing values, the
      column types pandas can rank. */
  predicate TextFreeAmounts(t: Table) {
    TotalColumn in t.columns ==> forall k :: 0 <= k < |t.rows| ==> !CellAt(t.rows[k], TotalColumn).Text?
  }

  /** The table `fetch_patient_phone` ranks: the input itself when it already has `added_amt`,
      otherwise the input totalled with the default prefix. */
  function WithTotals(t: Table, parse: string -> Option<int>): (r: Result<Table, Error>)
    requires t.Valid()
    ensures TotalColumn in t.columns ==> r == Success(t)
    ensures TotalColumn !in t.columns ==> r == AddTotalExpenseColumn(t, None, Some(DefaultPrefix), parse)
    // The only way to fail: no `added_amt` and no column with the default prefix.
    ensures r.Failure? <==> TotalColumn !in t.columns && NoDefaultExpenseColumns(t.columns)
    ensures r.Failure? ==> r.error == NoExpenseColumns(DefaultPrefix)
    ensures r.Success? ==>
      && r.value.Valid()
      && |r.value.rows| == |t.rows|
      && (forall c :: c in t.columns ==> c in r.value.columns)
      && TotalColumn in r.value.columns
      && (TextFreeAmounts(r.value) <==> TextFreeAmounts(t))
    // With the required columns present, every report column is present.
    ensures r.Success? && HasRequiredColumns(t.columns) ==>
      forall c :: c in PhoneColumns ==> c in r.value.columns
    // A computed `added_amt` is a number in every row.
    ensures r.Success? && TotalColumn !in t.columns ==>
      forall k :: 0 <= k < |r.value.rows| ==> HasAmount(r.value.rows[k])
  {
    if TotalColumn in t.columns then Success(t)
    else AddTotalExpenseColumn(t, None, Some(DefaultPrefix), parse)
  }

  /** `x` is the projection of one of `rows` onto `cols`. */
  ghost predicate IsProjectionOf(x: Row, rows: seq<Row>, cols: seq<string>) {
    exists k :: 0 <= k < |rows| && x == Project(rows[k], cols)
  }

  /** Rows chosen from the projections of `rows` onto `cols` are projections of single rows. */
  lemma SelectedAreProjections(rows: seq<Row>, cols: seq<string>, chosen: seq<Row>)
    requires multiset(chosen) <= multiset(ProjectRows(rows, cols))
    ensures forall i :: 0 <= i < |chosen| ==> IsProjectionOf(chosen[i], rows, cols)
  {
    forall i | 0 <= i < |chosen| ensures IsProjectionOf(chosen[i], rows, cols) {
      assert chosen[i] in multiset(chosen);
      assert chosen[i] in multiset(ProjectRows(rows, cols));
      var k :| 0 <= k < |rows| && ProjectRows(rows, cols)[k] == chosen[i];
      assert chosen[i] == Project(rows[k], cols);
    }
  }

  /** A projection onto columns the row has holds exactly those columns. */
  lemma ProjectKeys(row: Row, cols: seq<string>)
    requires forall c :: c in cols ==> c in row
    ensures Project(row, cols).Keys == set c | c in cols
  {
  }

  /** Projections of valid rows onto existing, distinct columns form a valid table. */
  lemma ChosenTableValid(src: Table, cols: seq<string>, chosen: seq<Row>)
    requires src.Valid()
    requires Distinct(cols)
    requires forall c :: c in cols ==> c in src.columns
    requires multiset(chosen) <= multiset(ProjectRows(src.rows, cols))
    ensures Table(cols, chosen).Valid()
    ensures forall i :: 0 <= i < |chosen| ==> IsProjectionOf(chosen[i], src.rows, cols)
  {
    SelectedAreProjections(src.rows, cols, chosen);
    forall i | 0 <= i < |chosen| ensures chosen[i].Keys == set c | c in cols {
      var k :| 0 <= k < |src.rows| && chosen[i] == Project(src.rows[k], cols);
      ProjectKeys(src.rows[k], cols);
    }
  }

  /** The ranking step of `fetch_patient_phone` (`nlargest(10)` when `descending`, else
      `nsmallest(10)`), projected to the report columns. The source ranks first and projects
      after; `RankThenProjectSameRows` shows that both orders give the same rows. */
  function PhoneReport(src: Table, descending: bool): (r: Table)
    requires src.Valid()
    requires TextFreeAmounts(src)
    requires forall c :: c in PhoneColumns ==> c in src.columns
    ensures r.Valid()
    ensures r.columns == PhoneColumns
    ensures |r.rows| == Min(ReportSize, |src.rows|)
    ensures forall i :: 0 <= i < |r.rows| ==> !CellAt(r.rows[i], TotalColumn).Text?
    ensures multiset(r.rows) <= multiset(ProjectRows(src.rows, PhoneColumns))
    ensures RankedByAmount(ProjectRows(src.rows, PhoneColumns), r.rows, descending)
  {
    var projected := ProjectRows(src.rows, PhoneColumns);
    var chosen := TakeFirst(projected, AmountKey, descending, ReportSize);
    ChosenReportRows(src, chosen);
    AmountKeyRanking(projected, chosen, descending);
    Table(PhoneColumns, chosen)
  }

  /** Rows chosen from the projections onto the report columns form a valid report whose
      amounts hold no text. */
  lemma ChosenReportRows(src: Table, chosen: seq<Row>)
    requires src.Valid()
    requires TextFreeAmounts(src)
    requires forall c :: c in PhoneColumns ==> c in src.columns
    requires multiset(chosen) <= multiset(ProjectRows(src.rows, PhoneColumns))
    ensures Table(PhoneColumns, chosen).Valid()
    ensures forall i :: 0 <= i < |chosen| ==> !CellAt(chosen[i], TotalColumn).Text?
  {
    PhoneColumnsDistinct();
    ChosenTableValid(src, PhoneColumns, chosen);
    forall i | 0 <= i < |chosen| ensures !CellAt(chosen[i], TotalColumn).Text? {
      assert IsProjectionOf(chosen[i], src.rows, PhoneColumns);
      var k :| 0 <= k < |src.rows| && chosen[i] == Project(src.rows[k], PhoneColumns);
      assert !CellAt(src.rows[k], TotalColumn).Text?;
    }
  }

  /** `a` ranks no lower than `b`: larger (descending) or smaller (ascending) amounts first. */
  predicate AtLeastAsHigh(a: int, b: int, descending: bool) {
    if descending then a >= b else a <= b
  }

  /** `rows`, chosen from `all`, are ranked by amount: a row with an amount comes only after
      rows with amounts that rank at least as high, and a row left out of `all` that has an
      amount never ranks higher than a chosen one, which then has an amount too. Missing
      amounts (NaN) thus come last in both directions. */
  predicate RankedByAmount(all: seq<Row>, rows: seq<Row>, descending: bool) {
    && (forall i, j :: 0 <= i < j < |rows| && HasAmount(rows[j]) ==>
          HasAmount(rows[i]) && AtLeastAsHigh(Amount(rows[i]), Amount(rows[j]), descending))
    && (forall x, y :: x in multiset(all) - multiset(rows) && y in rows && HasAmount(x) ==>
          HasAmount(y) && AtLeastAsHigh(Amount(y), Amount(x), descending))
  }

  /** One comparison of amount keys read back as a comparison of amounts. */
  lemma BeforeByAmount(a: Row, b: Row, descending: bool)
    requires Before(AmountKey(a), AmountKey(b), descending)
    requires HasAmount(b)
    ensures HasAmount(a) && AtLeastAsHigh(Amount(a), Amount(b), descending)
  {
  }

  /** Ranking by the amount key, read back as comparisons of amounts. */
  lemma AmountKeyRanking(all: seq<Row>, chosen: seq<Row>, descending: bool)
    requires Sorted(chosen, AmountKey, descending)
    requires forall x, y :: x in multiset(all) - multiset(chosen) && y in chosen ==>
      Before(AmountKey(y), AmountKey(x), descending)
    ensures RankedByAmount(all, chosen, descending)
  {
    forall i, j | 0 <= i < j < |chosen| && HasAmount(chosen[j])
      ensures HasAmount(chosen[i]) && AtLeastAsHigh(Amount(chosen[i]), Amount(chosen[j]), descending)
    {
      BeforeByAmount(chosen[i], chosen[j], descending);
    }
    forall x, y | x in multiset(all) - multiset(chosen) && y in chosen && HasAmount(x)
      ensures HasAmount(y) && AtLeastAsHigh(Amount(y), Amount(x), descending)
    {
      BeforeByAmount(y, x, descending);
    }
  }

  /** Projecting to the report columns keeps a row's amount key. */
  lemma ProjectKeepsAmount(row: Row)
    ensures AmountKey(Project(row, PhoneColumns)) == AmountKey(row)
  {
    assert TotalColumn in PhoneColumns;
  }

  /** The source ranks the whole rows (`nlargest`/`nsmallest` at lines 66-68) and projects the
      chosen ones afterwards (line 73). That picks exactly the rows, in the same order, that
      `PhoneReport` gets by projecting first. */
  lemma RankThenProjectSameRows(src: Table, descending: bool)
    requires src.Valid()
    requires TextFreeAmounts(src)
    requires forall c :: c in PhoneColumns ==> c in src.columns
    ensures PhoneReport(src, descending).rows ==
      ProjectRows(TakeFirst(src.rows, AmountKey, descending, ReportSize), PhoneColumns)
  {
    var f := (row: Row) => Project(row, PhoneColumns);
    forall row ensures AmountKey(f(row)) == AmountKey(row) {
      ProjectKeepsAmount(row);
    }
    TakeFirstMap(src.rows, f, AmountKey, AmountKey, descending, ReportSize);
    assert ProjectRows(src.rows, PhoneColumns) == MapSeq(f, src.rows);
    var chosen := TakeFirst(src.rows, AmountKey, descending, ReportSize);
    assert ProjectRows(chosen, PhoneColumns) == MapSeq(f, chosen);
  }

  lemma PhoneColumnsDistinct()
    ensures Distinct(PhoneColumns)
  {
  }

  lemma AgeColumnsDistinct()
    ensures Distinct(AgeColumns)
  {
  }

  /** The order flag read without regard to letter case: `Some(true)` (largest first) for
      `top_10`, `Some(false)` for `bottom_10`, and `None` for anything else. */
  function ParseOrder(order: string): (r: Option<bool>)
    ensures r == Some(true) <==> Lower(order) == "top_10"
    ensures r == Some(false) <==> Lower(order) == "bottom_10"
    ensures r == None <==> Lower(order) != "top_10" && Lower(order) != "bottom_10"
  {
    var normalized := Lower(order);
    if normalized == "top_10" then Some(true)
    else if normalized == "bottom_10" then Some(false)
    else None
  }

  /** The name of the pandas method that ranks in the given direction. */
  function RankMethod(descending: bool): string {
    if descending then "nlargest" else "nsmallest"
  }

  /** `fetch_patient_phone`: checks the required columns, computes `added_amt` when it is
      absent, then ranks by the case-folded order flag. */
  function FetchPatientPhone(t: Table, order: string, parse: string -> Option<int>): (r: Result<Table, Error>)
    requires t.Valid()
    // Missing required columns are reported first, each once and sorted.
    ensures !HasRequiredColumns(t.columns) ==>
      && r.Failure? && r.error.MissingRequiredColumns?
      && StrictlySorted(r.error.names)
      && (forall c :: c in r.error.names <==> c in RequiredColumns && c !in t.columns)
    // Then a failure to compute the absent `added_amt` with the default prefix.
    ensures (HasRequiredColumns(t.columns) && TotalColumn !in t.columns && NoDefaultExpenseColumns(t.columns)) ==>
      r == Failure(NoExpenseColumns(DefaultPrefix))
    // Then an order flag that is neither value in any letter case, quoted as given.
    ensures (HasRequiredColumns(t.columns) && WithTotals(t, parse).Success?
             && Lower(order) != "top_10" && Lower(order) != "bottom_10") ==>
      r == Failure(InvalidOrder(order))
    // Then an existing `added_amt` holding text, which the ranking method refuses.
    ensures (HasRequiredColumns(t.columns) && !TextFreeAmounts(t)
             && (Lower(order) == "top_10" || Lower(order) == "bottom_10")) ==>
      r == Failure(UnrankableAmounts(RankMethod(Lower(order) == "top_10")))
    // Otherwise the ranking of the totalled table, largest first exactly for `top_10`.
    ensures (HasRequiredColumns(t.columns) && WithTotals(t, parse).Success?
             && TextFreeAmounts(t) && (Lower(order) == "top_10" || Lower(order) == "bottom_10")) ==>
      r == Success(PhoneReport(WithTotals(t, parse).value, Lower(order) == "top_10"))
    ensures r.Success? ==>
      && r.value.Valid()
      && r.value.columns == PhoneColumns
      && |r.value.rows| == Min(ReportSize, |t.rows|)
  {
    var missing := MissingRequired(t.columns);
    if |missing| > 0 then
      Failure(MissingRequiredColumns(missing))
    else
      var src :- WithTotals(t, parse);
      match ParseOrder(order)
      case Some(descending) =>
        if TextFreeAmounts(src) then Success(PhoneReport(src, descending))
        else Failure(UnrankableAmounts(RankMethod(descending)))
      case None => Failure(InvalidOrder(order))
  }

  /** Registration numbers identify the rows of the details table. */
  predicate UniqueIds(rows: seq<Row>) {
    forall i, j :: 0 <= i < j < |rows| ==> CellAt(rows[i], IdColumn) != CellAt(rows[j], IdColumn)
  }

  /** The details table holds numbers or nothing as ages. */
  predicate AgesNotText(rows: seq<Row>) {
    forall k :: 0 <= k < |rows| ==> !CellAt(rows[k], AgeColumn).Text?
  }

  /** The age recorded for `id` in the details rows, or `Missing` when no row has that
      registration number: one lookup of `registrationno.map(details.set_index(...)['age'])`. */
  function LookupAge(details: seq<Row>, id: Cell): (r: Cell)
    requires UniqueIds(details)
    ensures (forall k :: 0 <= k < |details| ==> CellAt(details[k], IdColumn) != id) ==> r == Missing
    ensures forall k :: 0 <= k < |details| && CellAt(details[k], IdColumn) == id ==>
      r == CellAt(details[k], AgeColumn)
    decreases |details|
  {
    if |details| == 0 then Missing
    else if CellAt(details[0], IdColumn) == id then CellAt(details[0], AgeColumn)
    else
      assert UniqueIds(details[1..]) by {
        forall i, j | 0 <= i < j < |details[1..]|
          ensures CellAt(details[1..][i], IdColumn) != CellAt(details[1..][j], IdColumn)
        {
          assert details[1..][i] == details[i + 1] && details[1..][j] == details[j + 1];
        }
      }
      var r := LookupAge(details[1..], id);
      assert forall k :: 1 <= k < |details| ==> details[k] == details[1..][k - 1];
      r
  }

  /** Every age looked up for a discharge row is a number or missing: the ages the sort sees.
      Text there is outside the model: mixed with numbers it makes pandas' sort raise, and on
      its own it sorts as strings. Details rows no discharge row refers to may hold anything. */
  predicate LookedUpAgesNotText(discharge: Table, details: Table)
    requires UniqueIds(details.rows)
  {
    forall k :: 0 <= k < |discharge.rows| ==> !LookupAge(details.rows, CellAt(discharge.rows[k], IdColumn)).Text?
  }

  /** A details table without text ages meets the requirement for any discharge table. */
  lemma AgesNotTextSuffices(discharge: Table, details: Table)
    requires UniqueIds(details.rows)
    requires AgesNotText(details.rows)
    ensures LookedUpAgesNotText(discharge, details)
  {
    forall k | 0 <= k < |discharge.rows|
      ensures !LookupAge(details.rows, CellAt(discharge.rows[k], IdColumn)).Text?
    {
      var id := CellAt(discharge.rows[k], IdColumn);
      if m :| 0 <= m < |details.rows| && CellAt(details.rows[m], IdColumn) == id {
        assert !CellAt(details.rows[m], AgeColumn).Text?;
      }
    }
  }

  /** The discharge table after the source's line 77: an `age` column with each row's looked-up
      age, every other cell unchanged. The source makes this change to the caller's table. */
  function WithAge(discharge: Table, details: Table): (r: Table)
    requires discharge.Valid()
    requires UniqueIds(details.rows)
    ensures r.Valid()
    ensures r.columns == if AgeColumn in discharge.columns then discharge.columns else discharge.columns + [AgeColumn]
    ensures |r.rows| == |discharge.rows|
    ensures forall k :: 0 <= k < |r.rows| ==>
      r.rows[k][AgeColumn] == LookupAge(details.rows, CellAt(discharge.rows[k], IdColumn))
    ensures forall k, c :: 0 <= k < |r.rows| && c in discharge.rows[k] && c != AgeColumn ==>
      c in r.rows[k] && r.rows[k][c] == discharge.rows[k][c]
  {
    var ages := seq(|discharge.rows|, k requires 0 <= k < |discharge.rows| =>
      LookupAge(details.rows, CellAt(discharge.rows[k], IdColumn)));
    SetColumn(discharge, AgeColumn, ages)
  }

  /** Each reported row carries the age looked up for its own registration number. */
  lemma ReportedAgesLookedUp(discharge: Table, details: Table, reported: seq<Row>)
    requires discharge.Valid()
    requires IdColumn in discharge.columns
    requires UniqueIds(details.rows)
    requires LookedUpAgesNotText(discharge, details)
    requires forall i :: 0 <= i < |reported| ==> IsProjectionOf(reported[i], WithAge(discharge, details).rows, AgeColumns)
    ensures forall i :: 0 <= i < |reported| ==>
      && AgeColumn in reported[i] && IdColumn in reported[i]
      && reported[i][AgeColumn] == LookupAge(details.rows, reported[i][IdColumn])
      && (reported[i][AgeColumn].Num? || reported[i][AgeColumn].Missing?)
  {
    var joined := WithAge(discharge, details);
    forall i | 0 <= i < |reported|
      ensures && AgeColumn in reported[i] && IdColumn in reported[i]
              && reported[i][AgeColumn] == LookupAge(details.rows, reported[i][IdColumn])
              && (reported[i][AgeColumn].Num? || reported[i][AgeColumn].Missing?)
    {
      assert IsProjectionOf(reported[i], joined.rows, AgeColumns);
      var k :| 0 <= k < |joined.rows| && reported[i] == Project(joined.rows[k], AgeColumns);
      ProjectedAgeLookedUp(discharge, details, k);
    }
  }

  /** One joined row, projected to the report columns, carries the age looked up for its own
      registration number. */
  lemma ProjectedAgeLookedUp(discharge: Table, details: Table, k: int)
    requires discharge.Valid()
    requires IdColumn in discharge.columns
    requires UniqueIds(details.rows)
    requires LookedUpAgesNotText(discharge, details)
    requires 0 <= k < |discharge.rows|
    ensures var row := Project(WithAge(discharge, details).rows[k], AgeColumns);
      && AgeColumn in row && IdColumn in row
      && row[AgeColumn] == LookupAge(details.rows, row[IdColumn])
      && (row[AgeColumn].Num? || row[AgeColumn].Missing?)
  {
    var joined := WithAge(discharge, details);
    assert IdColumn in discharge.rows[k];
    var id := discharge.rows[k][IdColumn];
    assert joined.rows[k][IdColumn] == id;
    assert !LookupAge(details.rows, CellAt(discharge.rows[k], IdColumn)).Text?;
  }

  /** Sorted by the age key, descending: present ages never increase, and a missing age is
      never followed by a present one. */
  lemma OldestFirst(rows: seq<Row>)
    requires Sorted(rows, AgeKey, true)
    requires forall i :: 0 <= i < |rows| ==> AgeColumn in rows[i]
    ensures forall i, j :: 0 <= i < j < |rows| && rows[j][AgeColumn].Num? ==>
      rows[i][AgeColumn].Num? && rows[i][AgeColumn].n >= rows[j][AgeColumn].n
  {
    forall i, j | 0 <= i < j < |rows| && rows[j][AgeColumn].Num?
      ensures rows[i][AgeColumn].Num? && rows[i][AgeColumn].n >= rows[j][AgeColumn].n
    {
      assert Before(AgeKey(rows[i]), AgeKey(rows[j]), true);
    }
  }

  /** What the age report needs of its inputs: the report's columns other than `age` in the
      discharge table, and a details table keyed uniquely by registration number that gives
      every discharge row a number or nothing as its age. */
  predicate AgeReportInputs(discharge: Table, details: Table) {
    && discharge.Valid() && details.Valid()
    && (forall c :: c in AgeColumns && c != AgeColumn ==> c in discharge.columns)
    && IdColumn in details.columns && AgeColumn in details.columns
    && UniqueIds(details.rows)
    && LookedUpAgesNotText(discharge, details)
  }

  /** `fetch_patient_by_age`: every discharge row with its age, projected to the report
      columns and ordered oldest first, rows without an age last. */
  function FetchPatientByAge(discharge: Table, details: Table): (r: Table)
    requires AgeReportInputs(discharge, details)
    ensures r.Valid()
    ensures r.columns == AgeColumns
    ensures |r.rows| == |discharge.rows|
    ensures multiset(r.rows) == multiset(ProjectRows(WithAge(discharge, details).rows, AgeColumns))
    ensures forall i :: 0 <= i < |r.rows| ==> r.rows[i][AgeColumn] == LookupAge(details.rows, r.rows[i][IdColumn])
    ensures forall i :: 0 <= i < |r.rows| ==> r.rows[i][AgeColumn].Num? || r.rows[i][AgeColumn].Missing?
    ensures forall i, j :: 0 <= i < j < |r.rows| && r.rows[j][AgeColumn].Num? ==>
      r.rows[i][AgeColumn].Num? && r.rows[i][AgeColumn].n >= r.rows[j][AgeColumn].n
  {
    var joined := WithAge(discharge, details);
    var projected := ProjectRows(joined.rows, AgeColumns);
    var sorted := Sort(projected, AgeKey, true);
    AgeColumnsDistinct();
    ChosenTableValid(joined, AgeColumns, sorted);
    ReportedAgesLookedUp(discharge, details, sorted);
    OldestFirst(sorted);
    Table(AgeColumns, sorted)
  }

  /** The order flag is read without regard to letter case: flags that fold to the same text
      give the same report, and an invalid flag is quoted as each caller wrote it. */
  lemma OrderIsCaseInsensitive(t: Table, order1: string, order2: string, parse: string -> Option<int>)
    requires t.Valid()
    requires Lower(order1) == Lower(order2)
    ensures FetchPatientPhone(t, order1, parse).Success? <==> FetchPatientPhone(t, order2, parse).Success?
    ensures FetchPatientPhone(t, order1, parse).Success? ==>
      FetchPatientPhone(t, order1, parse) == FetchPatientPhone(t, order2, parse)
    ensures FetchPatientPhone(t, order1, parse) == Failure(InvalidOrder(order1)) ==>
      FetchPatientPhone(t, order2, parse) == Failure(InvalidOrder(order2))
    // Every other failure is the same for both flags.
    ensures FetchPatientPhone(t, order1, parse).Failure? && !FetchPatientPhone(t, order1, parse).error.InvalidOrder? ==>
      FetchPatientPhone(t, order1, parse) == FetchPatientPhone(t, order2, parse)
  {
    assert ParseOrder(order1) == ParseOrder(order2);
    var missing := MissingRequired(t.columns);
    if |missing| > 0 {
      assert FetchPatientPhone(t, order1, parse) == Failure(MissingRequiredColumns(missing));
      assert FetchPatientPhone(t, order2, parse) == Failure(MissingRequiredColumns(missing));
    } else if WithTotals(t, parse).Failure? {
      assert FetchPatientPhone(t, order1, parse) == Failure(WithTotals(t, parse).error);
      assert FetchPatientPhone(t, order2, parse) == Failure(WithTotals(t, parse).error);
    } else {
      var src := WithTotals(t, parse).value;
      match ParseOrder(order1)
      case Some(descending) =>
        var expected := if TextFreeAmounts(src) then Success(PhoneReport(src, descending))
                        else Failure(UnrankableAmounts(RankMethod(descending)));
        assert FetchPatientPhone(t, order1, parse) == expected;
        assert FetchPatientPhone(t, order2, parse) == expected;
      case None =>
        assert FetchPatientPhone(t, order1, parse) == Failure(InvalidOrder(order1));
        assert FetchPatientPhone(t, order2, parse) == Failure(InvalidOrder(order2));
    }
  }

  lemma SubMultisetOfSameSize<T>(a: multiset<T>, b: multiset<T>)
    requires a <= b
    requires |a| == |b|
    ensures a == b
  {
    var d := b - a;
    assert b == a + d;
    assert |d| == 0;
  }

  /** With at most ten rows, the spenders report keeps every row: it is then a reordering of
      the whole projected table. */
  lemma SmallTablesKeepEveryRow(src: Table, descending: bool)
    requires src.Valid()
    requires TextFreeAmounts(src)
    requires forall c :: c in PhoneColumns ==> c in src.columns
    requires |src.rows| <= ReportSize
    ensures multiset(PhoneReport(src, descending).rows) == multiset(ProjectRows(src.rows, PhoneColumns))
  {
    var r := PhoneReport(src, descending);
    var all := ProjectRows(src.rows, PhoneColumns);
    assert |multiset(r.rows)| == |r.rows| == |all| == |multiset(all)|;
    SubMultisetOfSameSize(multiset(r.rows), multiset(all));
  }

  /** A flag already in lower case gives the same report as the flag it was folded from. */
  lemma FoldedOrderSameReport(t: Table, order: string, parse: string -> Option<int>)
    requires t.Valid()
    ensures FetchPatientPhone(t, order, parse).Success? <==> FetchPatientPhone(t, Lower(order), parse).Success?
    ensures FetchPatientPhone(t, order, parse).Success? ==>
      FetchPatientPhone(t, order, parse) == FetchPatientPhone(t, Lower(order), parse)
  {
    LowerIdempotent(order);
    OrderIsCaseInsensitive(t, order, Lower(order), parse);
  }
}
