/** The scenarios of the repository's test suite, worked through the model. Where a test
    expects something the code does not do, the lemma states what the code does. */
module Fixtures {
  import opened Wrappers
  import opened Tables
  import opened Sorting
  import opened Errors
  import opened Expense
  import opened Reports

  /** The expense columns of the test tables: `expense0` … `expense8`, with no underscore. */
  const FixtureExpenseColumns: seq<string> :=
    ["expense0", "expense1", "expense2", "expense3", "expense4", "expense5", "expense6", "expense7", "expense8"]

  /** The column layout of the test tables. */
  const FixtureColumns: seq<string> :=
    ["registrationno", "patientname", "phone", "department",
     "dummy0", "dummy1", "dummy2", "dummy3", "dummy4", "dummy5", "dummy6"]
    + FixtureExpenseColumns + ["cityname", "districtname", "statename"]

  /** Two strings that differ at a position inside the first are not in a prefix relation. */
  lemma DiffersAt(p: string, c: string, i: nat)
    requires i < |p| && i < |c| && p[i] != c[i]
    ensures !(p <= c)
  {
  }

  lemma NoFixtureColumnHasDefaultPrefix()
    ensures forall c :: c in FixtureColumns ==> !(DefaultPrefix <= c)
  {
    forall c | c in FixtureColumns ensures !(DefaultPrefix <= c) {
      if c in FixtureExpenseColumns {
        DiffersAt(DefaultPrefix, c, 7);
      } else {
        DiffersAt(DefaultPrefix, c, 0);
      }
    }
  }

  /** The test tables have no column starting with the default prefix `expense_`, so totalling
      them with the default selector fails, whatever their rows hold. */
  lemma FixtureHasNoDefaultExpenseColumns(rows: seq<Row>, parse: string -> Option<int>)
    requires Table(FixtureColumns, rows).Valid()
    ensures AddTotalExpenseColumn(Table(FixtureColumns, rows), None, Some(DefaultPrefix), parse)
         == Failure(NoExpenseColumns("expense_"))
  {
    NoFixtureColumnHasDefaultPrefix();
  }

  /** The invalid-order test's table has only `registrationno` and `added_amt`. */
  const InvalidOrderColumns: seq<string> := ["registrationno", "added_amt"]

  // The required columns absent from the invalid-order test's table, one suffix of the
  // sorted required list at a time.
  lemma MissingOfLastOne()
    ensures MissingFrom(["registrationno"], InvalidOrderColumns) == []
  {
    assert "registrationno" == InvalidOrderColumns[0];
  }

  lemma MissingOfLastTwo()
    ensures MissingFrom(["phone", "registrationno"], InvalidOrderColumns) == ["phone"]
  {
    assert "phone"[0] != "registrationno"[0] && "phone"[0] != "added_amt"[0];
    assert ["phone", "registrationno"][1..] == ["registrationno"];
    MissingOfLastOne();
  }

  lemma MissingOfLastThree()
    ensures MissingFrom(["patientname", "phone", "registrationno"], InvalidOrderColumns) == ["patientname", "phone"]
  {
    assert "patientname"[0] != "registrationno"[0] && "patientname"[0] != "added_amt"[0];
    assert ["patientname", "phone", "registrationno"][1..] == ["phone", "registrationno"];
    MissingOfLastTwo();
  }

  lemma InvalidOrderTableMissing()
    ensures MissingRequired(InvalidOrderColumns) == ["department", "patientname", "phone"]
  {
    var rest := MissingFrom(RequiredSorted[1..], InvalidOrderColumns);
    assert rest == ["patientname", "phone"] by {
      assert RequiredSorted[1..] == ["patientname", "phone", "registrationno"];
      MissingOfLastThree();
    }
    assert "department" !in InvalidOrderColumns by {
      assert "department"[0] != "registrationno"[0] && "department"[0] != "added_amt"[0];
    }
    assert MissingFrom(RequiredSorted, InvalidOrderColumns) == ["department"] + rest;
  }

  /** The invalid-order test's table lacks three required columns, so the report fails on
      those, listed in sorted order, before the order flag is looked at. */
  lemma InvalidOrderTableLacksRequiredColumns(parse: string -> Option<int>)
    ensures FetchPatientPhone(Table(InvalidOrderColumns, []), "median", parse)
         == Failure(MissingRequiredColumns(["department", "patientname", "phone"]))
  {
    InvalidOrderTableMissing();
  }

  /** One row per patient of the totalling example: a registration number and the nine
      expenses `first`, `first + 1`, …, `first + 8`. */
  function ExpenseRow(id: int, first: int): Row {
    map["registrationno" := Num(id),
        "expense0" := Num(first), "expense1" := Num(first + 1), "expense2" := Num(first + 2),
        "expense3" := Num(first + 3), "expense4" := Num(first + 4), "expense5" := Num(first + 5),
        "expense6" := Num(first + 6), "expense7" := Num(first + 7), "expense8" := Num(first + 8)]
  }

  /** Fields holding the consecutive numbers `first`, `first + 1`, … total `n * first` plus
      `0 + 1 + … + (n - 1)`, for `n` fields. */
  lemma {:induction false} ConsecutiveTotal(row: Row, fields: seq<string>, first: int, parse: string -> Option<int>)
    requires forall i :: 0 <= i < |fields| ==> CellAt(row, fields[i]) == Num(first + i)
    ensures 2 * RowTotal(row, fields, parse) == |fields| * (2 * first + |fields| - 1)
    decreases |fields|
  {
    if |fields| > 0 {
      var n := |fields|;
      assert forall i :: 0 <= i < n - 1 ==> fields[1..][i] == fields[i + 1];
      ConsecutiveTotal(row, fields[1..], first + 1, parse);
      assert 2 * RowTotal(row, fields[1..], parse) == (n - 1) * (2 * first + n);
      assert (n - 1) * (2 * first + n) == n * (2 * first + n - 1) - 2 * first;
    }
  }

  /** Nine consecutive expenses starting at `first` total `9 * first + 36`. */
  lemma ExpenseRowTotal(id: int, first: int, parse: string -> Option<int>)
    ensures RowTotal(ExpenseRow(id, first), FixtureExpenseColumns, parse) == 9 * first + 36
  {
    var row := ExpenseRow(id, first);
    forall i | 0 <= i < |FixtureExpenseColumns|
      ensures CellAt(row, FixtureExpenseColumns[i]) == Num(first + i)
    {
    }
    ConsecutiveTotal(row, FixtureExpenseColumns, first, parse);
  }

  /** The two-patient table of the totalling example. */
  const TwoPatients := Table(["registrationno"] + FixtureExpenseColumns, [ExpenseRow(1, 1), ExpenseRow(2, 2)])

  lemma FixtureExpenseColumnsDistinct()
    ensures Distinct(["registrationno"] + FixtureExpenseColumns)
  {
    var cols := ["registrationno"] + FixtureExpenseColumns;
    forall i, j | 0 <= i < j < |cols| ensures cols[i] != cols[j] {
      if i == 0 {
        assert cols[i][0] != cols[j][0];
      } else {
        assert cols[i][7] != cols[j][7];
      }
    }
  }

  lemma TwoPatientsValid()
    ensures TwoPatients.Valid()
  {
    FixtureExpenseColumnsDistinct();
    assert TwoPatients.ColumnSet() == ExpenseRow(1, 1).Keys == ExpenseRow(2, 2).Keys;
  }

  lemma NamedExpenseColumnsSelected()
    ensures SelectExpenseFields(TwoPatients.columns, Some(FixtureExpenseColumns), None) == Success(FixtureExpenseColumns)
  {
    assert forall c :: c in FixtureExpenseColumns ==> c in TwoPatients.columns;
  }

  /** Expenses 1..9 total 45 and expenses 2..10 total 54, when the nine columns are named.
      The totalling test itself uses the default selector and so fails with "no expense
      columns"; naming the nine columns gives the totals it means. */
  lemma TotalsOfTwoPatients(parse: string -> Option<int>)
    ensures TwoPatients.Valid()
    ensures var r := AddTotalExpenseColumn(TwoPatients, Some(FixtureExpenseColumns), None, parse);
      && r.Success?
      && r.value.rows[0][TotalColumn] == Num(45)
      && r.value.rows[1][TotalColumn] == Num(54)
  {
    TwoPatientsValid();
    ExpenseRowTotal(1, 1, parse);
    ExpenseRowTotal(2, 2, parse);
    NamedExpenseColumnsSelected();
  }

  /** A discharge row of the age-report test, with its expense total already in `added_amt`
      (the test computes it with the default prefix, which its columns do not match). */
  function DischargeRow(id: int, name: string, phone: string, place: string, total: int): Row {
    map["registrationno" := Num(id), "patientname" := Text(name), "phone" := Text(phone),
        "cityname" := Text("City" + place), "districtname" := Text("District" + place),
        "statename" := Text("State" + place), "added_amt" := Num(total)]
  }

  /** The discharge columns the age report reads, apart from `age`. */
  const DischargeColumns: seq<string> :=
    ["registrationno", "patientname", "phone", "cityname", "districtname", "statename", "added_amt"]

  const AgeTestDischarge := Table(DischargeColumns,
    [DischargeRow(1, "Alice", "555", "A", 45), DischargeRow(2, "Bob", "777", "B", 54),
     DischargeRow(3, "Carol", "888", "C", 63)])

  const AgeTestDetails := Table(["registrationno", "age"],
    [map["registrationno" := Num(1), "age" := Num(65)], map["registrationno" := Num(2), "age" := Num(72)]])

  lemma DischargeValid()
    ensures AgeTestDischarge.Valid()
  {
    assert AgeTestDischarge.ColumnSet() == DischargeRow(1, "Alice", "555", "A", 45).Keys;
  }
  lemma DetailsValid()
    ensures AgeTestDetails.Valid() && UniqueIds(AgeTestDetails.rows) && AgesNotText(AgeTestDetails.rows)
  {
  }
  /** Patients 1 and 2 have ages; patient 3 has none. */
  lemma AgeTestLookups()
    ensures LookupAge(AgeTestDetails.rows, Num(1)) == Num(65)
    ensures LookupAge(AgeTestDetails.rows, Num(2)) == Num(72)
    ensures LookupAge(AgeTestDetails.rows, Num(3)) == Missing
  {
    DetailsValid();
  }

  // The discharge rows after the age lookup.
  function AliceJoined(): Row { DischargeRow(1, "Alice", "555", "A", 45)["age" := Num(65)] }
  function BobJoined(): Row { DischargeRow(2, "Bob", "777", "B", 54)["age" := Num(72)] }
  function CarolJoined(): Row { DischargeRow(3, "Carol", "888", "C", 63)["age" := Missing] }

  const JoinedAges: seq<Cell> := [Num(65), Num(72), Missing]

  /** The discharge rows carry registration numbers 1, 2 and 3 in that order. */
  lemma DischargeIds()
    ensures |AgeTestDischarge.rows| == 3
    ensures forall k :: 0 <= k < 3 ==> CellAt(AgeTestDischarge.rows[k], IdColumn) == Num(k + 1)
  {
  }

  lemma JoinedAgesLookedUp()
    ensures UniqueIds(AgeTestDetails.rows)
    ensures seq(|AgeTestDischarge.rows|, k requires 0 <= k < |AgeTestDischarge.rows| =>
      LookupAge(AgeTestDetails.rows, CellAt(AgeTestDischarge.rows[k], IdColumn))) == JoinedAges
  {
    DetailsValid();
    AgeTestLookups();
    DischargeIds();
  }

  lemma JoinAddsAgeColumn()
    ensures AgeTestDischarge.Valid() && UniqueIds(AgeTestDetails.rows)
    ensures WithAge(AgeTestDischarge, AgeTestDetails) == SetColumn(AgeTestDischarge, AgeColumn, JoinedAges)
  {
    DischargeValid();
    DetailsValid();
    JoinedAgesLookedUp();
  }

  lemma JoinedRowsShape()
    ensures AgeTestDischarge.Valid()
    ensures SetColumn(AgeTestDischarge, AgeColumn, JoinedAges).rows == [AliceJoined(), BobJoined(), CarolJoined()]
  {
    DischargeValid();
  }

  lemma JoinedRows()
    ensures AgeTestDischarge.Valid() && UniqueIds(AgeTestDetails.rows)
    ensures WithAge(AgeTestDischarge, AgeTestDetails).rows == [AliceJoined(), BobJoined(), CarolJoined()]
  {
    JoinAddsAgeColumn();
    JoinedRowsShape();
  }

  /** Projecting a row onto exactly its own columns leaves it as it is. */
  lemma ProjectIdentity(row: Row, cols: seq<string>)
    requires row.Keys == set c | c in cols
    ensures Project(row, cols) == row
  {
  }

  lemma JoinedRowsProjected()
    ensures ProjectRows([AliceJoined(), BobJoined(), CarolJoined()], AgeColumns) == [AliceJoined(), BobJoined(), CarolJoined()]
  {
    ProjectIdentity(AliceJoined(), AgeColumns);
    ProjectIdentity(BobJoined(), AgeColumns);
    ProjectIdentity(CarolJoined(), AgeColumns);
  }

  /** Sorting three rows oldest first: a younger, an older, and one without an age come out
      older, younger, unmatched. */
  lemma SortThree(younger: Row, older: Row, unmatched: Row, m: int, n: int)
    requires AgeKey(younger) == Value(m) && AgeKey(older) == Value(n) && m < n
    requires AgeKey(unmatched) == Absent
    ensures Sort([younger, older, unmatched], AgeKey, true) == [older, younger, unmatched]
  {
    assert [younger, older, unmatched][1..] == [older, unmatched];
    assert [older, unmatched][1..] == [unmatched];
    assert Sort([unmatched], AgeKey, true) == [unmatched];
    assert Sort([older, unmatched], AgeKey, true) == [older, unmatched];
    assert Insert(younger, [unmatched], AgeKey, true) == [younger, unmatched];
  }

  /** Oldest first, the patient without an age last. */
  lemma JoinedRowsSorted()
    ensures Sort([AliceJoined(), BobJoined(), CarolJoined()], AgeKey, true) == [BobJoined(), AliceJoined(), CarolJoined()]
  {
    assert AgeKey(AliceJoined()) == Value(65);
    assert AgeKey(BobJoined()) == Value(72);
    assert AgeKey(CarolJoined()) == Absent;
    SortThree(AliceJoined(), BobJoined(), CarolJoined(), 65, 72);
  }

  lemma JoinedCells()
    ensures IdColumn in BobJoined() && BobJoined()[IdColumn] == Num(2)
    ensures IdColumn in AliceJoined() && AliceJoined()[IdColumn] == Num(1)
    ensures AgeColumn in CarolJoined() && CarolJoined()[AgeColumn] == Missing
  {
  }

  /** The age-report test's tables meet what the report needs of its inputs. */
  lemma AgeTestInputs()
    ensures AgeReportInputs(AgeTestDischarge, AgeTestDetails)
  {
    DischargeValid();
    DetailsValid();
    AgesNotTextSuffices(AgeTestDischarge, AgeTestDetails);
  }

  lemma AgeReportRows()
    ensures AgeReportInputs(AgeTestDischarge, AgeTestDetails)
    ensures FetchPatientByAge(AgeTestDischarge, AgeTestDetails).rows == [BobJoined(), AliceJoined(), CarolJoined()]
  {
    AgeTestInputs();
    JoinedRows();
    JoinedRowsProjected();
    JoinedRowsSorted();
  }

  /** The age-report test: patient 2 (72) comes before patient 1 (65), and patient 3, who
      has no age, is kept and comes last. */
  lemma AgeReportKeepsUnmatchedLast()
    ensures AgeReportInputs(AgeTestDischarge, AgeTestDetails)
    ensures var r := FetchPatientByAge(AgeTestDischarge, AgeTestDetails);
      && |r.rows| == 3
      && CellAt(r.rows[0], IdColumn) == Num(2)
      && CellAt(r.rows[1], IdColumn) == Num(1)
      && CellAt(r.rows[2], AgeColumn) == Missing
  {
    AgeReportRows();
    JoinedCells();
  }
}
