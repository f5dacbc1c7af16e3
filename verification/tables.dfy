/** The in-memory table the dashboard works on: an ordered list of column names and a sequence
    of rows, each row addressing its cells by column name. */
module Tables {
  import opened Wrappers

  /** One cell. pandas stores numbers as floats and a missing value as NaN; here numbers are
      exact integers and NaN is `Missing`. */
  datatype Cell = Num(n: int) | Text(s: string) | Missing

  type Row = map<string, Cell>

  datatype Table = Table(columns: seq<string>, rows: seq<Row>) {

    function ColumnSet(): set<string> {
      set c | c in columns
    }

    /** The shape every data frame has: no column name twice, and every row holds a cell for
        exactly the table's columns. */
    predicate Valid() {
      && Distinct(columns)
      && (forall k :: 0 <= k < |rows| ==> rows[k].Keys == ColumnSet())
    }
  }

  predicate Distinct(xs: seq<string>) {
    forall i, j :: 0 <= i < j < |xs| ==> xs[i] != xs[j]
  }

  /** The numeric value of one cell as `pd.to_numeric(errors="coerce")` followed by `fillna(0)`
      sees it: numbers stay, text becomes the number `parse` reads from it, and anything else
      becomes 0. */
  function Coerce(c: Cell, parse: string -> Option<int>): int {
    match c
    case Num(n) => n
    case Text(s) => parse(s).GetOr(0)
    case Missing => 0
  }

  /** The cells of `row` under the names `cols`, like selecting `df[cols]` for one row. */
  function Project(row: Row, cols: seq<string>): Row {
    map c | c in cols && c in row :: row[c]
  }

  function ProjectRows(rows: seq<Row>, cols: seq<string>): (r: seq<Row>)
    ensures |r| == |rows|
  {
    seq(|rows|, i requires 0 <= i < |rows| => Project(rows[i], cols))
  }

  /** `df[name] = values`: an existing column is overwritten where it stands, a new one is
      appended as the last column, and every other cell is kept. */
  function SetColumn(t: Table, name: string, values: seq<Cell>): (r: Table)
    requires t.Valid()
    requires |values| == |t.rows|
    ensures r.Valid()
    ensures r.columns == if name in t.columns then t.columns else t.columns + [name]
    ensures |r.rows| == |t.rows|
    ensures forall k :: 0 <= k < |r.rows| ==> r.rows[k][name] == values[k]
    ensures forall k, c :: 0 <= k < |r.rows| && c in t.rows[k] && c != name ==>
      c in r.rows[k] && r.rows[k][c] == t.rows[k][c]
  {
    var columns := if name in t.columns then t.columns else t.columns + [name];
    var rows := seq(|t.rows|, k requires 0 <= k < |t.rows| => t.rows[k][name := values[k]]);
    var r := Table(columns, rows);
    assert r.ColumnSet() == t.ColumnSet() + {name};
    r
  }

  lemma ProjectRowsAppend(a: seq<Row>, b: seq<Row>, cols: seq<string>)
    ensures ProjectRows(a + b, cols) == ProjectRows(a, cols) + ProjectRows(b, cols)
  {
  }

  /** Taking the head of `a` out of `a`, and the same element out of `b` at `k`, leaves equal
      multisets when `a` and `b` had them. */
  lemma RemoveMatching<T>(a: seq<T>, b: seq<T>, k: nat)
    requires multiset(a) == multiset(b)
    requires |a| > 0 && k < |b| && b[k] == a[0]
    ensures multiset(a[1..]) == multiset(b[..k] + b[k + 1..])
  {
    assert a == [a[0]] + a[1..];
    assert b == b[..k] + [b[k]] + b[k + 1..];
    var rest := b[..k] + b[k + 1..];
    forall y ensures multiset(a[1..])[y] == multiset(rest)[y] {
      assert multiset(a)[y] == multiset(b)[y];
    }
  }

  /** Projecting two permutations of the same rows gives permutations of the same projected
      rows: reordering rows commutes with selecting columns. */
  lemma {:induction false} ProjectRowsPermutation(a: seq<Row>, b: seq<Row>, cols: seq<string>)
    requires multiset(a) == multiset(b)
    ensures multiset(ProjectRows(a, cols)) == multiset(ProjectRows(b, cols))
    decreases |a|
  {
    if |a| == 0 {
      assert |b| == |multiset(b)| == 0;
    } else {
      var x := a[0];
      assert x in multiset(b);
      var k :| 0 <= k < |b| && b[k] == x;
      var before, after := b[..k], b[k + 1..];
      assert b == before + [x] + after;
      assert a == [x] + a[1..];
      RemoveMatching(a, b, k);
      ProjectRowsPermutation(a[1..], before + after, cols);
      ProjectRowsAppend([x], a[1..], cols);
      ProjectRowsAppend(before, [x], cols);
      ProjectRowsAppend(before + [x], after, cols);
      ProjectRowsAppend(before, after, cols);
    }
  }
}
