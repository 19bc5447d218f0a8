/** `DataFrame.melt`: wide to long. Every row yields one output row per value
    column, holding the row's id cells, the value column's name and its cell;
    the output is grouped by value column, then by row, and labelled 0..n·m-1. */
module Reshape {
  import opened Wrappers
  import opened Frames
  import opened Ordering

  /** The melted row for value column `v` of row position `i`. */
  function MeltRow(t: Table<string>, ids: seq<string>, v: string, i: nat): (r: Row)
    requires WellFormed(t) && i < |t.rows| && v in t.columns && forall c :: c in ids ==> c in t.columns
    ensures |r| == |ids| + 2
  {
    Key(t, i, ids) + [Str(v), Cell(t, i, v)]
  }

  /** The melted rows of the value columns `vars`, one block of |rows| per column. */
  function MeltRows(t: Table<string>, ids: seq<string>, vars: seq<string>): (rs: seq<Row>)
    requires Sortable(t, ids) && forall c :: c in vars ==> c in t.columns
    ensures |rs| == |vars| * |t.rows|
    ensures forall q :: 0 <= q < |rs| ==> |rs[q]| == |ids| + 2
  {
    if |vars| == 0 then []
    else
      var n := |t.rows|;
      var rs := MeltRows(t, ids, vars[..|vars| - 1])
        + seq(n, i requires 0 <= i < n => MeltRow(t, ids, vars[|vars| - 1], i));
      assert |rs| == (|vars| - 1) * n + n == |vars| * n;
      rs
  }

  /** `df.melt(id_vars=ids, value_vars=vars, var_name=varName)`: KeyError for a
      column that is not there; the output columns must not clash. */
  function Melt(t: Table<string>, ids: seq<string>, vars: seq<string>, varName: string): (r: Result<Table<string>>)
    requires WellFormed(t)
    ensures r.Ok? <==> (forall c :: c in ids + vars ==> c in t.columns) && Distinct(ids + [varName, "value"])
    ensures r.Ok? ==> WellFormed(r.value) && r.value.columns == ids + [varName, "value"]
    ensures r.Ok? ==> |r.value.rows| == |vars| * |t.rows| && r.value.index == Range(|vars| * |t.rows|)
  {
    var absent := FirstAbsent(ids + vars, t.columns);
    if absent.Some? then Err(KeyError)
    else if !Distinct(ids + [varName, "value"]) then Err(DuplicateColumn)
    else
      assert forall c :: c in vars ==> c in ids + vars;
      Ok(Table(ids + [varName, "value"], Range(|vars| * |t.rows|), MeltRows(t, ids, vars)))
  }

  lemma {:induction false} MulLe(a: nat, b: nat, n: nat)
    requires a <= b
    ensures a * n <= b * n
  {
    if a < b {
      MulLe(a, b - 1, n);
      assert b * n == (b - 1) * n + n;
    }
  }

  lemma BlockOffset(j: nat, m: nat, n: nat, i: nat)
    requires j < m && i < n
    ensures j * n + i < m * n
    ensures j < m - 1 ==> j * n + i < (m - 1) * n
    ensures j == m - 1 ==> j * n + i - (m - 1) * n == i
  {
    assert (j + 1) * n == j * n + n;
    MulLe(j + 1, m, n);
    if j < m - 1 {
      MulLe(j + 1, m - 1, n);
    }
  }

  /** Row `j·n + i` of the melted rows belongs to value column `j` and row `i`. */
  lemma {:induction false} MeltRowsAt(t: Table<string>, ids: seq<string>, vars: seq<string>, j: nat, i: nat)
    requires Sortable(t, ids) && forall c :: c in vars ==> c in t.columns
    requires j < |vars| && i < |t.rows|
    ensures j * |t.rows| + i < |vars| * |t.rows|
    ensures MeltRows(t, ids, vars)[j * |t.rows| + i] == MeltRow(t, ids, vars[j], i)
  {
    var n, m := |t.rows|, |vars|;
    BlockOffset(j, m, n, i);
    if j < m - 1 {
      MeltRowsAt(t, ids, vars[..m - 1], j, i);
    }
  }

  lemma DivideBlock(n: nat, m: nat, q: nat)
    requires q < m * n
    ensures n > 0 && q / n < m && q == (q / n) * n + q % n
  {
    assert m * 0 == 0;
    if n > 0 {
      var j := q / n;
      assert j * n <= q;
      if m <= j {
        MulLe(m, j, n);
      }
    }
  }

  /** Every melted row comes from one value column and one source row: row
      `q = j·n + i` is row `i` seen through value column `j`. */
  lemma MeltRowOrigin(t: Table<string>, ids: seq<string>, vars: seq<string>, varName: string, q: nat)
      returns (j: nat, i: nat)
    requires WellFormed(t) && Melt(t, ids, vars, varName).Ok?
    requires q < |Melt(t, ids, vars, varName).value.rows|
    ensures j < |vars| && i < |t.rows| && q == j * |t.rows| + i
    ensures forall c :: c in ids + vars ==> c in t.columns
    ensures Melt(t, ids, vars, varName).value.rows[q] == MeltRow(t, ids, vars[j], i)
  {
    assert forall c :: c in vars ==> c in ids + vars;
    DivideBlock(|t.rows|, |vars|, q);
    j, i := q / |t.rows|, q % |t.rows|;
    MeltRowsAt(t, ids, vars, j, i);
  }

  /** What each melted row holds: the name of its value column under
      `varName`, and that column's cell under `value`. */
  lemma MeltAt(t: Table<string>, ids: seq<string>, vars: seq<string>, varName: string, j: nat, i: nat)
    requires WellFormed(t) && Melt(t, ids, vars, varName).Ok?
    requires j < |vars| && i < |t.rows|
    ensures var u := Melt(t, ids, vars, varName).value; var q := j * |t.rows| + i;
      && q < |u.rows|
      && Cell(u, q, varName) == Str(vars[j])
      && Cell(u, q, "value") == Cell(t, i, vars[j])
  {
    var u := Melt(t, ids, vars, varName).value;
    var q := j * |t.rows| + i;
    assert forall c :: c in vars ==> c in ids + vars;
    MeltRowsAt(t, ids, vars, j, i);
    assert u.rows[q] == Key(t, i, ids) + [Str(vars[j]), Cell(t, i, vars[j])];
    PositionOfDistinct(u.columns, |ids|);
    PositionOfDistinct(u.columns, |ids| + 1);
  }

  /** Melted row `j·n + i`, whole: the id cells of row `i`, the name of value
      column `j`, and row `i`'s cell in it. */
  lemma MeltRowAt(t: Table<string>, ids: seq<string>, vars: seq<string>, varName: string, j: nat, i: nat)
    requires WellFormed(t) && Melt(t, ids, vars, varName).Ok?
    requires j < |vars| && i < |t.rows|
    ensures vars[j] in t.columns && forall c :: c in ids ==> c in t.columns
    ensures var u := Melt(t, ids, vars, varName).value; var q := j * |t.rows| + i;
      && q < |u.rows|
      && u.rows[q] == Key(t, i, ids) + [Str(vars[j]), Cell(t, i, vars[j])]
  {
    assert forall c :: c in vars ==> c in ids + vars;
    MeltRowsAt(t, ids, vars, j, i);
  }

  /** Each melted row repeats the id cells of its source row. */
  lemma MeltIdAt(t: Table<string>, ids: seq<string>, vars: seq<string>, varName: string, j: nat, i: nat)
    requires WellFormed(t) && Melt(t, ids, vars, varName).Ok?
    requires j < |vars| && i < |t.rows|
    ensures var u := Melt(t, ids, vars, varName).value; var q := j * |t.rows| + i;
      && q < |u.rows|
      && forall c :: c in ids ==> Cell(u, q, c) == Cell(t, i, c)
  {
    var u := Melt(t, ids, vars, varName).value;
    var q := j * |t.rows| + i;
    assert forall c :: c in vars ==> c in ids + vars;
    MeltRowsAt(t, ids, vars, j, i);
    assert u.rows[q] == Key(t, i, ids) + [Str(vars[j]), Cell(t, i, vars[j])];
    forall c | c in ids
      ensures Cell(u, q, c) == Cell(t, i, c)
    {
      var k := Position(ids, c);
      PositionOfDistinct(u.columns, k);
    }
  }

  /** Re-pivoting: the `value` cells of value column `j`'s block, in row order. */
  function Unmelt(u: Table<string>, n: nat, j: nat): (col: seq<Value>)
    requires WellFormed(u) && "value" in u.columns && j * n + n <= |u.rows|
    ensures |col| == n
  {
    seq(n, i requires 0 <= i < n => Cell(u, j * n + i, "value"))
  }

  /** Melting and then re-pivoting gives every value column back, cell for cell. */
  lemma MeltRoundTrip(t: Table<string>, ids: seq<string>, vars: seq<string>, varName: string, j: nat)
    requires WellFormed(t) && Melt(t, ids, vars, varName).Ok? && j < |vars|
    ensures var u := Melt(t, ids, vars, varName).value;
      j * |t.rows| + |t.rows| <= |u.rows| && Unmelt(u, |t.rows|, j) == Column(t, vars[j])
  {
    var u := Melt(t, ids, vars, varName).value;
    var n := |t.rows|;
    assert (j + 1) * n == j * n + n;
    MulLe(j + 1, |vars|, n);
    forall i | 0 <= i < n
      ensures Unmelt(u, n, j)[i] == Column(t, vars[j])[i]
    {
      MeltAt(t, ids, vars, varName, j, i);
    }
  }
}
